/**
 * The enum tables of the purchasing plugin: the billing-platform flags and
 * the store-plugin enums whose Description attributes name the scripting
 * defines the settings editor writes. Reflection over attributes is
 * replaced by literal tables, one member per row, in declaration order.
 */
module Enums {
  import opened Wrappers

  /** One enum member: its name, its integer value and its Description attribute, if any. */
  datatype Member = Member(name: string, value: int, description: Option<string>)

  /** The billing platforms a purchase build can target, one flag bit each. */
  datatype BuildTargetIAP = Standalone | iOS | Android | WebGL | WSA | tvOS

  function Flag(t: BuildTargetIAP): int {
    match t
    case Standalone => 1
    case iOS => 2
    case Android => 4
    case WebGL => 8
    case WSA => 16
    case tvOS => 32
  }

  /** The member name of a platform, as its ToString() prints it. */
  function TargetName(t: BuildTargetIAP): string {
    match t
    case Standalone => "Standalone"
    case iOS => "iOS"
    case Android => "Android"
    case WebGL => "WebGL"
    case WSA => "WSA"
    case tvOS => "tvOS"
  }

  /** Enum.GetValues order of BuildTargetIAP (ascending value). */
  const BuildTargets: seq<BuildTargetIAP> := [Standalone, iOS, Android, WebGL, WSA, tvOS]

  function Pow2(n: nat): (r: nat)
    ensures r >= 1
  {
    if n == 0 then 1 else 2 * Pow2(n - 1)
  }

  /** The sum of the flags of the first n platforms. */
  function FlagSum(n: nat): int
    requires n <= |BuildTargets|
  {
    if n == 0 then 0 else FlagSum(n - 1) + Flag(BuildTargets[n - 1])
  }

  /** Element i of the platform list has the single bit 1 << i; the six together make 63. */
  lemma FlagsAreBits()
    ensures forall i :: 0 <= i < |BuildTargets| ==> Flag(BuildTargets[i]) == Pow2(i)
    ensures forall i, j :: 0 <= i < j < |BuildTargets| ==> BuildTargets[i] != BuildTargets[j]
    ensures FlagSum(|BuildTargets|) == 63
  {
    assert FlagSum(6) == FlagSum(5) + 32;
    assert FlagSum(4) == FlagSum(3) + 8;
  }

  /** DesktopPlugin. */
  const DesktopPlugin: seq<Member> := [
    Member("UnityIAP", 0, Some("")),
    Member("PlayfabPaypal", 1, Some("PLAYFAB_PAYPAL")),
    Member("PlayfabSteam", 2, Some("PLAYFAB_STEAM")),
    Member("PlayfabFacebook", 3, Some("PLAYFAB_FACEBOOK")),
    Member("OculusRift", 4, Some("OCULUS_IAP")),
    Member("Steam", 5, Some("STEAM_IAP")),
    Member("Xsolla", 6, Some("XSOLLA_IAP"))
  ]

  /** AndroidPlugin. */
  const AndroidPlugin: seq<Member> := [
    Member("UnityIAP", 0, Some("")),
    Member("Xsolla", 1, Some("XSOLLA_IAP"))
  ]

  /** IOSPlugin. */
  const IOSPlugin: seq<Member> := [
    Member("UnityIAP", 0, Some("")),
    Member("Xsolla", 1, Some("XSOLLA_IAP"))
  ]

  /** WebPlugin. */
  const WebPlugin: seq<Member> := [
    Member("UnityIAP", 0, Some("")),
    Member("PlayfabPaypal", 1, Some("PLAYFAB_PAYPAL")),
    Member("PlayfabFacebook", 2, Some("PLAYFAB_FACEBOOK")),
    Member("Xsolla", 3, Some("XSOLLA_IAP"))
  ]

  /** ThirdPartyPlugin. */
  const ThirdPartyPlugin: seq<Member> := [
    Member("None", 0, Some("")),
    Member("PlayFab", 1, Some("PLAYFAB")),
    Member("Xsolla", 2, Some("XSOLLA"))
  ]

  /** UIAssetPlugin: members without a Description attribute. */
  const UIAssetPlugin: seq<Member> := [
    Member("UnityUI", 0, None),
    Member("TextMeshPro", 1, None)
  ]

  /** GetEnumDescription: the Description text when the member has one, its name otherwise. */
  function Description(m: Member): string {
    match m.description
    case Some(d) => d
    case None => m.name
  }

  /**
   * GetEnumDescriptions: the description of every member, in Enum.GetValues
   * order; each table lists its members in that order (see Ascending).
   */
  method GetEnumDescriptions(table: seq<Member>) returns (r: seq<string>)
    ensures r == Descriptions(table)
  {
    r := [];
    for k := 0 to |table|
      invariant |r| == k
      invariant forall i :: 0 <= i < k ==> r[i] == Description(table[i])
    {
      r := r + [Description(table[k])];
    }
  }

  /** The pure description list, the reference for GetEnumDescriptions. */
  function Descriptions(table: seq<Member>): (r: seq<string>)
    ensures |r| == |table|
    ensures forall i :: 0 <= i < |table| ==> r[i] == Description(table[i])
  {
    if table == [] then [] else Descriptions(table[..|table| - 1]) + [Description(table[|table| - 1])]
  }

  /** Members are listed by strictly ascending value, the order Enum.GetValues returns. */
  predicate Ascending(table: seq<Member>) {
    forall i, j :: 0 <= i < j < |table| ==> table[i].value < table[j].value
  }

  /** The values run 0, 1, 2, ... so a member's position is its value. */
  predicate Contiguous(table: seq<Member>) {
    forall i :: 0 <= i < |table| ==> table[i].value == i
  }

  /** No two members share a description. */
  predicate DistinctDescriptions(table: seq<Member>) {
    forall i, j :: 0 <= i < j < |table| ==> Description(table[i]) != Description(table[j])
  }

  /** Every member after the first describes a define: non-empty and free of the ';' separator. */
  predicate DefinesClean(table: seq<Member>) {
    forall i :: 0 < i < |table| ==> Description(table[i]) != "" && ';' !in Description(table[i])
  }

  /** A store-plugin table: value 0 describes no define, the others a distinct one each. */
  predicate PluginTable(table: seq<Member>) {
    |table| > 0 && Contiguous(table) && Ascending(table) && DistinctDescriptions(table) &&
    Description(table[0]) == "" && DefinesClean(table)
  }

  /** Contiguous values are ascending. */
  lemma ContiguousAscending(table: seq<Member>)
    requires Contiguous(table)
    ensures Ascending(table)
  {
  }

  /** Two descriptions differ when their lengths or first letters do. */
  lemma DistinctByKey(table: seq<Member>)
    requires forall i, j :: 0 <= i < j < |table| ==>
      |Description(table[i])| != |Description(table[j])| ||
      (|Description(table[i])| > 0 && Description(table[i])[0] != Description(table[j])[0])
    ensures DistinctDescriptions(table)
  {
  }

  /** The store-plugin tables meet PluginTable. */
  lemma DesktopTable()
    ensures PluginTable(DesktopPlugin)
  {
    DesktopDistinct();
    DesktopClean();
  }

  lemma DesktopDistinct()
    ensures DistinctDescriptions(DesktopPlugin)
  {
    var d := Descriptions(DesktopPlugin);
    assert d == ["", "PLAYFAB_PAYPAL", "PLAYFAB_STEAM", "PLAYFAB_FACEBOOK", "OCULUS_IAP", "STEAM_IAP", "XSOLLA_IAP"];
    assert forall i :: 0 <= i < 7 ==> |d[i]| == [0, 14, 13, 16, 10, 9, 10][i];
    DistinctByKey(DesktopPlugin);
  }

  lemma DesktopClean()
    ensures DefinesClean(DesktopPlugin)
  {
  }

  lemma AndroidTable()
    ensures PluginTable(AndroidPlugin)
  {
  }

  lemma IOSTable()
    ensures PluginTable(IOSPlugin)
  {
  }

  lemma WebTable()
    ensures PluginTable(WebPlugin)
  {
    WebDistinct();
    WebClean();
  }

  lemma WebDistinct()
    ensures DistinctDescriptions(WebPlugin)
  {
    var d := Descriptions(WebPlugin);
    assert d == ["", "PLAYFAB_PAYPAL", "PLAYFAB_FACEBOOK", "XSOLLA_IAP"];
    assert forall i :: 0 <= i < 4 ==> |d[i]| == [0, 14, 16, 10][i];
    DistinctByKey(WebPlugin);
  }

  lemma WebClean()
    ensures DefinesClean(WebPlugin)
  {
  }

  lemma ThirdPartyTable()
    ensures PluginTable(ThirdPartyPlugin)
  {
    var d := Descriptions(ThirdPartyPlugin);
    assert d == ["", "PLAYFAB", "XSOLLA"];
    DistinctByKey(ThirdPartyPlugin);
  }

  /** Without Description attributes the descriptions are the member names. */
  lemma UIAssetNames()
    ensures Descriptions(UIAssetPlugin) == ["UnityUI", "TextMeshPro"]
    ensures Contiguous(UIAssetPlugin)
  {
  }
}
