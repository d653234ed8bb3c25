/**
 * The billing-setup part of the purchasing plugin's settings page: it reads
 * and rewrites the scripting-define symbol strings that the engine keeps
 * per build-target group ("A;B;C"). The engine's symbol store is modelled
 * as a map from group to string (a group without an entry reads as "").
 */
module IAPSettings {
  import opened Sequences
  import Enums

  /** The engine's build-target groups the page touches. */
  datatype BuildTargetGroup = Unknown | Standalone | IOS | Android | WebGL | WSA | TvOS

  /** C#'s 32-bit int. */
  newtype int32 = x: int | -0x8000_0000 <= x < 0x8000_0000

  /** The group whose member name equals the platform's (Enum.Parse by name). */
  function GroupOf(t: Enums.BuildTargetIAP): BuildTargetGroup {
    match t
    case Standalone => Standalone
    case iOS => IOS
    case Android => Android
    case WebGL => WebGL
    case WSA => WSA
    case tvOS => TvOS
  }

  /** The purchasing define and its "off" entry. */
  const IAP_NAMES: seq<string> := ["", "SIS_IAP"]

  /** The groups the third-party define is written to, in this order. */
  const THIRD_PARTY_TARGETS: seq<BuildTargetGroup> := [Android, IOS, TvOS, Standalone, WebGL]

  /** The symbol string of group g. */
  function Get(symbols: map<BuildTargetGroup, string>, g: BuildTargetGroup): string {
    if g in symbols then symbols[g] else ""
  }

  /** String.Contains (ordinal): t occurs in s, tried at the front first. */
  predicate Contains(s: string, t: string)
    decreases |s|
  {
    if |t| > |s| then false else s[..|t|] == t || Contains(s[1..], t)
  }

  /** A string none of whose candidate positions holds t's first character does not contain t. */
  lemma {:induction false} FirstCharMissing(s: string, t: string)
    requires t != [] && forall k :: 0 <= k <= |s| - |t| ==> s[k] != t[0]
    ensures !Contains(s, t)
    decreases |s|
  {
    if |t| <= |s| {
      assert s[0] != t[0];
      FirstCharMissing(s[1..], t);
    }
  }

  // ---------------------------------------------------------------------
  // Splitting on ';' and joining back
  // ---------------------------------------------------------------------

  /** String.Join(";", parts). */
  function Join(parts: seq<string>): string {
    if |parts| == 0 then ""
    else if |parts| == 1 then parts[0]
    else parts[0] + ";" + Join(parts[1..])
  }

  /** No part contains the separator. */
  predicate NoSeparator(parts: seq<string>) {
    forall k :: 0 <= k < |parts| ==> ';' !in parts[k]
  }

  /** String.Split(';'): the pieces between separators; never empty ("" splits to [""]). */
  function Split(s: string): (parts: seq<string>)
    ensures |parts| >= 1 && NoSeparator(parts)
    decreases |s|
  {
    var i := IndexOf(s, ';');
    if i == |s| then [s] else [s[..i]] + Split(s[i + 1..])
  }

  /** Joining a first part onto a non-empty rest puts one separator between them. */
  lemma JoinCons(p: string, rest: seq<string>)
    requires |rest| >= 1
    ensures Join([p] + rest) == p + ";" + Join(rest)
  {
    assert ([p] + rest)[1..] == rest;
  }

  /** Joining the parts of a split gives the string back. */
  lemma {:induction false} JoinSplit(s: string)
    ensures Join(Split(s)) == s
    decreases |s|
  {
    var i := IndexOf(s, ';');
    if i < |s| {
      var rest := Split(s[i + 1..]);
      assert Split(s) == [s[..i]] + rest;
      JoinSplit(s[i + 1..]);
      JoinCons(s[..i], rest);
      assert s == s[..i] + [s[i]] + s[i + 1..];
    }
  }

  /** Split undoes Join on parts without the separator. */
  lemma {:induction false} SplitJoin(parts: seq<string>)
    requires |parts| >= 1 && NoSeparator(parts)
    ensures Split(Join(parts)) == parts
    decreases |parts|
  {
    var p := parts[0];
    if |parts| == 1 {
      assert IndexOf(p, ';') == |p|;
    } else {
      var s := Join(parts);
      assert s == p + ";" + Join(parts[1..]);
      assert IndexOf(s, ';') == |p| by {
        assert forall k :: 0 <= k < |p| ==> s[k] == p[k];
        IndexOfAt(s, ';', |p|);
      }
      assert s[..|p|] == p && s[|p| + 1..] == Join(parts[1..]);
      assert NoSeparator(parts[1..]) by {
        forall k | 0 <= k < |parts| - 1 ensures ';' !in parts[1..][k] {
          assert parts[1..][k] == parts[k + 1];
        }
      }
      SplitJoin(parts[1..]);
      assert parts == [p] + parts[1..];
    }
  }

  // ---------------------------------------------------------------------
  // List.Remove and the rewrite of one symbol string
  // ---------------------------------------------------------------------

  /** List.Remove: the first occurrence of x, if any, is taken out; the rest keep their order. */
  function RemoveFirst(xs: seq<string>, x: string): seq<string> {
    var i := IndexOf(xs, x);
    if i < |xs| then xs[..i] + xs[i + 1..] else xs
  }

  /** List.Remove takes out exactly one copy of x, or nothing when there is none. */
  lemma RemoveFirstCount(xs: seq<string>, x: string)
    ensures multiset(RemoveFirst(xs, x)) == multiset(xs) - multiset{x}
  {
    var i := IndexOf(xs, x);
    if i < |xs| {
      var a, b := xs[..i], xs[i + 1..];
      assert xs == a + [x] + b;
      assert multiset(xs) == multiset(a) + multiset{x} + multiset(b);
      assert RemoveFirst(xs, x) == a + b;
    } else {
      assert x !in xs;
      assert multiset(xs)[x] == 0;
    }
  }

  /** The non-empty entries of a description table (the empty one stands for "no define"). */
  function NonEmpty(olds: seq<string>): (r: seq<string>)
    ensures forall x :: x in r <==> x in olds && x != ""
  {
    if olds == [] then []
    else NonEmpty(olds[..|olds| - 1]) + (if olds[|olds| - 1] != "" then [olds[|olds| - 1]] else [])
  }

  /** The removal loop: each non-empty entry of olds, in order, is removed once from defs. */
  function RemoveAll(defs: seq<string>, olds: seq<string>): seq<string> {
    if olds == [] then defs
    else
      var d := RemoveAll(defs, olds[..|olds| - 1]);
      var x := olds[|olds| - 1];
      if x == "" then d else RemoveFirst(d, x)
  }

  /** The removal loop takes out one copy of each non-empty entry of olds, where there is one. */
  lemma {:induction false} RemoveAllCount(defs: seq<string>, olds: seq<string>)
    ensures multiset(RemoveAll(defs, olds)) == multiset(defs) - multiset(NonEmpty(olds))
    decreases |olds|
  {
    if olds != [] {
      var init := olds[..|olds| - 1];
      var x := olds[|olds| - 1];
      RemoveAllCount(defs, init);
      if x != "" {
        RemoveFirstCount(RemoveAll(defs, init), x);
        assert multiset(NonEmpty(olds)) == multiset(NonEmpty(init)) + multiset{x};
      }
    }
  }

  /** What SetScriptingDefine keeps of defs: the removals, then the chosen define if newDefine > 0. */
  function Rewritten(defs: seq<string>, olds: seq<string>, newDefine: int): seq<string>
    requires newDefine <= 0 || newDefine < |olds|
  {
    RemoveAll(defs, olds) + (if newDefine > 0 then [olds[newDefine]] else [])
  }

  /** The output loop's string: the entries in reverse order, each followed by ';'. */
  function Terminated(ds: seq<string>): string {
    if ds == [] then "" else ds[|ds| - 1] + ";" + Terminated(ds[..|ds| - 1])
  }

  function Reverse(ds: seq<string>): (r: seq<string>)
    ensures |r| == |ds| && forall k :: 0 <= k < |ds| ==> r[k] == ds[|ds| - 1 - k]
  {
    if ds == [] then [] else [ds[|ds| - 1]] + Reverse(ds[..|ds| - 1])
  }

  /** The output string is the reversed entries joined with ';' and one empty entry at the end. */
  lemma {:induction false} TerminatedJoin(ds: seq<string>)
    ensures Terminated(ds) == Join(Reverse(ds) + [""])
    decreases |ds|
  {
    if ds != [] {
      var init := ds[..|ds| - 1];
      TerminatedJoin(init);
      var q := Reverse(ds) + [""];
      assert q[1..] == Reverse(init) + [""];
    }
  }

  /** Splitting a rewritten string gives the entries back, reversed, plus an empty last entry. */
  lemma SplitTerminated(ds: seq<string>)
    requires NoSeparator(ds)
    ensures Split(Terminated(ds)) == Reverse(ds) + [""]
  {
    TerminatedJoin(ds);
    var r := Reverse(ds) + [""];
    assert NoSeparator(r) by {
      forall k | 0 <= k < |r| ensures ';' !in r[k] {
        if k < |ds| {
          assert r[k] == ds[|ds| - 1 - k];
        }
      }
    }
    SplitJoin(r);
  }

  lemma {:induction false} ReverseMultiset(ds: seq<string>)
    ensures multiset(Reverse(ds)) == multiset(ds)
    decreases |ds|
  {
    if ds != [] {
      ReverseMultiset(ds[..|ds| - 1]);
      assert ds == ds[..|ds| - 1] + [ds[|ds| - 1]];
    }
  }

  /** A table of defines without ';', no two alike, the first of them empty. */
  predicate DefineTable(olds: seq<string>) {
    |olds| > 0 && olds[0] == "" && NoSeparator(olds) &&
    (forall i :: 0 < i < |olds| ==> olds[i] != "") &&
    (forall i, j :: 0 <= i < j < |olds| ==> olds[i] != olds[j])
  }

  /** The IAP names and the descriptions of a plugin enum are define tables. */
  lemma DefineTables()
    ensures DefineTable(IAP_NAMES)
    ensures DefineTable(Enums.Descriptions(Enums.DesktopPlugin))
    ensures DefineTable(Enums.Descriptions(Enums.WebPlugin))
    ensures DefineTable(Enums.Descriptions(Enums.AndroidPlugin))
    ensures DefineTable(Enums.Descriptions(Enums.IOSPlugin))
    ensures DefineTable(Enums.Descriptions(Enums.ThirdPartyPlugin))
  {
    Enums.DesktopTable();
    TableOf(Enums.DesktopPlugin);
    Enums.WebTable();
    TableOf(Enums.WebPlugin);
    Enums.AndroidTable();
    TableOf(Enums.AndroidPlugin);
    Enums.IOSTable();
    TableOf(Enums.IOSPlugin);
    Enums.ThirdPartyTable();
    TableOf(Enums.ThirdPartyPlugin);
  }

  /** A plugin enum's descriptions form a define table. */
  lemma TableOf(table: seq<Enums.Member>)
    requires Enums.PluginTable(table)
    ensures DefineTable(Enums.Descriptions(table))
  {
  }

  /** A non-empty entry of a table without repeats occurs once in the table's non-empty part. */
  lemma {:induction false} NonEmptyCount(olds: seq<string>, x: string)
    requires forall i, j :: 0 <= i < j < |olds| ==> olds[i] != olds[j]
    ensures multiset(NonEmpty(olds))[x] == if x != "" && x in olds then 1 else 0
    decreases |olds|
  {
    if olds != [] {
      var init := olds[..|olds| - 1];
      NonEmptyCount(init, x);
      assert x in olds <==> x in init || x == olds[|olds| - 1];
      assert olds[|olds| - 1] !in init;
    }
  }

  /** The entries a rewrite keeps come from the old entries or the table, so none holds ';'. */
  lemma RewrittenClean(defs: seq<string>, olds: seq<string>, newDefine: int)
    requires NoSeparator(defs) && NoSeparator(olds) && newDefine < |olds|
    ensures NoSeparator(Rewritten(defs, olds, newDefine))
  {
    var rm := RemoveAll(defs, olds);
    var ds := Rewritten(defs, olds, newDefine);
    RemoveAllCount(defs, olds);
    forall k | 0 <= k < |ds| ensures ';' !in ds[k] {
      if k < |rm| {
        assert ds[k] in multiset(rm);
        assert ds[k] in defs;
      }
    }
  }

  /**
   * One rewrite with a define table: afterwards each of the table's defines
   * occurs only as the chosen one (once, when newDefine > 0), provided it
   * did not occur twice before; every other non-empty entry keeps its
   * number of occurrences, and one more empty entry appears.
   */
  lemma RewriteCounts(s: string, olds: seq<string>, newDefine: int, x: string)
    requires DefineTable(olds) && newDefine < |olds|
    requires x in olds ==> multiset(Split(s))[x] <= 1
    ensures var after := Split(Terminated(Rewritten(Split(s), olds, newDefine)));
      multiset(after)[x] ==
        if x == "" then multiset(Split(s))[x] + 1
        else if x in olds then (if newDefine > 0 && x == olds[newDefine] then 1 else 0)
        else multiset(Split(s))[x]
  {
    var defs := Split(s);
    var ds := Rewritten(defs, olds, newDefine);
    RewrittenClean(defs, olds, newDefine);
    SplitTerminated(ds);
    ReverseMultiset(ds);
    var after := Split(Terminated(ds));
    var rm := RemoveAll(defs, olds);
    var added: seq<string> := if newDefine > 0 then [olds[newDefine]] else [];
    NonEmptyCount(olds, x);
    RemoveAllCount(defs, olds);
    var c0, cn, cr := multiset(defs)[x], multiset(NonEmpty(olds))[x], multiset(rm)[x];
    assert cr == if c0 > cn then c0 - cn else 0;
    var ca := multiset(added)[x];
    assert ca == if newDefine > 0 && x == olds[newDefine] then 1 else 0;
    assert multiset(ds)[x] == cr + ca by {
      assert ds == rm + added;
    }
    assert multiset(after)[x] == multiset(ds)[x] + (if x == "" then 1 else 0) by {
      assert after == Reverse(ds) + [""];
    }
    assert newDefine > 0 ==> olds[newDefine] != "";
  }

  // ---------------------------------------------------------------------
  // Define detection and the platform mask
  // ---------------------------------------------------------------------

  /** The smallest i >= from whose define occurs in str, or 0. */
  function FirstDefine(str: string, defines: seq<string>, from: nat): (r: nat)
    requires from >= 1
    ensures r == 0 || from <= r < |defines|
    decreases |defines| - from
  {
    if from >= |defines| then 0
    else if Contains(str, defines[from]) then from
    else FirstDefine(str, defines, from + 1)
  }

  /** The search loop of FindScriptingDefineIndex: the first define from index 1 on that str contains, or 0. */
  method SearchDefines(str: string, defines: seq<string>) returns (r: int)
    ensures r == FirstDefine(str, defines, 1)
  {
    var i := 1;
    while i < |defines|
      invariant 1 <= i
      invariant FirstDefine(str, defines, i) == FirstDefine(str, defines, 1)
      decreases |defines| - i
    {
      if Contains(str, defines[i]) {
        return i;
      }
      i := i + 1;
    }
    return 0;
  }

  /** FirstDefine finds a define that occurs, and none before it (or none at all when it gives 0). */
  lemma {:induction false} FirstDefineLeast(str: string, defines: seq<string>, from: nat)
    requires from >= 1
    ensures var r := FirstDefine(str, defines, from);
      (r != 0 ==> Contains(str, defines[r])) &&
      (forall j :: from <= j < |defines| && (r == 0 || j < r) ==> !Contains(str, defines[j]))
    decreases |defines| - from
  {
    if from < |defines| && !Contains(str, defines[from]) {
      FirstDefineLeast(str, defines, from + 1);
    }
  }

  /** The define table of a group, the descriptions of its plugin enum. */
  function DefinesOf(group: BuildTargetGroup): seq<string>
    requires group != WSA && group != TvOS
  {
    match group
    case Standalone => Enums.Descriptions(Enums.DesktopPlugin)
    case WebGL => Enums.Descriptions(Enums.WebPlugin)
    case Android => Enums.Descriptions(Enums.AndroidPlugin)
    case IOS => Enums.Descriptions(Enums.IOSPlugin)
    case Unknown => Enums.Descriptions(Enums.ThirdPartyPlugin)
  }

  /** The store-plugin choices of the page, one enum value each. */
  datatype Plugins = Plugins(desktop: int, web: int, android: int, ios: int, thirdParty: int)

  /** Each choice is a member of its enum. */
  predicate ValidPlugins(p: Plugins) {
    0 <= p.desktop < |Enums.DesktopPlugin| && 0 <= p.web < |Enums.WebPlugin| &&
    0 <= p.android < |Enums.AndroidPlugin| && 0 <= p.ios < |Enums.IOSPlugin| &&
    0 <= p.thirdParty < |Enums.ThirdPartyPlugin|
  }

  /** The choices read back from the symbols: each group's table searched in its own symbols, the third-party table in the active group's. */
  function ReadBack(symbols: map<BuildTargetGroup, string>, active: BuildTargetGroup): Plugins {
    Plugins(FirstDefine(Get(symbols, Standalone), DefinesOf(Standalone), 1),
            FirstDefine(Get(symbols, WebGL), DefinesOf(WebGL), 1),
            FirstDefine(Get(symbols, Android), DefinesOf(Android), 1),
            FirstDefine(Get(symbols, IOS), DefinesOf(IOS), 1),
            FirstDefine(Get(symbols, active), DefinesOf(Unknown), 1))
  }

  /** Every choice read back is a member of its enum. */
  lemma ReadBackValid(symbols: map<BuildTargetGroup, string>, active: BuildTargetGroup)
    ensures ValidPlugins(ReadBack(symbols, active))
  {
  }

  /** Whether the purchasing define occurs in the symbols of platform t's group. */
  predicate HasIap(symbols: map<BuildTargetGroup, string>, t: Enums.BuildTargetIAP) {
    Contains(Get(symbols, GroupOf(t)), IAP_NAMES[1])
  }

  /** A platform's flag as 32 bits. */
  function FlagBits(t: Enums.BuildTargetIAP): (b: bv32)
    ensures b as int == Enums.Flag(t)
  {
    match t
    case Standalone => 1
    case iOS => 2
    case Android => 4
    case WebGL => 8
    case WSA => 16
    case tvOS => 32
  }

  /** `targetBits |= (int)t`. */
  function OrFlag(m: bv32, t: Enums.BuildTargetIAP): bv32 {
    m | FlagBits(t)
  }

  /** The flag of t OR-ed onto m when the condition holds. */
  function OrIf(m: bv32, cond: bool, t: Enums.BuildTargetIAP): bv32 {
    if cond then OrFlag(m, t) else m
  }

  /** The OR of the flags of the first n platforms whose symbols contain the purchasing define. */
  function Mask(symbols: map<BuildTargetGroup, string>, n: nat): bv32
    requires n <= |Enums.BuildTargets|
  {
    if n == 0 then 0
    else
      var t := Enums.BuildTargets[n - 1];
      OrIf(Mask(symbols, n - 1), HasIap(symbols, t), t)
  }

  /** Bit i of m: `(m & (1 << i)) != 0`. */
  predicate Bit(m: bv32, i: nat)
    requires i < 32
  {
    m & (1 << i) != 0
  }

  /** Six flags OR-ed together in list order: each bit is its flag, 0 is none and 63 is all. */
  lemma OrBits(b0: bool, b1: bool, b2: bool, b3: bool, b4: bool, b5: bool)
    ensures var m := OrIf(OrIf(OrIf(OrIf(OrIf(OrIf(0, b0, Enums.Standalone), b1, Enums.iOS), b2, Enums.Android),
                                   b3, Enums.WebGL), b4, Enums.WSA), b5, Enums.tvOS);
      m < 64 && (Bit(m, 0) == b0 && Bit(m, 1) == b1 && Bit(m, 2) == b2 && Bit(m, 3) == b3 && Bit(m, 4) == b4 && Bit(m, 5) == b5) &&
      (m == 0 <==> !b0 && !b1 && !b2 && !b3 && !b4 && !b5) &&
      (m == 63 <==> b0 && b1 && b2 && b3 && b4 && b5)
  {
  }

  /**
   * The mask GetScriptingDefines builds: bit i is set exactly when platform
   * i's symbols contain the purchasing define; 0 means none does, 63 all.
   */
  lemma MaskBits(symbols: map<BuildTargetGroup, string>)
    ensures var m := Mask(symbols, 6);
      m < 64 &&
      (forall i :: 0 <= i < 6 ==> (Bit(m, i) <==> HasIap(symbols, Enums.BuildTargets[i]))) &&
      (m == 0 <==> forall i :: 0 <= i < 6 ==> !HasIap(symbols, Enums.BuildTargets[i])) &&
      (m == 63 <==> forall i :: 0 <= i < 6 ==> HasIap(symbols, Enums.BuildTargets[i]))
  {
    MaskBelow64(symbols);
    MaskEachBit(symbols);
    MaskNoneOrAll(symbols);
  }

  /** Bit i of the mask is set exactly when platform i's symbols contain the purchasing define. */
  lemma MaskEachBit(symbols: map<BuildTargetGroup, string>)
    ensures forall i :: 0 <= i < 6 ==> (Bit(Mask(symbols, 6), i) <==> HasIap(symbols, Enums.BuildTargets[i]))
  {
    var ts := Enums.BuildTargets;
    MaskUnfold(symbols);
    OrBits(HasIap(symbols, Enums.Standalone), HasIap(symbols, Enums.iOS), HasIap(symbols, Enums.Android),
      HasIap(symbols, Enums.WebGL), HasIap(symbols, Enums.WSA), HasIap(symbols, Enums.tvOS));
    forall i | 0 <= i < 6 ensures Bit(Mask(symbols, 6), i) <==> HasIap(symbols, ts[i]) {
      if i == 0 {} else if i == 1 {} else if i == 2 {} else if i == 3 {} else if i == 4 {} else {}
    }
  }

  /** The mask is 0 exactly when no platform has the define, and 63 exactly when all six do. */
  lemma MaskNoneOrAll(symbols: map<BuildTargetGroup, string>)
    ensures Mask(symbols, 6) == 0 <==> forall i :: 0 <= i < 6 ==> !HasIap(symbols, Enums.BuildTargets[i])
    ensures Mask(symbols, 6) == 63 <==> forall i :: 0 <= i < 6 ==> HasIap(symbols, Enums.BuildTargets[i])
  {
    var ts := Enums.BuildTargets;
    var b0, b1, b2 := HasIap(symbols, Enums.Standalone), HasIap(symbols, Enums.iOS), HasIap(symbols, Enums.Android);
    var b3, b4, b5 := HasIap(symbols, Enums.WebGL), HasIap(symbols, Enums.WSA), HasIap(symbols, Enums.tvOS);
    MaskUnfold(symbols);
    OrBits(b0, b1, b2, b3, b4, b5);
    assert ts[0] == Enums.Standalone && ts[1] == Enums.iOS && ts[2] == Enums.Android;
    assert ts[3] == Enums.WebGL && ts[4] == Enums.WSA && ts[5] == Enums.tvOS;
  }

  /** The mask has no bit above the six platform flags. */
  lemma MaskBelow64(symbols: map<BuildTargetGroup, string>)
    ensures Mask(symbols, 6) < 64
  {
    MaskUnfold(symbols);
    OrBits(HasIap(symbols, Enums.Standalone), HasIap(symbols, Enums.iOS), HasIap(symbols, Enums.Android),
      HasIap(symbols, Enums.WebGL), HasIap(symbols, Enums.WSA), HasIap(symbols, Enums.tvOS));
  }

  /** The mask over all six platforms, written out. */
  lemma MaskUnfold(symbols: map<BuildTargetGroup, string>)
    ensures Mask(symbols, 6) ==
      OrIf(OrIf(OrIf(OrIf(OrIf(OrIf(0, HasIap(symbols, Enums.Standalone), Enums.Standalone), HasIap(symbols, Enums.iOS), Enums.iOS),
        HasIap(symbols, Enums.Android), Enums.Android), HasIap(symbols, Enums.WebGL), Enums.WebGL),
        HasIap(symbols, Enums.WSA), Enums.WSA), HasIap(symbols, Enums.tvOS), Enums.tvOS)
  {
    assert Mask(symbols, 1) == OrIf(0, HasIap(symbols, Enums.Standalone), Enums.Standalone);
    assert Mask(symbols, 2) == OrIf(Mask(symbols, 1), HasIap(symbols, Enums.iOS), Enums.iOS);
    assert Mask(symbols, 3) == OrIf(Mask(symbols, 2), HasIap(symbols, Enums.Android), Enums.Android);
    assert Mask(symbols, 4) == OrIf(Mask(symbols, 3), HasIap(symbols, Enums.WebGL), Enums.WebGL);
    assert Mask(symbols, 5) == OrIf(Mask(symbols, 4), HasIap(symbols, Enums.WSA), Enums.WSA);
  }

  /** The value GetScriptingDefines stores: no platform or all six read as -1 ("everything"). */
  function Stored(mask: bv32): int32
    requires mask < 64
  {
    if mask == 0 || mask == 63 then -1 else mask as int as int32
  }

  /** A mask other than 0 and 63 is stored as itself. */
  lemma StoredBits(m: bv32)
    requires 0 < m < 63
    ensures Bits(Stored(m)) == m
  {
  }

  /** The bits of a C# int in two's complement. */
  function Bits(x: int32): bv32 {
    (if x < 0 then x as int + 0x1_0000_0000 else x as int) as bv32
  }

  /** The platforms whose bit is set among the first n, in list order. */
  function SelectedUpTo(bits: bv32, n: nat): seq<Enums.BuildTargetIAP>
    requires n <= |Enums.BuildTargets|
  {
    if n == 0 then []
    else SelectedUpTo(bits, n - 1) + (if Bit(bits, n - 1) then [Enums.BuildTargets[n - 1]] else [])
  }

  /** The platforms among the first n whose symbols contain the define, in list order. */
  function IapTargets(symbols: map<BuildTargetGroup, string>, n: nat): seq<Enums.BuildTargetIAP>
    requires n <= |Enums.BuildTargets|
  {
    if n == 0 then []
    else IapTargets(symbols, n - 1) + (if HasIap(symbols, Enums.BuildTargets[n - 1]) then [Enums.BuildTargets[n - 1]] else [])
  }

  /** Selecting by bits that mirror the define's presence gives the platforms that have it. */
  lemma {:induction false} SelectedMirror(bits: bv32, symbols: map<BuildTargetGroup, string>, n: nat)
    requires n <= |Enums.BuildTargets|
    requires forall i :: 0 <= i < 6 ==> (Bit(bits, i) <==> HasIap(symbols, Enums.BuildTargets[i]))
    ensures SelectedUpTo(bits, n) == IapTargets(symbols, n)
    decreases n
  {
    if n > 0 {
      SelectedMirror(bits, symbols, n - 1);
    }
  }

  /** Bits with the six low ones set select every platform. */
  lemma {:induction false} SelectedAll(bits: bv32, n: nat)
    requires n <= |Enums.BuildTargets|
    requires forall i :: 0 <= i < 6 ==> Bit(bits, i)
    ensures SelectedUpTo(bits, n) == Enums.BuildTargets[..n]
    decreases n
  {
    if n > 0 {
      SelectedAll(bits, n - 1);
      assert Enums.BuildTargets[..n] == Enums.BuildTargets[..n - 1] + [Enums.BuildTargets[n - 1]];
    }
  }

  /** -1 has every bit set. */
  lemma MinusOneBits()
    ensures forall i :: 0 <= i < 6 ==> Bit(Bits(-1), i)
  {
    assert Bits(-1) == 0xFFFF_FFFF;
  }

  /**
   * Reading the mask and applying it back selects exactly the platforms
   * whose symbols contain the purchasing define, or all six when none or
   * all of them do.
   */
  lemma StoredMaskSelects(symbols: map<BuildTargetGroup, string>)
    ensures Mask(symbols, 6) < 64
    ensures var stored := Stored(Mask(symbols, 6));
      SelectedUpTo(Bits(stored), 6) ==
        if stored == -1 then Enums.BuildTargets else IapTargets(symbols, 6)
    ensures Stored(Mask(symbols, 6)) == -1 <==>
      (forall i :: 0 <= i < 6 ==> HasIap(symbols, Enums.BuildTargets[i])) ||
      (forall i :: 0 <= i < 6 ==> !HasIap(symbols, Enums.BuildTargets[i]))
  {
    var m := Mask(symbols, 6);
    MaskBits(symbols);
    if m == 0 || m == 63 {
      MinusOneBits();
      SelectedAll(Bits(-1), 6);
      assert Enums.BuildTargets[..6] == Enums.BuildTargets;
    } else {
      StoredBits(m);
      SelectedMirror(m, symbols, 6);
    }
  }

  /**
   * The third-party choice of the billing setup: a PlayFab-named desktop or
   * web plugin picks PlayFab, and any Xsolla plugin overrides that.
   */
  function AutoThirdParty(desktop: nat, web: nat, android: nat, ios: nat, current: int): (r: int)
    requires desktop < |Enums.DesktopPlugin| && web < |Enums.WebPlugin|
    ensures r == 2 || r == 1 || r == current
  {
    var t := if Contains(Enums.DesktopPlugin[desktop].name, "Playfab") || Contains(Enums.WebPlugin[web].name, "Playfab") then 1 else current;
    if desktop == 6 || web == 3 || android == 1 || ios == 1 then 2 else t
  }

  /** The PlayFab-named plugins are desktop 1 to 3 and web 1 and 2. */
  lemma PlayfabNames(desktop: nat, web: nat)
    requires desktop < |Enums.DesktopPlugin| && web < |Enums.WebPlugin|
    ensures Contains(Enums.DesktopPlugin[desktop].name, "Playfab") <==> 1 <= desktop <= 3
    ensures Contains(Enums.WebPlugin[web].name, "Playfab") <==> 1 <= web <= 2
  {
    DesktopPlayfab(desktop);
    WebPlayfab(web);
  }

  lemma DesktopPlayfab(desktop: nat)
    requires desktop < |Enums.DesktopPlugin|
    ensures Contains(Enums.DesktopPlugin[desktop].name, "Playfab") <==> 1 <= desktop <= 3
  {
    var name := Enums.DesktopPlugin[desktop].name;
    if 1 <= desktop <= 3 {
      assert name[..7] == "Playfab";
    } else {
      FirstCharMissing(name, "Playfab");
    }
  }

  lemma WebPlayfab(web: nat)
    requires web < |Enums.WebPlugin|
    ensures Contains(Enums.WebPlugin[web].name, "Playfab") <==> 1 <= web <= 2
  {
    var name := Enums.WebPlugin[web].name;
    if 1 <= web <= 2 {
      assert name[..7] == "Playfab";
    } else {
      FirstCharMissing(name, "Playfab");
    }
  }

  /** The third-party choice: Xsolla when any Xsolla plugin is chosen, else PlayFab for a PlayFab plugin, else unchanged. */
  lemma AutoThirdPartyChoice(desktop: nat, web: nat, android: nat, ios: nat, current: int)
    requires desktop < |Enums.DesktopPlugin| && web < |Enums.WebPlugin|
    ensures var r := AutoThirdParty(desktop, web, android, ios, current);
      if desktop == 6 || web == 3 || android == 1 || ios == 1 then r == 2
      else if 1 <= desktop <= 3 || 1 <= web <= 2 then r == 1
      else r == current
  {
    PlayfabNames(desktop, web);
  }

  // ---------------------------------------------------------------------
  // The settings page
  // ---------------------------------------------------------------------

  /** The removal loop of SetScriptingDefine. */
  method RemoveDefines(defs: seq<string>, oldDefines: seq<string>) returns (r: seq<string>)
    ensures r == RemoveAll(defs, oldDefines)
  {
    r := defs;
    for i := 0 to |oldDefines|
      invariant r == RemoveAll(defs, oldDefines[..i])
    {
      assert oldDefines[..i + 1][..i] == oldDefines[..i];
      if oldDefines[i] == "" {
        continue;
      }
      r := RemoveFirst(r, oldDefines[i]);
    }
    assert oldDefines[..|oldDefines|] == oldDefines;
  }

  /** The output loop of SetScriptingDefine: each entry is put in front, followed by ';'. */
  method JoinDefines(defs: seq<string>) returns (str: string)
    ensures str == Terminated(defs)
  {
    str := "";
    for i := 0 to |defs|
      invariant str == Terminated(defs[..i])
    {
      assert defs[..i + 1][..i] == defs[..i];
      str := defs[i] + ";" + str;
    }
    assert defs[..|defs|] == defs;
  }

  class SettingsProvider {
    /** The engine's scripting-define symbols per group. */
    var symbols: map<BuildTargetGroup, string>
    /** The group of the active build target. */
    var activeGroup: BuildTargetGroup
    var targetIAPGroup: int32
    var isIAPEnabled: bool
    var isPackageImported: bool
    var plugins: Plugins

    /** Every field but the symbol map is as before. */
    twostate predicate OnlySymbolsChanged()
      reads this
    {
      activeGroup == old(activeGroup) && targetIAPGroup == old(targetIAPGroup) && isIAPEnabled == old(isIAPEnabled) &&
      isPackageImported == old(isPackageImported) && plugins == old(plugins)
    }

    constructor (symbols: map<BuildTargetGroup, string>, activeGroup: BuildTargetGroup)
      ensures this.symbols == symbols && this.activeGroup == activeGroup
      ensures targetIAPGroup == 0 && !isIAPEnabled && !isPackageImported && plugins == Plugins(0, 0, 0, 0, 0)
    {
      this.symbols := symbols;
      this.activeGroup := activeGroup;
      targetIAPGroup := 0;
      isIAPEnabled := false;
      isPackageImported := false;
      plugins := Plugins(0, 0, 0, 0, 0);
    }

    /**
     * SetScriptingDefine: the group's symbols are split on ';', the
     * non-empty entries of oldDefines removed once each, oldDefines[newDefine]
     * appended when newDefine > 0, and the entries written back in reverse
     * order, each followed by ';'. An index past the table throws before
     * anything is written (`ok` is false).
     */
    method SetScriptingDefine(target: BuildTargetGroup, oldDefines: seq<string>, newDefine: int) returns (ok: bool)
      modifies this
      ensures ok <==> newDefine <= 0 || newDefine < |oldDefines|
      ensures ok ==> symbols == SetOne(old(symbols), target, oldDefines, newDefine)
      ensures !ok ==> symbols == old(symbols)
      ensures OnlySymbolsChanged()
    {
      var str := Get(symbols, target);
      var defs := Split(str);
      if |defs| == 0 && str != "" {
        defs := defs + [str];
      }
      defs := RemoveDefines(defs, oldDefines);
      if newDefine > 0 {
        if newDefine >= |oldDefines| {
          return false;
        }
        defs := defs + [oldDefines[newDefine]];
      } else {
        assert defs + [] == defs;
      }
      assert defs == Rewritten(Split(str), oldDefines, newDefine);
      str := JoinDefines(defs);
      symbols := symbols[target := str];
      ok := true;
    }

    /** FindScriptingDefineIndex: the first define of the group's table, from index 1 on, found in its symbols; 0 if none. */
    method FindScriptingDefineIndex(group: BuildTargetGroup) returns (r: int)
      requires group != WSA && group != TvOS
      ensures var str := Get(symbols, if group == Unknown then activeGroup else group);
        r == FirstDefine(str, DefinesOf(group), 1)
    {
      var str := Get(symbols, group);
      var defines: seq<string>;
      match group {
        case Standalone =>
          defines := Enums.GetEnumDescriptions(Enums.DesktopPlugin);
        case WebGL =>
          defines := Enums.GetEnumDescriptions(Enums.WebPlugin);
        case Android =>
          defines := Enums.GetEnumDescriptions(Enums.AndroidPlugin);
        case IOS =>
          defines := Enums.GetEnumDescriptions(Enums.IOSPlugin);
        case Unknown =>
          str := Get(symbols, activeGroup);
          defines := Enums.GetEnumDescriptions(Enums.ThirdPartyPlugin);
      }
      assert defines == DefinesOf(group);
      r := SearchDefines(str, defines);
    }

    /**
     * GetScriptingDefines: the mask of platforms whose symbols contain the
     * purchasing define (stored as -1 for none or all), purchasing switched
     * on when any does, and each plugin read back from its group's symbols.
     */
    method GetScriptingDefines()
      modifies this
      ensures symbols == old(symbols) && activeGroup == old(activeGroup) && !isPackageImported
      ensures Mask(symbols, 6) < 64 && targetIAPGroup == Stored(Mask(symbols, 6))
      ensures isIAPEnabled == (old(isIAPEnabled) || Mask(symbols, 6) != 0)
      ensures plugins == ReadBack(symbols, activeGroup) && ValidPlugins(plugins)
    {
      var targetBits := ReadMask();
      MaskBelow64(symbols);
      var enabled := isIAPEnabled;
      if targetBits > 0 {
        enabled := true;
      }
      var read := ReadPlugins();
      ReadBackValid(symbols, activeGroup);
      isIAPEnabled, targetIAPGroup, plugins, isPackageImported := enabled, Stored(targetBits), read, false;
    }

    /** The first loop of GetScriptingDefines: the OR of the flags of the platforms with the define. */
    method ReadMask() returns (targetBits: bv32)
      ensures targetBits == Mask(symbols, 6)
    {
      targetBits := 0;
      for i := 0 to |Enums.BuildTargets|
        invariant targetBits == Mask(symbols, i)
      {
        var t := Enums.BuildTargets[i];
        if Contains(Get(symbols, GroupOf(t)), IAP_NAMES[1]) {
          targetBits := OrFlag(targetBits, t);
        }
      }
    }

    /** The plugin part of GetScriptingDefines. */
    method ReadPlugins() returns (p: Plugins)
      ensures p == ReadBack(symbols, activeGroup)
    {
      var desktop := FindScriptingDefineIndex(Standalone);
      var web := FindScriptingDefineIndex(WebGL);
      var android := FindScriptingDefineIndex(Android);
      var ios := FindScriptingDefineIndex(IOS);
      var thirdParty := FindScriptingDefineIndex(Unknown);
      p := Plugins(desktop, web, android, ios, thirdParty);
    }

    /** The platforms ApplyScriptingDefines selects: element i when bit 1 << i of the mask is set. */
    method SelectTargets() returns (selected: seq<Enums.BuildTargetIAP>)
      ensures selected == SelectedUpTo(Bits(targetIAPGroup), |Enums.BuildTargets|)
    {
      selected := [];
      for i := 0 to |Enums.BuildTargets|
        invariant selected == SelectedUpTo(Bits(targetIAPGroup), i)
      {
        if Bit(Bits(targetIAPGroup), i) {
          selected := selected + [Enums.BuildTargets[i]];
        }
      }
    }

    /**
     * ApplyScriptingDefines: the purchasing define is set (or cleared) in
     * every selected platform's group, each plugin's define in its group,
     * and the third-party define in five groups.
     */
    method ApplyScriptingDefines()
      requires ValidPlugins(plugins)
      modifies this
      ensures OnlySymbolsChanged()
      ensures symbols == ApplyAll(old(symbols), SelectedUpTo(Bits(targetIAPGroup), 6), isIAPEnabled, plugins)
    {
      var selected := SelectTargets();
      SetEach(GroupsOf(selected), IAP_NAMES, if isIAPEnabled then 1 else 0);
      var ok := SetScriptingDefine(Standalone, Enums.Descriptions(Enums.DesktopPlugin), plugins.desktop);
      ok := SetScriptingDefine(WebGL, Enums.Descriptions(Enums.WebPlugin), plugins.web);
      ok := SetScriptingDefine(Android, Enums.Descriptions(Enums.AndroidPlugin), plugins.android);
      ok := SetScriptingDefine(IOS, Enums.Descriptions(Enums.IOSPlugin), plugins.ios);
      SetEach(THIRD_PARTY_TARGETS, Enums.Descriptions(Enums.ThirdPartyPlugin), plugins.thirdParty);
    }

    /**
     * The two loops of ApplyScriptingDefines: SetScriptingDefine with the
     * same defines and index on each group of gs, in order.
     */
    method SetEach(gs: seq<BuildTargetGroup>, olds: seq<string>, n: int)
      requires n <= 0 || n < |olds|
      modifies this
      ensures OnlySymbolsChanged()
      ensures symbols == SetAll(old(symbols), gs, olds, n)
    {
      for i := 0 to |gs|
        invariant OnlySymbolsChanged()
        invariant symbols == SetAll(old(symbols), gs[..i], olds, n)
      {
        assert gs[..i + 1][..i] == gs[..i];
        var _ := SetScriptingDefine(gs[i], olds, n);
      }
      assert gs[..|gs|] == gs;
    }
  }

  /** The symbol map after one SetScriptingDefine. */
  function SetOne(symbols: map<BuildTargetGroup, string>, g: BuildTargetGroup, olds: seq<string>, n: int): map<BuildTargetGroup, string>
    requires n <= 0 || n < |olds|
  {
    symbols[g := Terminated(Rewritten(Split(Get(symbols, g)), olds, n))]
  }

  /** The symbol map after SetScriptingDefine on each group of gs in turn. */
  function SetAll(symbols: map<BuildTargetGroup, string>, gs: seq<BuildTargetGroup>, olds: seq<string>, n: int): map<BuildTargetGroup, string>
    requires n <= 0 || n < |olds|
  {
    if gs == [] then symbols else SetOne(SetAll(symbols, gs[..|gs| - 1], olds, n), gs[|gs| - 1], olds, n)
  }

  function GroupsOf(ts: seq<Enums.BuildTargetIAP>): (r: seq<BuildTargetGroup>)
    ensures |r| == |ts| && forall k :: 0 <= k < |ts| ==> r[k] == GroupOf(ts[k])
  {
    if ts == [] then [] else GroupsOf(ts[..|ts| - 1]) + [GroupOf(ts[|ts| - 1])]
  }

  /** The whole of ApplyScriptingDefines on the symbol map. */
  function ApplyAll(symbols: map<BuildTargetGroup, string>, selected: seq<Enums.BuildTargetIAP>, enabled: bool, p: Plugins): map<BuildTargetGroup, string>
    requires ValidPlugins(p)
  {
    var s1 := SetAll(symbols, GroupsOf(selected), IAP_NAMES, if enabled then 1 else 0);
    var s2 := SetOne(s1, Standalone, Enums.Descriptions(Enums.DesktopPlugin), p.desktop);
    var s3 := SetOne(s2, WebGL, Enums.Descriptions(Enums.WebPlugin), p.web);
    var s4 := SetOne(s3, Android, Enums.Descriptions(Enums.AndroidPlugin), p.android);
    var s5 := SetOne(s4, IOS, Enums.Descriptions(Enums.IOSPlugin), p.ios);
    SetAll(s5, THIRD_PARTY_TARGETS, Enums.Descriptions(Enums.ThirdPartyPlugin), p.thirdParty)
  }
}
