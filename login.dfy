/**
 * The account screen of the purchasing plugin: the input check that runs
 * before a registration or an e-mail login, and the three button handlers
 * that use it. The e-mail pattern
 *   ^[a-zA-Z0-9-_.+]+[@][a-zA-Z0-9-_.]+[.][a-zA-Z]+$
 * is decided by a direct scan, and proved equal to its reading as
 * "local part, '@', domain, '.', top-level domain", where .NET's `$` also
 * matches just before a final line feed.
 */
module Login {
  import opened Wrappers
  import opened Sequences

  /** A request handed to the account backend (PlayFab or Xsolla, whichever is compiled in). */
  datatype Request = Register(email: string, password: string) | LoginEmail(email: string, password: string) | Forgot(email: string)

  const REQUIRED := "All fields are required."
  const SHORT_PASSWORD := "Password must be longer than 5 characters."
  const INVALID_EMAIL := "Invalid email."
  const ENTER_EMAIL := "Please enter your email and retry."

  predicate Letter(c: char) {
    ('a' <= c <= 'z') || ('A' <= c <= 'Z')
  }

  predicate Digit(c: char) {
    '0' <= c <= '9'
  }

  /** The class [a-zA-Z0-9-_.+]; the '-' after the digit range is a literal member. */
  predicate LocalChar(c: char) {
    Letter(c) || Digit(c) || c == '-' || c == '_' || c == '.' || c == '+'
  }

  /** The class [a-zA-Z0-9-_.]. */
  predicate DomainChar(c: char) {
    Letter(c) || Digit(c) || c == '-' || c == '_' || c == '.'
  }

  /** The split of s at '@' (index a) and '.' (index d) into three non-empty parts of the right classes. */
  predicate Parts(s: string, a: int, d: int) {
    0 < a && a + 1 < d && d + 1 < |s| && s[a] == '@' && s[d] == '.' &&
    (forall k :: 0 <= k < a ==> LocalChar(s[k])) &&
    (forall k :: a < k < d ==> DomainChar(s[k])) &&
    (forall k :: d < k < |s| ==> Letter(s[k]))
  }

  /** s is local + "@" + domain + "." + tld for some non-empty parts of the pattern's classes. */
  ghost predicate EmailShape(s: string) {
    exists a, d :: Parts(s, a, d)
  }

  /** The last index of c in s, or -1 when c does not occur. */
  function LastIndex(s: string, c: char): (r: int)
    ensures -1 <= r < |s| && forall k :: r < k < |s| ==> s[k] != c
    ensures r >= 0 ==> s[r] == c
  {
    if s == [] then -1
    else if s[|s| - 1] == c then |s| - 1
    else LastIndex(s[..|s| - 1], c)
  }

  /** The pattern on the whole of s: the '@' is the first one and the '.' the last one. */
  function MatchesAll(s: string): bool {
    Parts(s, IndexOf(s, '@'), LastIndex(s, '.'))
  }

  /** Regex.IsMatch for the pattern: `$` matches at the end or before a final '\n'. */
  function IsMatch(s: string): bool {
    MatchesAll(s) || (|s| > 0 && s[|s| - 1] == '\n' && MatchesAll(s[..|s| - 1]))
  }

  /** The scan accepts exactly the strings of the pattern's shape. */
  lemma MatchesAllShape(s: string)
    ensures MatchesAll(s) <==> EmailShape(s)
  {
    var a := IndexOf(s, '@');
    var d := LastIndex(s, '.');
    if EmailShape(s) {
      var a', d' :| Parts(s, a', d');
      assert a == a' && d == d';
    }
  }

  /** The parts of a matching split put the string back together. */
  lemma PartsJoin(s: string, a: int, d: int)
    requires Parts(s, a, d)
    ensures s == s[..a] + "@" + s[a + 1..d] + "." + s[d + 1..]
  {
  }

  predicate AllLocal(s: string) {
    forall k :: 0 <= k < |s| ==> LocalChar(s[k])
  }

  predicate AllDomain(s: string) {
    forall k :: 0 <= k < |s| ==> DomainChar(s[k])
  }

  predicate AllLetters(s: string) {
    forall k :: 0 <= k < |s| ==> Letter(s[k])
  }

  /** Any non-empty local part, domain and top-level domain of the classes make a matching address. */
  lemma JoinMatches(local: string, domain: string, tld: string)
    requires local != [] && domain != [] && tld != []
    requires AllLocal(local) && AllDomain(domain) && AllLetters(tld)
    ensures IsMatch(local + "@" + domain + "." + tld)
  {
    var s := local + "@" + domain + "." + tld;
    var a, d := |local|, |local| + 1 + |domain|;
    forall k | 0 <= k < a ensures LocalChar(s[k]) {
      assert s[k] == local[k];
    }
    forall k | a < k < d ensures DomainChar(s[k]) {
      assert s[k] == domain[k - a - 1];
    }
    forall k | d < k < |s| ensures Letter(s[k]) {
      assert s[k] == tld[k - d - 1];
    }
    assert Parts(s, a, d);
    MatchesAllShape(s);
  }

  /**
   * The length .NET reports for a string: its count of UTF-16 code units,
   * two for each character outside the Basic Multilingual Plane.
   */
  function Utf16Length(s: string): (n: nat)
    ensures |s| <= n <= 2 * |s|
    ensures n == |s| <==> forall k :: 0 <= k < |s| ==> s[k] as int <= 0xFFFF
  {
    if s == [] then 0
    else Utf16Length(s[..|s| - 1]) + (if s[|s| - 1] as int > 0xFFFF then 2 else 1)
  }

  /**
   * Validate: both fields filled, a password longer than 5 UTF-16 code units,
   * an address of the pattern; "" when all hold.
   */
  function Validate(email: string, password: string): (r: string)
    ensures r == "" || r == REQUIRED || r == SHORT_PASSWORD || r == INVALID_EMAIL
    ensures r == "" ==> email != [] && Utf16Length(password) > 5 && IsMatch(email)
  {
    if Utf16Length(email) == 0 || Utf16Length(password) == 0 then REQUIRED
    else if Utf16Length(password) <= 5 then SHORT_PASSWORD
    else if !IsMatch(email) then INVALID_EMAIL
    else ""
  }

  /**
   * Validate accepts exactly a password longer than 5 characters and an
   * address of the pattern's shape, possibly followed by one line feed; and
   * it reports the first failing check in the order fields, password, address.
   */
  lemma ValidateAccepts(email: string, password: string)
    ensures Validate(email, password) == "" <==>
      Utf16Length(password) > 5 && (EmailShape(email) || (|email| > 0 && email[|email| - 1] == '\n' && EmailShape(email[..|email| - 1])))
    ensures (email == [] || password == []) ==> Validate(email, password) == REQUIRED
    ensures email != [] && password != [] && Utf16Length(password) <= 5 ==> Validate(email, password) == SHORT_PASSWORD
    ensures email != [] && Utf16Length(password) > 5 && !IsMatch(email) ==> Validate(email, password) == INVALID_EMAIL
  {
    MatchesAllShape(email);
    if |email| > 0 {
      MatchesAllShape(email[..|email| - 1]);
    }
  }

  /** A matching address followed by a line feed still passes, as .NET's `$` allows. */
  lemma TrailingLineFeed()
    ensures Validate("a@b.cd\n", "secret") == ""
    ensures Validate("a@b.cd", "secret") == ""
    ensures Validate("a@b.cd\n\n", "secret") == INVALID_EMAIL
  {
    SampleAddress();
    TwoLineFeeds();
  }

  /** The address used by the examples matches, with or without one final line feed. */
  lemma SampleAddress()
    ensures IsMatch("a@b.cd") && IsMatch("a@b.cd\n")
  {
    JoinMatches("a", "b", "cd");
    assert "a" + "@" + "b" + "." + "cd" == "a@b.cd";
    assert "a@b.cd\n"[..6] == "a@b.cd";
  }

  /** With two final line feeds the top-level domain holds a '\n', so the pattern fails. */
  lemma TwoLineFeeds()
    ensures !IsMatch("a@b.cd\n\n")
  {
    var s := "a@b.cd\n\n";
    assert !Letter(s[7]) && s[7] != '.';
    assert s[..7] == "a@b.cd\n";
    assert !Letter(s[..7][6]) && s[..7][6] != '.';
  }

  /**
   * The password length is counted in UTF-16 code units: three emoji make a
   * password of length 6, which passes, while five letters do not.
   */
  lemma PasswordCodeUnits()
    ensures Validate("a@b.cd", "\U{1F600}\U{1F600}\U{1F600}") == ""
    ensures Validate("a@b.cd", "short") == SHORT_PASSWORD
  {
    SampleAddress();
    ThreeEmojis();
    FiveLetters();
  }

  /** Five letters are five UTF-16 code units. */
  lemma FiveLetters()
    ensures Utf16Length("short") == 5
  {
    var p := "short";
    assert p[..4] == "shor";
  }

  /** Three characters outside the Basic Multilingual Plane are six UTF-16 code units. */
  lemma ThreeEmojis()
    ensures Utf16Length("\U{1F600}\U{1F600}\U{1F600}") == 6
  {
    var p := "\U{1F600}\U{1F600}\U{1F600}";
    assert p[..2][..1] == p[..1];
  }

  /** The account screen: its two input fields, error label, loading screen, stored address and requests. */
  class UILogin {
    var email: string
    var password: string
    var errorText: string
    var loading: bool
    /** The PlayerPrefs entry "AccountEmail". */
    var savedEmail: Option<string>
    /** The backend requests issued so far. */
    var requests: seq<Request>

    constructor (savedEmail: Option<string>)
      ensures this.savedEmail == savedEmail && email == "" && password == "" && errorText == "" && !loading && requests == []
    {
      this.savedEmail := savedEmail;
      email, password, errorText, loading, requests := "", "", "", false, [];
    }

    /** Start: the last stored address, if any, fills the e-mail field. */
    method Start()
      modifies this
      ensures email == (if old(savedEmail).Some? then old(savedEmail).value else old(email))
      ensures password == old(password) && errorText == old(errorText) && loading == old(loading)
      ensures savedEmail == old(savedEmail) && requests == old(requests)
    {
      if savedEmail.Some? {
        email := savedEmail.value;
      }
    }

    /** RegisterAccount: an input error is shown and nothing else happens; otherwise the request goes out. */
    method RegisterAccount()
      modifies this
      ensures email == old(email) && password == old(password)
      ensures Validate(email, password) != "" ==>
        errorText == Validate(email, password) && loading == old(loading) && savedEmail == old(savedEmail) && requests == old(requests)
      ensures Validate(email, password) == "" ==>
        errorText == old(errorText) && loading && savedEmail == Some(email) && requests == old(requests) + [Register(email, password)]
    {
      var inputError := Validate(email, password);
      if inputError != "" {
        errorText := inputError;
        return;
      }
      loading := true;
      savedEmail := Some(email);
      requests := requests + [Register(email, password)];
    }

    /** LoginWithEmail: as RegisterAccount, with a login request. */
    method LoginWithEmail()
      modifies this
      ensures email == old(email) && password == old(password)
      ensures Validate(email, password) != "" ==>
        errorText == Validate(email, password) && loading == old(loading) && savedEmail == old(savedEmail) && requests == old(requests)
      ensures Validate(email, password) == "" ==>
        errorText == old(errorText) && loading && savedEmail == Some(email) && requests == old(requests) + [LoginEmail(email, password)]
    {
      var inputError := Validate(email, password);
      if inputError != "" {
        errorText := inputError;
        return;
      }
      loading := true;
      savedEmail := Some(email);
      requests := requests + [LoginEmail(email, password)];
    }

    /** ForgotPassword: only a non-empty address is required. */
    method ForgotPassword()
      modifies this
      ensures email == old(email) && password == old(password) && loading == old(loading) && savedEmail == old(savedEmail)
      ensures email == [] ==> errorText == ENTER_EMAIL && requests == old(requests)
      ensures email != [] ==> errorText == "" && requests == old(requests) + [Forgot(email)]
    {
      errorText := "";
      if |email| == 0 {
        errorText := ENTER_EMAIL;
        return;
      }
      requests := requests + [Forgot(email)];
    }

    /** OnLoginFail: the loading screen is hidden and the backend's message shown. */
    method OnLoginFail(error: string)
      modifies this
      ensures !loading && errorText == error
      ensures email == old(email) && password == old(password) && savedEmail == old(savedEmail) && requests == old(requests)
    {
      loading := false;
      errorText := error;
    }
  }
}
