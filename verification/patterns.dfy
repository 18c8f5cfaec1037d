/** The seven full-match validation patterns and the table that names them.
    Each `...Match` predicate follows the structure of its regular expression
    (concatenation, alternation, repetition); the lemmas beside it state the
    same language in plain terms. */
module Patterns {
  import opened Wrappers
  import opened Ascii

  /** The keys of the validation-rule table. */
  datatype Rule = Name | Age | PhoneNumber | Email | Address | DeleteChoice | Menu

  // ---------------------------------------------------------------------------
  // Name: ^[A-Za-z]+([ '-][A-Za-z]+)*$

  /** `[ '-]` */
  predicate IsNameSep(c: char) { c == ' ' || c == '\'' || c == '-' }

  /** `[A-Za-z]+` */
  predicate Word(s: string) { |s| > 0 && AllLetters(s) }

  /** `([ '-][A-Za-z]+)*` */
  predicate JoinedWords(s: string)
    decreases |s|
  {
    |s| == 0 ||
    (IsNameSep(s[0]) && exists j | 2 <= j <= |s| :: Word(s[1..j]) && JoinedWords(s[j..]))
  }

  predicate NameMatch(s: string) {
    exists i | 1 <= i <= |s| :: Word(s[..i]) && JoinedWords(s[i..])
  }

  /** Letter runs joined by single separators: non-empty, letters at both
      ends, only letters and separators in between, and every separator is
      followed by a letter (so no separator is doubled). */
  ghost predicate NameShape(s: string) {
    && |s| > 0
    && IsLetter(s[0])
    && IsLetter(s[|s| - 1])
    && (forall i | 0 <= i < |s| :: IsLetter(s[i]) || IsNameSep(s[i]))
    && (forall i | 0 <= i < |s| - 1 :: IsNameSep(s[i]) ==> IsLetter(s[i + 1]))
  }

  /** What `([ '-][A-Za-z]+)*` accepts, stated without the repetition. */
  ghost predicate TailShape(t: string) {
    |t| == 0 ||
    (&& |t| >= 2
     && IsNameSep(t[0])
     && IsLetter(t[|t| - 1])
     && (forall i | 0 <= i < |t| :: IsLetter(t[i]) || IsNameSep(t[i]))
     && (forall i | 0 <= i < |t| - 1 :: IsNameSep(t[i]) ==> IsLetter(t[i + 1])))
  }

  /** End of the letter run that starts at `k`. */
  function WordEnd(s: string, k: nat): (e: nat)
    requires k <= |s|
    ensures k <= e <= |s|
    ensures forall i | k <= i < e :: IsLetter(s[i])
    ensures e < |s| ==> !IsLetter(s[e])
    decreases |s| - k
  {
    if k < |s| && IsLetter(s[k]) then WordEnd(s, k + 1) else k
  }

  lemma {:induction false} JoinedWordsToShape(t: string)
    requires JoinedWords(t)
    ensures TailShape(t)
    decreases |t|
  {
    if |t| == 0 {
      return;
    }
    var j :| 2 <= j <= |t| && Word(t[1..j]) && JoinedWords(t[j..]);
    var u := t[j..];
    JoinedWordsToShape(u);
    SeparatedRun(t, j, u);
  }

  /** Gluing a separator and a letter run in front of a well-formed tail. */
  lemma SeparatedRun(t: string, j: nat, u: string)
    requires 2 <= j <= |t| && IsNameSep(t[0]) && Word(t[1..j])
    requires u == t[j..] && TailShape(u)
    ensures TailShape(t)
  {
  }

  lemma {:induction false} ShapeToJoinedWords(t: string)
    requires TailShape(t)
    ensures JoinedWords(t)
    decreases |t|
  {
    if |t| == 0 {
      return;
    }
    assert IsLetter(t[1]);
    var j := WordEnd(t, 1);
    var u := t[j..];
    assert Word(t[1..j]);
    if j < |t| {
      RestOfTail(t, j, u);
    }
    ShapeToJoinedWords(u);
  }

  /** What follows a letter run inside a well-formed tail is a well-formed tail. */
  lemma RestOfTail(t: string, j: nat, u: string)
    requires TailShape(t) && 2 <= j < |t| && !IsLetter(t[j]) && u == t[j..]
    ensures TailShape(u)
  {
  }

  /** A name is accepted exactly when it is letter runs joined by single
      spaces, apostrophes or hyphens. */
  lemma NameMatchShape(s: string)
    ensures NameMatch(s) <==> NameShape(s)
  {
    if NameMatch(s) {
      var i :| 1 <= i <= |s| && Word(s[..i]) && JoinedWords(s[i..]);
      JoinedWordsToShape(s[i..]);
      LeadingRun(s, i, s[i..]);
    }
    if NameShape(s) {
      ShapeToNameMatch(s);
    }
  }

  /** A letter run in front of a well-formed tail is a well-formed name. */
  lemma LeadingRun(s: string, i: nat, u: string)
    requires 1 <= i <= |s| && Word(s[..i]) && u == s[i..] && TailShape(u)
    ensures NameShape(s)
  {
  }

  lemma ShapeToNameMatch(s: string)
    requires NameShape(s)
    ensures NameMatch(s)
  {
    var i := WordEnd(s, 0);
    var u := s[i..];
    assert Word(s[..i]);
    if i < |s| {
      assert IsNameSep(s[i]);
      assert forall k | 0 <= k < |u| :: u[k] == s[k + i];
      assert TailShape(u);
    }
    ShapeToJoinedWords(u);
  }

  // ---------------------------------------------------------------------------
  // Age: ^[0-9]{1,3}$

  predicate AgeMatch(s: string) { 1 <= |s| <= 3 && AllDigits(s) }

  /** The number a string of decimal digits denotes. */
  function DigitsValue(s: string): (n: nat)
    requires AllDigits(s)
  {
    if |s| == 0 then 0
    else DigitsValue(s[..|s| - 1]) * 10 + (s[|s| - 1] as int - '0' as int)
  }

  /** `str(n)` for a natural number. */
  function Decimal(n: nat): (s: string)
    ensures |s| > 0 && AllDigits(s)
  {
    var d := ['0' + (n % 10) as char];
    if n < 10 then d else Decimal(n / 10) + d
  }

  lemma {:induction false} DigitsValueBound(s: string)
    requires AllDigits(s)
    ensures DigitsValue(s) < Pow10(|s|)
  {
    if |s| > 0 {
      DigitsValueBound(s[..|s| - 1]);
    }
  }

  function Pow10(k: nat): (p: nat)
    ensures p >= 1
  {
    if k == 0 then 1 else 10 * Pow10(k - 1)
  }

  lemma {:induction false} DecimalRoundTrip(n: nat)
    ensures DigitsValue(Decimal(n)) == n
  {
    var s := Decimal(n);
    if n >= 10 {
      DecimalRoundTrip(n / 10);
      assert s[..|s| - 1] == Decimal(n / 10);
    }
  }

  lemma {:induction false} DecimalLength(n: nat, k: nat)
    requires 1 <= k && n < Pow10(k)
    ensures |Decimal(n)| <= k
  {
    if n >= 10 {
      assert k >= 2;
      DecimalLength(n / 10, k - 1);
    }
  }

  /** The age rule performs no range check beyond the digit count: an
      accepted age denotes a number below 1000, and every number below 1000
      written in decimal is accepted. */
  lemma AgeRange(s: string, n: nat)
    ensures AgeMatch(s) ==> DigitsValue(s) < 1000
    ensures n < 1000 ==> AgeMatch(Decimal(n)) && DigitsValue(Decimal(n)) == n
  {
    if AgeMatch(s) {
      DigitsValueBound(s);
    }
    DecimalRoundTrip(n);
    if n < 1000 {
      DecimalLength(n, 3);
    }
  }

  // ---------------------------------------------------------------------------
  // Phone Number: ^(010|011|012|015)\d{8}$

  const CarrierCodes: set<string> := {"010", "011", "012", "015"}

  predicate PhoneMatch(s: string) {
    |s| == 11 && s[..3] in CarrierCodes && AllDigits(s[3..])
  }

  /** A phone number is exactly 11 digits starting with 010, 011, 012 or 015. */
  lemma PhoneMatchShape(s: string)
    ensures PhoneMatch(s) <==>
              && |s| == 11
              && AllDigits(s)
              && s[0] == '0' && s[1] == '1' && s[2] in {'0', '1', '2', '5'}
  {
    if |s| == 11 {
      assert s == s[..3] + s[3..];
      assert forall i | 3 <= i < 11 :: s[i] == s[3..][i - 3];
      if s[0] == '0' && s[1] == '1' && s[2] in {'0', '1', '2', '5'} {
        assert s[..3] == [s[0], s[1], s[2]];
      }
    }
  }

  // ---------------------------------------------------------------------------
  // Email: ^[\w.]+@[A-Za-z]+\.[A-Za-z]{2,}$

  /** `[\w.]` */
  predicate IsLocalChar(c: char) { IsWordChar(c) || c == '.' }

  predicate LocalPart(s: string) { |s| > 0 && forall i | 0 <= i < |s| :: IsLocalChar(s[i]) }

  predicate EmailMatch(s: string) {
    exists at, dot | 0 <= at < dot < |s| :: EmailAt(s, at, dot)
  }

  /** First index of `c` in `s`. */
  function IndexOf(s: string, c: char): (r: Option<nat>)
    ensures r.Some? ==> r.value < |s| && s[r.value] == c
    ensures r.Some? ==> forall i | 0 <= i < r.value :: s[i] != c
    ensures r.None? ==> forall i | 0 <= i < |s| :: s[i] != c
  {
    if |s| == 0 then None
    else if s[0] == c then Some(0)
    else match IndexOf(s[1..], c)
         case None => None
         case Some(i) => Some(i + 1)
  }

  /** An address split without backtracking: everything before the first `@`
      is the local part, and the part after it splits at its first `.`. */
  predicate EmailSplit(s: string) {
    match IndexOf(s, '@')
    case None => false
    case Some(at) =>
      var domain := s[at + 1..];
      match IndexOf(domain, '.')
      case None => false
      case Some(d) =>
        && LocalPart(s[..at])
        && Word(domain[..d])
        && |domain[d + 1..]| >= 2 && AllLetters(domain[d + 1..])
  }

  /** The email pattern with its two split points given. */
  predicate EmailAt(s: string, at: nat, dot: nat) {
    && at < dot < |s|
    && LocalPart(s[..at])
    && s[at] == '@'
    && Word(s[at + 1..dot])
    && s[dot] == '.'
    && |s[dot + 1..]| >= 2 && AllLetters(s[dot + 1..])
  }

  /** The email pattern has one way to match: the `@` is the first one in
      the address and the `.` is the first one after it, so a non-empty run
      of word characters and dots, one `@`, letters, one `.`, and at least
      two letters. */
  lemma EmailMatchSplit(s: string)
    ensures EmailMatch(s) <==> EmailSplit(s)
  {
    if EmailMatch(s) {
      var at, dot :| 0 <= at < dot < |s| && EmailAt(s, at, dot);
      EmailAtSplit(s, at, dot);
    }
    if EmailSplit(s) {
      var at := IndexOf(s, '@').value;
      var domain := s[at + 1..];
      var d := IndexOf(domain, '.').value;
      var dot := at + 1 + d;
      assert s[at + 1..dot] == domain[..d];
      assert s[dot + 1..] == domain[d + 1..];
      assert EmailAt(s, at, dot);
    }
  }

  lemma EmailAtSplit(s: string, at: nat, dot: nat)
    requires EmailAt(s, at, dot)
    ensures EmailSplit(s)
  {
    FirstAt(s, at);
    var domain := s[at + 1..];
    var d := dot - at - 1;
    assert domain[..d] == s[at + 1..dot];
    assert domain[d + 1..] == s[dot + 1..];
    FirstIndex(domain, '.', d);
  }

  /** The `@` after a local part is the first one. */
  lemma FirstAt(s: string, at: nat)
    requires at < |s| && LocalPart(s[..at]) && s[at] == '@'
    ensures IndexOf(s, '@') == Some(at)
  {
  }

  lemma FirstIndex(s: string, c: char, k: nat)
    requires k < |s| && s[k] == c
    requires forall i | 0 <= i < k :: s[i] != c
    ensures IndexOf(s, c) == Some(k)
  {
  }

  // ---------------------------------------------------------------------------
  // Address: ^[A-Za-z0-9\s,.-]+$

  /** `[A-Za-z0-9\s,.-]` */
  predicate IsAddressChar(c: char) {
    IsLetter(c) || IsDigit(c) || IsSpace(c) || c == ',' || c == '.' || c == '-'
  }

  predicate AddressMatch(s: string) {
    |s| > 0 && forall i | 0 <= i < |s| :: IsAddressChar(s[i])
  }

  /** The `+` of the address class: two addresses written one after the
      other make an address. */
  lemma AddressMatchJoin(a: string, b: string)
    requires AddressMatch(a) && AddressMatch(b)
    ensures AddressMatch(a + b)
  {
    forall i | 0 <= i < |a + b|
      ensures IsAddressChar((a + b)[i])
    {
      if i >= |a| {
        assert (a + b)[i] == b[i - |a|];
      }
    }
  }

  /** Every non-empty piece of an address is an address, so an address is a
      run of one-character addresses. */
  lemma AddressMatchPieces(s: string, i: nat, j: nat)
    requires AddressMatch(s) && i < j <= |s|
    ensures AddressMatch(s[i..j])
  {
    forall k | 0 <= k < j - i
      ensures IsAddressChar(s[i..j][k])
    {
      assert s[i..j][k] == s[i + k];
    }
  }

  // ---------------------------------------------------------------------------
  // Delete Choice: ^[12]$    Menu: ^[1-6]$

  predicate DeleteChoiceMatch(s: string) { |s| == 1 && (s[0] == '1' || s[0] == '2') }

  predicate MenuMatch(s: string) { |s| == 1 && '1' <= s[0] <= '6' }

  /** The delete-choice rule accepts exactly the two one-character answers. */
  lemma DeleteChoiceMatchShape(s: string)
    ensures DeleteChoiceMatch(s) <==> s in {"1", "2"}
  {
    if DeleteChoiceMatch(s) {
      assert s == [s[0]];
    }
  }

  /** The menu rule accepts exactly the six item numbers. */
  lemma MenuMatchShape(s: string)
    ensures MenuMatch(s) <==> s in {"1", "2", "3", "4", "5", "6"}
  {
    if MenuMatch(s) {
      assert s == [s[0]];
    }
  }

  // ---------------------------------------------------------------------------
  // The rule table

  /** `regex.fullmatch(text)` for the rule's pattern. */
  predicate Matches(rule: Rule, s: string) {
    match rule
    case Name => NameMatch(s)
    case Age => AgeMatch(s)
    case PhoneNumber => PhoneMatch(s)
    case Email => EmailMatch(s)
    case Address => AddressMatch(s)
    case DeleteChoice => DeleteChoiceMatch(s)
    case Menu => MenuMatch(s)
  }

  /** No rule accepts an empty line: a blank entry is always asked for
      again. */
  lemma MatchesNonEmpty(rule: Rule, s: string)
    requires Matches(rule, s)
    ensures |s| > 0
  {
  }

  /** The key each rule is stored under in the rule table. */
  function RuleKey(rule: Rule): string {
    match rule
    case Name => "Name"
    case Age => "Age"
    case PhoneNumber => "Phone Number"
    case Email => "Email"
    case Address => "Address"
    case DeleteChoice => "Delete Choice"
    case Menu => "Menu"
  }

  /** Looking a key up in the rule table; an unknown key (a KeyError in the
      program) gives None. */
  function RuleNamed(key: string): (r: Option<Rule>)
    ensures r.Some? ==> RuleKey(r.value) == key
    ensures r.None? ==> forall rule: Rule :: RuleKey(rule) != key
  {
    if key == "Name" then Some(Name)
    else if key == "Age" then Some(Age)
    else if key == "Phone Number" then Some(PhoneNumber)
    else if key == "Email" then Some(Email)
    else if key == "Address" then Some(Address)
    else if key == "Delete Choice" then Some(DeleteChoice)
    else if key == "Menu" then Some(Menu)
    else None
  }

  /** Every rule is found under its own key, so no two rules share a key. */
  lemma RuleKeyRoundTrip(rule: Rule)
    ensures RuleNamed(RuleKey(rule)) == Some(rule)
  {
  }
}
