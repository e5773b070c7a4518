/** The two patterns the user service checks strings against, written as recognisers over
    sequences of characters. Each has a reference definition that follows the structure of
    the pattern (the language it denotes under Java's `matches`, which must consume the whole
    input) and an executable recogniser; the lemmas prove the two agree on every input. */
module Patterns {

  predicate IsAsciiLower(c: char) { 'a' <= c <= 'z' }
  predicate IsAsciiUpper(c: char) { 'A' <= c <= 'Z' }
  predicate IsAsciiDigit(c: char) { '0' <= c <= '9' }
  predicate IsAsciiLetter(c: char) { IsAsciiLower(c) || IsAsciiUpper(c) }

  /** The characters Java's `.` does not match when DOTALL is off. */
  predicate IsLineTerminator(c: char) {
    c == '\n' || c == '\r' || c == '\U{85}' || c == '\U{2028}' || c == '\U{2029}'
  }

  // ---------------------------------------------------------------------------
  // Password: ^(?=.*[a-z])(?=.*[A-Z])(?=.*\d).{8,}$

  /** `(?=.*[cls])` at the start of s: some character of the class is reachable
      over characters that are not line terminators. */
  ghost predicate LookaheadFinds(s: string, cls: char -> bool) {
    exists i :: 0 <= i < |s| && cls(s[i]) && forall j :: 0 <= j < i ==> !IsLineTerminator(s[j])
  }

  /** The language of the password pattern. */
  ghost predicate PasswordPattern(s: string) {
    && LookaheadFinds(s, IsAsciiLower)
    && LookaheadFinds(s, IsAsciiUpper)
    && LookaheadFinds(s, IsAsciiDigit)
    && |s| >= 8
    && forall i :: 0 <= i < |s| ==> !IsLineTerminator(s[i])
  }

  /** One left-to-right pass over s[i..], remembering which classes have been seen. */
  function PasswordScan(s: string, i: nat, lower: bool, upper: bool, digit: bool): bool
    requires i <= |s|
    decreases |s| - i
  {
    if i == |s| then lower && upper && digit
    else if IsLineTerminator(s[i]) then false
    else PasswordScan(s, i + 1, lower || IsAsciiLower(s[i]), upper || IsAsciiUpper(s[i]), digit || IsAsciiDigit(s[i]))
  }

  /** UserServiceImpl.isValidPassword: one pass over the string, remembering which of the
      three classes it has seen. It accepts exactly the strings of eight or more
      characters, without a line terminator, holding an ASCII lower-case letter, an ASCII
      upper-case letter and an ASCII digit. */
  function IsValidPassword(s: string): (ok: bool)
    ensures ok <==>
      && |s| >= 8
      && (forall i :: 0 <= i < |s| ==> !IsLineTerminator(s[i]))
      && Occurs(s, 0, IsAsciiLower) && Occurs(s, 0, IsAsciiUpper) && Occurs(s, 0, IsAsciiDigit)
  {
    PasswordScanMeaning(s, 0, false, false, false);
    |s| >= 8 && PasswordScan(s, 0, false, false, false)
  }

  ghost predicate Occurs(s: string, from: nat, cls: char -> bool) {
    exists k :: from <= k < |s| && cls(s[k])
  }

  lemma {:induction false} PasswordScanMeaning(s: string, i: nat, lower: bool, upper: bool, digit: bool)
    requires i <= |s|
    decreases |s| - i
    ensures PasswordScan(s, i, lower, upper, digit) <==>
      && (forall k :: i <= k < |s| ==> !IsLineTerminator(s[k]))
      && (lower || Occurs(s, i, IsAsciiLower))
      && (upper || Occurs(s, i, IsAsciiUpper))
      && (digit || Occurs(s, i, IsAsciiDigit))
  {
    if i < |s| && !IsLineTerminator(s[i]) {
      PasswordScanMeaning(s, i + 1, lower || IsAsciiLower(s[i]), upper || IsAsciiUpper(s[i]), digit || IsAsciiDigit(s[i]));
      assert Occurs(s, i, IsAsciiLower) <==> IsAsciiLower(s[i]) || Occurs(s, i + 1, IsAsciiLower);
      assert Occurs(s, i, IsAsciiUpper) <==> IsAsciiUpper(s[i]) || Occurs(s, i + 1, IsAsciiUpper);
      assert Occurs(s, i, IsAsciiDigit) <==> IsAsciiDigit(s[i]) || Occurs(s, i + 1, IsAsciiDigit);
    }
  }

  /** The recogniser accepts exactly the language of the password pattern: at least
      eight characters, no line terminator, and an ASCII lower-case letter, an ASCII
      upper-case letter and an ASCII digit. */
  lemma PasswordRecogniserCorrect(s: string)
    ensures IsValidPassword(s) <==> PasswordPattern(s)
  {
    if PasswordPattern(s) {
      var i :| 0 <= i < |s| && IsAsciiLower(s[i]);
      var j :| 0 <= j < |s| && IsAsciiUpper(s[j]);
      var k :| 0 <= k < |s| && IsAsciiDigit(s[k]);
      assert Occurs(s, 0, IsAsciiLower) && Occurs(s, 0, IsAsciiUpper) && Occurs(s, 0, IsAsciiDigit);
    }
    if IsValidPassword(s) {
      var i :| 0 <= i < |s| && IsAsciiLower(s[i]);
      var j :| 0 <= j < |s| && IsAsciiUpper(s[j]);
      var k :| 0 <= k < |s| && IsAsciiDigit(s[k]);
      assert LookaheadFinds(s, IsAsciiLower) && LookaheadFinds(s, IsAsciiUpper) && LookaheadFinds(s, IsAsciiDigit);
    }
  }

  /** The length boundary: a string without line terminators that holds one character of
      each class passes exactly when it has eight or more characters, so seven are too
      few. */
  lemma PasswordLengthBoundary(s: string)
    requires forall i :: 0 <= i < |s| ==> !IsLineTerminator(s[i])
    requires Occurs(s, 0, IsAsciiLower) && Occurs(s, 0, IsAsciiUpper) && Occurs(s, 0, IsAsciiDigit)
    ensures IsValidPassword(s) <==> |s| >= 8
    ensures |s| == 7 ==> !IsValidPassword(s)
  {
  }

  // ---------------------------------------------------------------------------
  // Email: ^[a-zA-Z0-9_+&*-]+(?:\.[a-zA-Z0-9_+&*-]+)*@(?:[a-zA-Z-]+\.)+[a-zA-Z]{2,7}$

  /** The class [a-zA-Z0-9_+&*-] of the local part. */
  predicate IsLocalChar(c: char) {
    IsAsciiLetter(c) || IsAsciiDigit(c) || c == '_' || c == '+' || c == '&' || c == '*' || c == '-'
  }

  /** The class [a-zA-Z-] of a domain label. */
  predicate IsLabelChar(c: char) {
    IsAsciiLetter(c) || c == '-'
  }

  /** `[cls]+` */
  ghost predicate Plus(t: string, cls: char -> bool) {
    |t| > 0 && forall i :: 0 <= i < |t| ==> cls(t[i])
  }

  /** `[cls]+(?:\.[cls]+)*`: one run, then any number of dot-prefixed runs. */
  ghost predicate Runs(t: string, cls: char -> bool)
    decreases |t|
  {
    || Plus(t, cls)
    || exists k :: 0 < k < |t| && t[k] == '.' && Plus(t[..k], cls) && Runs(t[k + 1..], cls)
  }

  /** `(?:[a-zA-Z-]+\.)+`: one or more labels, each followed by a dot. */
  ghost predicate Labels(p: string)
    decreases |p|
  {
    exists k :: 0 < k < |p| && p[k] == '.' && Plus(p[..k], IsLabelChar) && (k + 1 == |p| || Labels(p[k + 1..]))
  }

  /** `[a-zA-Z]{2,7}` */
  predicate IsTld(t: string) {
    2 <= |t| <= 7 && forall i :: 0 <= i < |t| ==> IsAsciiLetter(t[i])
  }

  /** The language of the email pattern: local part, '@', labels each ending in a dot, top-level domain. */
  ghost predicate EmailPattern(s: string) {
    exists at :: 0 <= at < |s| && s[at] == '@' && Runs(s[..at], IsLocalChar) && DomainPattern(s[at + 1..])
  }

  ghost predicate DomainPattern(d: string) {
    exists tld :: 0 <= tld <= |d| && Labels(d[..tld]) && IsTld(d[tld..])
  }

  /** Non-empty runs of class characters separated by single dots: no dot first, last, or twice in a row. */
  predicate DotSeparated(t: string, cls: char -> bool) {
    && |t| > 0 && t[0] != '.' && t[|t| - 1] != '.'
    && (forall i :: 0 <= i < |t| ==> cls(t[i]) || t[i] == '.')
    && (forall i :: 0 <= i < |t| - 1 ==> t[i] != '.' || t[i + 1] != '.')
  }

  /** Index of the first occurrence of c in s, or |s| when there is none. */
  function FirstIndexOf(s: string, c: char): (i: nat)
    ensures i <= |s|
    ensures i < |s| ==> s[i] == c
    ensures forall j :: 0 <= j < i ==> s[j] != c
  {
    if |s| == 0 then 0
    else if s[0] == c then 0
    else 1 + FirstIndexOf(s[1..], c)
  }

  /** Index of the last occurrence of c in s, or -1 when there is none. */
  function LastIndexOf(s: string, c: char): (i: int)
    ensures -1 <= i < |s|
    ensures 0 <= i ==> s[i] == c
    ensures forall j :: i < j < |s| ==> s[j] != c
  {
    if |s| == 0 then -1
    else if s[|s| - 1] == c then |s| - 1
    else LastIndexOf(s[..|s| - 1], c)
  }

  /** The domain after '@': split at its last dot into labels and a top-level domain. */
  predicate IsValidDomain(d: string) {
    var dot := LastIndexOf(d, '.');
    0 < dot && DotSeparated(d[..dot], IsLabelChar) && IsTld(d[dot + 1..])
  }

  /** UserServiceImpl.isValidEmail: split at the first '@', check the local part and the
      domain. An accepted address holds exactly one '@'. */
  function IsValidEmail(s: string): (ok: bool)
    ensures ok ==> '@' in s
    ensures ok ==> forall i, j :: 0 <= i < j < |s| && s[i] == '@' ==> s[j] != '@'
  {
    var at := FirstIndexOf(s, '@');
    if at < |s| && DotSeparated(s[..at], IsLocalChar) && IsValidDomain(s[at + 1..]) then
      NoAtInDomain(s, at);
      true
    else
      false
  }

  lemma PlusIsDotSeparated(t: string, cls: char -> bool)
    requires !cls('.')
    ensures Plus(t, cls) <==> DotSeparated(t, cls) && forall i :: 0 <= i < |t| ==> t[i] != '.'
  {
  }

  /** A dot-separated string that holds a dot splits at its first dot into a run and a dot-separated rest. */
  lemma SplitAtFirstDot(t: string, cls: char -> bool) returns (k: nat)
    requires !cls('.') && DotSeparated(t, cls) && !Plus(t, cls)
    ensures 0 < k < |t| - 1 && t[k] == '.'
    ensures Plus(t[..k], cls) && DotSeparated(t[k + 1..], cls)
  {
    PlusIsDotSeparated(t, cls);
    k := FirstIndexOf(t, '.');
    var rest := t[k + 1..];
    forall j | 0 <= j < |rest| ensures rest[j] == t[k + 1 + j] { }
  }

  /** A run, a dot and a dot-separated rest make a dot-separated string. */
  lemma JoinAtDot(t: string, k: int, cls: char -> bool)
    requires !cls('.') && 0 < k < |t| && t[k] == '.'
    requires Plus(t[..k], cls) && DotSeparated(t[k + 1..], cls)
    ensures DotSeparated(t, cls)
  {
    var run, rest := t[..k], t[k + 1..];
    forall i | 0 <= i < |t| ensures cls(t[i]) || t[i] == '.' {
      if i < k {
        assert t[i] == run[i];
      } else if i > k {
        assert t[i] == rest[i - k - 1];
      }
    }
    forall i | 0 <= i < |t| - 1 ensures t[i] != '.' || t[i + 1] != '.' {
      if i < k {
        assert t[i] == run[i];
      } else if i > k {
        assert t[i] == rest[i - k - 1] && t[i + 1] == rest[i - k];
      }
    }
    assert t[|t| - 1] == rest[|rest| - 1];
  }

  lemma {:induction false} RunsToDotSeparated(t: string, cls: char -> bool)
    requires !cls('.') && Runs(t, cls)
    decreases |t|
    ensures DotSeparated(t, cls)
  {
    if Plus(t, cls) {
      PlusIsDotSeparated(t, cls);
    } else {
      var k :| 0 < k < |t| && t[k] == '.' && Plus(t[..k], cls) && Runs(t[k + 1..], cls);
      RunsToDotSeparated(t[k + 1..], cls);
      JoinAtDot(t, k, cls);
    }
  }

  lemma {:induction false} DotSeparatedToRuns(t: string, cls: char -> bool)
    requires !cls('.') && DotSeparated(t, cls)
    decreases |t|
    ensures Runs(t, cls)
  {
    if !Plus(t, cls) {
      var k := SplitAtFirstDot(t, cls);
      DotSeparatedToRuns(t[k + 1..], cls);
    }
  }

  /** `[cls]+(?:\.[cls]+)*` denotes the dot-separated strings over cls. */
  lemma RunsAreDotSeparated(t: string, cls: char -> bool)
    requires !cls('.')
    ensures Runs(t, cls) <==> DotSeparated(t, cls)
  {
    if Runs(t, cls) {
      RunsToDotSeparated(t, cls);
    }
    if DotSeparated(t, cls) {
      DotSeparatedToRuns(t, cls);
    }
  }

  lemma {:induction false} LabelsToRunsThenDot(p: string)
    requires Labels(p)
    decreases |p|
    ensures |p| >= 2 && p[|p| - 1] == '.' && Runs(p[..|p| - 1], IsLabelChar)
  {
    var k :| 0 < k < |p| && p[k] == '.' && Plus(p[..k], IsLabelChar) && (k + 1 == |p| || Labels(p[k + 1..]));
    if k + 1 < |p| {
      var rest := p[k + 1..];
      LabelsToRunsThenDot(rest);
      var body := p[..|p| - 1];
      assert body[..k] == p[..k];
      assert body[k + 1..] == rest[..|rest| - 1];
    } else {
      assert p[..|p| - 1] == p[..k];
    }
  }

  lemma {:induction false} RunsThenDotToLabels(p: string)
    requires |p| >= 2 && p[|p| - 1] == '.' && Runs(p[..|p| - 1], IsLabelChar)
    decreases |p|
    ensures Labels(p)
  {
    var body := p[..|p| - 1];
    if Plus(body, IsLabelChar) {
      assert p[..|p| - 1] == body;
    } else {
      var k :| 0 < k < |body| && body[k] == '.' && Plus(body[..k], IsLabelChar) && Runs(body[k + 1..], IsLabelChar);
      var rest := p[k + 1..];
      assert rest[..|rest| - 1] == body[k + 1..];
      RunsThenDotToLabels(rest);
      assert p[..k] == body[..k];
    }
  }

  /** `(?:[a-zA-Z-]+\.)+` is `[a-zA-Z-]+(?:\.[a-zA-Z-]+)*` followed by one dot. */
  lemma LabelsAreRunsThenDot(p: string)
    ensures Labels(p) <==> |p| >= 2 && p[|p| - 1] == '.' && Runs(p[..|p| - 1], IsLabelChar)
  {
    if Labels(p) {
      LabelsToRunsThenDot(p);
    }
    if |p| >= 2 && p[|p| - 1] == '.' && Runs(p[..|p| - 1], IsLabelChar) {
      RunsThenDotToLabels(p);
    }
  }

  lemma LabelsAreDotTerminated(p: string)
    ensures Labels(p) <==> |p| >= 2 && p[|p| - 1] == '.' && DotSeparated(p[..|p| - 1], IsLabelChar)
  {
    LabelsAreRunsThenDot(p);
    if |p| >= 2 {
      RunsAreDotSeparated(p[..|p| - 1], IsLabelChar);
    }
  }

  lemma AcceptedDomainMatches(d: string)
    requires IsValidDomain(d)
    ensures DomainPattern(d)
  {
    var dot := LastIndexOf(d, '.');
    var labels := d[..dot + 1];
    assert labels[..dot] == d[..dot];
    assert labels[dot] == '.';
    LabelsAreDotTerminated(labels);
    assert Labels(d[..dot + 1]) && IsTld(d[dot + 1..]);
  }

  lemma MatchingDomainAccepted(d: string)
    requires DomainPattern(d)
    ensures IsValidDomain(d)
  {
    var tld :| 0 <= tld <= |d| && Labels(d[..tld]) && IsTld(d[tld..]);
    var labels := d[..tld];
    LabelsAreDotTerminated(labels);
    assert d[tld - 1] == labels[tld - 1];
    forall j | tld <= j < |d| ensures d[j] != '.' {
      assert d[j] == d[tld..][j - tld];
    }
    assert LastIndexOf(d, '.') == tld - 1;
    assert labels[..tld - 1] == d[..tld - 1];
  }

  /** The domain recogniser accepts exactly the domain half of the pattern. */
  lemma DomainRecogniserCorrect(d: string)
    ensures IsValidDomain(d) <==> DomainPattern(d)
  {
    if IsValidDomain(d) {
      AcceptedDomainMatches(d);
    }
    if DomainPattern(d) {
      MatchingDomainAccepted(d);
    }
  }

  lemma AcceptedEmailMatches(s: string)
    requires IsValidEmail(s)
    ensures EmailPattern(s)
  {
    var at := FirstIndexOf(s, '@');
    RunsAreDotSeparated(s[..at], IsLocalChar);
    DomainRecogniserCorrect(s[at + 1..]);
  }

  lemma MatchingEmailAccepted(s: string)
    requires EmailPattern(s)
    ensures IsValidEmail(s)
  {
    var a :| 0 <= a < |s| && s[a] == '@' && Runs(s[..a], IsLocalChar) && DomainPattern(s[a + 1..]);
    RunsAreDotSeparated(s[..a], IsLocalChar);
    forall k | 0 <= k < a ensures s[k] != '@' {
      assert s[k] == s[..a][k];
    }
    assert FirstIndexOf(s, '@') == a;
    DomainRecogniserCorrect(s[a + 1..]);
  }

  /** The email recogniser accepts exactly the language of the email pattern. */
  lemma EmailRecogniserCorrect(s: string)
    ensures IsValidEmail(s) <==> EmailPattern(s)
  {
    if IsValidEmail(s) {
      AcceptedEmailMatches(s);
    }
    if EmailPattern(s) {
      MatchingEmailAccepted(s);
    }
  }

  /** The domain after the first '@' holds no '@': neither its labels nor its
      top-level domain may. */
  lemma NoAtInDomain(s: string, at: int)
    requires 0 <= at < |s| && IsValidDomain(s[at + 1..])
    ensures forall k :: at < k < |s| ==> s[k] != '@'
  {
    var d := s[at + 1..];
    var dot := LastIndexOf(d, '.');
    forall k | at < k < |s| ensures s[k] != '@' {
      var m := k - at - 1;
      assert s[k] == d[m];
      if m < dot {
        assert d[m] == d[..dot][m];
      } else if m > dot {
        assert d[m] == d[dot + 1..][m - dot - 1];
      }
    }
  }

  /** "x." followed by letters is a valid domain exactly when the letters form a
      top-level domain. */
  lemma SingleLabelDomain(tld: string)
    requires forall i :: 0 <= i < |tld| ==> IsAsciiLetter(tld[i])
    ensures IsValidDomain("x." + tld) <==> 2 <= |tld| <= 7
  {
    var d := "x." + tld;
    forall j | 1 < j < |d| ensures d[j] != '.' {
      assert d[j] == tld[j - 2];
    }
    assert d[1] == '.';
    assert LastIndexOf(d, '.') == 1;
    assert d[..1] == "x";
    assert d[2..] == tld;
  }

  /** The top-level domain takes two to seven letters: "a@x.co" is accepted,
      "a@x.c" and "a@x.abcdefgh" are not. */
  lemma TldLengthBoundary(tld: string)
    requires forall i :: 0 <= i < |tld| ==> IsAsciiLetter(tld[i])
    ensures IsValidEmail("a@x." + tld) <==> 2 <= |tld| <= 7
  {
    var s := "a@x." + tld;
    assert s[0] == 'a' && s[1] == '@';
    assert FirstIndexOf(s, '@') == 1 by {
      assert FirstIndexOf(s[1..], '@') == 0;
    }
    assert s[..1] == "a";
    assert s[2..] == "x." + tld;
    SingleLabelDomain(tld);
  }

}
