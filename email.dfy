/** The e-mail format both `User.isValidEmail` and `UserController.validateEmail`
    test, the regular expression `^[^\s@]+@[^\s@]+\.[^\s@]+$`: a non-empty
    local part, one `@`, and a domain holding a `.` with at least one character
    on each side, where no part contains whitespace or a further `@`.
    This is an ad-hoc pattern, not the address grammar of RFC 5322. */
module EmailFormat {
  import opened Text
  import opened Seqs

  /** A character of the class `[^\s@]`. */
  predicate IsPlain(c: char) {
    !IsSpace(c) && c != '@'
  }

  /** A match of `[^\s@]+`. */
  predicate PlainRun(t: string) {
    |t| > 0 && forall k | 0 <= k < |t| :: IsPlain(t[k])
  }

  /** The regular expression, read literally: positions of the `@` and of the
      `.` that split `s` into three runs of `[^\s@]+`. */
  ghost predicate MatchesPattern(s: string) {
    exists at, dot | 0 <= at < dot < |s| ::
      && s[at] == '@' && s[dot] == '.'
      && PlainRun(s[..at]) && PlainRun(s[at + 1..dot]) && PlainRun(s[dot + 1..])
  }

  /** The text after the `@`: no whitespace and no `@`, and a `.` that is
      neither its first nor its last character. */
  predicate IsDomain(d: string) {
    && |d| >= 3
    && (forall k | 0 <= k < |d| :: IsPlain(d[k]))
    && '.' in d[1..|d| - 1]
  }

  /** Every non-empty slice of a string without whitespace or `@` is a run. */
  lemma PlainSlice(t: string, i: nat, j: nat)
    requires i < j <= |t|
    requires forall k | 0 <= k < |t| :: IsPlain(t[k])
    ensures PlainRun(t[i..j])
  {
    forall k | 0 <= k < j - i ensures IsPlain(t[i..j][k]) {
      assert t[i..j][k] == t[i + k];
    }
  }

  /** The test itself, computed by locating the first `@`. */
  function IsValidEmail(s: string): (ok: bool)
    ensures ok <==> MatchesPattern(s)
  {
    var at := FirstIndex(s, '@');
    var ok := at < |s| && PlainRun(s[..at]) && IsDomain(s[at + 1..]);
    if ok then
      ValidEmailMatches(s, at);
      ok
    else
      MatchedEmailIsValid(s);
      ok
  }

  lemma ValidEmailMatches(s: string, at: nat)
    requires at < |s| && s[at] == '@' && PlainRun(s[..at]) && IsDomain(s[at + 1..])
    ensures MatchesPattern(s)
  {
    var d := s[at + 1..];
    var j :| 0 <= j < |d| - 2 && d[1..|d| - 1][j] == '.';
    var dot := at + 2 + j;
    assert s[dot] == '.';
    assert s[at + 1..dot] == d[..j + 1] == d[0..j + 1];
    assert s[dot + 1..] == d[j + 2..] == d[j + 2..|d|];
    PlainSlice(d, 0, j + 1);
    PlainSlice(d, j + 2, |d|);
  }

  /** A string that matches has its first `@` where the pattern puts it. */
  lemma MatchAtFirstAt(s: string, at: nat)
    requires at < |s| && s[at] == '@' && PlainRun(s[..at])
    ensures FirstIndex(s, '@') == at
  {
  }

  /** Three runs joined by `.` make a domain. */
  lemma RunsMakeDomain(s: string, at: nat, dot: nat)
    requires at < dot < |s| && s[dot] == '.'
    requires PlainRun(s[at + 1..dot]) && PlainRun(s[dot + 1..])
    ensures IsDomain(s[at + 1..])
  {
    var d := s[at + 1..];
    forall k | 0 <= k < |d| ensures IsPlain(d[k]) {
      if at + 1 + k < dot {
        assert d[k] == s[at + 1..dot][k];
      } else if at + 1 + k > dot {
        assert d[k] == s[dot + 1..][at + k - dot];
      } else {
        assert d[k] == '.';
      }
    }
    assert d[1..|d| - 1][dot - at - 2] == '.';
  }

  lemma MatchedEmailIsValid(s: string)
    ensures MatchesPattern(s) ==>
      var at := FirstIndex(s, '@'); at < |s| && PlainRun(s[..at]) && IsDomain(s[at + 1..])
  {
    if MatchesPattern(s) {
      var at, dot :| 0 <= at < dot < |s|
        && s[at] == '@' && s[dot] == '.'
        && PlainRun(s[..at]) && PlainRun(s[at + 1..dot]) && PlainRun(s[dot + 1..]);
      MatchAtFirstAt(s, at);
      RunsMakeDomain(s, at, dot);
    }
  }

  /** A string without `@` never matches. */
  lemma WithoutAtRejected(s: string)
    requires '@' !in s
    ensures !MatchesPattern(s)
  {
  }
}
