/** Whitespace and trimming as the ECMAScript string library defines them:
    the class `\s` of a regular expression and `String.prototype.trim` use the
    same set of characters (WhiteSpace and LineTerminator code points). */
module Text {
  /** The ECMAScript whitespace set: tab, line feed, vertical tab, form feed,
      carriage return, space, no-break space, the Unicode space separators
      (U+1680, U+2000..U+200A, U+202F, U+205F, U+3000), the line and paragraph
      separators and the byte-order mark. */
  predicate IsSpace(c: char) {
    || c == '\t' || c == '\n' || c == '\U{000B}' || c == '\U{000C}' || c == '\r'
    || c == ' ' || c == '\U{00A0}' || c == '\U{1680}'
    || ('\U{2000}' <= c <= '\U{200A}')
    || c == '\U{2028}' || c == '\U{2029}' || c == '\U{202F}' || c == '\U{205F}'
    || c == '\U{3000}' || c == '\U{FEFF}'
  }

  predicate AllSpace(s: string) {
    forall k | 0 <= k < |s| :: IsSpace(s[k])
  }

  /** How many whitespace characters `s` starts with. */
  function LeadingSpaces(s: string): (n: nat)
    ensures n <= |s|
    ensures forall k | 0 <= k < n :: IsSpace(s[k])
    ensures n < |s| ==> !IsSpace(s[n])
  {
    if s != [] && IsSpace(s[0]) then 1 + LeadingSpaces(s[1..]) else 0
  }

  /** Where the whitespace that `s` ends with begins. */
  function TrailingStart(s: string): (m: nat)
    ensures m <= |s|
    ensures forall k | m <= k < |s| :: IsSpace(s[k])
    ensures 0 < m ==> !IsSpace(s[m - 1])
  {
    if s != [] && IsSpace(s[|s| - 1]) then TrailingStart(s[..|s| - 1]) else |s|
  }

  /** `s.trim()`: the infix of `s` left between its leading and its trailing
      whitespace, which is empty exactly when `s` is all whitespace. */
  function Trim(s: string): (r: string)
    ensures r == [] || (!IsSpace(r[0]) && !IsSpace(r[|r| - 1]))
    ensures r == [] <==> AllSpace(s)
    ensures exists i | 0 <= i <= |s| - |r| :: s[i..i + |r|] == r && AllSpace(s[..i]) && AllSpace(s[i + |r|..])
  {
    var i, j := LeadingSpaces(s), TrailingStart(s);
    if i < j then
      assert s[i..i + (j - i)] == s[i..j];
      assert AllSpace(s[..i]) by {
        forall k | 0 <= k < i ensures IsSpace(s[..i][k]) { assert s[..i][k] == s[k]; }
      }
      assert AllSpace(s[j..]) by {
        forall k | 0 <= k < |s| - j ensures IsSpace(s[j..][k]) { assert s[j..][k] == s[j + k]; }
      }
      s[i..j]
    else
      assert s[0..0] == [] && s[..0] == [] && AllSpace(s[0..]) by {
        forall k | 0 <= k < |s| ensures IsSpace(s[k]) {
          assert k < i || j <= k;
        }
      }
      []
  }

  /** A JavaScript string argument `x` for which `!x || !x.trim()` holds:
      empty, or made only of whitespace. */
  predicate IsBlank(s: string) {
    Trim(s) == []
  }

  /** A string without leading or trailing whitespace is its own trim. */
  lemma TrimOfTrimmed(t: string)
    requires t == [] || (!IsSpace(t[0]) && !IsSpace(t[|t| - 1]))
    ensures Trim(t) == t
  {
  }

  /** Trimming twice is trimming once. */
  lemma TrimIdempotent(s: string)
    ensures Trim(Trim(s)) == Trim(s)
  {
    TrimOfTrimmed(Trim(s));
  }
}
