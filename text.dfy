/** The pieces of Python 2's text handling that the core relies on: `unicode.strip`
    (used by `Cell.empty`) and the decimal rendering of integers (used by
    `unicode(value)` and by the `"column_%d"` header template). */
module Text {

  /** Python 2.7's notion of a whitespace character (`unicode.isspace`, which
      is what `unicode.strip()` removes; its tables follow Unicode 5.2): the
      ASCII controls TAB..CR and FS..US, space, NEL, NBSP, the Ogham space
      mark, the Mongolian vowel separator, the Unicode space separators, and
      the line and paragraph separators. */
  predicate IsWhitespace(c: char) {
    || c == ' '
    || ('\t' <= c <= '\r')
    || ('\U{1c}' <= c <= '\U{1f}')
    || c == '\U{85}'
    || c == '\U{a0}'
    || c == '\U{1680}'
    || c == '\U{180e}'
    || ('\U{2000}' <= c <= '\U{200a}')
    || c == '\U{2028}'
    || c == '\U{2029}'
    || c == '\U{202f}'
    || c == '\U{205f}'
    || c == '\U{3000}'
  }

  predicate AllWhitespace(s: string) {
    forall i :: 0 <= i < |s| ==> IsWhitespace(s[i])
  }

  /** How many whitespace characters `s.lstrip()` removes from the front of `s`. */
  function LeadingWhitespace(s: string): (n: nat)
    ensures n <= |s|
    ensures forall i :: 0 <= i < n ==> IsWhitespace(s[i])
    ensures n < |s| ==> !IsWhitespace(s[n])
  {
    if |s| > 0 && IsWhitespace(s[0]) then 1 + LeadingWhitespace(s[1..]) else 0
  }

  /** How many whitespace characters `s.rstrip()` removes from the end of `s`. */
  function TrailingWhitespace(s: string): (n: nat)
    ensures n <= |s|
    ensures forall i :: |s| - n <= i < |s| ==> IsWhitespace(s[i])
    ensures n < |s| ==> !IsWhitespace(s[|s| - 1 - n])
  {
    if |s| > 0 && IsWhitespace(s[|s| - 1]) then 1 + TrailingWhitespace(s[..|s| - 1]) else 0
  }

  /** `s.strip()`: a contiguous slice of `s` that is empty exactly when `s` is
      all whitespace, and otherwise starts and ends with a non-whitespace
      character, everything outside it being whitespace. */
  function Strip(s: string): (r: string)
    ensures var a := LeadingWhitespace(s); a + |r| <= |s| && r == s[a..a + |r|]
    ensures forall i :: 0 <= i < LeadingWhitespace(s) ==> IsWhitespace(s[i])
    ensures forall i :: LeadingWhitespace(s) + |r| <= i < |s| ==> IsWhitespace(s[i])
    ensures r == [] <==> AllWhitespace(s)
    ensures r != [] ==> !IsWhitespace(r[0]) && !IsWhitespace(r[|r| - 1])
  {
    var a := LeadingWhitespace(s);
    if a == |s| then
      []
    else
      var b := |s| - TrailingWhitespace(s);
      s[a..b]
  }

  predicate IsDigit(c: char) {
    '0' <= c <= '9'
  }

  function DigitChar(d: nat): (c: char)
    requires d < 10
    ensures IsDigit(c) && c as int - '0' as int == d
  {
    ('0' as int + d) as char
  }

  function DigitValue(c: char): nat
    requires IsDigit(c)
  {
    c as int - '0' as int
  }

  /** `"%d" % n` for a non-negative `n`: its decimal digits, most significant
      first, with no leading zero. */
  function NatToText(n: nat): (r: string)
    ensures |r| >= 1
    ensures forall i :: 0 <= i < |r| ==> IsDigit(r[i])
    ensures r[0] == '0' ==> n == 0
  {
    if n < 10 then [DigitChar(n)] else NatToText(n / 10) + [DigitChar(n % 10)]
  }

  /** Reads a string of decimal digits back as a number (the inverse of NatToText). */
  function ParseNat(s: string): nat
    requires forall i :: 0 <= i < |s| ==> IsDigit(s[i])
  {
    if s == [] then 0 else 10 * ParseNat(s[..|s| - 1]) + DigitValue(s[|s| - 1])
  }

  lemma {:induction false} ParseNatToText(n: nat)
    ensures ParseNat(NatToText(n)) == n
  {
    var r := NatToText(n);
    if n >= 10 {
      ParseNatToText(n / 10);
      assert r[..|r| - 1] == NatToText(n / 10);
    }
  }

  /** Distinct numbers render to distinct texts. */
  lemma NatToTextInjective(m: nat, n: nat)
    ensures NatToText(m) == NatToText(n) ==> m == n
  {
    ParseNatToText(m);
    ParseNatToText(n);
  }

  /** `unicode(i)` for a Python integer: a minus sign exactly when the
      number is negative, then decimal digits that read back as its magnitude. */
  function IntToText(i: int): (r: string)
    ensures |r| >= 1 && !IsWhitespace(r[0])
    ensures r[0] == '-' <==> i < 0
    ensures var digits := if i < 0 then r[1..] else r;
            && |digits| >= 1
            && (forall j :: 0 <= j < |digits| ==> IsDigit(digits[j]))
            && ParseNat(digits) == if i < 0 then -i else i
  {
    var n := if i < 0 then -i else i;
    ParseNatToText(n);
    if i < 0 then "-" + NatToText(n) else NatToText(n)
  }
}
