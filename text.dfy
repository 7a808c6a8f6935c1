/** The string operations the contact book uses: decimal digits,
    `str.join`, building text line by line, and `str.strip`. */
module Text {

  predicate IsDigit(c: char) { '0' <= c <= '9' }

  predicate AllDigits(s: string) { forall i :: 0 <= i < |s| ==> IsDigit(s[i]) }

  function DigitValue(c: char): nat
    requires IsDigit(c)
  {
    c as int - '0' as int
  }

  function Digit(n: nat): (c: char)
    requires n < 10
    ensures IsDigit(c) && DigitValue(c) == n
  {
    ('0' as int + n) as char
  }

  /** The number a string of decimal digits denotes. */
  function DigitsValue(s: string): nat
    requires AllDigits(s)
    decreases |s|
  {
    if s == [] then 0 else DigitsValue(s[..|s| - 1]) * 10 + DigitValue(s[|s| - 1])
  }

  function Pow10(k: nat): (p: nat)
    ensures p >= 1
  {
    if k == 0 then 1 else 10 * Pow10(k - 1)
  }

  /** `n` written with exactly `width` digits, zero-padded on the left, as
      `strftime` writes a day, a month or a year. */
  function PadDigits(n: nat, width: nat): (r: string)
    requires n < Pow10(width)
    ensures |r| == width && AllDigits(r) && DigitsValue(r) == n
  {
    if width == 0 then ""
    else
      var r := PadDigits(n / 10, width - 1) + [Digit(n % 10)];
      assert r[..|r| - 1] == PadDigits(n / 10, width - 1);
      r
  }

  /** `str(n)` for a natural number: its decimal digits, no padding. */
  function NatString(n: nat): (r: string)
    ensures |r| >= 1 && AllDigits(r) && DigitsValue(r) == n
    ensures n > 0 ==> r[0] != '0'
    ensures |r| == 1 || r[0] != '0'
  {
    if n < 10 then [Digit(n)]
    else
      var r := NatString(n / 10) + [Digit(n % 10)];
      assert r[..|r| - 1] == NatString(n / 10);
      r
  }

  /** `str(i)` for any integer. */
  function IntString(i: int): string
  {
    if i < 0 then "-" + NatString(-i) else NatString(i)
  }

  /** `sep.join(xs)`. */
  function Join(xs: seq<string>, sep: string): string
    decreases |xs|
  {
    if |xs| == 0 then ""
    else if |xs| == 1 then xs[0]
    else Join(xs[..|xs| - 1], sep) + sep + xs[|xs| - 1]
  }

  /** The text a loop builds with `result += f'{x}\n'` over `xs`. */
  function Lines(xs: seq<string>): string
    decreases |xs|
  {
    if xs == [] then "" else Lines(xs[..|xs| - 1]) + xs[|xs| - 1] + "\n"
  }

  /** Whitespace as `str.strip` sees it, the characters `str.isspace`
      accepts: the ASCII blanks, the four information separators, and the
      Unicode spaces and line and paragraph separators. */
  predicate IsSpace(c: char)
  {
    c == ' ' || c == '\t' || c == '\n' || c == '\r' || c == '\U{000B}' || c == '\U{000C}'
    || ('\U{001C}' <= c <= '\U{001F}')
    || c == '\U{0085}' || c == '\U{00A0}' || c == '\U{1680}'
    || ('\U{2000}' <= c <= '\U{200A}')
    || c == '\U{2028}' || c == '\U{2029}' || c == '\U{202F}' || c == '\U{205F}' || c == '\U{3000}'
  }

  function StripRight(s: string): (r: string)
    ensures |r| <= |s| && r == s[..|r|]
    ensures |r| > 0 ==> !IsSpace(r[|r| - 1])
    decreases |s|
  {
    if |s| > 0 && IsSpace(s[|s| - 1]) then StripRight(s[..|s| - 1]) else s
  }

  function StripLeft(s: string): (r: string)
    ensures |r| <= |s| && r == s[|s| - |r|..]
    ensures |r| > 0 ==> !IsSpace(r[0])
    decreases |s|
  {
    if |s| > 0 && IsSpace(s[0]) then StripLeft(s[1..]) else s
  }

  /** `s.strip()`: `s` without its leading and trailing whitespace. */
  function Strip(s: string): (r: string)
    ensures |r| > 0 ==> !IsSpace(r[0]) && !IsSpace(r[|r| - 1])
  {
    var t := StripRight(s);
    var r := StripLeft(t);
    assert |r| > 0 ==> r[|r| - 1] == t[|t| - 1];
    r
  }

  /** A text that neither starts nor ends with whitespace. */
  predicate Trimmed(s: string)
  {
    |s| > 0 && !IsSpace(s[0]) && !IsSpace(s[|s| - 1])
  }

  /** Joining trimmed pieces gives a trimmed text that starts where the first
      piece does. */
  lemma {:induction false} JoinTrimmed(xs: seq<string>, sep: string)
    requires |xs| > 0 && forall i :: 0 <= i < |xs| ==> Trimmed(xs[i])
    ensures Trimmed(Join(xs, sep)) && |xs[0]| > 0 && Join(xs, sep)[0] == xs[0][0]
    decreases |xs|
  {
    if |xs| > 1 {
      JoinTrimmed(xs[..|xs| - 1], sep);
    }
  }

  /** The line-by-line text is the newline-joined text plus one final newline. */
  lemma {:induction false} LinesJoin(xs: seq<string>)
    requires |xs| > 0
    ensures Lines(xs) == Join(xs, "\n") + "\n"
    decreases |xs|
  {
    if |xs| > 1 {
      LinesJoin(xs[..|xs| - 1]);
    } else {
      assert xs[..0] == [];
    }
  }

  /** Stripping the text built line by line from trimmed pieces gives exactly
      the pieces joined by newlines: the strip removes the final newline and
      nothing else. */
  lemma StripLines(xs: seq<string>)
    requires |xs| > 0 && forall i :: 0 <= i < |xs| ==> Trimmed(xs[i])
    ensures Strip(Lines(xs)) == Join(xs, "\n")
  {
    var j := Join(xs, "\n");
    LinesJoin(xs);
    JoinTrimmed(xs, "\n");
    assert (j + "\n")[..|j|] == j;
    assert StripRight(j + "\n") == StripRight(j);
    assert StripRight(j) == j;
    assert StripLeft(j) == j;
  }
}
