/** Text helpers: ASCII case folding, suffix tests and the renderings used in error messages. */
module Text {

  /** ASCII lower-casing of one character; every other character is left as it is. */
  function LowerAsciiChar(c: char): char
  {
    if 'A' <= c <= 'Z' then (c as int + 32) as char else c
  }

  /** The string holds no ASCII upper-case letter. */
  predicate NoAsciiUpper(s: string)
  {
    forall i :: 0 <= i < |s| ==> !('A' <= s[i] <= 'Z')
  }

  /**
   * ASCII lower-casing of a whole string: the result equals the input ignoring ASCII case
   * and holds no upper-case ASCII letter (`LowerAsciiUnique` shows these two facts fix it).
   */
  function LowerAscii(s: string): (t: string)
    ensures EqIgnoreAsciiCase(s, t)
    ensures NoAsciiUpper(t)
  {
    seq(|s|, i requires 0 <= i < |s| => LowerAsciiChar(s[i]))
  }

  /** Any string equal to `s` ignoring ASCII case and free of upper-case letters is `LowerAscii(s)`. */
  lemma LowerAsciiUnique(s: string, t: string)
    requires EqIgnoreAsciiCase(s, t) && NoAsciiUpper(t)
    ensures t == LowerAscii(s)
  {
    forall i | 0 <= i < |t|
      ensures t[i] == LowerAscii(s)[i]
    {
      assert LowerAsciiChar(t[i]) == t[i];
    }
  }

  /** Equality up to ASCII case: same length, and equal characters once both are lower-cased. */
  predicate EqIgnoreAsciiCase(a: string, b: string)
  {
    |a| == |b| && forall i :: 0 <= i < |a| ==> LowerAsciiChar(a[i]) == LowerAsciiChar(b[i])
  }

  /** Comparing ignoring ASCII case is comparing the lower-cased strings. */
  lemma EqIgnoreAsciiCaseIff(a: string, b: string)
    ensures EqIgnoreAsciiCase(a, b) <==> LowerAscii(a) == LowerAscii(b)
  {
    if LowerAscii(a) == LowerAscii(b) {
      assert forall i :: 0 <= i < |a| ==> LowerAscii(a)[i] == LowerAscii(b)[i];
    }
  }

  predicate EndsWith(s: string, suffix: string)
  {
    |suffix| <= |s| && s[|s| - |suffix|..] == suffix
  }

  function DigitChar(d: nat): char
    requires d < 10
  {
    ('0' as int + d) as char
  }

  /** The number a string of decimal digits denotes, most significant digit first. */
  function DecimalValue(s: string): nat
    requires forall i :: 0 <= i < |s| ==> '0' <= s[i] <= '9'
    decreases |s|
  {
    if s == [] then 0
    else DecimalValue(s[..|s| - 1]) * 10 + (s[|s| - 1] as int - '0' as int)
  }

  /**
   * Decimal rendering of a natural number (Rust's `{}` on an unsigned integer): digits that
   * denote `n`, with no leading zero except for `0` itself.
   */
  function NatToDecimal(n: nat): (s: string)
    ensures |s| > 0
    ensures forall i :: 0 <= i < |s| ==> '0' <= s[i] <= '9'
    ensures DecimalValue(s) == n
    ensures |s| > 1 || n > 0 ==> s[0] != '0'
  {
    if n < 10 then [DigitChar(n)]
    else
      var prefix := NatToDecimal(n / 10);
      var s := prefix + [DigitChar(n % 10)];
      assert s[..|s| - 1] == prefix;
      s
  }

  function Quoted(s: string): string
  {
    "\"" + s + "\""
  }

  function JoinQuoted(xs: seq<string>): string
  {
    if xs == [] then ""
    else if |xs| == 1 then Quoted(xs[0])
    else Quoted(xs[0]) + ", " + JoinQuoted(xs[1..])
  }

  /** Rust's `{:?}` rendering of a list of strings, e.g. `["jpg", "jpeg"]`. */
  function DebugList(xs: seq<string>): string
  {
    "[" + JoinQuoted(xs) + "]"
  }
}
