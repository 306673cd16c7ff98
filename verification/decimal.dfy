/** The 64-bit integers of the .NET runtime and the two conversions between
    them and text that the pagination code relies on: `long.ToString()`,
    which writes a cursor into a request, and `long.Parse`, which reads a
    notification id back as a number. Both are taken under the invariant
    culture (negative sign "-", ASCII digits). */
module Decimal {
  import opened Wrappers

  const LongMin: int := -0x8000_0000_0000_0000
  const LongMax: int := 0x7FFF_FFFF_FFFF_FFFF

  /** C# `long`. */
  type Long = x: int | LongMin <= x <= LongMax

  /** C# `int`. */
  type Int32 = x: int | -0x8000_0000 <= x <= 0x7FFF_FFFF

  /** The two exceptions `long.Parse` throws on a non-null argument. */
  datatype ParseError =
    | FormatError    // FormatException: the text is not an optionally signed digit string
    | OverflowError  // OverflowException: the value does not fit in a long

  predicate IsDigit(c: char) {
    '0' <= c <= '9'
  }

  /** The white space `NumberStyles.Integer` lets surround a number:
      U+0009 to U+000D and U+0020. */
  predicate IsWhite(c: char) {
    c == ' ' || '\t' <= c <= '\r'
  }

  predicate AllDigits(s: string) {
    forall i :: 0 <= i < |s| ==> IsDigit(s[i])
  }

  function DigitChar(d: nat): (c: char)
    requires d < 10
    ensures IsDigit(c)
  {
    "0123456789"[d]
  }

  function DigitValue(c: char): nat
    requires IsDigit(c)
  {
    c as int - '0' as int
  }

  /** The value of a digit string, most significant digit first. */
  function DigitsValue(s: string): nat
    requires AllDigits(s)
  {
    if |s| == 0 then 0
    else DigitsValue(s[..|s| - 1]) * 10 + DigitValue(s[|s| - 1])
  }

  /** Decimal text of a natural number without leading zeros. */
  function FormatNat(n: nat): (s: string)
    ensures |s| > 0 && AllDigits(s)
    ensures DigitsValue(s) == n
    ensures s[0] == '0' ==> n == 0
  {
    if n < 10 then
      [DigitChar(n)]
    else
      var s := FormatNat(n / 10) + [DigitChar(n % 10)];
      assert s[..|s| - 1] == FormatNat(n / 10);
      s
  }

  /** `long.ToString()`: an optional "-" followed by the decimal digits. */
  function FormatLong(n: Long): (s: string)
    ensures |s| > 0 && (s[0] == '-' <==> n < 0)
    ensures n >= 0 ==> AllDigits(s) && DigitsValue(s) == n
    ensures n < 0 ==> AllDigits(s[1..]) && DigitsValue(s[1..]) == -(n as int)
    ensures n > 0 ==> s[0] != '0'
    ensures n < 0 ==> |s| > 1 && s[1] != '0'
  {
    if n < 0 then
      var s := "-" + FormatNat(-(n as int));
      assert s[1..] == FormatNat(-(n as int));
      s
    else FormatNat(n)
  }

  /** `s` without its leading white space. */
  function TrimStart(s: string): (t: string)
    ensures |t| <= |s| && t == s[|s| - |t|..]
    ensures |t| > 0 ==> !IsWhite(t[0])
    ensures forall i :: 0 <= i < |s| - |t| ==> IsWhite(s[i])
  {
    if |s| > 0 && IsWhite(s[0]) then
      var t := TrimStart(s[1..]);
      assert forall i :: 1 <= i < |s| - |t| ==> s[i] == s[1..][i - 1];
      t
    else s
  }

  /** `s` without its trailing white space. */
  function TrimEnd(s: string): (t: string)
    ensures |t| <= |s| && t == s[..|t|]
    ensures |t| > 0 ==> !IsWhite(t[|t| - 1])
    ensures forall i :: |t| <= i < |s| ==> IsWhite(s[i])
  {
    if |s| > 0 && IsWhite(s[|s| - 1]) then
      var t := TrimEnd(s[..|s| - 1]);
      assert forall i :: |t| <= i < |s| - 1 ==> s[i] == s[..|s| - 1][i];
      t
    else s
  }

  /** `long.Parse(s)` with `NumberStyles.Integer`: optional surrounding
      white space, an optional leading "+" or "-", then one or more digits,
      whose value must lie in the range of a long. */
  function ParseLong(s: string): (r: Result<Long, ParseError>)
    ensures (forall i :: 0 <= i < |s| ==> IsWhite(s[i])) ==> r == Failure(FormatError)
    ensures |s| > 0 && AllDigits(s) && DigitsValue(s) <= LongMax ==> r == Success(DigitsValue(s))
  {
    TrimBlank(s);
    TrimDigits(s);
    var t := TrimEnd(TrimStart(s));
    if |t| == 0 then Failure(FormatError)
    else
      var digits := if t[0] == '-' || t[0] == '+' then t[1..] else t;
      if |digits| == 0 || !AllDigits(digits) then Failure(FormatError)
      else
        var v: int := if t[0] == '-' then 0 - DigitsValue(digits) else DigitsValue(digits);
        if LongMin <= v <= LongMax then Success(v) else Failure(OverflowError)
  }

  /** Trimming text made only of white space leaves nothing. */
  lemma TrimBlank(s: string)
    ensures (forall i :: 0 <= i < |s| ==> IsWhite(s[i])) ==> TrimEnd(TrimStart(s)) == []
  {
    var t := TrimStart(s);
    if |t| > 0 {
      assert t[0] == s[|s| - |t|];
    }
  }

  /** Trimming a digit string leaves it as it is. */
  lemma TrimDigits(s: string)
    ensures |s| > 0 && AllDigits(s) ==> TrimEnd(TrimStart(s)) == s
  {
    if |s| > 0 && AllDigits(s) {
      assert !IsWhite(s[0]) && !IsWhite(s[|s| - 1]);
    }
  }

  /** Text written by `long.ToString()` is read back by `long.Parse` as the
      same value: a cursor sent to the server denotes the number it was made from. */
  lemma ParseFormatLong(n: Long)
    ensures ParseLong(FormatLong(n)) == Success(n)
  {
    var s := FormatLong(n);
    if n < 0 {
      assert !IsWhite(s[0]) && !IsWhite(s[|s| - 1]);
      assert TrimStart(s) == s;
      assert TrimEnd(s) == s;
    }
  }

  /** Two different values never share a decimal text. */
  lemma FormatLongInjective(m: Long, n: Long)
    requires FormatLong(m) == FormatLong(n)
    ensures m == n
  {
    ParseFormatLong(m);
    ParseFormatLong(n);
  }
}
