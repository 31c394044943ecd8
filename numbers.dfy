/** JavaScript numbers as far as the assembler uses them: `parseInt` of a
    define value, and the `ln - BODY` arithmetic that may yield `NaN`. */
module Numbers {
  import opened Text

  /** A number computed from `parseInt`: an integer, or `NaN` when no digit
      was found. */
  datatype Num = Int(v: int) | NaN

  /** `a - b` on numbers: `NaN` absorbs. */
  function Minus(a: int, b: Num): (r: Num)
    ensures r.NaN? <==> b.NaN?
    ensures b.Int? ==> r.v + b.v == a
  {
    match b
    case Int(v) => Int(a - v)
    case NaN => NaN
  }

  /** The longest prefix of `s` made of hex digits of either case. */
  function HexPrefix(s: string): (d: string)
    ensures IsHex(d) && StartsWith(s, d)
    ensures |d| < |s| ==> !IsHexDigit(s[|d|])
  {
    if s != [] && IsHexDigit(s[0]) then [s[0]] + HexPrefix(s[1..]) else ""
  }

  /** The unsigned part of `parseInt` after the sign: a `0x`/`0X` prefix switches
      to base 16, and the longest run of digits of the base is read. */
  function ParseMagnitude(s: string): (r: Num)
    ensures r.Int? ==> r.v >= 0
  {
    if |s| >= 2 && s[0] == '0' && (s[1] == 'x' || s[1] == 'X') then
      var h := HexPrefix(s[2..]);
      if h == [] then NaN else Int(HexValue(h))
    else
      var d := DigitPrefix(s);
      if d == [] then NaN else Int(DigitsValue(d))
  }

  /** `parseInt(s)` without a radix: leading white space is skipped, then an
      optional sign, then the magnitude. */
  function ParseInt(s: string): Num
  {
    var t := TrimStart(s);
    if t != [] && t[0] == '-' then
      match ParseMagnitude(t[1..])
      case Int(v) => Int(-v)
      case NaN => NaN
    else if t != [] && t[0] == '+' then ParseMagnitude(t[1..])
    else ParseMagnitude(t)
  }

  /** `parseInt` reads back what `toString` rendered: the recorded line number
      of a `define BODY .` comes back unchanged. */
  lemma ParseIntDecimal(n: nat)
    ensures ParseInt(Decimal(n)) == Int(n)
  {
    var r := Decimal(n);
    assert !IsWhite(r[0]) && r[0] != '-' && r[0] != '+';
    assert TrimStart(r) == r;
    MagnitudeDecimal(n);
  }

  /** A negative decimal reads back as its negative value. */
  lemma ParseIntNegative(n: nat)
    ensures ParseInt("-" + Decimal(n)) == Int(-(n as int))
  {
    var r := Decimal(n);
    var s := "-" + r;
    assert !IsWhite(s[0]);
    assert TrimStart(s) == s;
    assert s[1..] == r;
    MagnitudeDecimal(n);
  }

  lemma MagnitudeDecimal(n: nat)
    ensures ParseMagnitude(Decimal(n)) == Int(n)
  {
    var r := Decimal(n);
    DigitPrefixOf(r, "");
    assert r + "" == r;
    DecimalValue(n);
    assert !(|r| >= 2 && r[0] == '0');
  }

  /** Text that does not begin, after white space and a sign, with a digit gives
      `NaN`. */
  lemma ParseIntNoDigit(s: string)
    requires s != [] && !IsWhite(s[0]) && !IsDigit(s[0]) && s[0] != '-' && s[0] != '+'
    ensures ParseInt(s) == NaN
  {
  }
}
