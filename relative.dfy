/** Relative addresses (src/lib/asm.ts, `processRelativeAddresses`): a `.N`
    target on pass-2 line `ln` becomes the signed distance `N - ln`, written
    `n<k>` when it is negative. */
module Relative {
  import opened Wrappers
  import opened Text

  /** The distance from line `current` to line `target` in object-code notation. */
  function Distance(target: nat, current: nat): (r: string)
    ensures |r| >= 1
    ensures r[0] == 'n' <==> target < current
  {
    if target < current then "n" + Decimal(current - target) else Decimal(target - current)
  }

  /** The target line a distance written on line `current` points to: the
      inverse of `Distance`. */
  function Target(d: string, current: nat): Option<int> {
    if d != [] && d[0] == 'n' && AllDigits(d[1..]) then Some(current - DigitsValue(d[1..]))
    else if AllDigits(d) then Some(current + DigitsValue(d))
    else None
  }

  /** Reading a distance back gives the line it was computed from. */
  lemma DistanceRoundTrip(target: nat, current: nat)
    ensures Target(Distance(target, current), current) == Some(target)
  {
    if target < current {
      BackwardRoundTrip(target, current);
    } else {
      ForwardRoundTrip(target, current);
    }
  }

  lemma BackwardRoundTrip(target: nat, current: nat)
    requires target < current
    ensures Target(Distance(target, current), current) == Some(target)
  {
    var d := Decimal(current - target);
    DecimalValue(current - target);
    var r := "n" + d;
    assert Distance(target, current) == r;
    assert r[1..] == d;
    assert Target(r, current) == Some(current - DigitsValue(d));
  }

  lemma ForwardRoundTrip(target: nat, current: nat)
    requires target >= current
    ensures Target(Distance(target, current), current) == Some(target)
  {
    var d := Decimal(target - current);
    DecimalValue(target - current);
    assert Distance(target, current) == d;
    assert IsDigit(d[0]);
    assert Target(d, current) == Some(current + DigitsValue(d));
  }

  /** Distances are rendered with no sign and no leading zero, in decimal. */
  lemma DistanceDigits(target: nat, current: nat)
    ensures target >= current ==> AllDigits(Distance(target, current))
    ensures target < current ==> AllDigits(Distance(target, current)[1..]) && Distance(target, current)[1..] != "0"
  {
    if target < current {
      assert Distance(target, current)[1..] == Decimal(current - target);
    }
  }

  /** The digits of `\.([0-9]+)` when it matches at the start of `s`. */
  function TargetAt(s: string): (m: Option<string>)
    ensures m.Some? ==> m.value != [] && AllDigits(m.value) && 1 + |m.value| <= |s|
    ensures m.Some? ==> s == "." + m.value + s[1 + |m.value|..]
    ensures m.Some? ==> 1 + |m.value| == |s| || !IsDigit(s[1 + |m.value|])
  {
    if s != [] && s[0] == '.' then
      var d := DigitPrefix(s[1..]);
      if d != [] then
        assert s == "." + d + s[1 + |d|..];
        Some(d)
      else None
    else None
  }

  /** `processRelativeAddresses(line, ln)`: every `.N` replaced by its distance. */
  function ProcessRelative(s: string, ln: nat): string
    decreases |s|
  {
    if s == [] then []
    else match TargetAt(s)
      case Some(d) => Distance(DigitsValue(d), ln) + ProcessRelative(s[1 + |d|..], ln)
      case None => [s[0]] + ProcessRelative(s[1..], ln)
  }

  /** Text without `.` is kept. */
  lemma {:induction false} ProcessRelativeCopies(a: string, u: string, ln: nat)
    requires '.' !in a
    ensures ProcessRelative(a + u, ln) == a + ProcessRelative(u, ln)
  {
    if a == [] {
      assert a + u == u;
    } else {
      var s := a + u;
      assert s[0] == a[0];
      CopyStep(s, ln);
      assert s[1..] == a[1..] + u;
      assert '.' !in a[1..];
      ProcessRelativeCopies(a[1..], u, ln);
      ConsConcat(a, ProcessRelative(u, ln));
    }
  }

  lemma CopyStep(s: string, ln: nat)
    requires s != [] && s[0] != '.'
    ensures ProcessRelative(s, ln) == [s[0]] + ProcessRelative(s[1..], ln)
  {
    assert TargetAt(s).None?;
  }

  lemma TargetStep(d: string, b: string, ln: nat)
    requires d != [] && AllDigits(d) && (b == [] || !IsDigit(b[0]))
    ensures ProcessRelative("." + d + b, ln) == Distance(DigitsValue(d), ln) + ProcessRelative(b, ln)
  {
    var u := "." + d + b;
    assert u[1..] == d + b;
    DigitPrefixOf(d, b);
    assert TargetAt(u) == Some(d);
    assert u[1 + |d|..] == b;
  }

  /** A target `.N` written as the decimal of `N`, after `.`-free text and before
      text that does not go on with a digit, becomes the distance from `ln` to `N`. */
  lemma TargetBecomesDistance(a: string, n: nat, b: string, ln: nat)
    requires '.' !in a && (b == [] || !IsDigit(b[0]))
    ensures ProcessRelative(a + "." + Decimal(n) + b, ln) == a + Distance(n, ln) + ProcessRelative(b, ln)
  {
    var d := Decimal(n);
    var u := "." + d + b;
    ConcatAssoc(a, ".", d);
    ConcatAssoc(a, "." + d, b);
    DecimalValue(n);
    TargetStep(d, b, ln);
    ProcessRelativeCopies(a, u, ln);
    ConcatAssoc(a, Distance(n, ln), ProcessRelative(b, ln));
  }
}
