/** The raw-transaction decoder (src/lib/txdecode.ts): a Bitcoin-style
    transaction written as hex text is read field by field, a hex offset
    threaded from one reader to the next. */
module TxDecode {
  import opened Wrappers
  import opened Text

  // ---------------------------------------------------------------- 32-bit integers

  const Two31: int := 0x8000_0000
  const Two32: int := 0x1_0000_0000

  /** ECMAScript `ToUint32`. */
  function ToUint32(x: int): (u: nat)
    ensures u < Two32
  {
    x % Two32
  }

  /** ECMAScript `ToInt32`: the 32-bit two's-complement reading of `ToUint32`. */
  function ToInt32(x: int): (v: int)
    ensures -Two31 <= v < Two31
  {
    var u := ToUint32(x);
    if u >= Two31 then u - Two32 else u
  }

  function Pow2(k: nat): (r: nat)
    ensures r >= 1
  {
    if k == 0 then 1 else 2 * Pow2(k - 1)
  }

  /** `a << k`: the 32-bit pattern of `a` shifted left, read as signed. */
  function Shl32(a: int, k: nat): int
    requires k < 32
  {
    ToInt32(ToUint32(a) * Pow2(k))
  }

  /** Bit `k` of `x`. */
  function Bit(x: nat, k: nat): (b: nat)
    ensures b < 2
  {
    if k == 0 then x % 2 else Bit(x / 2, k - 1)
  }

  /** The low `k` bits of `x & y` and of `x | y`. */
  function AndBits(x: nat, y: nat, k: nat): nat {
    if k == 0 then 0 else 2 * AndBits(x / 2, y / 2, k - 1) + Bit(x, 0) * Bit(y, 0)
  }

  function OrBits(x: nat, y: nat, k: nat): nat {
    if k == 0 then 0 else 2 * OrBits(x / 2, y / 2, k - 1) + if Bit(x, 0) == 1 || Bit(y, 0) == 1 then 1 else 0
  }

  /** `a & b`, `a | b` and `~a` on the 32-bit patterns of their operands. */
  function And32(a: int, b: int): int {
    ToInt32(AndBits(ToUint32(a), ToUint32(b), 32))
  }

  function Or32(a: int, b: int): int {
    ToInt32(OrBits(ToUint32(a), ToUint32(b), 32))
  }

  function Not32(a: int): int {
    ToInt32(Two32 - 1 - ToUint32(a))
  }

  /** Bit `k` of the 32-bit pattern of `a`. */
  predicate HasBit(a: int, k: nat) {
    Bit(ToUint32(a), k) == 1
  }

  lemma Uint32Small(x: int)
    requires 0 <= x < Two32
    ensures ToUint32(x) == x
  {
  }
  lemma NotAllOnes() ensures Not32(0xFFFF_FFFF) == 0 {
    Uint32Small(0xFFFF_FFFF);
  }
  lemma {:induction false} OrNothing(x: nat, k: nat)
    requires x < Pow2(k)
    ensures OrBits(x, 0, k) == x
  {
    if k > 0 {
      OrNothing(x / 2, k - 1);
    }
  }
  lemma Pow2of32()
    ensures Pow2(32) == Two32
  {
    assert Pow2(8) == 256;
    assert Pow2(16) == 0x1_0000;
    assert Pow2(24) == 0x100_0000;
  }
  lemma OrZero(a: int) ensures Or32(a, 0) == ToInt32(a) {
    Uint32Small(0);
    Pow2of32();
    OrNothing(ToUint32(a), 32);
    Uint32Small(ToUint32(a));
  }
  lemma {:induction false} AndSingleBit(x: nat, j: nat, k: nat)
    requires j < k
    ensures AndBits(x, Pow2(j), k) == Pow2(j) * Bit(x, j)
  {
    if j == 0 {
      AndNothing(x / 2, k - 1);
    } else {
      assert Pow2(j) / 2 == Pow2(j - 1);
      AndSingleBit(x / 2, j - 1, k - 1);
    }
  }
  lemma {:induction false} AndNothing(x: nat, k: nat)
    ensures AndBits(x, 0, k) == 0
  {
    if k > 0 {
      AndNothing(x / 2, k - 1);
    }
  }
  lemma {:induction false} BitTop(x: nat, k: nat)
    requires x < Pow2(k + 1)
    ensures Bit(x, k) == 1 <==> x >= Pow2(k)
  {
    if k > 0 {
      BitTop(x / 2, k - 1);
    }
  }
  lemma AndBit(a: int, j: nat)
    requires j < 32
    ensures And32(a, Pow2(j)) == ToInt32(Pow2(j) * Bit(ToUint32(a), j))
  {
    assert Pow2(j) <= Pow2(31) by { PowMono(j, 31); }
    assert Pow2(31) == Two31 by { Pow2of32(); }
    Uint32Small(Pow2(j));
    AndSingleBit(ToUint32(a), j, 32);
  }
  lemma {:induction false} PowMono(i: nat, j: nat)
    requires i <= j
    ensures Pow2(i) <= Pow2(j)
  {
    if i < j {
      PowMono(i, j - 1);
    }
  }
  lemma AndBit31(a: int) ensures And32(a, 0x8000_0000) != 0 <==> ToUint32(a) >= Two31 {
    Pow2of32();
    AndBit(a, 31);
    BitTop(ToUint32(a), 31);
    Uint32Small(Two31);
  }
  lemma AndBit0(a: int)
    ensures And32(a, 1) == 1 <==> HasBit(a, 0)
    ensures And32(a, 1) == 0 <==> !HasBit(a, 0)
  {
    AndBit(a, 0);
  }
  lemma AndBit1(a: int)
    ensures And32(a, 2) != 0 <==> HasBit(a, 1)
  {
    assert Pow2(1) == 2;
    AndBit(a, 1);
  }
  lemma AndBit4(a: int)
    ensures And32(a, 0x10) == 0 <==> !HasBit(a, 4)
  {
    assert Pow2(4) == 16;
    AndBit(a, 4);
  }
  lemma AndBit5(a: int)
    ensures And32(a, 0x20) == 0 <==> !HasBit(a, 5)
  {
    assert Pow2(5) == 32;
    AndBit(a, 5);
  }

  /** The signed value of a 32-bit pattern. */
  function Signed32(u: nat): (v: int)
    requires u < Two32
    ensures -Two31 <= v < Two31 && ToUint32(v) == u
  {
    if u >= Two31 then u - Two32 else u
  }

  lemma ToInt32Small(x: int)
    requires -Two31 <= x < Two31
    ensures ToInt32(x) == x
  {
  }

  // ---------------------------------------------------------------- readers

  /** The error of a read past the end of the text. */
  const Truncated: string := "Unexpected end of transaction"

  /** The error `readVarInt` throws on the prefix byte 0xff. */
  const VarInt0xff: string := "VarInt 0xff not supported"

  /** The error of `hashreverse` on text with no pair of characters: `match`
      returns `null`, from which `reverse` is read. */
  const NoPairs: string := "Cannot read properties of null (reading 'reverse')"

  /** `parseInt(hex.slice(off, off + 2), 16)`. */
  function ByteAt(hex: string, off: nat): (b: nat)
    requires IsHex(hex) && off + 2 <= |hex|
    ensures b < 256
  {
    HexValueBound(hex[off..off + 2]);
    HexValue(hex[off..off + 2])
  }

  /** The four bytes at `off` as an unsigned number, least significant first. */
  function UInt32LE(hex: string, off: nat): (u: nat)
    requires IsHex(hex) && off + 8 <= |hex|
    ensures u < Two32
  {
    ByteAt(hex, off) + 0x100 * ByteAt(hex, off + 2) + 0x1_0000 * ByteAt(hex, off + 4) + 0x100_0000 * ByteAt(hex, off + 6)
  }

  /** `readInt32`: four bytes combined by `Int32Of`; the offset moves 8 characters. */
  function ReadInt32(hex: string, off: nat): (r: Result<(int, nat), string>)
    requires IsHex(hex)
    ensures r.Success? <==> off + 8 <= |hex|
    ensures r.Success? ==> r.value.1 == off + 8
    ensures r.Failure? ==> r.error == Truncated
  {
    if off + 8 > |hex| then Failure(Truncated)
    else
      Success((Int32Of(ByteAt(hex, off), ByteAt(hex, off + 2), ByteAt(hex, off + 4), ByteAt(hex, off + 6)), off + 8))
  }

  /** The bytes combined with shifts and additions, and a value with bit 31 set
      or-ed with `~0xFFFFFFFF`. */
  function Int32Of(b0: int, b1: int, b2: int, b3: int): int {
    var val := b0 + Shl32(b1, 8) + Shl32(b2, 16) + Shl32(b3, 24);
    if And32(val, 0x8000_0000) != 0 then Or32(val, Not32(0xFFFF_FFFF)) else val
  }

  /** `readInt32` reads the two's-complement value of the four bytes, least
      significant first. */
  lemma ReadInt32Signed(hex: string, off: nat)
    requires IsHex(hex) && off + 8 <= |hex|
    ensures ReadInt32(hex, off) == Success((Signed32(UInt32LE(hex, off)), off + 8))
  {
    Int32Combine(ByteAt(hex, off), ByteAt(hex, off + 2), ByteAt(hex, off + 4), ByteAt(hex, off + 6));
  }

  /** The shifts, the sum and the sign extension of `readInt32` on four bytes. */
  lemma Int32Combine(b0: nat, b1: nat, b2: nat, b3: nat)
    requires b0 < 256 && b1 < 256 && b2 < 256 && b3 < 256
    ensures b0 + 0x100 * b1 + 0x1_0000 * b2 + 0x100_0000 * b3 < Two32
    ensures Int32Of(b0, b1, b2, b3) == Signed32(b0 + 0x100 * b1 + 0x1_0000 * b2 + 0x100_0000 * b3)
  {
    ShiftedSum(b0, b1, b2, b3);
    SignExtendKeeps(b0 + Shl32(b1, 8) + Shl32(b2, 16) + Shl32(b3, 24));
  }

  lemma ShiftedSum(b0: nat, b1: nat, b2: nat, b3: nat)
    requires b0 < 256 && b1 < 256 && b2 < 256 && b3 < 256
    ensures b0 + 0x100 * b1 + 0x1_0000 * b2 + 0x100_0000 * b3 < Two32
    ensures b0 + Shl32(b1, 8) + Shl32(b2, 16) + Shl32(b3, 24)
         == Signed32(b0 + 0x100 * b1 + 0x1_0000 * b2 + 0x100_0000 * b3)
  {
    ShlByte(b1, 8);
    ShlByte(b2, 16);
    ShlTopByte(b3);
    SignedSum(b0, b1, b2, b3);
  }

  /** Or-ing `~0xFFFFFFFF` into a value with bit 31 set changes no 32-bit value. */
  lemma SignExtendKeeps(v: int)
    requires -Two31 <= v < Two31
    ensures (if And32(v, 0x8000_0000) != 0 then Or32(v, Not32(0xFFFF_FFFF)) else v) == v
  {
    AndBit31(v);
    if ToUint32(v) >= Two31 {
      NotAllOnes();
      OrZero(v);
      ToInt32Small(v);
    }
  }

  lemma SignedSum(b0: nat, b1: nat, b2: nat, b3: nat)
    requires b0 < 256 && b1 < 256 && b2 < 256 && b3 < 256
    ensures b0 + 0x100 * b1 + 0x1_0000 * b2 + 0x100_0000 * b3 < Two32
    ensures b0 + b1 * 0x100 + b2 * 0x1_0000 + (if b3 >= 0x80 then b3 * 0x100_0000 - Two32 else b3 * 0x100_0000)
         == Signed32(b0 + 0x100 * b1 + 0x1_0000 * b2 + 0x100_0000 * b3)
  {
    var low := b0 + 0x100 * b1 + 0x1_0000 * b2;
    assert low < 0x100_0000;
    assert b3 >= 0x80 <==> low + 0x100_0000 * b3 >= Two31;
  }

  lemma ShlByte(b: nat, k: nat)
    requires b < 256 && (k == 8 || k == 16)
    ensures Shl32(b, k) == if k == 8 then b * 0x100 else b * 0x1_0000
  {
    assert Pow2(8) == 0x100;
    assert Pow2(16) == 0x1_0000;
    assert ToUint32(b) == b;
    assert b * Pow2(k) < Two31;
    assert ToUint32(b * Pow2(k)) == b * Pow2(k);
  }

  lemma ShlTopByte(b: nat)
    requires b < 256
    ensures Shl32(b, 24) == if b >= 0x80 then b * 0x100_0000 - Two32 else b * 0x100_0000
  {
    assert Pow2(24) == 0x100_0000 by {
      assert Pow2(8) == 0x100;
      assert Pow2(16) == 0x1_0000;
    }
    assert ToUint32(b) == b;
    assert ToUint32(b * 0x100_0000) == b * 0x100_0000;
  }

  /** The hex text of `n` in exactly `w` digits, most significant first. */
  function HexFixed(n: nat, w: nat): (s: string)
    ensures |s| == w && IsLowerHex(s)
  {
    if w == 0 then "" else HexFixed(n / 16, w - 1) + [HexDigit(n % 16)]
  }

  /** Reading back `w` digits gives the number, when it fits. */
  lemma {:induction false} HexFixedValue(n: nat, w: nat)
    requires n < Pow16(w)
    ensures HexValue(HexFixed(n, w)) == n
  {
    if w > 0 {
      var s := HexFixed(n, w);
      assert s[..|s| - 1] == HexFixed(n / 16, w - 1);
      HexFixedValue(n / 16, w - 1);
      HexDigitRoundTrip(n % 16);
    }
  }

  /** The bytes of the 32-bit pattern of `v`, least significant first. */
  function Int32Bytes(v: int): (bs: seq<nat>)
    ensures |bs| == 4 && forall i :: 0 <= i < 4 ==> bs[i] < 256
    ensures ToUint32(v) == bs[0] + 0x100 * bs[1] + 0x1_0000 * bs[2] + 0x100_0000 * bs[3]
  {
    var u := ToUint32(v);
    var q1 := u / 0x100;
    var q2 := q1 / 0x100;
    var q3 := q2 / 0x100;
    [u % 0x100, q1 % 0x100, q2 % 0x100, q3]
  }

  /** The eight hex digits `readInt32` reads as `v`. */
  function Int32Hex(v: int): (s: string)
    ensures |s| == 8 && IsLowerHex(s)
  {
    var bs := Int32Bytes(v);
    HexFixed(bs[0], 2) + HexFixed(bs[1], 2) + HexFixed(bs[2], 2) + HexFixed(bs[3], 2)
  }

  /** `readInt32` reads back every 32-bit signed value written as its bytes. */
  lemma ReadInt32RoundTrip(v: int, rest: string)
    requires -Two31 <= v < Two31 && IsHex(rest)
    ensures IsHex(Int32Hex(v) + rest)
    ensures ReadInt32(Int32Hex(v) + rest, 0) == Success((v, 8))
  {
    var bs := Int32Bytes(v);
    var e := Int32Hex(v);
    var hex := e + rest;
    assert IsHex(hex);
    assert hex[0..2] == e[0..2] == HexFixed(bs[0], 2);
    assert hex[2..4] == e[2..4] == HexFixed(bs[1], 2);
    assert hex[4..6] == e[4..6] == HexFixed(bs[2], 2);
    assert hex[6..8] == e[6..8] == HexFixed(bs[3], 2);
    ByteFromHex(hex, 0, bs[0]);
    ByteFromHex(hex, 2, bs[1]);
    ByteFromHex(hex, 4, bs[2]);
    ByteFromHex(hex, 6, bs[3]);
    assert UInt32LE(hex, 0) == ToUint32(v);
    ReadInt32Signed(hex, 0);
    SignedOfPattern(v);
  }

  /** A value in the signed 32-bit range is the signed reading of its pattern. */
  lemma SignedOfPattern(v: int)
    requires -Two31 <= v < Two31
    ensures Signed32(ToUint32(v)) == v
  {
    if v >= 0 {
      assert ToUint32(v) == v;
    } else {
      assert v + Two32 == v % Two32;
    }
  }

  lemma ByteFromHex(hex: string, off: nat, d: nat)
    requires IsHex(hex) && off + 2 <= |hex| && d < 256 && hex[off..off + 2] == HexFixed(d, 2)
    ensures ByteAt(hex, off) == d
  {
    assert Pow16(2) == 256;
    HexFixedValue(d, 2);
  }

  /** `readVarInt`: a prefix byte below 0xfd is the value; 0xfd and 0xfe are
      followed by 4 and 8 hex digits read in written order; 0xff is refused. */
  function ReadVarInt(hex: string, off: nat): (r: Result<(nat, nat), string>)
    requires IsHex(hex)
    ensures r.Success? ==> off + 2 <= r.value.1 <= |hex|
    ensures r.Failure? ==> r.error == Truncated || r.error == VarInt0xff
  {
    if off + 2 > |hex| then Failure(Truncated)
    else
      var first := ByteAt(hex, off);
      if first < 0xfd then Success((first, off + 2))
      else if first == 0xfd then
        if off + 6 > |hex| then Failure(Truncated) else Success((HexValue(hex[off + 2..off + 6]), off + 6))
      else if first == 0xfe then
        if off + 10 > |hex| then Failure(Truncated) else Success((HexValue(hex[off + 2..off + 10]), off + 10))
      else Failure(VarInt0xff)
  }

  /** The outcome of `readVarInt` by prefix byte. */
  lemma ReadVarIntCases(hex: string, off: nat)
    requires IsHex(hex) && off + 2 <= |hex|
    ensures var first := ByteAt(hex, off); var r := ReadVarInt(hex, off);
      && (first < 0xfd ==> r == Success((first, off + 2)))
      && (first == 0xfd && off + 6 <= |hex| ==> r == Success((HexValue(hex[off + 2..off + 6]), off + 6)))
      && (first == 0xfe && off + 10 <= |hex| ==> r == Success((HexValue(hex[off + 2..off + 10]), off + 10)))
      && (first == 0xff <==> r == Failure(VarInt0xff))
  {
  }

  /** The shortest hex text `readVarInt` reads as `n`. */
  function VarIntHex(n: nat): (s: string)
    requires n < Two32
    ensures IsLowerHex(s)
  {
    if n < 0xfd then HexFixed(n, 2)
    else if n < 0x1_0000 then "fd" + HexFixed(n, 4)
    else "fe" + HexFixed(n, 8)
  }

  /** `readVarInt` reads back every encoded count and moves past it. */
  lemma ReadVarIntRoundTrip(n: nat, rest: string)
    requires n < Two32 && IsHex(rest)
    ensures IsHex(VarIntHex(n) + rest)
    ensures ReadVarInt(VarIntHex(n) + rest, 0) == Success((n, |VarIntHex(n)|))
  {
    var e := VarIntHex(n);
    var hex := e + rest;
    assert hex[..|e|] == e;
    assert IsHex(hex);
    assert Pow16(2) == 256;
    if n < 0xfd {
      ByteFromHex(hex, 0, n);
    } else {
      assert hex[0..2] == HexFixed(if n < 0x1_0000 then 0xfd else 0xfe, 2);
      ByteFromHex(hex, 0, if n < 0x1_0000 then 0xfd else 0xfe);
      if n < 0x1_0000 {
        assert Pow16(4) == 0x1_0000;
        assert hex[2..6] == HexFixed(n, 4);
        HexFixedValue(n, 4);
      } else {
        assert Pow16(8) == Two32;
        assert hex[2..10] == HexFixed(n, 8);
        HexFixedValue(n, 8);
      }
    }
  }

  /** `readUInt64LE`: the decimal text of the 16 hex digits at `off`, read in
      written order (`BigInt('0x' + …).toString()`); the offset moves 16. */
  function ReadUInt64LE(hex: string, off: nat): (r: Result<(string, nat), string>)
    requires IsHex(hex)
    ensures r.Success? <==> off + 16 <= |hex|
    ensures r.Success? ==> r.value.1 == off + 16
    ensures r.Failure? ==> r.error == Truncated
  {
    if off + 16 > |hex| then Failure(Truncated)
    else Success((Decimal(HexValue(hex[off..off + 16])), off + 16))
  }

  /** The value read is the number the 16 digits denote, below 2^64, in decimal
      without leading zeros. */
  lemma ReadUInt64Value(hex: string, off: nat)
    requires IsHex(hex) && off + 16 <= |hex|
    ensures var v := ReadUInt64LE(hex, off).value.0;
      AllDigits(v) && DigitsValue(v) == HexValue(hex[off..off + 16]) < Pow16(16)
      && (|v| > 1 ==> v[0] != '0')
  {
    DecimalValue(HexValue(hex[off..off + 16]));
    HexValueBound(hex[off..off + 16]);
  }

  /** `readUInt64LE` reads back every 64-bit number written in 16 digits. */
  lemma ReadUInt64RoundTrip(n: nat, rest: string)
    requires n < Pow16(16) && IsHex(rest)
    ensures IsHex(HexFixed(n, 16) + rest)
    ensures ReadUInt64LE(HexFixed(n, 16) + rest, 0) == Success((Decimal(n), 16))
  {
    var hex := HexFixed(n, 16) + rest;
    assert hex[0..16] == HexFixed(n, 16);
    HexFixedValue(n, 16);
  }

  // ---------------------------------------------------------------- hashreverse

  /** The matches of `/.{2}/g`: successive pairs of characters that are not
      line terminators, scanning from the left. */
  function Pairs(s: string): seq<string>
    decreases |s|
  {
    if |s| < 2 then []
    else if !IsLineTerminator(s[0]) && !IsLineTerminator(s[1]) then [s[..2]] + Pairs(s[2..])
    else Pairs(s[1..])
  }

  function Concat(ps: seq<string>): string {
    if ps == [] then "" else ps[0] + Concat(ps[1..])
  }

  function Reverse<T>(xs: seq<T>): (r: seq<T>)
    ensures |r| == |xs| && forall i :: 0 <= i < |xs| ==> r[i] == xs[|xs| - 1 - i]
  {
    if xs == [] then [] else Reverse(xs[1..]) + [xs[0]]
  }

  /** `hashreverse`: the pairs in reverse order, joined. */
  function HashReverse(s: string): Result<string, string> {
    var ps := Pairs(s);
    if ps == [] then Failure(NoPairs) else Success(Concat(Reverse(ps)))
  }

  /** On text without line terminators the pairs are the consecutive two-character
      slices; an odd last character is dropped. */
  lemma {:induction false} PairsOfClean(s: string)
    requires NoLineTerminator(s)
    ensures |Pairs(s)| == |s| / 2
    ensures forall i :: 0 <= i < |s| / 2 ==> Pairs(s)[i] == s[2 * i..2 * i + 2]
    decreases |s|
  {
    if |s| >= 2 {
      var t := s[2..];
      assert NoLineTerminator(t) by {
        forall i | 0 <= i < |t| ensures !IsLineTerminator(t[i]) {
          assert t[i] == s[i + 2];
        }
      }
      PairsOfClean(t);
      forall i | 0 <= i < |s| / 2 ensures Pairs(s)[i] == s[2 * i..2 * i + 2] {
        if i > 0 {
          assert Pairs(s)[i] == Pairs(t)[i - 1];
          assert t[2 * (i - 1)..2 * (i - 1) + 2] == s[2 * i..2 * i + 2];
        }
      }
    }
  }

  /** Pairs joined: pair `i` sits at index `2 * i`. */
  lemma {:induction false} ConcatPairs(ps: seq<string>)
    requires forall i :: 0 <= i < |ps| ==> |ps[i]| == 2
    ensures |Concat(ps)| == 2 * |ps|
    ensures forall i :: 0 <= i < |ps| ==> Concat(ps)[2 * i..2 * i + 2] == ps[i]
  {
    if ps != [] {
      ConcatPairs(ps[1..]);
      var c := Concat(ps);
      var rest := Concat(ps[1..]);
      assert c == ps[0] + rest;
      forall i | 0 <= i < |ps| ensures c[2 * i..2 * i + 2] == ps[i] {
        if i > 0 {
          assert c[2 * i..2 * i + 2] == rest[2 * (i - 1)..2 * (i - 1) + 2];
          assert ps[1..][i - 1] == ps[i];
        }
      }
    }
  }

  /** Two texts of length `2 * n` that agree on every pair are equal. */
  lemma PairwiseEqual(a: string, b: string, n: nat)
    requires |a| == 2 * n && |b| == 2 * n
    requires forall i :: 0 <= i < n ==> a[2 * i..2 * i + 2] == b[2 * i..2 * i + 2]
    ensures a == b
  {
    forall j | 0 <= j < 2 * n ensures a[j] == b[j] {
      var i := j / 2;
      assert a[2 * i..2 * i + 2][j - 2 * i] == b[2 * i..2 * i + 2][j - 2 * i];
    }
  }

  /** On text of even length at least 2 without line terminators, `hashreverse`
      keeps the length and puts byte `i` where byte `n - 1 - i` was. */
  lemma HashReverseBytes(s: string)
    requires NoLineTerminator(s) && |s| % 2 == 0 && |s| >= 2
    ensures HashReverse(s).Success? && |HashReverse(s).value| == |s|
    ensures var r := HashReverse(s).value; var n := |s| / 2;
      forall i :: 0 <= i < n ==> r[2 * i..2 * i + 2] == s[2 * (n - 1 - i)..2 * (n - 1 - i) + 2]
  {
    PairsOfClean(s);
    var ps := Pairs(s);
    var rs := Reverse(ps);
    var n := |s| / 2;
    assert forall i :: 0 <= i < n ==> rs[i] == ps[n - 1 - i];
    ConcatPairs(rs);
    var r := Concat(rs);
    forall i | 0 <= i < n ensures r[2 * i..2 * i + 2] == s[2 * (n - 1 - i)..2 * (n - 1 - i) + 2] {
      assert r[2 * i..2 * i + 2] == rs[i] == ps[n - 1 - i];
    }
  }

  /** `hashreverse` is its own inverse on such text. */
  lemma HashReverseInvolution(s: string)
    requires NoLineTerminator(s) && |s| % 2 == 0 && |s| >= 2
    ensures HashReverse(s).Success? && HashReverse(HashReverse(s).value) == Success(s)
  {
    HashReverseBytes(s);
    var r := HashReverse(s).value;
    var n := |s| / 2;
    assert NoLineTerminator(r) by {
      forall j | 0 <= j < |r| ensures !IsLineTerminator(r[j]) {
        var i := j / 2;
        assert r[j] == r[2 * i..2 * i + 2][j - 2 * i];
        assert s[2 * (n - 1 - i) + (j - 2 * i)] == s[2 * (n - 1 - i)..2 * (n - 1 - i) + 2][j - 2 * i];
      }
    }
    HashReverseBytes(r);
    var s' := HashReverse(r).value;
    forall i | 0 <= i < n ensures s'[2 * i..2 * i + 2] == s[2 * i..2 * i + 2] {
      assert s'[2 * i..2 * i + 2] == r[2 * (n - 1 - i)..2 * (n - 1 - i) + 2];
      assert n - 1 - (n - 1 - i) == i;
    }
    PairwiseEqual(s', s, n);
  }

  /** With fewer than two characters there is no pair and the call throws. */
  lemma HashReverseShort(s: string)
    requires |s| < 2
    ensures HashReverse(s) == Failure(NoPairs)
  {
  }

  lemma HexClean(s: string)
    requires IsHex(s)
    ensures NoLineTerminator(s)
  {
    forall i | 0 <= i < |s| ensures !IsLineTerminator(s[i]) {
      assert IsHexDigit(s[i]);
    }
  }

  /** A hash field: the 64 characters at `off`, byte-reversed. */
  function ReadHash(hex: string, off: nat): (r: Result<(string, nat), string>)
    requires IsHex(hex)
    ensures r.Success? <==> off + 64 <= |hex|
    ensures r.Success? ==> r.value.1 == off + 64 && |r.value.0| == 64
    ensures r.Success? ==> HashReverse(hex[off..off + 64]).Success? && r.value.0 == HashReverse(hex[off..off + 64]).value
    ensures r.Success? ==> ReversedField(r.value.0, hex, off) && IsHashAt(r.value.0, hex, off)
    ensures r.Failure? ==> r.error == Truncated
  {
    if off + 64 > |hex| then Failure(Truncated)
    else
      HashFieldReversed(hex, off);
      Success((HashReverse(hex[off..off + 64]).value, off + 64))
  }

  /** `h` holds the 32 bytes of the 64 characters at `off`, in reverse order. */
  predicate ReversedField(h: string, hex: string, off: nat) {
    && off + 64 <= |hex| && |h| == 64
    && forall i :: 0 <= i < 32 ==> h[2 * i..2 * i + 2] == hex[off + 62 - 2 * i..off + 64 - 2 * i]
  }

  /** `h` is `hashreverse` of the 64 characters at `off`. */
  predicate IsHashAt(h: string, hex: string, off: nat) {
    off + 64 <= |hex| && HashReverse(hex[off..off + 64]).Success? && h == HashReverse(hex[off..off + 64]).value
  }

  /** A reversed field is exactly what `hashreverse` makes of the 64 characters. */
  lemma ReversedFieldIsHashReverse(h: string, hex: string, off: nat)
    requires IsHex(hex) && ReversedField(h, hex, off)
    ensures IsHashAt(h, hex, off)
  {
    HashFieldReversed(hex, off);
    var r := HashReverse(hex[off..off + 64]).value;
    PairwiseEqual(h, r, 32);
  }

  /** The 32 bytes of a hash field, in reverse order. */
  lemma HashFieldReversed(hex: string, off: nat)
    requires IsHex(hex) && off + 64 <= |hex|
    ensures HashReverse(hex[off..off + 64]).Success?
    ensures ReversedField(HashReverse(hex[off..off + 64]).value, hex, off)
  {
    var field := hex[off..off + 64];
    assert IsHex(field);
    HexClean(field);
    HashReverseBytes(field);
    var r := HashReverse(field).value;
    forall i | 0 <= i < 32 ensures r[2 * i..2 * i + 2] == hex[off + 62 - 2 * i..off + 64 - 2 * i] {
      assert r[2 * i..2 * i + 2] == field[2 * (31 - i)..2 * (31 - i) + 2];
    }
  }

  // ---------------------------------------------------------------- transactions

  datatype TxIn = TxIn(prevHash: string, prevIndex: int, sigIndex: int, sequence: int)

  datatype TxOut = TxOut(tokenType: nat, value: string, rights: Option<string>, pkScript: string)

  /** The decoded transaction; `txDef` is always empty. */
  datatype DecodedTx = DecodedTx(version: int, txDef: seq<string>, txIns: seq<TxIn>, txOuts: seq<TxOut>,
                                 lockTime: Option<int>, sigs: seq<string>)

  /** The body of the txIn loop: a reversed hash and three 32-bit fields. */
  function ReadTxIn(hex: string, off: nat): (r: Result<(TxIn, nat), string>)
    requires IsHex(hex)
    ensures r.Success? <==> off + 88 <= |hex|
    ensures r.Success? ==> r.value.1 == off + 88
    ensures r.Success? ==> ReversedField(r.value.0.prevHash, hex, off) && IsHashAt(r.value.0.prevHash, hex, off)
  {
    var h :- ReadHash(hex, off);
    var a :- ReadInt32(hex, h.1);
    var b :- ReadInt32(hex, a.1);
    var c :- ReadInt32(hex, b.1);
    Success((TxIn(h.0, a.0, b.0, c.0), c.1))
  }

  /** `2 * len` hex characters at `off`. */
  function ReadBytes(hex: string, off: nat, len: nat): (r: Result<(string, nat), string>)
    ensures r.Success? ==> r.value.1 == off + 2 * len <= |hex| && r.value.0 == hex[off..off + 2 * len]
    ensures r.Success? ==> |r.value.0| % 2 == 0
  {
    if off + 2 * len > |hex| then Failure(Truncated) else Success((hex[off..off + 2 * len], off + 2 * len))
  }

  /** The value of a txOut: a reversed hash when bit 0 of the token type is set,
      otherwise a 64-bit number in decimal. */
  function ReadValue(hex: string, off: nat, tokenType: nat): (r: Result<(string, nat), string>)
    requires IsHex(hex)
    ensures r.Success? && And32(tokenType, 1) == 1 ==> |r.value.0| == 64 && r.value.1 == off + 64
    ensures r.Success? && And32(tokenType, 1) == 1 ==> ReversedField(r.value.0, hex, off) && IsHashAt(r.value.0, hex, off)
    ensures r.Success? && And32(tokenType, 1) != 1 ==>
      && off + 16 <= |hex| && r.value.1 == off + 16 && AllDigits(r.value.0) && DigitsValue(r.value.0) == HexValue(hex[off..off + 16])
  {
    if And32(tokenType, 1) == 1 then ReadHash(hex, off)
    else
      if off + 16 <= |hex| then ReadUInt64Value(hex, off); ReadUInt64LE(hex, off) else ReadUInt64LE(hex, off)
  }

  /** The rights of a txOut: a reversed hash exactly when bit 1 of the token
      type is set. */
  function ReadRights(hex: string, off: nat, tokenType: nat): (r: Result<(Option<string>, nat), string>)
    requires IsHex(hex)
    ensures r.Success? ==> (r.value.0.Some? <==> And32(tokenType, 2) != 0)
    ensures r.Success? && r.value.0.Some? ==> |r.value.0.value| == 64 && r.value.1 == off + 64
    ensures r.Success? && r.value.0.Some? ==> ReversedField(r.value.0.value, hex, off) && IsHashAt(r.value.0.value, hex, off)
    ensures r.Success? && r.value.0.None? ==> r.value.1 == off
  {
    if And32(tokenType, 2) != 0 then
      var h :- ReadHash(hex, off);
      Success((Some(h.0), h.1))
    else Success((None, off))
  }

  /** The body of the txOut loop: the token type, its value and rights, and the
      length-prefixed script. */
  function ReadTxOut(hex: string, off: nat): (r: Result<(TxOut, nat), string>)
    requires IsHex(hex)
    ensures r.Success? ==> r.value.1 > off && |r.value.0.pkScript| % 2 == 0
  {
    var t :- ReadVarInt(hex, off);
    var v :- ReadValue(hex, t.1, t.0);
    var rt :- ReadRights(hex, v.1, t.0);
    var p :- ReadVarInt(hex, rt.1);
    var script :- ReadBytes(hex, p.1, p.0);
    Success((TxOut(t.0, v.0, rt.0, script.0), script.1))
  }

  /** The fields of a txOut follow its token type. */
  lemma TxOutFields(hex: string, off: nat)
    requires IsHex(hex) && ReadTxOut(hex, off).Success?
    ensures var out := ReadTxOut(hex, off).value.0;
      && (out.rights.Some? <==> HasBit(out.tokenType, 1))
      && (out.rights.Some? ==> |out.rights.value| == 64)
      && (HasBit(out.tokenType, 0) ==> |out.value| == 64)
      && (!HasBit(out.tokenType, 0) ==> AllDigits(out.value))
    ensures var t := ReadVarInt(hex, off).value;
      var v := ReadValue(hex, t.1, t.0).value;
      var rt := ReadRights(hex, v.1, t.0).value;
      var p := ReadVarInt(hex, rt.1).value;
      && |ReadTxOut(hex, off).value.0.pkScript| == 2 * p.0
      && ReadTxOut(hex, off).value.0.pkScript == hex[p.1..p.1 + 2 * p.0]
      && ReadTxOut(hex, off).value.1 == p.1 + 2 * p.0
    ensures var t := ReadVarInt(hex, off).value;
      var v := ReadValue(hex, t.1, t.0).value;
      var out := ReadTxOut(hex, off).value.0;
      && (HasBit(out.tokenType, 0) ==> ReversedField(out.value, hex, t.1) && IsHashAt(out.value, hex, t.1))
      && (out.rights.Some? ==> ReversedField(out.rights.value, hex, v.1) && IsHashAt(out.rights.value, hex, v.1))
  {
    var t := ReadVarInt(hex, off).value;
    var v := ReadValue(hex, t.1, t.0).value;
    var rt := ReadRights(hex, v.1, t.0).value;
    var p := ReadVarInt(hex, rt.1).value;
    var sc := ReadBytes(hex, p.1, p.0).value;
    assert ReadTxOut(hex, off) == Success((TxOut(t.0, v.0, rt.0, sc.0), sc.1));
    AndBit0(t.0);
    AndBit1(t.0);
  }

  /** The body of the signature loop: a length-prefixed script. */
  function ReadSig(hex: string, off: nat): (r: Result<(string, nat), string>)
    requires IsHex(hex)
    ensures r.Success? ==> r.value.1 > off && |r.value.0| % 2 == 0
  {
    var p :- ReadVarInt(hex, off);
    ReadBytes(hex, p.1, p.0)
  }

  /** `n` txIns read one after another from `off`: exactly `n` of them, 88
      characters each. */
  function TxInsFrom(hex: string, off: nat, n: nat): (r: Result<(seq<TxIn>, nat), string>)
    requires IsHex(hex)
    ensures r.Success? ==> |r.value.0| == n && r.value.1 == off + 88 * n
    decreases n
  {
    if n == 0 then Success(([], off))
    else
      var x :- ReadTxIn(hex, off);
      var rest :- TxInsFrom(hex, x.1, n - 1);
      Success(([x.0] + rest.0, rest.1))
  }

  /** `n` txOuts read one after another from `off`: exactly `n` of them. */
  function TxOutsFrom(hex: string, off: nat, n: nat): (r: Result<(seq<TxOut>, nat), string>)
    requires IsHex(hex)
    ensures r.Success? ==> |r.value.0| == n && r.value.1 >= off
    decreases n
  {
    if n == 0 then Success(([], off))
    else
      var x :- ReadTxOut(hex, off);
      var rest :- TxOutsFrom(hex, x.1, n - 1);
      Success(([x.0] + rest.0, rest.1))
  }

  /** `n` signature scripts read one after another from `off`: exactly `n` of them. */
  function SigsFrom(hex: string, off: nat, n: nat): (r: Result<(seq<string>, nat), string>)
    requires IsHex(hex)
    ensures r.Success? ==> |r.value.0| == n && r.value.1 >= off
    decreases n
  {
    if n == 0 then Success(([], off))
    else
      var x :- ReadSig(hex, off);
      var rest :- SigsFrom(hex, x.1, n - 1);
      Success(([x.0] + rest.0, rest.1))
  }

  /** The version, then the txDef count, read only when version bit 5 (0x20)
      is clear; the result is the version and the offset after the count. */
  function Header(hex: string): (r: Result<(int, nat), string>)
    requires IsHex(hex)
  {
    var v :- ReadInt32(hex, 0);
    if And32(v.0, 0x20) == 0 then
      var d :- ReadVarInt(hex, v.1);
      Success((v.0, d.1))
    else Success((v.0, v.1))
  }

  /** The lock time, read only when version bit 4 (0x10) is clear. */
  function LockTimeAt(hex: string, off: nat, version: int): (r: Result<(Option<int>, nat), string>)
    requires IsHex(hex)
    ensures r.Success? ==> (r.value.0.Some? <==> !HasBit(version, 4))
  {
    AndBit4(version);
    if And32(version, 0x10) == 0 then
      var lt :- ReadInt32(hex, off);
      Success((Some(lt.0), lt.1))
    else Success((None, off))
  }

  /** `parseRawTx`: the text lower-cased, then each section in turn. */
  function Decoded(hex: string): Result<DecodedTx, string>
    requires IsHex(hex)
  {
    LowerIsHex(hex);
    Sections(LowerHex(hex))
  }

  lemma LowerIsHex(s: string)
    requires IsHex(s)
    ensures IsHex(LowerHex(s))
  {
    var l := LowerHex(s);
    forall i | 0 <= i < |l| ensures IsHexDigit(l[i]) {
      assert IsLowerHexDigit(l[i]);
    }
  }

  /** The sections of a transaction: the header, the txIns, the txOuts, the
      lock time and the signatures. */
  function Sections(h: string): Result<DecodedTx, string>
    requires IsHex(h)
  {
    var hd :- Header(h);
    var nIn :- ReadVarInt(h, hd.1);
    var ins :- TxInsFrom(h, nIn.1, nIn.0);
    var nOut :- ReadVarInt(h, ins.1);
    var outs :- TxOutsFrom(h, nOut.1, nOut.0);
    var lt :- LockTimeAt(h, outs.1, hd.0);
    var nSig :- ReadVarInt(h, lt.1);
    var sigs :- SigsFrom(h, nSig.1, nSig.0);
    Success(DecodedTx(hd.0, [], ins.0, outs.0, lt.0, sigs.0))
  }

  /** The txDef count is consumed exactly when version bit 5 is clear. */
  lemma HeaderGate(hex: string)
    requires IsHex(hex) && Header(hex).Success?
    ensures var v := Header(hex).value;
      && ReadInt32(hex, 0) == Success((v.0, 8))
      && (HasBit(v.0, 5) ==> v.1 == 8)
      && (!HasBit(v.0, 5) ==> ReadVarInt(hex, 8).Success? && v.1 == ReadVarInt(hex, 8).value.1)
  {
    AndBit5(ReadInt32(hex, 0).value.0);
  }

  /** The lock time is present exactly when version bit 4 is clear, and `txDef`
      is always empty. */
  lemma DecodedGates(hex: string)
    requires IsHex(hex) && Decoded(hex).Success?
    ensures var tx := Decoded(hex).value;
      (tx.lockTime.Some? <==> !HasBit(tx.version, 4)) && tx.txDef == []
  {
    LowerIsHex(hex);
  }

  lemma {:induction false} LowerHexIdempotent(s: string)
    requires IsHex(s)
    ensures LowerHex(LowerHex(s)) == LowerHex(s)
  {
    var l := LowerHex(s);
    forall i | 0 <= i < |s| ensures LowerHex(l)[i] == l[i] {
      assert IsLowerHexDigit(l[i]);
    }
  }

  /** The input is lower-cased first: text differing only in the case of its
      letters decodes alike, and decoding the lower-cased text changes nothing. */
  lemma DecodedIgnoresCase(a: string, b: string)
    requires IsHex(a) && IsHex(b) && LowerHex(a) == LowerHex(b)
    ensures Decoded(a) == Decoded(b)
    ensures IsHex(LowerHex(a)) && Decoded(LowerHex(a)) == Decoded(a)
  {
    LowerIsHex(a);
    LowerHexIdempotent(a);
    assert Decoded(a) == Sections(LowerHex(a));
    assert Decoded(b) == Sections(LowerHex(b));
    assert Decoded(LowerHex(a)) == Sections(LowerHex(LowerHex(a)));
  }

  // ---------------------------------------------------------------- the decoder

  function Prepend<T>(xs: seq<T>, r: Result<(seq<T>, nat), string>): Result<(seq<T>, nat), string> {
    match r
    case Success(v) => Success((xs + v.0, v.1))
    case Failure(e) => Failure(e)
  }

  lemma PrependNil<T>(xs: seq<T>, off: nat)
    ensures Prepend(xs, Success(([], off))) == Success((xs, off))
    ensures forall r: Result<(seq<T>, nat), string> :: Prepend([], r) == r
  {
    assert xs + [] == xs;
    forall r: Result<(seq<T>, nat), string> ensures Prepend([], r) == r {
      if r.Success? {
        assert [] + r.value.0 == r.value.0;
      }
    }
  }

  lemma TxInsStep(hex: string, acc: seq<TxIn>, off: nat, m: nat)
    requires IsHex(hex) && m > 0
    ensures var x := ReadTxIn(hex, off);
      Prepend(acc, TxInsFrom(hex, off, m))
      == if x.Failure? then Failure(x.error) else Prepend(acc + [x.value.0], TxInsFrom(hex, x.value.1, m - 1))
  {
    var x := ReadTxIn(hex, off);
    if x.Success? && TxInsFrom(hex, x.value.1, m - 1).Success? {
      var rest := TxInsFrom(hex, x.value.1, m - 1);
      assert acc + ([x.value.0] + rest.value.0) == acc + [x.value.0] + rest.value.0;
    }
  }

  /** The txIn loop. */
  method ReadTxIns(hex: string, off: nat, n: nat) returns (r: Result<(seq<TxIn>, nat), string>)
    requires IsHex(hex)
    ensures r == TxInsFrom(hex, off, n)
  {
    var txIns: seq<TxIn> := [];
    var offset := off;
    var i := 0;
    PrependNil(txIns, off);
    while i < n
      invariant 0 <= i <= n
      invariant TxInsFrom(hex, off, n) == Prepend(txIns, TxInsFrom(hex, offset, n - i))
    {
      var x := ReadTxIn(hex, offset);
      TxInsStep(hex, txIns, offset, n - i);
      if x.Failure? {
        return Failure(x.error);
      }
      txIns := txIns + [x.value.0];
      offset := x.value.1;
      i := i + 1;
    }
    PrependNil(txIns, offset);
    r := Success((txIns, offset));
  }

  lemma TxOutsStep(hex: string, acc: seq<TxOut>, off: nat, m: nat)
    requires IsHex(hex) && m > 0
    ensures var x := ReadTxOut(hex, off);
      Prepend(acc, TxOutsFrom(hex, off, m))
      == if x.Failure? then Failure(x.error) else Prepend(acc + [x.value.0], TxOutsFrom(hex, x.value.1, m - 1))
  {
    var x := ReadTxOut(hex, off);
    if x.Success? && TxOutsFrom(hex, x.value.1, m - 1).Success? {
      var rest := TxOutsFrom(hex, x.value.1, m - 1);
      assert acc + ([x.value.0] + rest.value.0) == acc + [x.value.0] + rest.value.0;
    }
  }

  /** The txOut loop. */
  method ReadTxOuts(hex: string, off: nat, n: nat) returns (r: Result<(seq<TxOut>, nat), string>)
    requires IsHex(hex)
    ensures r == TxOutsFrom(hex, off, n)
  {
    var txOuts: seq<TxOut> := [];
    var offset := off;
    var i := 0;
    PrependNil(txOuts, off);
    while i < n
      invariant 0 <= i <= n
      invariant TxOutsFrom(hex, off, n) == Prepend(txOuts, TxOutsFrom(hex, offset, n - i))
    {
      var x := ReadTxOut(hex, offset);
      TxOutsStep(hex, txOuts, offset, n - i);
      if x.Failure? {
        return Failure(x.error);
      }
      txOuts := txOuts + [x.value.0];
      offset := x.value.1;
      i := i + 1;
    }
    PrependNil(txOuts, offset);
    r := Success((txOuts, offset));
  }

  lemma SigsStep(hex: string, acc: seq<string>, off: nat, m: nat)
    requires IsHex(hex) && m > 0
    ensures var x := ReadSig(hex, off);
      Prepend(acc, SigsFrom(hex, off, m))
      == if x.Failure? then Failure(x.error) else Prepend(acc + [x.value.0], SigsFrom(hex, x.value.1, m - 1))
  {
    var x := ReadSig(hex, off);
    if x.Success? && SigsFrom(hex, x.value.1, m - 1).Success? {
      var rest := SigsFrom(hex, x.value.1, m - 1);
      assert acc + ([x.value.0] + rest.value.0) == acc + [x.value.0] + rest.value.0;
    }
  }

  /** The signature loop. */
  method ReadSigs(hex: string, off: nat, n: nat) returns (r: Result<(seq<string>, nat), string>)
    requires IsHex(hex)
    ensures r == SigsFrom(hex, off, n)
  {
    var sigs: seq<string> := [];
    var offset := off;
    var i := 0;
    PrependNil(sigs, off);
    while i < n
      invariant 0 <= i <= n
      invariant SigsFrom(hex, off, n) == Prepend(sigs, SigsFrom(hex, offset, n - i))
    {
      var x := ReadSig(hex, offset);
      SigsStep(hex, sigs, offset, n - i);
      if x.Failure? {
        return Failure(x.error);
      }
      sigs := sigs + [x.value.0];
      offset := x.value.1;
      i := i + 1;
    }
    PrependNil(sigs, offset);
    r := Success((sigs, offset));
  }

  /** `parseRawTx`: the offset threaded through the sections. */
  method ParseRawTx(hex: string) returns (r: Result<DecodedTx, string>)
    requires IsHex(hex)
    ensures r == Decoded(hex)
  {
    LowerIsHex(hex);
    var h := LowerHex(hex);
    var hd := Header(h);
    if hd.Failure? {
      return Failure(hd.error);
    }
    var version, offset := hd.value.0, hd.value.1;
    var nIn := ReadVarInt(h, offset);
    if nIn.Failure? {
      return Failure(nIn.error);
    }
    var ins := ReadTxIns(h, nIn.value.1, nIn.value.0);
    if ins.Failure? {
      return Failure(ins.error);
    }
    offset := ins.value.1;
    var nOut := ReadVarInt(h, offset);
    if nOut.Failure? {
      return Failure(nOut.error);
    }
    var outs := ReadTxOuts(h, nOut.value.1, nOut.value.0);
    if outs.Failure? {
      return Failure(outs.error);
    }
    offset := outs.value.1;
    var lt := LockTimeAt(h, offset, version);
    if lt.Failure? {
      return Failure(lt.error);
    }
    offset := lt.value.1;
    var nSig := ReadVarInt(h, offset);
    if nSig.Failure? {
      return Failure(nSig.error);
    }
    var sigs := ReadSigs(h, nSig.value.1, nSig.value.0);
    if sigs.Failure? {
      return Failure(sigs.error);
    }
    r := Success(DecodedTx(version, [], ins.value.0, outs.value.0, lt.value.0, sigs.value.0));
  }
}
