/** String primitives of the JavaScript runtime that the assembler and the
    transaction decoder rely on: character classes, trim, split and join,
    decimal and hexadecimal rendering, and UTF-8 encoding. */
module Text {

  /** A byte, the unit of bytecode and of hashed data. */
  type byte = x: int | 0 <= x < 256

  // ---------------------------------------------------------------- classes

  /** JavaScript's WhiteSpace and LineTerminator characters: what `trim` removes
      and what `\s` matches. */
  predicate IsWhite(c: char) {
    c == '\t' || c == '\n' || c == '\U{B}' || c == '\U{C}' || c == '\r' || c == ' '
    || c == '\U{A0}' || c == '\U{1680}' || ('\U{2000}' <= c <= '\U{200A}')
    || c == '\U{2028}' || c == '\U{2029}' || c == '\U{202F}' || c == '\U{205F}'
    || c == '\U{3000}' || c == '\U{FEFF}'
  }

  /** The characters that `.` in a regular expression does not match. */
  predicate IsLineTerminator(c: char) {
    c == '\n' || c == '\r' || c == '\U{2028}' || c == '\U{2029}'
  }

  /** True when no character of `s` is a line terminator, so that `.*` spans it. */
  predicate NoLineTerminator(s: string) {
    forall i :: 0 <= i < |s| ==> !IsLineTerminator(s[i])
  }

  /** The word characters that `\b` and `[0-9a-z_]` with the `i` flag look at. */
  predicate IsWordChar(c: char) {
    'a' <= c <= 'z' || 'A' <= c <= 'Z' || '0' <= c <= '9' || c == '_'
  }

  predicate IsDigit(c: char) {
    '0' <= c <= '9'
  }

  predicate IsUpper(c: char) {
    'A' <= c <= 'Z'
  }

  predicate AllDigits(s: string) {
    forall i :: 0 <= i < |s| ==> IsDigit(s[i])
  }

  predicate IsHexDigit(c: char) {
    '0' <= c <= '9' || 'a' <= c <= 'f' || 'A' <= c <= 'F'
  }

  predicate IsLowerHexDigit(c: char) {
    '0' <= c <= '9' || 'a' <= c <= 'f'
  }

  predicate IsHex(s: string) {
    forall i :: 0 <= i < |s| ==> IsHexDigit(s[i])
  }

  predicate IsLowerHex(s: string) {
    forall i :: 0 <= i < |s| ==> IsLowerHexDigit(s[i])
  }

  // ---------------------------------------------------------------- trim

  /** `s` without its leading white space. */
  function TrimStart(s: string): (r: string)
    ensures |r| <= |s| && r == s[|s| - |r|..]
    ensures r == [] || !IsWhite(r[0])
    ensures forall i :: 0 <= i < |s| - |r| ==> IsWhite(s[i])
  {
    if |s| > 0 && IsWhite(s[0]) then TrimStart(s[1..]) else s
  }

  /** `s` without its trailing white space. */
  function TrimEnd(s: string): (r: string)
    ensures |r| <= |s| && r == s[..|r|]
    ensures r == [] || !IsWhite(r[|r| - 1])
    ensures forall i :: |r| <= i < |s| ==> IsWhite(s[i])
  {
    if |s| > 0 && IsWhite(s[|s| - 1]) then TrimEnd(s[..|s| - 1]) else s
  }

  /** JavaScript's `String.prototype.trim`. */
  function Trim(s: string): (r: string)
    ensures r == [] || (!IsWhite(r[0]) && !IsWhite(r[|r| - 1]))
  {
    TrimEnd(TrimStart(s))
  }

  /** True when `s` neither starts nor ends with white space. */
  predicate IsTrimmed(s: string) {
    s == [] || (!IsWhite(s[0]) && !IsWhite(s[|s| - 1]))
  }

  lemma TrimOfTrimmed(s: string)
    requires IsTrimmed(s)
    ensures Trim(s) == s
  {
  }

  /** Nothing but white space: what `s.trim() === ""` tests. */
  predicate IsBlank(s: string) {
    forall i :: 0 <= i < |s| ==> IsWhite(s[i])
  }

  lemma BlankTrim(s: string)
    ensures IsBlank(s) <==> Trim(s) == ""
  {
    TrimStartBlank(s);
    TrimEndBlank(TrimStart(s));
  }

  lemma {:induction false} TrimStartBlank(s: string)
    ensures TrimStart(s) == [] <==> IsBlank(s)
  {
    if |s| > 0 && IsWhite(s[0]) {
      TrimStartBlank(s[1..]);
      assert IsBlank(s) <==> IsBlank(s[1..]) by {
        forall k | 0 < k < |s| ensures s[k] == s[1..][k - 1] {}
      }
    }
  }

  lemma {:induction false} TrimEndBlank(s: string)
    ensures TrimEnd(s) == [] <==> IsBlank(s)
  {
    if |s| > 0 && IsWhite(s[|s| - 1]) {
      TrimEndBlank(s[..|s| - 1]);
      assert IsBlank(s) <==> IsBlank(s[..|s| - 1]) by {
        forall k | 0 <= k < |s| - 1 ensures s[k] == s[..|s| - 1][k] {}
      }
    }
  }

  /** Trimming is idempotent. */
  lemma TrimIdempotent(s: string)
    ensures Trim(Trim(s)) == Trim(s)
  {
    TrimOfTrimmed(Trim(s));
  }

  /** Leading white space added to a trimmed string is removed again. */
  lemma {:induction false} TrimIndent(w: string, t: string)
    requires forall i :: 0 <= i < |w| ==> IsWhite(w[i])
    requires IsTrimmed(t) && t != []
    ensures Trim(w + t) == t
  {
    if w == [] {
      assert w + t == t;
      TrimOfTrimmed(t);
    } else {
      assert (w + t)[1..] == w[1..] + t;
      TrimIndent(w[1..], t);
    }
  }

  /** Trimming never introduces a character. */
  lemma TrimKeepsOut(s: string, c: char)
    requires c !in s
    ensures c !in Trim(s)
  {
    var a := TrimStart(s);
    forall i | 0 <= i < |a| ensures a[i] != c {
      assert a[i] == s[|s| - |a| + i];
    }
    var b := TrimEnd(a);
    forall i | 0 <= i < |b| ensures b[i] != c {
      assert b[i] == a[i];
    }
    assert Trim(s) == b;
  }

  lemma ConcatAssoc<T>(a: seq<T>, b: seq<T>, c: seq<T>)
    ensures a + (b + c) == a + b + c
  {
  }

  /** Dropping a prefix of a concatenation leaves the rest. */
  lemma DropPrefix<T>(a: seq<T>, b: seq<T>)
    ensures (a + b)[|a|..] == b
  {
  }

  /** Re-attaching the head of a non-empty sequence. */
  lemma ConsConcat<T>(a: seq<T>, y: seq<T>)
    requires a != []
    ensures [a[0]] + (a[1..] + y) == a + y
  {
    assert a == [a[0]] + a[1..];
    forall i | 0 <= i < |a + y| ensures ([a[0]] + (a[1..] + y))[i] == (a + y)[i] {
      if i < |a| {
        assert (a + y)[i] == a[i];
      }
    }
  }

  // ---------------------------------------------------------------- prefixes and search

  predicate StartsWith(s: string, p: string) {
    |p| <= |s| && s[..|p|] == p
  }

  /** `m` occurs in `s` at index `j`. */
  predicate OccursAt(s: string, m: string, j: nat) {
    j + |m| <= |s| && s[j..j + |m|] == m
  }

  /** `String.prototype.includes`. */
  predicate Contains(s: string, m: string) {
    exists j: nat | j <= |s| :: OccursAt(s, m, j)
  }

  /** The first index at or after `from` where `m` occurs in `s`, given that it
      occurs at `known`: what `indexOf` returns. */
  function FirstOccurrence(s: string, m: string, from: nat, known: nat): (j: nat)
    requires from <= known && OccursAt(s, m, known)
    ensures from <= j <= known && OccursAt(s, m, j)
    ensures forall k: nat :: from <= k < j ==> !OccursAt(s, m, k)
    decreases known - from
  {
    if OccursAt(s, m, from) then from else FirstOccurrence(s, m, from + 1, known)
  }

  // ---------------------------------------------------------------- split and join

  /** `String.prototype.split` with a one-character separator. */
  function Split(s: string, sep: char): (parts: seq<string>)
    ensures |parts| >= 1
    ensures forall i :: 0 <= i < |parts| ==> sep !in parts[i]
    decreases |s|
  {
    if s == [] then [""]
    else
      var rest := Split(s[1..], sep);
      if s[0] == sep then [""] + rest else [[s[0]] + rest[0]] + rest[1..]
  }

  /** `Array.prototype.join` with a one-character separator. */
  function Join(parts: seq<string>, sep: char): string
  {
    if |parts| == 0 then ""
    else if |parts| == 1 then parts[0]
    else parts[0] + [sep] + Join(parts[1..], sep)
  }

  /** Text without `sep` glued in front of a split keeps the first part whole. */
  lemma {:induction false} SplitPrefix(a: string, t: string, sep: char)
    requires sep !in a
    ensures Split(a + t, sep) == [a + Split(t, sep)[0]] + Split(t, sep)[1..]
  {
    if a != [] {
      assert (a + t)[1..] == a[1..] + t;
      assert (a + t)[0] == a[0] && a[0] != sep;
      SplitPrefix(a[1..], t, sep);
      var rest := Split(a[1..] + t, sep);
      assert rest[0] == a[1..] + Split(t, sep)[0];
      assert rest[1..] == Split(t, sep)[1..];
      assert Split(a + t, sep) == [[a[0]] + rest[0]] + rest[1..];
      assert [a[0]] + (a[1..] + Split(t, sep)[0]) == a + Split(t, sep)[0];
    } else {
      assert a + t == t;
      assert a + Split(t, sep)[0] == Split(t, sep)[0];
    }
  }

  /** Splitting undoes joining parts that do not contain the separator. */
  lemma {:induction false} SplitJoin(parts: seq<string>, sep: char)
    requires |parts| >= 1
    requires forall i :: 0 <= i < |parts| ==> sep !in parts[i]
    ensures Split(Join(parts, sep), sep) == parts
  {
    if |parts| == 1 {
      SplitPrefix(parts[0], "", sep);
      assert parts[0] + "" == parts[0];
      assert Split("", sep) == [""];
      assert parts == [parts[0]];
    } else {
      var rest := Join(parts[1..], sep);
      SplitJoin(parts[1..], sep);
      assert Join(parts, sep) == parts[0] + ([sep] + rest);
      SplitPrefix(parts[0], [sep] + rest, sep);
      assert ([sep] + rest)[1..] == rest;
      assert Split([sep] + rest, sep) == [""] + Split(rest, sep);
      assert Split([sep] + rest, sep) == [""] + parts[1..];
      assert parts[0] + "" == parts[0];
      assert parts == [parts[0]] + parts[1..];
    }
  }

  /** Joining undoes splitting. */
  lemma {:induction false} JoinSplit(s: string, sep: char)
    ensures Join(Split(s, sep), sep) == s
    decreases |s|
  {
    if s != [] {
      JoinSplit(s[1..], sep);
      var rest := Split(s[1..], sep);
      if s[0] != sep {
        var parts := Split(s, sep);
        assert parts[1..] == rest[1..];
        if |rest| == 1 {
          assert Join(parts, sep) == [s[0]] + rest[0];
        } else {
          assert Join(rest, sep) == rest[0] + [sep] + Join(rest[1..], sep);
          assert Join(parts, sep) == [s[0]] + rest[0] + [sep] + Join(rest[1..], sep);
        }
      }
      assert s == [s[0]] + s[1..];
    }
  }

  /** Joining with one more part appends the separator and that part. */
  lemma {:induction false} JoinSnoc(parts: seq<string>, last: string, sep: char)
    requires |parts| >= 1
    ensures Join(parts + [last], sep) == Join(parts, sep) + [sep] + last
  {
    if |parts| > 1 {
      assert (parts + [last])[1..] == parts[1..] + [last];
      JoinSnoc(parts[1..], last, sep);
    }
  }

  /** Lines each followed by a newline, as the source accumulates them with
      `acc += line + "\n"`. */
  function Terminated(lines: seq<string>): string
  {
    if lines == [] then ""
    else Terminated(lines[..|lines| - 1]) + lines[|lines| - 1] + "\n"
  }

  lemma TerminatedSnoc(lines: seq<string>, line: string)
    ensures Terminated(lines + [line]) == Terminated(lines) + line + "\n"
  {
    assert (lines + [line])[..|lines|] == lines;
  }

  /** Newline-terminated lines are the lines joined with an empty last part. */
  lemma {:induction false} TerminatedIsJoin(lines: seq<string>)
    ensures Terminated(lines) == Join(lines + [""], '\n')
  {
    if lines != [] {
      var ps := lines[..|lines| - 1];
      var l := lines[|lines| - 1];
      assert lines == ps + [l];
      TerminatedIsJoin(ps);
      JoinSnoc(ps + [l], "", '\n');
      if ps == [] {
        assert ps + [l] == [l];
      } else {
        JoinSnoc(ps, l, '\n');
        JoinSnoc(ps, "", '\n');
      }
    }
  }

  /** Splitting newline-terminated lines gives back the lines and an empty last part. */
  lemma SplitTerminated(lines: seq<string>)
    requires forall i :: 0 <= i < |lines| ==> '\n' !in lines[i]
    ensures Split(Terminated(lines), '\n') == lines + [""]
  {
    TerminatedIsJoin(lines);
    SplitJoin(lines + [""], '\n');
  }

  // ---------------------------------------------------------------- decimal

  function DigitChar(d: nat): (c: char)
    requires d < 10
    ensures IsDigit(c) && c as int - '0' as int == d
  {
    ('0' as int + d) as char
  }

  /** `Number.prototype.toString()` of a non-negative integer. */
  function Decimal(n: nat): (r: string)
    ensures |r| >= 1 && AllDigits(r)
    ensures n >= 10 <==> |r| >= 2
    ensures |r| >= 2 ==> r[0] != '0'
  {
    if n < 10 then [DigitChar(n)] else Decimal(n / 10) + [DigitChar(n % 10)]
  }

  /** The value of a string of decimal digits, as `parseInt` reads it. */
  function DigitsValue(s: string): nat
    requires AllDigits(s)
  {
    if s == [] then 0 else DigitsValue(s[..|s| - 1]) * 10 + (s[|s| - 1] as int - '0' as int)
  }

  /** Reading back a rendered decimal yields the number. */
  lemma {:induction false} DecimalValue(n: nat)
    ensures DigitsValue(Decimal(n)) == n
  {
    if n >= 10 {
      DecimalValue(n / 10);
      var r := Decimal(n);
      assert r[..|r| - 1] == Decimal(n / 10);
    }
  }

  lemma DecimalInjective(m: nat, n: nat)
    requires Decimal(m) == Decimal(n)
    ensures m == n
  {
    DecimalValue(m);
    DecimalValue(n);
  }

  /** The longest prefix of `s` made of decimal digits. */
  function DigitPrefix(s: string): (d: string)
    ensures AllDigits(d) && StartsWith(s, d)
    ensures |d| < |s| ==> !IsDigit(s[|d|])
  {
    if s != [] && IsDigit(s[0]) then [s[0]] + DigitPrefix(s[1..]) else ""
  }

  lemma {:induction false} DigitPrefixOf(d: string, t: string)
    requires AllDigits(d)
    requires t == [] || !IsDigit(t[0])
    ensures DigitPrefix(d + t) == d
  {
    if d != [] {
      assert (d + t)[1..] == d[1..] + t;
      DigitPrefixOf(d[1..], t);
    } else {
      assert d + t == t;
    }
  }

  // ---------------------------------------------------------------- hexadecimal

  function HexDigit(d: nat): (c: char)
    requires d < 16
    ensures IsLowerHexDigit(c)
  {
    if d < 10 then DigitChar(d) else ('a' as int + d - 10) as char
  }

  function HexDigitValue(c: char): (d: nat)
    requires IsHexDigit(c)
    ensures d < 16
  {
    if '0' <= c <= '9' then c as int - '0' as int
    else if 'a' <= c <= 'f' then c as int - 'a' as int + 10
    else c as int - 'A' as int + 10
  }

  lemma HexDigitRoundTrip(d: nat)
    requires d < 16
    ensures HexDigitValue(HexDigit(d)) == d
  {
  }

  /** The value of a string of hex digits read in written order (most significant first). */
  function HexValue(s: string): nat
    requires IsHex(s)
  {
    if s == [] then 0 else HexValue(s[..|s| - 1]) * 16 + HexDigitValue(s[|s| - 1])
  }

  /** An upper bound on a hex value by its number of digits. */
  lemma {:induction false} HexValueBound(s: string)
    requires IsHex(s)
    ensures HexValue(s) < Pow16(|s|)
  {
    if s != [] {
      HexValueBound(s[..|s| - 1]);
    }
  }

  function Pow16(k: nat): (r: nat)
    ensures r >= 1
  {
    if k == 0 then 1 else 16 * Pow16(k - 1)
  }

  /** `Number.prototype.toString(16)`: lowercase hex without leading zeros. */
  function HexNat(n: nat): (r: string)
    ensures |r| >= 1 && IsLowerHex(r)
    ensures n < 16 <==> |r| == 1
    ensures 16 <= n < 256 <==> |r| == 2
  {
    if n < 16 then [HexDigit(n)] else HexNat(n / 16) + [HexDigit(n % 16)]
  }

  /** `padStart(2, '0')`. */
  function PadStart2(s: string): (r: string)
    ensures |r| == if |s| >= 2 then |s| else 2
  {
    if |s| >= 2 then s else if |s| == 1 then "0" + s else "00"
  }

  /** The two lowercase hex digits of a byte. */
  function Hex2(b: byte): (r: string)
    ensures |r| == 2 && IsLowerHex(r)
  {
    [HexDigit(b / 16), HexDigit(b % 16)]
  }

  /** A byte rendered by `toString(16).padStart(2, '0')` is its two hex digits. */
  lemma PaddedHexOfByte(b: byte)
    ensures PadStart2(HexNat(b)) == Hex2(b)
  {
  }

  /** Lower-case hex encoding of bytes, two digits per byte (`toString('hex')`). */
  function HexEncode(bs: seq<byte>): (r: string)
    ensures |r| == 2 * |bs| && IsLowerHex(r)
  {
    if bs == [] then "" else Hex2(bs[0]) + HexEncode(bs[1..])
  }

  /** Hex text parsed into bytes, two digits per byte (`CryptoJS.enc.Hex.parse`). */
  function HexParse(h: string): (bs: seq<byte>)
    requires IsHex(h) && |h| % 2 == 0
    ensures |bs| == |h| / 2
  {
    if h == [] then [] else [HexDigitValue(h[0]) * 16 + HexDigitValue(h[1])] + HexParse(h[2..])
  }

  /** Parsing hex undoes hex encoding. */
  lemma {:induction false} HexParseEncode(bs: seq<byte>)
    ensures HexParse(HexEncode(bs)) == bs
  {
    if bs != [] {
      var h := HexEncode(bs);
      assert h[2..] == HexEncode(bs[1..]);
      HexParseEncode(bs[1..]);
    }
  }

  // ---------------------------------------------------------------- UTF-8

  /** The UTF-8 encoding of one Unicode scalar value. */
  function Utf8(c: char): (bs: seq<byte>)
    ensures 1 <= |bs| <= 4
    ensures c as int < 0x80 <==> |bs| == 1
    ensures |bs| == 1 ==> bs[0] == c as int
  {
    var n := c as int;
    if n < 0x80 then [n]
    else if n < 0x800 then [0xC0 + n / 0x40, 0x80 + n % 0x40]
    else if n < 0x10000 then [0xE0 + n / 0x1000, 0x80 + (n / 0x40) % 0x40, 0x80 + n % 0x40]
    else [0xF0 + n / 0x40000, 0x80 + (n / 0x1000) % 0x40, 0x80 + (n / 0x40) % 0x40, 0x80 + n % 0x40]
  }

  /** `Buffer.from(s, 'utf8')`. */
  function Utf8Encode(s: string): (bs: seq<byte>)
    ensures |bs| >= |s|
  {
    if s == [] then [] else Utf8(s[0]) + Utf8Encode(s[1..])
  }

  predicate IsAscii(s: string) {
    forall i :: 0 <= i < |s| ==> s[i] as int < 0x80
  }

  /** On ASCII text UTF-8 is one byte per character, the character's code. */
  lemma {:induction false} Utf8Ascii(s: string)
    requires IsAscii(s)
    ensures |Utf8Encode(s)| == |s|
    ensures forall i :: 0 <= i < |s| ==> Utf8Encode(s)[i] == s[i] as int
  {
    if s != [] {
      Utf8Ascii(s[1..]);
    }
  }

  // ---------------------------------------------------------------- case

  /** Lower-casing restricted to hex digits (`toLocaleLowerCase` on hex text). */
  function LowerHexChar(c: char): (d: char)
    requires IsHexDigit(c)
    ensures IsLowerHexDigit(d) && HexDigitValue(d) == HexDigitValue(c)
  {
    if 'A' <= c <= 'F' then (c as int - 'A' as int + 'a' as int) as char else c
  }

  function LowerHex(s: string): (r: string)
    requires IsHex(s)
    ensures |r| == |s| && IsLowerHex(r)
    ensures forall i :: 0 <= i < |s| ==> r[i] == LowerHexChar(s[i])
  {
    if s == [] then "" else [LowerHexChar(s[0])] + LowerHex(s[1..])
  }

  // ---------------------------------------------------------------- UTF-16

  /** The UTF-16 code units of a character, what `charCodeAt` walks through:
      the character itself in the basic plane, a surrogate pair above it. */
  function CodeUnits(c: char): (us: seq<nat>)
    ensures c as int < 0x10000 ==> us == [c as int]
    ensures c as int >= 0x10000 ==>
      && |us| == 2
      && 0xD800 <= us[0] < 0xDC00 && 0xDC00 <= us[1] < 0xE000
      && 0x10000 + (us[0] - 0xD800) * 0x400 + (us[1] - 0xDC00) == c as int
  {
    if c as int < 0x10000 then [c as int]
    else var v := c as int - 0x10000; [0xD800 + v / 0x400, 0xDC00 + v % 0x400]
  }

  /** A string's `length` in JavaScript: its number of UTF-16 code units. */
  function Utf16Length(s: string): nat {
    if s == [] then 0 else (if s[0] as int < 0x10000 then 1 else 2) + Utf16Length(s[1..])
  }

  /** The UTF-16 encoding of a string, character by character. */
  function Utf16Encode(s: string): seq<nat> {
    if s == [] then [] else CodeUnits(s[0]) + Utf16Encode(s[1..])
  }

  /** `length` counts exactly the code units of the encoding. */
  lemma {:induction false} Utf16LengthEncode(s: string)
    ensures |Utf16Encode(s)| == Utf16Length(s)
  {
    if s != [] {
      Utf16LengthEncode(s[1..]);
    }
  }

  /** Every character is one or two code units, and text of the basic plane
      has as many code units as characters. */
  lemma {:induction false} Utf16LengthBounds(s: string)
    ensures |s| <= Utf16Length(s) <= 2 * |s|
    ensures (forall i :: 0 <= i < |s| ==> s[i] as int < 0x10000) ==> Utf16Length(s) == |s|
  {
    if s != [] {
      Utf16LengthBounds(s[1..]);
      assert forall i :: 0 <= i < |s[1..]| ==> s[1..][i] == s[i + 1];
    }
  }
}
