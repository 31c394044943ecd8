/** The literal encoder (src/lib/asm.ts, `processAbiFunctions` and
    `processStrings`): quoted strings become hex literals, and `abi("...")`
    and `ABI("...")` calls become truncated SHA-256 selectors. */
module Literals {
  import opened Wrappers
  import opened Text

  function Repeat(c: char, n: nat): (r: string)
    ensures |r| == n && forall i :: 0 <= i < n ==> r[i] == c
  {
    if n == 0 then "" else [c] + Repeat(c, n - 1)
  }

  /** A SHA-256 digest as CryptoJS renders it: 64 lowercase hex digits. */
  type Digest256 = s: string | |s| == 64 && IsLowerHex(s) witness Repeat('0', 64)

  /** The digest function, supplied by the caller (CryptoJS.SHA256 over the
      UTF-8 bytes of its argument). */
  type Sha256 = string -> Digest256

  // ---------------------------------------------------------------- "..." literals

  /** The longest prefix of `s` that holds neither `,` nor `"`. */
  function PlainRun(s: string): (r: string)
    ensures StartsWith(s, r) && ',' !in r && '"' !in r
    ensures |r| < |s| ==> s[|r|] == ',' || s[|r|] == '"'
  {
    if s != [] && s[0] != ',' && s[0] != '"' then [s[0]] + PlainRun(s[1..]) else ""
  }

  /** The group of `"([^,"]+)"` when it matches at the start of `s`. */
  function QuotedAt(s: string): (m: Option<string>)
    ensures m.Some? ==> |m.value| > 0 && |m.value| + 2 <= |s| && s == "\"" + m.value + "\"" + s[|m.value| + 2..]
  {
    if s != [] && s[0] == '"' then
      var t := PlainRun(s[1..]);
      if |t| > 0 && 1 + |t| < |s| && s[1 + |t|] == '"' then
        assert s == "\"" + t + "\"" + s[|t| + 2..];
        Some(t)
      else None
    else None
  }

  function UnitsHex(us: seq<nat>): string {
    if us == [] then "" else PadStart2(HexNat(us[0])) + UnitsHex(us[1..])
  }

  /** Each code unit as `toString(16).padStart(2, '0')`, concatenated. */
  function CharCodesHex(t: string): string {
    if t == [] then "" else UnitsHex(CodeUnits(t[0])) + CharCodesHex(t[1..])
  }

  /** `processStrings`: every quoted string without comma or quote becomes `x`
      followed by its character codes in hex. */
  function ProcessStrings(s: string): string
    decreases |s|
  {
    if s == [] then []
    else match QuotedAt(s)
      case Some(t) => "x" + CharCodesHex(t) + ProcessStrings(s[|t| + 2..])
      case None => [s[0]] + ProcessStrings(s[1..])
  }

  /** Text before the first quote is copied unchanged. */
  lemma {:induction false} ProcessStringsCopies(a: string, u: string)
    requires '"' !in a
    ensures ProcessStrings(a + u) == a + ProcessStrings(u)
  {
    if a == [] {
      assert a + u == u;
    } else {
      var s := a + u;
      assert s[0] == a[0] != '"';
      PlainStep(s);
      assert s[1..] == a[1..] + u;
      assert '"' !in a[1..];
      ProcessStringsCopies(a[1..], u);
      ConsConcat(a, ProcessStrings(u));
    }
  }

  lemma PlainStep(s: string)
    requires s != [] && s[0] != '"'
    ensures ProcessStrings(s) == [s[0]] + ProcessStrings(s[1..])
  {
    assert QuotedAt(s) == None;
  }

  /** A quoted string without comma or quote, in any context after quote-free text,
      becomes its hex literal. */
  lemma QuotedBecomesHex(a: string, t: string, b: string)
    requires '"' !in a
    requires t != [] && ',' !in t && '"' !in t
    ensures ProcessStrings(a + "\"" + t + "\"" + b) == a + "x" + CharCodesHex(t) + ProcessStrings(b)
  {
    var q := "\"";
    var u := q + t + q + b;
    ConcatAssoc(a, q, t);
    ConcatAssoc(a, q + t, q);
    ConcatAssoc(a, q + t + q, b);
    ProcessStringsCopies(a, u);
    QuotedStep(t, b);
    var x, h := "x", CharCodesHex(t);
    ConcatAssoc(a, x + h, ProcessStrings(b));
    ConcatAssoc(a, x, h);
  }

  lemma QuotedStep(t: string, b: string)
    requires t != [] && ',' !in t && '"' !in t
    ensures ProcessStrings("\"" + t + "\"" + b) == "x" + CharCodesHex(t) + ProcessStrings(b)
  {
    var u := "\"" + t + "\"" + b;
    PlainRunOf(t, "\"" + b);
    assert u[1..] == t + ("\"" + b);
    assert QuotedAt(u) == Some(t);
    assert u[|t| + 2..] == b;
  }

  lemma {:induction false} PlainRunOf(t: string, rest: string)
    requires ',' !in t && '"' !in t
    requires rest != [] && rest[0] == '"'
    ensures PlainRun(t + rest) == t
  {
    if t == [] {
      assert t + rest == rest;
    } else {
      assert (t + rest)[1..] == t[1..] + rest;
      PlainRunOf(t[1..], rest);
    }
  }

  /** On characters below 256 the encoding is two hex digits per character,
      the same as hex-encoding the character codes as bytes. */
  lemma {:induction false} CharCodesHexOfBytes(t: string)
    requires forall i :: 0 <= i < |t| ==> t[i] as int < 256
    ensures CharCodesHex(t) == HexEncode(CharBytes(t))
    ensures |CharCodesHex(t)| == 2 * |t|
  {
    if t != [] {
      var b: byte := t[0] as int;
      PaddedHexOfByte(b);
      assert UnitsHex(CodeUnits(t[0])) == PadStart2(HexNat(b)) + UnitsHex([]);
      CharCodesHexOfBytes(t[1..]);
      assert CharBytes(t) == [b] + CharBytes(t[1..]);
    }
  }

  function CharBytes(t: string): (bs: seq<byte>)
    requires forall i :: 0 <= i < |t| ==> t[i] as int < 256
    ensures |bs| == |t| && forall i :: 0 <= i < |t| ==> bs[i] == t[i] as int
  {
    if t == [] then [] else [t[0] as int as byte] + CharBytes(t[1..])
  }

  /** The test script's `EVAL8 "test",` assembles with `x74657374` in place of the
      literal. */
  lemma TestLiteral(line: string)
    requires line == "EVAL8 \"test\","
    ensures ProcessStrings(line) == "EVAL8 x74657374,"
  {
    var a, t, b := "EVAL8 ", "test", ",";
    TestLineParts(line, a, t, b);
    QuotedBecomesHex(a, t, b);
    ProcessStringsCopies(b, []);
    TestHex(t);
    TestOutput(a, CharCodesHex(t), b);
  }

  lemma TestLineParts(line: string, a: string, t: string, b: string)
    requires line == "EVAL8 \"test\"," && a == "EVAL8 " && t == "test" && b == ","
    ensures line == a + "\"" + t + "\"" + b && '"' !in a && t != [] && ',' !in t && '"' !in t
  {
  }

  lemma TestOutput(a: string, h: string, b: string)
    requires a == "EVAL8 " && h == "74657374" && b == ","
    ensures a + "x" + h + b + [] == "EVAL8 x74657374,"
  {
  }

  lemma TestHex(t: string)
    requires t == "test"
    ensures CharCodesHex(t) == "74657374"
  {
    CharCodesHexOfBytes(t);
    TestBytes(t);
    TestBytesHex(CharBytes(t));
  }

  lemma TestBytes(t: string)
    requires t == "test"
    ensures CharBytes(t) == [0x74, 0x65, 0x73, 0x74]
  {
  }

  lemma TestBytesHex(bs: seq<byte>)
    requires bs == [0x74, 0x65, 0x73, 0x74]
    ensures HexEncode(bs) == "74657374"
  {
    assert Hex2(0x74) == "74" && Hex2(0x65) == "65" && Hex2(0x73) == "73";
    assert HexEncode(bs[3..]) == "74" by {
      assert bs[3..][1..] == [];
    }
    assert HexEncode(bs[2..]) == "7374" by {
      assert bs[2..][1..] == bs[3..];
    }
    assert HexEncode(bs[1..]) == "657374" by {
      assert bs[1..][1..] == bs[2..];
    }
  }

  // ---------------------------------------------------------------- abi("...") calls

  /** The longest prefix of `s` that holds no `"`. */
  function NoQuoteRun(s: string): (r: string)
    ensures StartsWith(s, r) && '"' !in r
    ensures |r| < |s| ==> s[|r|] == '"'
  {
    if s != [] && s[0] != '"' then [s[0]] + NoQuoteRun(s[1..]) else ""
  }

  /** The call name `abi` or, for the padded form, `ABI`. */
  function CallName(padded: bool): string {
    if padded then "ABI" else "abi"
  }

  /** The group of `NAME\("([^"]*)"\)` when it matches at the start of `s`. */
  function CallAt(s: string, padded: bool): (m: Option<string>)
    ensures m.Some? ==> |m.value| + 7 <= |s|
    ensures m.Some? ==> s == CallName(padded) + "(\"" + m.value + "\")" + s[|m.value| + 7..]
  {
    var open := CallName(padded) + "(\"";
    if StartsWith(s, open) then
      var t := NoQuoteRun(s[5..]);
      if 5 + |t| + 1 < |s| && s[5 + |t|] == '"' && s[5 + |t| + 1] == ')' then
        assert s == CallName(padded) + "(\"" + t + "\")" + s[|t| + 7..];
        Some(t)
      else None
    else None
  }

  /** The hex literal that replaces a call on `t`: `x` and the first 8 digest
      digits, and for `ABI` those digits (never all zero) and 8 zeros. */
  function AbiToken(t: string, padded: bool, sha: Sha256): (r: string)
    ensures |r| == if padded then 17 else 9
    ensures r[0] == 'x' && IsLowerHex(r[1..])
    ensures r[1..9] == sha(t)[..8] || (padded && sha(t)[..8] == "00000000" && r[1..9] == "00000001")
    ensures padded ==> r[1..9] != "00000000" && r[9..] == "00000000"
  {
    var h := sha(t)[..8];
    if !padded then "x" + h
    else "x" + (if h == "00000000" then "00000001" else h) + "00000000"
  }

  /** One global replacement of `abi("...")` (or `ABI("...")`) calls. */
  function ReplaceCalls(s: string, padded: bool, sha: Sha256): string
    decreases |s|
  {
    if s == [] then []
    else match CallAt(s, padded)
      case Some(t) => AbiToken(t, padded, sha) + ReplaceCalls(s[|t| + 7..], padded, sha)
      case None => [s[0]] + ReplaceCalls(s[1..], padded, sha)
  }

  /** `processAbiFunctions`: first the `abi` calls, then the `ABI` calls. */
  function ProcessAbiFunctions(s: string, sha: Sha256): string {
    ReplaceCalls(ReplaceCalls(s, false, sha), true, sha)
  }

  /** Text holding no `(` is copied by a call replacement. */
  lemma {:induction false} ReplaceCallsCopies(a: string, padded: bool, sha: Sha256)
    requires '(' !in a
    ensures ReplaceCalls(a, padded, sha) == a
  {
    if a != [] {
      if |a| >= 5 {
        assert a[..5][3] == a[3] != '(';
      }
      ReplaceCallsCopies(a[1..], padded, sha);
      assert a == [a[0]] + a[1..];
    }
  }

  lemma NoQuoteRunOf(t: string, rest: string)
    requires '"' !in t && rest != [] && rest[0] == '"'
    ensures NoQuoteRun(t + rest) == t
  {
    if t == [] {
      assert t + rest == rest;
    } else {
      assert (t + rest)[1..] == t[1..] + rest;
      NoQuoteRunOf(t[1..], rest);
    }
  }

  /** A call on quote- and parenthesis-free text becomes its token; `ABI` is
      never turned into the all-zero selector. */
  lemma AbiCallBecomesToken(t: string, padded: bool, sha: Sha256)
    requires '"' !in t && '(' !in t
    ensures ProcessAbiFunctions(CallName(padded) + "(\"" + t + "\")", sha) == AbiToken(t, padded, sha)
  {
    var s := CallName(padded) + "(\"" + t + "\")";
    var tok := AbiToken(t, padded, sha);
    CallBecomesToken(t, padded, sha);
    if padded {
      UpperCallSkipped(t, sha);
    } else {
      TokenHasNoParen(t, false, sha);
      ReplaceCallsCopies(tok, true, sha);
    }
  }

  /** The pass for one call name replaces a call of that name by its token. */
  lemma CallBecomesToken(t: string, padded: bool, sha: Sha256)
    requires '"' !in t
    ensures ReplaceCalls(CallName(padded) + "(\"" + t + "\")", padded, sha) == AbiToken(t, padded, sha)
  {
    var s := CallName(padded) + "(\"" + t + "\")";
    var open := CallName(padded) + "(\"";
    NoQuoteRunOf(t, "\")");
    ConcatAssoc(open, t, "\")");
    DropPrefix(open, t + "\")");
    assert s[5..] == t + "\")";
    assert s[|t| + 7..] == [];
    assert CallAt(s, padded) == Some(t);
    assert ReplaceCalls(s, padded, sha) == AbiToken(t, padded, sha) + ReplaceCalls([], padded, sha);
  }

  /** The `abi` pass leaves an `ABI` call on parenthesis-free text alone. */
  lemma UpperCallSkipped(t: string, sha: Sha256)
    requires '(' !in t
    ensures ReplaceCalls(CallName(true) + "(\"" + t + "\")", false, sha) == CallName(true) + "(\"" + t + "\")"
  {
    var s := CallName(true) + "(\"" + t + "\")";
    forall i | 0 <= i < |s| && i != 3 ensures s[i] != '(' {
      if 5 <= i < 5 + |t| {
        assert s[i] == t[i - 5];
      }
    }
    forall k | 0 <= k < |s| ensures CallAt(s[k..], false).None? {
      if k + 5 <= |s| {
        if k == 0 {
          assert s[k..][..5][0] == 'A';
        } else {
          assert s[k..][..5][3] == s[k + 3] != '(';
        }
      }
    }
    ReplaceCallsScan(s, false, sha);
  }

  lemma TokenHasNoParen(t: string, padded: bool, sha: Sha256)
    ensures '(' !in AbiToken(t, padded, sha)
  {
    var r := AbiToken(t, padded, sha);
    forall i | 0 <= i < |r| ensures r[i] != '(' {
      if i > 0 {
        assert r[i] == r[1..][i - 1];
      }
    }
  }

  /** A text on which no call matches at any position is copied. */
  lemma {:induction false} ReplaceCallsScan(s: string, padded: bool, sha: Sha256)
    requires forall k :: 0 <= k < |s| ==> CallAt(s[k..], padded).None?
    ensures ReplaceCalls(s, padded, sha) == s
    decreases |s|
  {
    if s != [] {
      assert s[0..] == s;
      forall k | 0 <= k < |s[1..]| ensures CallAt(s[1..][k..], padded).None? {
        assert s[1..][k..] == s[k + 1..];
      }
      ReplaceCallsScan(s[1..], padded, sha);
      assert s == [s[0]] + s[1..];
    }
  }
}
