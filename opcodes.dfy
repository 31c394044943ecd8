/** The opcode encoder: the fixed mnemonic table and its substitution into a
    pass-2 line (src/lib/asm.ts, `stringToOp` and `replaceOpcodes`). */
module Opcodes {
  import opened Text

  /** The mnemonics of the table in declaration order, one line per row of the
      source's table. A mnemonic that takes operands carries its trailing space. */
  const Mnemonics: seq<string> := [
    "EVAL8 ", "EVAL16 ", "EVAL32 ", "EVAL64 ", "EVAL256 ", "CONV ", "HASH ",
    "HASH160 ", "SIGCHECK ", "IF ", "CALL ", "EXEC ", "LOAD ",
    "STORE ", "DEL ", "LIBLOAD ", "MALLOC ", "ALLOC ", "COPY ", "COPYIMM ",
    "SELFDESTRUCT", "REVERT", "RETURN",
    "RECEIVED ", "TXFEE ", "GETCOIN ", "NOP", "SPEND ", "ADDDEF ", "ADDTXOUT ",
    "GETDEFINITION ", "GETUTXO ", "MINT ", "META ", "TIME ", "HEIGHT ", "TXIOCOUNT",
    "VERSION", "TOKENCONTRACT", "LOG", "STOP"]

  /** The opcode character of each mnemonic, position by position. */
  const OpChars: string := "ABCDEFGHIKLMNOPQRSTUWXYabcdefghijklmnopqz"

  lemma TableLengths()
    ensures |Mnemonics| == |OpChars| == 41
  {
  }

  /** The lookahead `(?= |@|\b)` after a match of `key`, with `rest` the text
      that follows it. */
  predicate Lookahead(key: string, rest: string)
    requires key != []
  {
    (rest != [] && (rest[0] == ' ' || rest[0] == '@'))
    || IsWordChar(key[|key| - 1]) != (rest != [] && IsWordChar(rest[0]))
  }

  /** The regular expression `\bKEY(?= |@|\b)` matches at the start of `s`, where
      `prevWord` says whether the character before `s` is a word character. */
  predicate MnemonicAt(s: string, key: string, prevWord: bool) {
    && key != []
    && prevWord != IsWordChar(key[0])
    && StartsWith(s, key)
    && Lookahead(key, s[|key|..])
  }

  /** One global replacement of a mnemonic by its opcode character. The scan
      resumes after each match, and word boundaries are judged on the original text. */
  function ReplaceMnemonic(s: string, key: string, op: char, prevWord: bool): string
    decreases |s|
  {
    if s == [] then []
    else if MnemonicAt(s, key, prevWord) then
      [op] + ReplaceMnemonic(s[|key|..], key, op, IsWordChar(key[|key| - 1]))
    else [s[0]] + ReplaceMnemonic(s[1..], key, op, IsWordChar(s[0]))
  }

  /** The table entries from index `from` on applied in order, each
      replacement seeing the output of the previous one. */
  function ApplyTable(line: string, from: nat): string
    decreases |Mnemonics| - from
  {
    if from >= |Mnemonics| || from >= |OpChars| then line
    else ApplyTable(ReplaceMnemonic(line, Mnemonics[from], OpChars[from], false), from + 1)
  }

  /** `replaceOpcodes`: the loop over the table, reassigning the line. */
  method ReplaceOpcodes(line: string) returns (r: string)
    ensures r == ApplyTable(line, 0)
  {
    TableLengths();
    r := line;
    var i := 0;
    while i < |Mnemonics|
      invariant 0 <= i <= |Mnemonics|
      invariant ApplyTable(r, i) == ApplyTable(line, 0)
    {
      r := ReplaceMnemonic(r, Mnemonics[i], OpChars[i], false);
      i := i + 1;
    }
  }

  /** A text in which the mnemonic does not occur is left unchanged. */
  lemma {:induction false} ReplaceMnemonicAbsent(s: string, key: string, op: char, prevWord: bool)
    requires !Contains(s, key)
    ensures ReplaceMnemonic(s, key, op, prevWord) == s
    decreases |s|
  {
    if s != [] {
      assert !OccursAt(s, key, 0);
      assert !StartsWith(s, key);
      assert !Contains(s[1..], key) by {
        forall j: nat | j <= |s[1..]| ensures !OccursAt(s[1..], key, j) {
          assert !OccursAt(s, key, j + 1);
          if j + |key| <= |s[1..]| {
            assert s[1..][j..j + |key|] == s[j + 1..j + 1 + |key|];
          }
        }
      }
      ReplaceMnemonicAbsent(s[1..], key, op, IsWordChar(s[0]));
      assert s == [s[0]] + s[1..];
    }
  }

  /** A line in which no mnemonic of the table occurs passes through unchanged. */
  lemma {:induction false} ApplyTableAbsent(line: string, from: nat)
    requires forall i :: from <= i < |Mnemonics| ==> !Contains(line, Mnemonics[i])
    ensures ApplyTable(line, from) == line
    decreases |Mnemonics| - from
  {
    if from < |Mnemonics| && from < |OpChars| {
      ReplaceMnemonicAbsent(line, Mnemonics[from], OpChars[from], false);
      ApplyTableAbsent(line, from + 1);
    }
  }

  // ---------------------------------------------------------------- one mnemonic becomes its opcode

  /** What every mnemonic looks like: at least three characters, the first two
      upper-case letters, word characters throughout but for a trailing space. */
  predicate Shaped(m: string) {
    && |m| >= 3 && IsUpper(m[0]) && IsUpper(m[1])
    && (forall k :: 0 <= k < |m| - 1 ==> IsWordChar(m[k]))
    && (IsWordChar(m[|m| - 1]) || m[|m| - 1] == ' ')
  }

  lemma ShapedA(j: nat)
    requires j < 10
    ensures Shaped(Mnemonics[j])
  {
  }

  lemma ShapedB(j: nat)
    requires 10 <= j < 20
    ensures Shaped(Mnemonics[j])
  {
  }

  lemma ShapedC(j: nat)
    requires 20 <= j < 30
    ensures Shaped(Mnemonics[j])
  {
  }

  lemma ShapedD(j: nat)
    requires 30 <= j < 41
    ensures Shaped(Mnemonics[j])
  {
  }

  lemma MnemonicShaped(j: nat)
    requires j < |Mnemonics|
    ensures Shaped(Mnemonics[j])
  {
    if j < 10 {
      ShapedA(j);
    } else if j < 20 {
      ShapedB(j);
    } else if j < 30 {
      ShapedC(j);
    } else {
      ShapedD(j);
    }
  }

  function At(s: string, k: nat): char {
    if k < |s| then s[k] else ' '
  }

  /** The opcode of the mnemonic that `s` starts with, told apart by at most its
      first five characters. */
  function OpOf(s: string): char {
    var c0, c1, c2, c3, c4 := At(s, 0), At(s, 1), At(s, 2), At(s, 3), At(s, 4);
    if c0 == 'E' then
      if c1 == 'X' then 'M' else if c4 == '8' then 'A' else if c4 == '1' then 'B'
      else if c4 == '3' then 'C' else if c4 == '6' then 'D' else 'E'
    else if c0 == 'C' then
      if c1 == 'A' then 'L' else if c2 == 'N' then 'F' else if c4 == 'I' then 'U' else 'T'
    else if c0 == 'H' then
      if c1 == 'E' then 'm' else if c4 == '1' then 'H' else 'G'
    else if c0 == 'S' then
      if c1 == 'I' then 'I' else if c1 == 'E' then 'W' else if c1 == 'P' then 'e'
      else if c3 == 'P' then 'z' else 'O'
    else if c0 == 'I' then 'K'
    else if c0 == 'L' then
      if c1 == 'I' then 'Q' else if c2 == 'G' then 'q' else 'N'
    else if c0 == 'D' then 'P'
    else if c0 == 'M' then
      if c1 == 'A' then 'R' else if c1 == 'I' then 'j' else 'k'
    else if c0 == 'A' then
      if c1 == 'L' then 'S' else if c3 == 'T' then 'g' else 'f'
    else if c0 == 'R' then
      if c2 == 'V' then 'X' else if c2 == 'T' then 'Y' else 'a'
    else if c0 == 'T' then
      if c1 == 'I' then 'l' else if c1 == 'O' then 'p' else if c2 == 'F' then 'b' else 'n'
    else if c0 == 'G' then
      if c3 == 'C' then 'c' else if c3 == 'D' then 'h' else 'i'
    else if c0 == 'N' then 'd'
    else 'o'
  }

  lemma OpTableA()
    ensures forall j :: 0 <= j < 10 ==> OpOf(Mnemonics[j]) == OpChars[j]
  {
  }

  lemma OpTableB()
    ensures forall j :: 10 <= j < 20 ==> OpOf(Mnemonics[j]) == OpChars[j]
  {
  }

  lemma OpTableC()
    ensures forall j :: 20 <= j < 30 ==> OpOf(Mnemonics[j]) == OpChars[j]
  {
  }

  lemma OpTableD()
    ensures forall j :: 30 <= j < 41 ==> OpOf(Mnemonics[j]) == OpChars[j]
  {
  }

  lemma ShortMnemonics()
    ensures forall j :: 0 <= j < |Mnemonics| ==>
      |Mnemonics[j]| >= 5 || Mnemonics[j] in {"IF ", "DEL ", "NOP", "LOG", "STOP"}
  {
  }

  /** A text that starts with the `j`-th mnemonic leads `OpOf` to its opcode. */
  lemma OpOfPrefix(s: string, j: nat)
    requires j < |Mnemonics| && StartsWith(s, Mnemonics[j])
    ensures j < |OpChars| && OpOf(s) == OpChars[j]
  {
    TableLengths();
    OpTableA();
    OpTableB();
    OpTableC();
    OpTableD();
    ShortMnemonics();
    var m := Mnemonics[j];
    forall k | 0 <= k < |m| ensures At(s, k) == m[k] {
      assert s[..|m|][k] == s[k];
    }
    if |m| >= 5 {
      assert At(s, 0) == At(m, 0) && At(s, 1) == At(m, 1) && At(s, 2) == At(m, 2);
      assert At(s, 3) == At(m, 3) && At(s, 4) == At(m, 4);
    }
  }

  /** No mnemonic of the table is a prefix of another: a text starts with at
      most one of them. */
  lemma MnemonicUnique(s: string, i: nat, j: nat)
    requires i < |Mnemonics| && j < |Mnemonics|
    requires StartsWith(s, Mnemonics[i]) && StartsWith(s, Mnemonics[j])
    ensures i == j
  {
    OpOfPrefix(s, i);
    OpOfPrefix(s, j);
    OpcodesDistinct();
  }

  /** After a word character no match can start, so a run of word characters
      and the character after it are copied. */
  lemma {:induction false} WordRunCopied(w: string, x: char, rest: string, key: string, op: char)
    requires key != [] && IsWordChar(key[0]) && !Contains(rest, key)
    requires forall k :: 0 <= k < |w| ==> IsWordChar(w[k])
    ensures ReplaceMnemonic(w + [x] + rest, key, op, true) == w + [x] + rest
    decreases |w|
  {
    var s := w + [x] + rest;
    assert !MnemonicAt(s, key, true);
    if w == [] {
      assert s[1..] == rest;
      ReplaceMnemonicAbsent(rest, key, op, IsWordChar(x));
    } else {
      assert s[1..] == w[1..] + [x] + rest;
      WordRunCopied(w[1..], x, rest, key, op);
    }
  }

  /** A key that the line does not start with, and that does not occur in the
      text behind the line's leading mnemonic `m`, leaves the line unchanged. */
  lemma KeyKept(m: string, rest: string, key: string, op: char)
    requires Shaped(m) && key != [] && IsWordChar(key[0])
    requires !StartsWith(m + rest, key) && !Contains(rest, key)
    ensures ReplaceMnemonic(m + rest, key, op, false) == m + rest
  {
    var s := m + rest;
    assert !MnemonicAt(s, key, false);
    var w := m[1..|m| - 1];
    assert s[1..] == w + [m[|m| - 1]] + rest;
    WordRunCopied(w, m[|m| - 1], rest, key, op);
    assert s == [s[0]] + s[1..];
  }

  /** The replacement of another mnemonic leaves a line that starts with the
      `i`-th one unchanged. */
  lemma OtherMnemonicKept(i: nat, j: nat, rest: string)
    requires i < |Mnemonics| && j < |Mnemonics| && j < |OpChars| && i != j
    requires !Contains(rest, Mnemonics[j])
    ensures ReplaceMnemonic(Mnemonics[i] + rest, Mnemonics[j], OpChars[j], false) == Mnemonics[i] + rest
  {
    MnemonicShaped(i);
    MnemonicShaped(j);
    var m := Mnemonics[i];
    assert (m + rest)[..|m|] == m;
    if StartsWith(m + rest, Mnemonics[j]) {
      MnemonicUnique(m + rest, i, j);
    }
    KeyKept(m, rest, Mnemonics[j], OpChars[j]);
  }

  /** A key at the start of a line, followed by the lookahead and by text in
      which it does not occur, is replaced there and nowhere else. */
  lemma KeyReplaced(m: string, rest: string, op: char)
    requires Shaped(m) && !Contains(rest, m) && Lookahead(m, rest)
    ensures ReplaceMnemonic(m + rest, m, op, false) == [op] + rest
  {
    var s := m + rest;
    assert s[..|m|] == m && s[|m|..] == rest;
    assert MnemonicAt(s, m, false);
    ReplaceMnemonicAbsent(rest, m, op, IsWordChar(m[|m| - 1]));
  }

  /** The `i`-th replacement turns the mnemonic at the start of the line into
      its opcode character. */
  lemma OwnMnemonicReplaced(i: nat, rest: string)
    requires i < |Mnemonics| && i < |OpChars|
    requires !Contains(rest, Mnemonics[i]) && Lookahead(Mnemonics[i], rest)
    ensures ReplaceMnemonic(Mnemonics[i] + rest, Mnemonics[i], OpChars[i], false) == [OpChars[i]] + rest
  {
    MnemonicShaped(i);
    KeyReplaced(Mnemonics[i], rest, OpChars[i]);
  }

  /** An opcode character followed by text that does not start with an
      upper-case letter cannot begin a mnemonic. */
  lemma OpcodeKept(c: char, j: nat, rest: string)
    requires j < |Mnemonics| && j < |OpChars|
    requires !Contains(rest, Mnemonics[j]) && (rest == [] || !IsUpper(rest[0]))
    ensures ReplaceMnemonic([c] + rest, Mnemonics[j], OpChars[j], false) == [c] + rest
  {
    MnemonicShaped(j);
    var key, s := Mnemonics[j], [c] + rest;
    assert !MnemonicAt(s, key, false);
    assert s[1..] == rest;
    ReplaceMnemonicAbsent(rest, key, OpChars[j], IsWordChar(c));
  }

  lemma {:induction false} ApplyTableBefore(i: nat, rest: string, from: nat)
    requires from <= i < |Mnemonics|
    requires forall j :: 0 <= j < |Mnemonics| ==> !Contains(rest, Mnemonics[j])
    requires Lookahead(Mnemonics[i], rest)
    ensures ApplyTable(Mnemonics[i] + rest, from) == ApplyTable([OpChars[i]] + rest, i + 1)
    decreases i - from
  {
    TableLengths();
    var line := Mnemonics[i] + rest;
    if from < i {
      OtherMnemonicKept(i, from, rest);
      assert ApplyTable(line, from) == ApplyTable(line, from + 1);
      ApplyTableBefore(i, rest, from + 1);
    } else {
      OwnMnemonicReplaced(i, rest);
      assert ApplyTable(line, from) == ApplyTable([OpChars[i]] + rest, i + 1);
    }
  }

  lemma {:induction false} ApplyTableAfter(c: char, rest: string, from: nat)
    requires forall j :: 0 <= j < |Mnemonics| ==> !Contains(rest, Mnemonics[j])
    requires rest == [] || !IsUpper(rest[0])
    ensures ApplyTable([c] + rest, from) == [c] + rest
    decreases |Mnemonics| - from
  {
    TableLengths();
    if from < |Mnemonics| {
      OpcodeKept(c, from, rest);
      assert ApplyTable([c] + rest, from) == ApplyTable([c] + rest, from + 1);
      ApplyTableAfter(c, rest, from + 1);
    }
  }

  /** A line made of the `i`-th mnemonic and a text in which no mnemonic occurs
      becomes the opcode character and that text, provided the lookahead holds
      after the mnemonic and the text does not start with an upper-case letter
      (which could complete a later mnemonic behind the new opcode character). */
  lemma OpcodeReplaced(i: nat, rest: string)
    requires i < |Mnemonics|
    requires forall j :: 0 <= j < |Mnemonics| ==> !Contains(rest, Mnemonics[j])
    requires Lookahead(Mnemonics[i], rest)
    requires rest == [] || !IsUpper(rest[0])
    ensures i < |OpChars| && ApplyTable(Mnemonics[i] + rest, 0) == [OpChars[i]] + rest
  {
    TableLengths();
    ApplyTableBefore(i, rest, 0);
    ApplyTableAfter(OpChars[i], rest, i + 1);
  }

  /** Mnemonics start with an upper-case letter, so none occurs in a text
      without one. */
  lemma NoUpperNoMnemonic(s: string)
    requires forall k :: 0 <= k < |s| ==> !IsUpper(s[k])
    ensures forall j :: 0 <= j < |Mnemonics| ==> !Contains(s, Mnemonics[j])
  {
    forall j, p: nat | 0 <= j < |Mnemonics| && p <= |s| ensures !OccursAt(s, Mnemonics[j], p) {
      MnemonicShaped(j);
      if p + |Mnemonics[j]| <= |s| {
        assert s[p..p + |Mnemonics[j]|][0] == s[p];
      }
    }
  }

  lemma CallEntry()
    ensures Mnemonics[10] == "CALL " && OpChars[10] == 'L'
  {
  }

  /** `CALL ` followed by an operand in which no mnemonic occurs, and which
      starts with a word character other than an upper-case letter, becomes `L`
      and the operand. */
  lemma CallEncoded(rest: string)
    requires rest != [] && IsWordChar(rest[0]) && !IsUpper(rest[0])
    requires forall j :: 0 <= j < |Mnemonics| ==> !Contains(rest, Mnemonics[j])
    ensures ApplyTable("CALL " + rest, 0) == "L" + rest
  {
    CallEntry();
    assert Lookahead(Mnemonics[10], rest);
    OpcodeReplaced(10, rest);
  }

  /** The first line of the opcode test script, `EVAL32 gi0,4,`, becomes `Cgi0,4,`. */
  lemma OpcodeTestEval(rest: string)
    requires rest == "gi0,4,"
    ensures ApplyTable("EVAL32 " + rest, 0) == "C" + rest
  {
    NoUpperNoMnemonic(rest);
    OpcodeReplaced(2, rest);
  }

  /** The second line, `IF ii0,4,`, becomes `Kii0,4,`. */
  lemma OpcodeTestIf(rest: string)
    requires rest == "ii0,4,"
    ensures ApplyTable("IF " + rest, 0) == "K" + rest
  {
    NoUpperNoMnemonic(rest);
    OpcodeReplaced(9, rest);
  }

  /** The third line, `RETURN`, becomes `Y`. */
  lemma OpcodeTestReturn(rest: string)
    requires rest == []
    ensures ApplyTable("RETURN" + rest, 0) == "Y" + rest
  {
    NoUpperNoMnemonic(rest);
    OpcodeReplaced(22, rest);
  }

  /** `getSupportedOpcodes`: the mnemonics in table order, among them the
      `EVAL32 ` and `RETURN` that the test script looks for. */
  function SupportedOpcodes(): (keys: seq<string>)
    ensures |keys| == |OpChars| == 41
    ensures keys[2] == "EVAL32 " && keys[22] == "RETURN"
  {
    Mnemonics
  }

  predicate StrictlyIncreasing(cs: string) {
    forall i :: 0 <= i < |cs| - 1 ==> cs[i] < cs[i + 1]
  }

  lemma {:induction false} IncreasingDistinct(cs: string, i: nat, j: nat)
    requires StrictlyIncreasing(cs) && i < j < |cs|
    ensures cs[i] < cs[j]
    decreases j - i
  {
    if i + 1 < j {
      IncreasingDistinct(cs, i + 1, j);
    }
  }

  /** The table has 41 entries and its opcode characters are pairwise distinct,
      so every opcode character names exactly one mnemonic. */
  lemma {:induction false} OpcodesDistinct()
    ensures |Mnemonics| == |OpChars| == 41
    ensures forall i, j :: 0 <= i < j < |OpChars| ==> OpChars[i] != OpChars[j]
  {
    assert StrictlyIncreasing(OpChars);
    forall i, j | 0 <= i < j < |OpChars| ensures OpChars[i] != OpChars[j] {
      IncreasingDistinct(OpChars, i, j);
    }
  }
}
