/** The assembler (src/lib/asm.ts, `Asm.assemble`): pass 1 classifies the
    trimmed source lines into debug directives, comments, defines and
    instructions; pass 2 rewrites each emitted instruction into object code;
    the object code is then encoded and hashed. A thrown error becomes a
    uniform failure record. */
module Asm {
  import opened Wrappers
  import opened Text
  import opened Numbers
  import opened Opcodes
  import opened Literals
  import opened Symbols
  import opened Variables
  import opened Regions
  import opened Relative

  /** A RIPEMD-160 digest as CryptoJS renders it: 40 lowercase hex digits. */
  type Digest160 = s: string | |s| == 40 && IsLowerHex(s) witness Repeat('0', 40)

  type Ripemd160 = seq<byte> -> Digest160

  /** What the assembler takes from libraries: SHA-256 for `abi` calls,
      RIPEMD-160 for the content hash, and `JSON.parse` for directives. */
  datatype External = External(sha256: Sha256, ripemd160: Ripemd160, parseJson: string -> Directive)

  // ---------------------------------------------------------------- comments

  /** The end of the run of white space that starts at `p`. */
  function WhiteRunEnd(s: string, p: nat): (q: nat)
    requires p <= |s|
    ensures p <= q <= |s|
    decreases |s| - p
  {
    if p < |s| && IsWhite(s[p]) then WhiteRunEnd(s, p + 1) else p
  }

  /** The run is white and ends at the first character that is not. */
  lemma {:induction false} WhiteRunEndSpec(s: string, p: nat)
    requires p <= |s|
    ensures var q := WhiteRunEnd(s, p);
      && (forall i :: p <= i < q ==> IsWhite(s[i]))
      && (q < |s| ==> !IsWhite(s[q]))
    decreases |s| - p
  {
    if p < |s| && IsWhite(s[p]) {
      WhiteRunEndSpec(s, p + 1);
    }
  }

  /** `\s*;.*$` matches at `p`: the white space from `p` on is followed by `;`
      and by a rest without line terminators. */
  predicate CommentAt(s: string, p: nat)
    requires p <= |s|
  {
    var q := WhiteRunEnd(s, p);
    q < |s| && s[q] == ';' && NoLineTerminator(s[q + 1..])
  }

  /** The leftmost position at or after `p` where the comment pattern matches. */
  function CommentStart(s: string, p: nat): Option<nat>
    requires p <= |s|
    decreases |s| - p
  {
    if p == |s| then None
    else if CommentAt(s, p) then Some(p)
    else CommentStart(s, p + 1)
  }

  lemma {:induction false} CommentStartLeftmost(s: string, p: nat)
    requires p <= |s|
    ensures var m := CommentStart(s, p);
      && (m.Some? ==> p <= m.value < |s| && CommentAt(s, m.value))
      && (m.Some? ==> forall k :: p <= k < m.value ==> !CommentAt(s, k))
      && (m.None? ==> forall k :: p <= k < |s| ==> !CommentAt(s, k))
    decreases |s| - p
  {
    if p < |s| && !CommentAt(s, p) {
      CommentStartLeftmost(s, p + 1);
    }
  }

  /** Comment removal: the matched text is deleted where it first occurs, as
      `line.replace(match, '')` with a string pattern does. */
  function StripComment(s: string): string {
    CommentStartLeftmost(s, 0);
    match CommentStart(s, 0)
    case None => s
    case Some(p) =>
      var m := s[p..];
      assert OccursAt(s, m, p);
      var j := FirstOccurrence(s, m, 0, p);
      s[..j] + s[j + |m|..]
  }

  /** A line without `;` has no comment. */
  lemma StripNoComment(s: string)
    requires ';' !in s
    ensures StripComment(s) == s
  {
    CommentStartLeftmost(s, 0);
    forall k | 0 <= k < |s| ensures !CommentAt(s, k) {
      var q := WhiteRunEnd(s, k);
      assert q < |s| ==> s[q] in s;
    }
  }

  /** On a line without line terminators the comment starts at the white space
      before the first `;`: what remains is the text before it, trimmed at its end. */
  lemma StripCommentPlain(s: string, c: nat)
    requires NoLineTerminator(s) && c < |s| && s[c] == ';'
    requires forall i :: 0 <= i < c ==> s[i] != ';'
    ensures StripComment(s) == TrimEnd(s[..c])
  {
    var kept := TrimEnd(s[..c]);
    var p0 := |kept|;
    PlainCommentStart(s, c);
    var tail := s[p0..];
    forall k: nat | k < p0 ensures !OccursAt(s, tail, k) {
      assert s[k..k + |tail|][c - p0] == s[k + (c - p0)] != ';';
    }
    var j := FirstOccurrence(s, tail, 0, p0);
    assert j == p0;
    assert s[..p0] == kept;
    assert s[p0 + |tail|..] == [];
  }

  /** Under the same conditions the comment match starts where the trailing
      white space before the first `;` does. */
  lemma PlainCommentStart(s: string, c: nat)
    requires NoLineTerminator(s) && c < |s| && s[c] == ';'
    requires forall i :: 0 <= i < c ==> s[i] != ';'
    ensures CommentStart(s, 0) == Some(|TrimEnd(s[..c])|)
  {
    var kept := TrimEnd(s[..c]);
    var p0 := |kept|;
    assert forall i :: p0 <= i < c ==> IsWhite(s[i]) by {
      forall i | p0 <= i < c ensures IsWhite(s[i]) {
        assert s[..c][i] == s[i];
      }
    }
    WhiteRunAt(s, p0, c);
    var rest := s[c + 1..];
    assert NoLineTerminator(rest) by {
      forall i | 0 <= i < |rest| ensures !IsLineTerminator(rest[i]) {
        assert rest[i] == s[c + 1 + i];
      }
    }
    assert CommentAt(s, p0);
    forall k | 0 <= k < p0 ensures !CommentAt(s, k) {
      WhiteRunEndSpec(s, k);
      assert !IsWhite(s[p0 - 1]) by {
        assert kept[p0 - 1] == s[p0 - 1];
      }
      assert WhiteRunEnd(s, k) < c;
    }
    CommentStartLeftmost(s, 0);
  }

  lemma {:induction false} WhiteRunAt(s: string, p: nat, c: nat)
    requires p <= c < |s| && !IsWhite(s[c])
    requires forall i :: p <= i < c ==> IsWhite(s[i])
    ensures WhiteRunEnd(s, p) == c
    decreases c - p
  {
    if p < c {
      WhiteRunAt(s, p + 1, c);
    }
  }

  // ---------------------------------------------------------------- pass 1

  /** `^;#\{[^}\n]+\}` matches: `;#{`, at least one character other than `}`
      and newline, then `}`. */
  predicate IsDirective(line: string) {
    && StartsWith(line, ";#{")
    && exists k :: 4 <= k < |line| && line[k] == '}' && forall i :: 3 <= i < k ==> line[i] != '}' && line[i] != '\n'
  }

  /** The state pass 1 carries from line to line: `defs`, `ln`, the emitted
      lines (whose newline-terminated concatenation is `processedCode`) and the
      debug regions. */
  datatype Pass1 = Pass1(defs: Defs, ln: nat, emitted: seq<string>, regions: Regions)

  const Start: Pass1 := Pass1([], 0, [], NoRegions)

  /** The variables of the open region, when there is one (`pdinfo`). */
  function OpenVars(r: Regions): Option<seq<VarItem>> {
    if r.open.Some? then Some(r.open.value.vars) else None
  }

  /** The variables of the global region, when there is one (`globvar`). */
  function GlobalVars(r: Regions): Option<seq<VarItem>> {
    if r.global.Some? then Some(r.global.value.vars) else None
  }

  /** The line number debug records are given: `ln - BODY`. */
  function DebugLine(st: Pass1): Num {
    Minus(st.ln, BodyValue(st.defs))
  }

  /** A processed line either is a define, recorded and dropped, or an
      instruction, emitted and counted. */
  function Record(st: Pass1, line: string): Pass1 {
    match DefineArgs(line)
    case Some(args) =>
      (match DefineEntry(args, st.ln)
       case Some(e) => st.(defs := Assign(st.defs, e.name, e.value))
       case None => st)
    case None => st.(ln := st.ln + 1, emitted := st.emitted + [line])
  }

  /** One source line of pass 1. Only an unresolved variable fails. */
  function Step(st: Pass1, raw: string, ext: External): Result<Pass1, string> {
    var line := Trim(raw);
    if IsDirective(line) then
      Success(st.(regions := OnDirective(st.regions, ext.parseJson(line[2..]), DebugLine(st))))
    else
      var stripped := StripComment(line);
      if stripped == "" then Success(st)
      else
        var resolved :- ProcessVariables(ProcessAbiFunctions(stripped, ext.sha256),
                                         OpenVars(st.regions), GlobalVars(st.regions));
        Success(Record(st, resolved))
  }

  /** Pass 1 over the remaining lines. */
  function Pass1Run(st: Pass1, lines: seq<string>, ext: External): Result<Pass1, string>
    decreases |lines|
  {
    if lines == [] then Success(st)
    else
      var st' :- Step(st, lines[0], ext);
      Pass1Run(st', lines[1..], ext)
  }

  /** A define line is dropped without advancing `ln`; when it has at least two
      parts its name is bound to its value, overwriting an earlier binding, and
      every other name keeps its value. */
  lemma DefineRecorded(st: Pass1, line: string, n: string)
    requires DefineArgs(line).Some?
    ensures var st' := Record(st, line); var e := DefineEntry(DefineArgs(line).value, st.ln);
      && st'.ln == st.ln && st'.emitted == st.emitted && st'.regions == st.regions
      && (e.None? ==> st'.defs == st.defs)
      && (e.Some? ==> Lookup(st'.defs, n) == if n == e.value.name then Some(e.value.value) else Lookup(st.defs, n))
  {
    var e := DefineEntry(DefineArgs(line).value, st.ln);
    if e.Some? {
      AssignLookup(st.defs, e.value.name, e.value.value, n);
    }
  }

  /** Any other line is emitted and advances `ln` by one. */
  lemma InstructionEmitted(st: Pass1, line: string)
    requires DefineArgs(line).None?
    ensures Record(st, line) == st.(ln := st.ln + 1, emitted := st.emitted + [line])
  {
  }

  /** What pass 1 keeps true: `ln` counts the emitted lines, no emitted line is
      a define, the names in `defs` are distinct and the regions are valid. */
  predicate Pass1Valid(st: Pass1) {
    && st.ln == |st.emitted|
    && (forall i :: 0 <= i < |st.emitted| ==> DefineArgs(st.emitted[i]).None?)
    && DistinctNames(st.defs)
    && Valid(st.regions)
  }

  lemma StepValid(st: Pass1, raw: string, ext: External)
    requires Pass1Valid(st) && Step(st, raw, ext).Success?
    ensures Pass1Valid(Step(st, raw, ext).value)
  {
    var line := Trim(raw);
    if !IsDirective(line) {
      var stripped := StripComment(line);
      if stripped != "" {
        var resolved := ProcessVariables(ProcessAbiFunctions(stripped, ext.sha256),
                                         OpenVars(st.regions), GlobalVars(st.regions)).value;
        match DefineArgs(resolved) {
          case Some(args) =>
            match DefineEntry(args, st.ln) {
              case Some(e) => AssignDistinct(st.defs, e.name, e.value);
              case None =>
            }
          case None =>
        }
      }
    }
  }

  /** Pass 1 keeps its invariant from the first line to the last. */
  lemma {:induction false} Pass1RunValid(st: Pass1, lines: seq<string>, ext: External)
    requires Pass1Valid(st) && Pass1Run(st, lines, ext).Success?
    ensures Pass1Valid(Pass1Run(st, lines, ext).value)
    decreases |lines|
  {
    if lines != [] {
      StepValid(st, lines[0], ext);
      Pass1RunValid(Step(st, lines[0], ext).value, lines[1..], ext);
    }
  }

  /** The lines that open a debug region. */
  function CodeDirectives(lines: seq<string>, ext: External): nat {
    if lines == [] then 0
    else
      var line := Trim(lines[0]);
      (if IsDirective(line) && OpensRegion(ext.parseJson(line[2..])) then 1 else 0) + CodeDirectives(lines[1..], ext)
  }

  /** Every `code` directive opens exactly one region. */
  lemma {:induction false} Pass1RegionCount(st: Pass1, lines: seq<string>, ext: External)
    requires Pass1Run(st, lines, ext).Success?
    ensures RegionCount(Pass1Run(st, lines, ext).value.regions) == RegionCount(st.regions) + CodeDirectives(lines, ext)
    decreases |lines|
  {
    if lines != [] {
      Pass1RegionCount(Step(st, lines[0], ext).value, lines[1..], ext);
    }
  }

  /** Pass 1 fails only on a variable: with the error of a `null` binding or
      with the invalid-variable message of a token's name. */
  lemma {:induction false} Pass1Errors(st: Pass1, lines: seq<string>, ext: External)
    requires Pass1Run(st, lines, ext).Failure?
    ensures var e := Pass1Run(st, lines, ext).error; e == NullLocError || exists name :: e == InvalidVariable(name)
    decreases |lines|
  {
    var s := Step(st, lines[0], ext);
    if s.Success? {
      Pass1Errors(s.value, lines[1..], ext);
    } else {
      var line := Trim(lines[0]);
      var text := ProcessAbiFunctions(StripComment(line), ext.sha256);
      var current, global := OpenVars(st.regions), GlobalVars(st.regions);
      ProcessVariablesOutcome(text, current, global);
      var ts := Tokens(text);
      var i :| 0 <= i < |ts| && Resolve(current, global, ts[i]) == Failure(s.error);
    }
  }

  // ---------------------------------------------------------------- pass 2

  /** One instruction line of pass 2 on line number `ln`: opcodes, then string
      literals, then the defines in the given order, then relative targets. */
  function Pass2Line(line: string, ln: nat, sorted: Defs): string {
    ProcessRelative(SubstituteAll(ProcessStrings(ApplyTable(line, 0)), sorted), ln)
  }

  /** The rewriting of pass 2 as a function of a line and its line number. */
  function Rewriter(sorted: Defs): (string, nat) -> string {
    (line: string, ln: nat) => Pass2Line(line, ln, sorted)
  }

  /** Pass 2 over the remaining lines: blank lines are skipped and not counted,
      and every other line is rewritten on its line number. */
  function Pass2Run(lines: seq<string>, ln: nat, rewrite: (string, nat) -> string): seq<string>
    decreases |lines|
  {
    if lines == [] then []
    else if IsBlank(lines[0]) then Pass2Run(lines[1..], ln, rewrite)
    else [rewrite(lines[0], ln)] + Pass2Run(lines[1..], ln + 1, rewrite)
  }

  /** When no emitted line is blank or holds a newline, pass 2 numbers the lines
      as pass 1 counted them: output line `i` is emitted line `i` rewritten on
      line number `i`, so a `.N` target recorded by a define reaches line `N`. */
  lemma Pass2Numbering(emitted: seq<string>, rewrite: (string, nat) -> string)
    requires forall i :: 0 <= i < |emitted| ==> '\n' !in emitted[i] && !IsBlank(emitted[i])
    ensures var out := Pass2Run(Split(Terminated(emitted), '\n'), 0, rewrite);
      |out| == |emitted| && forall i :: 0 <= i < |out| ==> out[i] == rewrite(emitted[i], i)
  {
    SplitTerminated(emitted);
    Pass2Kept(emitted, 0, rewrite);
  }

  lemma {:induction false} Pass2Kept(lines: seq<string>, ln: nat, rewrite: (string, nat) -> string)
    requires forall i :: 0 <= i < |lines| ==> !IsBlank(lines[i])
    ensures var out := Pass2Run(lines + [""], ln, rewrite);
      |out| == |lines| && forall i :: 0 <= i < |out| ==> out[i] == rewrite(lines[i], ln + i)
    decreases |lines|
  {
    if lines == [] {
      assert Pass2Run([""], ln, rewrite) == Pass2Run([], ln, rewrite);
    } else {
      var all := lines + [""];
      assert all[0] == lines[0] && all[1..] == lines[1..] + [""];
      Pass2Kept(lines[1..], ln + 1, rewrite);
      var rest := Pass2Run(lines[1..] + [""], ln + 1, rewrite);
      var out := Pass2Run(all, ln, rewrite);
      assert out == [rewrite(lines[0], ln)] + rest;
      forall i | 1 <= i < |out| ensures out[i] == rewrite(lines[i], ln + i) {
        assert out[i] == rest[i - 1];
        assert lines[1..][i - 1] == lines[i];
      }
    }
  }

  /** A lower-case word: no mnemonic and no quote can occur in it. */
  predicate LowerWord(name: string) {
    forall i :: 0 <= i < |name| ==> IsWordChar(name[i]) && !IsUpper(name[i])
  }

  /** `CALL 0,.name,` after `define name .` on line `n` (which binds `name` to
      the decimal of `n`, see `DefineRecorded`) becomes `L0,` and the distance
      from the current line to line `n`: the opcode is encoded, the name is
      replaced by its line number and the target by the distance. The name is
      a lower-case word, so no mnemonic occurs behind `CALL `, and no other
      define name occurs in the line before or after the substitution. */
  lemma DefinedTarget(name: Name, n: nat, ln: nat, defs: Defs)
    requires LowerWord(name)
    requires DistinctNames(defs) && Lookup(defs, name) == Some(Decimal(n))
    requires forall e :: e in defs && e.name != name ==>
      !Contains("L0,." + name + ",", e.name) && !Contains("L0,." + Decimal(n) + ",", e.name)
    ensures Pass2Line("CALL " + ("0,." + name + ","), ln, SortByLength(defs)) == "L0," + Distance(n, ln) + ","
  {
    var rest := "0,." + name + ",";
    var before, after := "L" + rest, "L0,." + Decimal(n) + ",";
    CallOpcode(name, rest);
    CallStrings(name, before);
    CallSubstituted(name, n, defs, before, after);
    CallRelative(n, ln, after);
    Pass2LineSteps("CALL " + rest, ln, SortByLength(defs), before, before, after, "L0," + Distance(n, ln) + ",");
  }

  /** Pass 2 on one line, given the outcome of each of its four steps. */
  lemma Pass2LineSteps(line: string, ln: nat, sorted: Defs, encoded: string, quoted: string, substituted: string, out: string)
    requires ApplyTable(line, 0) == encoded && ProcessStrings(encoded) == quoted
    requires SubstituteAll(quoted, sorted) == substituted && ProcessRelative(substituted, ln) == out
    ensures Pass2Line(line, ln, sorted) == out
  {
  }

  /** Pass 2's define step on `L0,.name,`. */
  lemma CallSubstituted(name: Name, n: nat, defs: Defs, before: string, after: string)
    requires LowerWord(name) && before == "L" + ("0,." + name + ",") && after == "L0,." + Decimal(n) + ","
    requires DistinctNames(defs) && Lookup(defs, name) == Some(Decimal(n))
    requires forall e :: e in defs && e.name != name ==>
      !Contains("L0,." + name + ",", e.name) && !Contains("L0,." + Decimal(n) + ",", e.name)
    ensures SubstituteAll(before, SortByLength(defs)) == after
  {
    assert IsWordChar(name[0]) && !IsUpper(name[0]);
    assert before == "L0,." + name + ",";
    CallDefine(name, Decimal(n), defs, before, after);
  }

  /** Pass 2's relative step on `L0,.n,`. */
  lemma CallRelative(n: nat, ln: nat, after: string)
    requires after == "L0,." + Decimal(n) + ","
    ensures ProcessRelative(after, ln) == "L0," + Distance(n, ln) + ","
  {
    var a, b := "L0,", ",";
    assert after == a + "." + Decimal(n) + b;
    TargetBecomesDistance(a, n, b, ln);
    ProcessRelativeCopies(b, [], ln);
    assert b + [] == b;
  }

  /** No mnemonic occurs in the operand `0,.name,` of a lower-case name. */
  lemma LowerOperand(name: Name, rest: string)
    requires LowerWord(name) && rest == "0,." + name + ","
    ensures forall j :: 0 <= j < |Mnemonics| ==> !Contains(rest, Mnemonics[j])
  {
    forall k | 0 <= k < |rest| ensures !IsUpper(rest[k]) {
      if 3 <= k < 3 + |name| {
        assert rest[k] == name[k - 3];
      }
    }
    NoUpperNoMnemonic(rest);
  }

  /** Pass 2's opcode step on `CALL 0,.name,`. */
  lemma CallOpcode(name: Name, rest: string)
    requires LowerWord(name) && rest == "0,." + name + ","
    ensures ApplyTable("CALL " + rest, 0) == "L" + rest
  {
    LowerOperand(name, rest);
    CallEncoded(rest);
  }

  /** Pass 2's string step leaves `L0,.name,` alone. */
  lemma CallStrings(name: Name, encoded: string)
    requires LowerWord(name) && encoded == "L" + ("0,." + name + ",")
    ensures ProcessStrings(encoded) == encoded
  {
    assert '"' !in encoded by {
      forall k | 0 <= k < |encoded| ensures encoded[k] != '"' {
        if 4 <= k < 4 + |name| {
          assert encoded[k] == name[k - 4];
        }
      }
    }
    ProcessStringsCopies(encoded, "");
    assert encoded + "" == encoded;
  }

  // ---------------------------------------------------------------- result

  /** The value `assemble` returns. */
  datatype AssemblyResult = AssemblyResult(bytecode: string, hash: string, objectCode: string,
                                           debugInfo: seq<Region>, success: bool, error: Option<string>)

  /** The record the top-level `catch` returns. */
  function FailureRecord(msg: string): AssemblyResult {
    AssemblyResult("", "", "", [], false, Some(msg))
  }

  /** `generateBytecode`: the UTF-8 bytes of the object code in lowercase hex,
      which the hex parser reads back. */
  function GenerateBytecode(objectCode: string): (bytecode: string)
    ensures IsLowerHex(bytecode) && |bytecode| == 2 * |Utf8Encode(objectCode)|
    ensures IsHex(bytecode) && |bytecode| % 2 == 0 && HexParse(bytecode) == Utf8Encode(objectCode)
  {
    HexParseEncode(Utf8Encode(objectCode));
    HexEncode(Utf8Encode(objectCode))
  }

  /** `generateHash`: RIPEMD-160 of the bytes the bytecode spells. */
  function GenerateHash(bytecode: string, ext: External): Digest160
    requires IsHex(bytecode) && |bytecode| % 2 == 0
  {
    ext.ripemd160(HexParse(bytecode))
  }

  /** On ASCII object code the bytecode has two hex digits per character. */
  lemma BytecodeOfAscii(objectCode: string)
    requires IsAscii(objectCode)
    ensures |GenerateBytecode(objectCode)| == 2 * |objectCode|
  {
    Utf8Ascii(objectCode);
  }

  /** `assemble`: pass 1, the closing of the regions, the longest-first order
      of the defines, pass 2, and the encodings of the trimmed object code. */
  function Assembled(code: string, ext: External): AssemblyResult {
    match Pass1Run(Start, Split(code, '\n'), ext)
    case Failure(msg) => FailureRecord(msg)
    case Success(st) =>
      var debug := Finalize(st.regions, BodyValue(st.defs));
      var out := Pass2Run(Split(Terminated(st.emitted), '\n'), 0, Rewriter(SortByLength(st.defs)));
      var objectCode := Trim(Terminated(out));
      var bytecode := GenerateBytecode(objectCode);
      AssemblyResult(bytecode, GenerateHash(bytecode, ext), objectCode, debug, true, None)
  }

  /** The two shapes of the result. A failure has empty outputs, no debug
      records and the message of an unresolved variable; a success has no
      error, trimmed object code, its bytecode and the hash of that bytecode,
      and one debug record per `code` directive, the first carrying `body`. */
  lemma AssembledOutcome(code: string, ext: External)
    ensures var r := Assembled(code, ext);
      && (r.success <==> r.error.None?)
      && (!r.success ==> r == FailureRecord(r.error.value))
      && (!r.success ==> r.error.value == NullLocError || exists name :: r.error.value == InvalidVariable(name))
      && (r.success ==> IsTrimmed(r.objectCode) && r.bytecode == GenerateBytecode(r.objectCode)
                        && r.hash == ext.ripemd160(Utf8Encode(r.objectCode)))
      && (r.success ==> |r.debugInfo| == CodeDirectives(Split(code, '\n'), ext))
      && (r.success && r.debugInfo != [] ==> r.debugInfo[0].body.Some?)
  {
    var lines := Split(code, '\n');
    match Pass1Run(Start, lines, ext)
    case Failure(msg) =>
      Pass1Errors(Start, lines, ext);
    case Success(st) =>
      Pass1RegionCount(Start, lines, ext);
      assert Pass1Valid(Start);
      Pass1RunValid(Start, lines, ext);
      var objectCode := Trim(Terminated(Pass2Run(Split(Terminated(st.emitted), '\n'), 0, Rewriter(SortByLength(st.defs)))));
      assert IsTrimmed(objectCode);
  }

  // ---------------------------------------------------------------- the imperative assembler

  /** One step of the pass-1 loop against its specification. */
  lemma Pass1Advance(st: Pass1, lines: seq<string>, i: nat, ext: External)
    requires i < |lines|
    ensures Pass1Run(st, lines[i..], ext) == (var st' :- Step(st, lines[i], ext); Pass1Run(st', lines[i + 1..], ext))
  {
    assert lines[i..][0] == lines[i] && lines[i..][1..] == lines[i + 1..];
  }

  /** The four outcomes of a pass-1 step, one per branch of the loop. */
  lemma StepCases(st: Pass1, raw: string, ext: External)
    ensures var line := Trim(raw); var stripped := StripComment(line);
      var resolved := ProcessVariables(ProcessAbiFunctions(stripped, ext.sha256), OpenVars(st.regions), GlobalVars(st.regions));
      && (IsDirective(line) ==> Step(st, raw, ext) == Success(st.(regions := OnDirective(st.regions, ext.parseJson(line[2..]), DebugLine(st)))))
      && (!IsDirective(line) && stripped == "" ==> Step(st, raw, ext) == Success(st))
      && (!IsDirective(line) && stripped != "" && resolved.Failure? ==> Step(st, raw, ext) == Failure(resolved.error))
      && (!IsDirective(line) && stripped != "" && resolved.Success? ==> Step(st, raw, ext) == Success(Record(st, resolved.value)))
  {
  }

  /** The directive branch of the pass-1 loop, updating `debug`, `globvar` and
      the open region `pdinfo` in place. */
  method ApplyDirective(debug: seq<Region>, globvar: Option<Region>, pdinfo: Option<Region>, dinfo: Directive, at: Num)
    returns (debug': seq<Region>, globvar': Option<Region>, pdinfo': Option<Region>)
    ensures Regions(debug', globvar', pdinfo') == OnDirective(Regions(debug, globvar, pdinfo), dinfo, at)
  {
    debug', globvar', pdinfo' := debug, globvar, pdinfo;
    match dinfo {
      case Malformed =>
      case Parsed(code, endcode, srcline, vars) =>
        if code.Some? {
          if pdinfo'.Some? {
            debug' := debug' + [pdinfo'.value];
            if globvar'.None? {
              globvar' := pdinfo';
            }
          }
          pdinfo' := Some(Region(code.value, vars, at, None, [], None));
        } else if endcode {
          if pdinfo'.Some? {
            pdinfo' := Some(pdinfo'.value.(end := Some(at)));
          }
        } else if srcline.Some? {
          if pdinfo'.Some? {
            var matched := false;
            var k := 0;
            while k < |pdinfo'.value.lines|
              invariant 0 <= k <= |pdinfo'.value.lines|
              invariant matched <==> exists i :: 0 <= i < k && pdinfo'.value.lines[i].1 == srcline.value
            {
              if pdinfo'.value.lines[k].1 == srcline.value {
                matched := true;
              }
              k := k + 1;
            }
            if !matched {
              pdinfo' := Some(pdinfo'.value.(lines := pdinfo'.value.lines + [(at, srcline.value)]));
            }
          }
        }
    }
  }

  /** The define-or-emit tail of the pass-1 loop for a processed line. */
  method RecordLine(defs: Defs, ln: nat, emitted: seq<string>, ghost regions: Regions, processedCode: string, l: string)
    returns (defs': Defs, ln': nat, emitted': seq<string>, processedCode': string)
    requires processedCode == Terminated(emitted)
    ensures Pass1(defs', ln', emitted', regions) == Record(Pass1(defs, ln, emitted, regions), l)
    ensures processedCode' == Terminated(emitted')
  {
    ghost var st := Pass1(defs, ln, emitted, regions);
    defs', ln', emitted', processedCode' := defs, ln, emitted, processedCode;
    var args := DefineArgs(l);
    if args.Some? {
      var entry := DefineEntry(args.value, ln);
      if entry.Some? {
        defs' := Assign(defs, entry.value.name, entry.value.value);
        assert Record(st, l) == st.(defs := defs');
      } else {
        assert Record(st, l) == st;
      }
    } else {
      ln' := ln + 1;
      TerminatedSnoc(emitted, l);
      emitted' := emitted + [l];
      processedCode' := processedCode + l + "\n";
    }
  }

  /** Pass 1 as the source's loop: it stops at the first line whose variable
      does not resolve, and otherwise returns the final state together with
      `processedCode`. */
  method FirstPass(lines: seq<string>, ext: External) returns (res: Result<Pass1, string>, processedCode: string)
    ensures res == Pass1Run(Start, lines, ext)
    ensures res.Success? ==> processedCode == Terminated(res.value.emitted)
  {
    var defs: Defs := [];
    var ln: nat := 0;
    var emitted: seq<string> := [];
    var debug: seq<Region> := [];
    var globvar: Option<Region> := None;
    var pdinfo: Option<Region> := None;
    processedCode := "";
    var i := 0;
    while i < |lines|
      invariant 0 <= i <= |lines|
      invariant processedCode == Terminated(emitted)
      invariant Pass1Run(Pass1(defs, ln, emitted, Regions(debug, globvar, pdinfo)), lines[i..], ext) == Pass1Run(Start, lines, ext)
    {
      ghost var st := Pass1(defs, ln, emitted, Regions(debug, globvar, pdinfo));
      Pass1Advance(st, lines, i, ext);
      StepCases(st, lines[i], ext);
      var line := Trim(lines[i]);
      if IsDirective(line) {
        var at := Minus(ln, BodyValue(defs));
        debug, globvar, pdinfo := ApplyDirective(debug, globvar, pdinfo, ext.parseJson(line[2..]), at);
      } else {
        var stripped := StripComment(line);
        if stripped != "" {
          var withAbi := ProcessAbiFunctions(stripped, ext.sha256);
          var resolved := ProcessVariables(withAbi, OpenVars(Regions(debug, globvar, pdinfo)), GlobalVars(Regions(debug, globvar, pdinfo)));
          if resolved.Failure? {
            return Failure(resolved.error), "";
          }
          defs, ln, emitted, processedCode := RecordLine(defs, ln, emitted, st.regions, processedCode, resolved.value);
        }
      }
      i := i + 1;
    }
    assert lines[i..] == [];
    res := Success(Pass1(defs, ln, emitted, Regions(debug, globvar, pdinfo)));
  }

  /** The define loop of pass 2, reassigning the line once per entry. */
  method SubstituteDefines(line: string, sortedDefs: Defs) returns (r: string)
    ensures r == SubstituteAll(line, sortedDefs)
  {
    r := line;
    var e := 0;
    while e < |sortedDefs|
      invariant 0 <= e <= |sortedDefs|
      invariant SubstituteAll(r, sortedDefs[e..]) == SubstituteAll(line, sortedDefs)
    {
      assert sortedDefs[e..][1..] == sortedDefs[e + 1..];
      r := ReplaceWord(r, sortedDefs[e].name, sortedDefs[e].value, false);
      e := e + 1;
    }
    assert sortedDefs[e..] == [];
  }

  /** The test `line.trim() === ''` of pass 2. */
  method BlankLine(line: string) returns (blank: bool)
    ensures blank <==> IsBlank(line)
  {
    BlankTrim(line);
    blank := Trim(line) == "";
  }

  /** The body of the pass-2 loop for a line that is not blank. */
  method RewriteLine(line: string, ln: nat, sortedDefs: Defs) returns (r: string)
    ensures r == Rewriter(sortedDefs)(line, ln)
  {
    r := ReplaceOpcodes(line);
    r := ProcessStrings(r);
    r := SubstituteDefines(r, sortedDefs);
    r := ProcessRelative(r, ln);
  }

  /** Pass 2 as the source's loop, accumulating `objectCode`. */
  method SecondPass(processedCode: string, sortedDefs: Defs) returns (objectCode: string)
    ensures objectCode == Terminated(Pass2Run(Split(processedCode, '\n'), 0, Rewriter(sortedDefs)))
  {
    var codeLines := Split(processedCode, '\n');
    var ln: nat := 0;
    objectCode := "";
    ghost var out: seq<string> := [];
    ghost var rewrite := Rewriter(sortedDefs);
    var k := 0;
    while k < |codeLines|
      invariant 0 <= k <= |codeLines|
      invariant objectCode == Terminated(out)
      invariant out + Pass2Run(codeLines[k..], ln, rewrite) == Pass2Run(codeLines, 0, rewrite)
    {
      Pass2Advance(codeLines, k, ln, rewrite, out);
      ln, out, objectCode := SecondPassLine(codeLines[k], ln, sortedDefs, out, objectCode);
      k := k + 1;
    }
    assert codeLines[k..] == [];
    assert out + [] == out;
  }

  /** The body of the pass-2 loop: a line that is not blank is rewritten,
      appended to `objectCode` and counted. */
  method SecondPassLine(line: string, ln: nat, sortedDefs: Defs, ghost out: seq<string>, objectCode: string)
    returns (ln': nat, ghost out': seq<string>, objectCode': string)
    requires objectCode == Terminated(out)
    ensures objectCode' == Terminated(out')
    ensures IsBlank(line) ==> ln' == ln && out' == out
    ensures !IsBlank(line) ==> ln' == ln + 1 && out' == out + [Rewriter(sortedDefs)(line, ln)]
  {
    ln', out', objectCode' := ln, out, objectCode;
    var blank := BlankLine(line);
    if !blank {
      var rewritten := RewriteLine(line, ln, sortedDefs);
      ln' := ln + 1;
      TerminatedSnoc(out, rewritten);
      out' := out + [rewritten];
      objectCode' := objectCode + rewritten + "\n";
    }
  }

  /** One step of the pass-2 loop against its specification. */
  lemma Pass2Advance(lines: seq<string>, k: nat, ln: nat, rewrite: (string, nat) -> string, out: seq<string>)
    requires k < |lines| && out + Pass2Run(lines[k..], ln, rewrite) == Pass2Run(lines, 0, rewrite)
    ensures IsBlank(lines[k]) ==> out + Pass2Run(lines[k + 1..], ln, rewrite) == Pass2Run(lines, 0, rewrite)
    ensures !IsBlank(lines[k]) ==> (out + [rewrite(lines[k], ln)]) + Pass2Run(lines[k + 1..], ln + 1, rewrite) == Pass2Run(lines, 0, rewrite)
  {
    assert lines[k..][0] == lines[k] && lines[k..][1..] == lines[k + 1..];
  }

  /** `assemble`, with the outcome of the specification in every case. */
  method Assemble(code: string, ext: External) returns (r: AssemblyResult)
    ensures r == Assembled(code, ext)
  {
    var lines := Split(code, '\n');
    var pass1, processedCode := FirstPass(lines, ext);
    if pass1.Failure? {
      return FailureRecord(pass1.error);
    }
    var st := pass1.value;
    var debug := st.regions.debug;
    var body := BodyValue(st.defs);
    if st.regions.open.Some? {
      var pdinfo := st.regions.open.value;
      debug := debug + [pdinfo];
      debug := debug[0 := debug[0].(end := pdinfo.end, body := Some(body))];
      assert debug == Finalize(st.regions, body);
    }
    var sortedDefs := SortByLength(st.defs);
    var objectCode := SecondPass(processedCode, sortedDefs);
    var cleanObjectCode := Trim(objectCode);
    var bytecode := GenerateBytecode(cleanObjectCode);
    var hash := GenerateHash(bytecode, ext);
    r := AssemblyResult(bytecode, hash, cleanObjectCode, debug, true, None);
  }
}
