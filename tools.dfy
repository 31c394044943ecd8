/** The editor helpers of the assembler (src/lib/asm.ts, `validateSyntax` and
    `formatCode`): a line-by-line syntax check and an indenting formatter. */
module Tools {
  import opened Text
  import opened Variables

  // ---------------------------------------------------------------- syntax check

  /** The number of occurrences of `c` in `s`: the length of `s.match(/c/g)`,
      taken as 0 when there is no match. */
  function Count(s: string, c: char): nat {
    if s == [] then 0 else (if s[0] == c then 1 else 0) + Count(s[1..], c)
  }

  /** `line.match(/\\[0-9a-z_]+,/i)` finds a token somewhere in the line. */
  predicate HasVarToken(line: string) {
    exists k :: 0 <= k < |line| && VarTokenAt(line[k..]).Some?
  }

  /** A trimmed line the check passes over: empty, or a comment. */
  predicate Skipped(t: string) {
    t == "" || StartsWith(t, ";")
  }

  function InvalidVariableSyntax(n: nat): string { "Line " + Decimal(n) + ": Invalid variable syntax" }
  function UnmatchedQuotes(n: nat): string { "Line " + Decimal(n) + ": Unmatched quotes" }
  function UnmatchedParentheses(n: nat): string { "Line " + Decimal(n) + ": Unmatched parentheses" }

  predicate BadVariable(t: string) { !Skipped(t) && '\\' in t && !HasVarToken(t) }
  predicate OddQuotes(t: string) { !Skipped(t) && Count(t, '"') % 2 != 0 }
  predicate UnbalancedParens(t: string) { !Skipped(t) && Count(t, '(') != Count(t, ')') }

  /** The errors reported for a trimmed line numbered `n` (1-based), in the
      order in which the checks run. */
  function CheckErrors(t: string, n: nat): (errs: seq<string>)
    ensures |errs| <= 3
  {
    if Skipped(t) then []
    else
      (if BadVariable(t) then [InvalidVariableSyntax(n)] else [])
      + (if OddQuotes(t) then [UnmatchedQuotes(n)] else [])
      + (if UnbalancedParens(t) then [UnmatchedParentheses(n)] else [])
  }

  /** Every line trimmed, as the check looks at it. */
  function TrimLines(lines: seq<string>): (ts: seq<string>)
    ensures |ts| == |lines|
  {
    if lines == [] then [] else [Trim(lines[0])] + TrimLines(lines[1..])
  }

  lemma {:induction false} TrimLinesAt(lines: seq<string>, i: nat)
    requires i < |lines|
    ensures TrimLines(lines)[i] == Trim(lines[i])
  {
    assert TrimLines(lines) == [Trim(lines[0])] + TrimLines(lines[1..]);
    if i > 0 {
      TrimLinesAt(lines[1..], i - 1);
    }
  }

  /** Each message appears exactly when its check fails, and a blank or
      comment line has none. */
  lemma CheckErrorsMeaning(t: string, n: nat)
    ensures InvalidVariableSyntax(n) in CheckErrors(t, n) <==> BadVariable(t)
    ensures UnmatchedQuotes(n) in CheckErrors(t, n) <==> OddQuotes(t)
    ensures UnmatchedParentheses(n) in CheckErrors(t, n) <==> UnbalancedParens(t)
    ensures Skipped(t) ==> CheckErrors(t, n) == []
  {
    MessagesDistinct(n);
  }

  lemma MessagesDistinct(n: nat)
    ensures InvalidVariableSyntax(n) != UnmatchedQuotes(n)
    ensures InvalidVariableSyntax(n) != UnmatchedParentheses(n)
    ensures UnmatchedQuotes(n) != UnmatchedParentheses(n)
  {
    var p := "Line " + Decimal(n) + ": ";
    assert InvalidVariableSyntax(n)[|p|] == 'I';
    assert UnmatchedQuotes(n)[|p|] == 'U' && UnmatchedParentheses(n)[|p|] == 'U';
    assert UnmatchedQuotes(n)[|p| + 10] == 'q';
    assert UnmatchedParentheses(n)[|p| + 10] == 'p';
  }

  /** The per-line check of `validateSyntax`. */
  const Checker: (string, nat) -> seq<string> := (t: string, n: nat) => CheckErrors(t, n)

  /** The errors `check` reports for the first `k` trimmed lines, line `i`
      numbered `i + 1`, in line order. */
  function ErrorsUpTo(ts: seq<string>, k: nat, check: (string, nat) -> seq<string>): seq<string>
    requires k <= |ts|
  {
    if k == 0 then [] else ErrorsUpTo(ts, k - 1, check) + check(ts[k - 1], k)
  }

  /** What `validateSyntax` returns. */
  datatype Validation = Validation(valid: bool, errors: seq<string>)

  /** The validation of the trimmed lines `ts`. */
  function ValidationOf(ts: seq<string>): Validation {
    var errors := ErrorsUpTo(ts, |ts|, Checker);
    Validation(|errors| == 0, errors)
  }

  function Validated(code: string): Validation {
    ValidationOf(TrimLines(Split(code, '\n')))
  }

  /** The body of the loop of `validateSyntax`: the messages of one trimmed
      line pushed onto `errors`. */
  method PushLineErrors(errors: seq<string>, line: string, n: nat) returns (errors': seq<string>)
    ensures errors' == errors + CheckErrors(line, n)
  {
    errors' := errors;
    if !(line == "" || StartsWith(line, ";")) {
      if '\\' in line && !HasVarToken(line) {
        errors' := errors' + [InvalidVariableSyntax(n)];
      }
      var quotes := Count(line, '"');
      if quotes % 2 != 0 {
        errors' := errors' + [UnmatchedQuotes(n)];
      }
      var openParens := Count(line, '(');
      var closeParens := Count(line, ')');
      if openParens != closeParens {
        errors' := errors' + [UnmatchedParentheses(n)];
      }
    }
  }

  /** `validateSyntax`: the loop over the lines, pushing the messages. */
  method ValidateSyntax(code: string) returns (v: Validation)
    ensures v == Validated(code)
  {
    var lines := Split(code, '\n');
    ghost var ts := TrimLines(lines);
    var errors: seq<string> := [];
    var i := 0;
    while i < |lines|
      invariant 0 <= i <= |lines|
      invariant errors == ErrorsUpTo(ts, i, Checker)
    {
      var line := Trim(lines[i]);
      errors := PushLineErrors(errors, line, i + 1);
      ErrorsStep(lines, i);
      i := i + 1;
    }
    v := Validation(|errors| == 0, errors);
  }

  /** One more line checked adds the messages of that line, trimmed. */
  lemma ErrorsStep(lines: seq<string>, i: nat)
    requires i < |lines|
    ensures ErrorsUpTo(TrimLines(lines), i + 1, Checker) == ErrorsUpTo(TrimLines(lines), i, Checker) + CheckErrors(Trim(lines[i]), i + 1)
  {
    TrimLinesAt(lines, i);
  }

  /** The code is valid exactly when no line has an error. */
  lemma {:induction false} ValidIffEveryLine(ts: seq<string>, k: nat, check: (string, nat) -> seq<string>)
    requires k <= |ts|
    ensures ErrorsUpTo(ts, k, check) == [] <==> forall i :: 0 <= i < k ==> check(ts[i], i + 1) == []
  {
    if k > 0 {
      ValidIffEveryLine(ts, k - 1, check);
      var last := check(ts[k - 1], k);
      assert ErrorsUpTo(ts, k, check) == ErrorsUpTo(ts, k - 1, check) + last;
      assert last == check(ts[k - 1], (k - 1) + 1);
      assert (forall i :: 0 <= i < k ==> check(ts[i], i + 1) == [])
         <==> (forall i :: 0 <= i < k - 1 ==> check(ts[i], i + 1) == []) && last == [];
    }
  }

  /** A check that reports at most `m` messages per line reports at most `m * k`
      for `k` lines. */
  lemma {:induction false} ErrorsBound(ts: seq<string>, k: nat, check: (string, nat) -> seq<string>, m: nat)
    requires k <= |ts|
    requires forall i :: 0 <= i < k ==> |check(ts[i], i + 1)| <= m
    ensures |ErrorsUpTo(ts, k, check)| <= m * k
  {
    if k > 0 {
      ErrorsBound(ts, k - 1, check, m);
      assert |check(ts[k - 1], (k - 1) + 1)| <= m;
    }
  }

  /** A validation is valid exactly when its error list is empty, and that
      happens exactly when every line passes all three checks. */
  lemma ValidationMeaning(ts: seq<string>)
    ensures var v := ValidationOf(ts);
      && (v.valid <==> v.errors == [])
      && (v.valid <==> forall i :: 0 <= i < |ts| ==> CheckErrors(ts[i], i + 1) == [])
      && |v.errors| <= 3 * |ts|
  {
    ValidIffEveryLine(ts, |ts|, Checker);
    forall i | 0 <= i < |ts| ensures |Checker(ts[i], i + 1)| <= 3 && (Checker(ts[i], i + 1) == [] <==> CheckErrors(ts[i], i + 1) == []) {
    }
    ErrorsBound(ts, |ts|, Checker, 3);
  }

  /** A line with no backslash whose only fault is an odd number of quotes. */
  predicate OnlyQuotesWrong(t: string) {
    IsTrimmed(t) && '\n' !in t && !Skipped(t) && '\\' !in t
    && Count(t, '"') % 2 == 1 && Count(t, '(') == Count(t, ')')
  }

  /** A line with no backslash whose only fault is unbalanced parentheses. */
  predicate OnlyParensWrong(t: string) {
    IsTrimmed(t) && '\n' !in t && !Skipped(t) && '\\' !in t
    && Count(t, '"') % 2 == 0 && Count(t, '(') != Count(t, ')')
  }

  /** Two lines each with one fault give exactly those two errors, numbered. */
  lemma TwoFaultyLines(l1: string, l2: string)
    requires OnlyQuotesWrong(l1) && OnlyParensWrong(l2)
    ensures Validated(l1 + "\n" + l2) == Validation(false, [UnmatchedQuotes(1), UnmatchedParentheses(2)])
  {
    ExampleSplit(l1, l2);
    TrimOfTrimmed(l1);
    TrimOfTrimmed(l2);
    var ts := TrimLines([l1, l2]);
    TrimLinesAt([l1, l2], 0);
    TrimLinesAt([l1, l2], 1);
    assert ts == [l1, l2];
    assert CheckErrors(l1, 1) == [UnmatchedQuotes(1)];
    assert CheckErrors(l2, 2) == [UnmatchedParentheses(2)];
    assert ErrorsUpTo(ts, 1, Checker) == CheckErrors(l1, 1);
    assert ErrorsUpTo(ts, 2, Checker) == CheckErrors(l1, 1) + CheckErrors(l2, 2);
  }

  lemma ExampleSplit(l1: string, l2: string)
    requires '\n' !in l1 && '\n' !in l2
    ensures Split(l1 + "\n" + l2, '\n') == [l1, l2]
  {
    var parts := [l1, l2];
    assert Join(parts, '\n') == l1 + "\n" + l2 by {
      assert Join(parts[1..], '\n') == l2;
    }
    SplitJoin(parts, '\n');
  }

  /** The example of the test suite: `EVAL32 "unclosed string,` on line 1 and
      `IF (unmatched parentheses,` on line 2 give exactly the unmatched-quotes
      error of line 1 and the unmatched-parentheses error of line 2. */
  lemma ValidateExample(l1: string, l2: string)
    requires l1 == "EVAL32 " + ['"'] + "unclosed string,"
    requires l2 == "IF " + ['('] + "unmatched parentheses,"
    ensures Validated(l1 + "\n" + l2) == Validation(false, [UnmatchedQuotes(1), UnmatchedParentheses(2)])
  {
    ExampleLine1(l1);
    ExampleLine2(l2);
    TwoFaultyLines(l1, l2);
  }

  lemma ExampleLine1(l1: string)
    requires l1 == "EVAL32 " + ['"'] + "unclosed string,"
    ensures OnlyQuotesWrong(l1)
  {
    assert l1[..1][0] == 'E';
    OnlyOne("EVAL32 ", '"', "unclosed string,", '(', ')');
  }

  lemma ExampleLine2(l2: string)
    requires l2 == "IF " + ['('] + "unmatched parentheses,"
    ensures OnlyParensWrong(l2)
  {
    assert l2[..1][0] == 'I';
    OnlyOne("IF ", '(', "unmatched parentheses,", '"', ')');
  }

  /** Counts in a string with one `c` and neither `d` nor `e`. */
  lemma OnlyOne(a: string, c: char, b: string, d: char, e: char)
    requires c !in a && c !in b && d != c && e != c
    requires d !in a && d !in b && e !in a && e !in b
    ensures Count(a + [c] + b, c) == 1 && Count(a + [c] + b, d) == 0 && Count(a + [c] + b, e) == 0
  {
    CountOnce(a, c, b);
    var s := a + [c] + b;
    assert forall i :: 0 <= i < |s| ==> s[i] == c || s[i] in a || s[i] in b;
    CountAbsent(s, d);
    CountAbsent(s, e);
  }

  /** The count of `c` in a string where it occurs once. */
  lemma CountOnce(a: string, c: char, b: string)
    requires c !in a && c !in b
    ensures Count(a + [c] + b, c) == 1
  {
    CountAppend(a, [c] + b, c);
    assert a + [c] + b == a + ([c] + b);
    assert ([c] + b)[1..] == b;
    CountAbsent(a, c);
    CountAbsent(b, c);
  }

  lemma {:induction false} CountAppend(a: string, b: string, c: char)
    ensures Count(a + b, c) == Count(a, c) + Count(b, c)
  {
    if a != [] {
      assert (a + b)[1..] == a[1..] + b;
      CountAppend(a[1..], b, c);
    } else {
      assert a + b == b;
    }
  }

  lemma {:induction false} CountAbsent(s: string, c: char)
    requires c !in s
    ensures Count(s, c) == 0
  {
    if s != [] {
      CountAbsent(s[1..], c);
    }
  }

  // ---------------------------------------------------------------- formatter

  predicate IsIdentStart(c: char) {
    'a' <= c <= 'z' || 'A' <= c <= 'Z' || c == '_'
  }

  /** `^[a-zA-Z_][a-zA-Z0-9_]*:$`: an identifier followed by a colon. */
  predicate IsLabel(t: string) {
    && |t| >= 2 && t[|t| - 1] == ':' && IsIdentStart(t[0])
    && forall i :: 1 <= i < |t| - 1 ==> IsWordChar(t[i])
  }

  /** One line of `formatCode`: trimmed, and indented by two spaces unless it
      is a define, a label, a comment or empty. */
  function FormatLine(line: string): string {
    var t := Trim(line);
    if StartsWith(t, "define ") || IsLabel(t) then t
    else if t != "" && !StartsWith(t, ";") then "  " + t
    else t
  }

  /** A formatted line is its trimmed text, possibly behind two spaces; the text
      never changes and no newline is introduced. */
  lemma FormatLineShape(line: string)
    ensures var r := FormatLine(line);
      && (r == Trim(line) || r == "  " + Trim(line))
      && (r == "  " + Trim(line) <==> !(StartsWith(Trim(line), "define ") || IsLabel(Trim(line))) && Trim(line) != "" && !StartsWith(Trim(line), ";"))
      && Trim(r) == Trim(line)
      && ('\n' !in line ==> '\n' !in r)
  {
    var t := Trim(line);
    TrimIdempotent(line);
    if t != [] {
      assert t[0] != ' ';
      TrimIndent("  ", t);
    }
    if '\n' !in line {
      TrimKeepsOut(line, '\n');
    }
  }

  /** Formatting a formatted line changes nothing. */
  lemma FormatLineIdempotent(line: string)
    ensures FormatLine(FormatLine(line)) == FormatLine(line)
  {
    FormatLineShape(line);
    FormatLineShape(FormatLine(line));
  }

  function FormatLines(lines: seq<string>): (out: seq<string>)
    ensures |out| == |lines| && forall i :: 0 <= i < |lines| ==> out[i] == FormatLine(lines[i])
  {
    if lines == [] then [] else [FormatLine(lines[0])] + FormatLines(lines[1..])
  }

  /** `formatCode`: every line formatted, joined with newlines again. */
  function FormatCode(code: string): string {
    Join(FormatLines(Split(code, '\n')), '\n')
  }

  /** The formatted code has one line per source line, each the formatted
      source line. */
  lemma FormatCodeLines(code: string)
    ensures Split(FormatCode(code), '\n') == FormatLines(Split(code, '\n'))
  {
    var lines := Split(code, '\n');
    var out := FormatLines(lines);
    forall i | 0 <= i < |out| ensures '\n' !in out[i] {
      FormatLineShape(lines[i]);
    }
    SplitJoin(out, '\n');
  }

  /** Formatting is idempotent. */
  lemma FormatCodeIdempotent(code: string)
    ensures FormatCode(FormatCode(code)) == FormatCode(code)
  {
    var out := FormatLines(Split(code, '\n'));
    FormatCodeLines(code);
    var again := FormatLines(out);
    forall i | 0 <= i < |out| ensures again[i] == out[i] {
      FormatLineIdempotent(Split(code, '\n')[i]);
    }
    assert again == out;
  }
}
