# SmallC ASM assembler and raw-transaction decoder, in Dafny

This project models two text transducers of the SmallC IDE.

**The assembler, `Asm` in src/lib/asm.ts.** It turns line-oriented stack-machine assembly into object code, hex bytecode, a content hash and debug records.

- **Pass 1** goes through the source line by line, with each line trimmed. It does the following:
  - reads `;#{...}` debug directives: `code`, `endcode` and `srcline` open a region, close it, or add a source line to it;
  - strips comments;
  - replaces `abi("...")` and `ABI("...")` calls with truncated SHA-256 selectors;
  - resolves `\name,` variable references against the open region and then the global one;
  - records `define` lines in the symbol table `defs`;
  - emits every other line and counts it in `ln`.
- **Pass 2** rewrites each emitted line:
  - opcode mnemonics become single characters;
  - quoted strings become hex literals;
  - defines are substituted longest name first, as whole words;
  - `.N` targets become signed distances.
- **Output.** The trimmed object code is UTF-8 encoded, hex encoded and hashed with RIPEMD-160. Any thrown error becomes a uniform failure record.
- **Helpers.** `validateSyntax` and `formatCode` are two independent helpers.

**The decoder, `parseRawTx` in src/lib/txdecode.ts.** It reads a Bitcoin-style transaction from hex text. A single offset is threaded from one reader to the next:

- a signed little-endian int32 reader;
- a "UInt64LE" reader that reads its 16 digits in written order;
- a CompactSize-like VarInt;
- byte-reversed hashes;
- sections gated by version and token-type bits.

## Modules

| file | module | what it holds |
|---|---|---|
| wrappers.dfy | `Wrappers` | `Option` and `Result` |
| text.dfy | `Text` | JavaScript string primitives: `trim`, `split`/`join`, decimal and hex rendering, UTF-8, lower-casing of hex |
| numbers.dfy | `Numbers` | `parseInt` and `NaN`-propagating subtraction |
| opcodes.dfy | `Opcodes` | the mnemonic table, `replaceOpcodes`, `getSupportedOpcodes` |
| literals.dfy | `Literals` | `processStrings`, `processAbiFunctions` |
| variables.dfy | `Variables` | `hasvar`, `processVariables` |
| symbols.dfy | `Symbols` | `defs`: define parsing, assignment, the longest-first sort, whole-word substitution |
| relative.dfy | `Relative` | `processRelativeAddresses` |
| regions.dfy | `Regions` | the debug-region state machine of pass 1 and the closing step |
| asm.dfy | `Asm` | both passes, `generateBytecode`, `generateHash`, `assemble` |
| tools.dfy | `Tools` | `validateSyntax`, `formatCode` |
| txdecode.dfy | `TxDecode` | JavaScript 32-bit bit operations, the readers, `parseRawTx` |

**How the model is proved.**

- **Specification functions and methods.**
  - Each regular expression becomes a scanner that works on the suffix of the text.
  - The loops of the source are methods with loop invariants: `Asm.FirstPass`, `Asm.SecondPass`, `Asm.SubstituteDefines`, `Asm.Assemble`, `Opcodes.ReplaceOpcodes`, `Tools.ValidateSyntax`, and the `TxDecode.ReadTxIns`, `ReadTxOuts`, `ReadSigs` and `ParseRawTx` methods.
  - Each method is proved equal to a specification function:
    - `Asm.Assemble` to `Asm.Assembled`, `Asm.FirstPass` to `Asm.Pass1Run`, `Asm.SecondPass` to `Asm.Pass2Run`;
    - `Asm.ApplyDirective` to `Regions.OnDirective`, `Asm.RecordLine` to `Asm.Record`;
    - `Asm.RewriteLine` to `Asm.Rewriter` (that is, `Asm.Pass2Line`), `Asm.SecondPassLine` to one step of `Asm.Pass2Run`, `Asm.SubstituteDefines` to `Symbols.SubstituteAll`;
    - `Opcodes.ReplaceOpcodes` to `Opcodes.ApplyTable`;
    - `Tools.ValidateSyntax` to `Tools.Validated`, `Tools.PushLineErrors` to `Tools.CheckErrors`;
    - `TxDecode.ParseRawTx` to `TxDecode.Decoded`, and `TxDecode.ReadTxIns`, `ReadTxOuts` and `ReadSigs` to `TxDecode.TxInsFrom`, `TxOutsFrom` and `SigsFrom`.
  - The properties of the source are then lemmas about those functions.
- **External functions become parameters.** SHA-256, RIPEMD-160 and `JSON.parse` are fields of `Asm.External`:
  - the digests as functions to fixed-length lowercase hex;
  - `JSON.parse` as a function to the `Regions.Directive` datatype.
- **JavaScript semantics spelled out.**
  - `&`, `|`, `~` and `<<` are defined on ECMAScript `ToInt32`/`ToUint32` values of unbounded integers.
  - `parseInt` yields `NaN` where the source can.
  - A string's `length` counts UTF-16 code units (`Text.Utf16Length`), so the pass-2 sort of define names measures a character outside the basic plane as two.

**Behaviours of the source worth noting:**

- **`ABI` zero guard.** When the first eight digest digits are `00000000`, the `ABI` token uses `00000001` instead (src/lib/asm.ts:200-201).
- **Opcode table size.** `stringToOp` has 41 entries (src/lib/asm.ts:7-15).
- **String literals.** Each UTF-16 code unit is written as `toString(16).padStart(2, '0')`, so a code unit above 0xff gives more than two digits (src/lib/asm.ts:259-261).
- **`validateSyntax` backslash check.** A line with a backslash is flagged only when no `\name,` match occurs anywhere on it (src/lib/asm.ts:314).
- **Comment removal.** The leftmost match of `\s*;.*$` is removed by replacing the first occurrence of the matched text (src/lib/asm.ts:96-99).
- **TxOut flags.** The value is a hash when `tokenType & 1` equals 1, and the rights are read when `tokenType & 2` is non-zero (src/lib/txdecode.ts:101, src/lib/txdecode.ts:111).

## Model

| member | source | states |
|---|---|---|
| Text.Trim | src/lib/asm.ts:57 | `trim` leaves no white space at either end |
| Text.TrimStart | src/lib/asm.ts:57 | the removed prefix is all white space and the rest is a suffix of the input starting with a non-white character |
| Text.TrimEnd | src/lib/asm.ts:57 | the removed suffix is all white space and the rest is a prefix of the input ending with a non-white character |
| Text.TrimOfTrimmed | src/lib/asm.ts:57 | text with no white space at either end is its own trim |
| Text.TrimIdempotent | src/lib/asm.ts:57 | trimming twice is trimming once |
| Text.TrimKeepsOut | src/lib/asm.ts:57 | trimming never introduces a character |
| Text.BlankTrim | src/lib/asm.ts:143 | `line.trim()` is empty exactly when the line is all white space |
| Text.TrimIndent | src/lib/asm.ts:353 | white space put in front of trimmed text is removed again |
| Text.FirstOccurrence | src/lib/asm.ts:98 | the index found is an occurrence and no earlier one exists at or after the start |
| Text.Split | src/lib/asm.ts:47 | `split('\n')` yields at least one part and no part holds the separator |
| Text.SplitPrefix | src/lib/asm.ts:47 | separator-free text glued in front of a split extends only its first part |
| Text.SplitJoin | src/lib/asm.ts:138 | splitting undoes a join of separator-free parts |
| Text.JoinSplit | src/lib/asm.ts:350-362 | joining undoes a split |
| Text.JoinSnoc | src/lib/asm.ts:362 | a join with one more part adds the separator and that part |
| Text.TerminatedSnoc | src/lib/asm.ts:123 | `acc += line + "\n"` appends the line and a newline to the text |
| Text.TerminatedIsJoin | src/lib/asm.ts:123 | newline-terminated lines are the lines joined with an empty last part |
| Text.SplitTerminated | src/lib/asm.ts:138 | splitting `processedCode` gives back the emitted lines and one empty last part |
| Text.Decimal | src/lib/asm.ts:115 | `toString()` of a natural number is digits, with no leading zero unless it is one digit |
| Text.DecimalValue | src/lib/asm.ts:271 | reading the digits of a rendered number gives the number |
| Text.DecimalInjective | src/lib/asm.ts:115 | two numbers with the same decimal text are equal |
| Text.DigitPrefix | src/lib/asm.ts:270 | `[0-9]+` takes the longest run of digits: a prefix of digits not followed by a digit |
| Text.DigitPrefixOf | src/lib/asm.ts:270 | digits followed by a non-digit are exactly the run |
| Text.HexDigit | src/lib/asm.ts:260 | a digit below 16 is rendered as a lowercase hex digit |
| Text.HexDigitValue | src/lib/txdecode.ts:31 | a hex digit of either case has a value below 16 |
| Text.HexDigitRoundTrip | src/lib/asm.ts:260 | reading a rendered hex digit gives back its value |
| Text.HexValueBound | src/lib/txdecode.ts:45 | `k` hex digits denote a number below 16^k |
| Text.HexNat | src/lib/asm.ts:260 | `toString(16)` is lowercase hex with one digit below 16 and two digits from 16 to 255 |
| Text.PadStart2 | src/lib/asm.ts:260 | `padStart(2, '0')` gives at least two characters |
| Text.Hex2 | src/lib/asm.ts:260 | a byte is written as exactly two lowercase hex digits |
| Text.PaddedHexOfByte | src/lib/asm.ts:260 | `toString(16).padStart(2, '0')` of a byte is its two hex digits |
| Text.HexEncode | src/lib/asm.ts:285 | `toString('hex')` writes two lowercase digits per byte |
| Text.HexParse | src/lib/asm.ts:292 | `enc.Hex.parse` gives one byte per two digits |
| Text.HexParseEncode | src/lib/asm.ts:292 | parsing hex undoes hex encoding: the hash sees the bytes of the object code |
| Text.Utf8 | src/lib/asm.ts:285 | UTF-8 writes a scalar value in one to four bytes, one byte exactly below 0x80, that byte being the code |
| Text.Utf8Encode | src/lib/asm.ts:285 | `Buffer.from(s, 'utf8')` has at least one byte per character |
| Text.Utf8Ascii | src/lib/asm.ts:285 | on ASCII text UTF-8 is one byte per character, the character's code |
| Text.CodeUnits | src/lib/asm.ts:259-260 | a character of the basic plane is one code unit, its code; one above it is a high and a low surrogate that together give back the code |
| Text.Utf16LengthEncode | src/lib/asm.ts:135 | `length` is the number of UTF-16 code units of the text |
| Text.Utf16LengthBounds | src/lib/asm.ts:135 | `length` is between one and two units per character, exactly one each on text of the basic plane |
| Text.LowerHexChar | src/lib/txdecode.ts:63 | lower-casing a hex digit gives a lowercase digit of the same value |
| Text.LowerHex | src/lib/txdecode.ts:63 | `toLocaleLowerCase` on hex text lower-cases each digit in place |
| Numbers.Minus | src/lib/asm.ts:72 | `ln - BODY` is `NaN` exactly when `BODY` is, and otherwise the difference |
| Numbers.HexPrefix | src/lib/asm.ts:72 | `parseInt` in base 16 takes the longest run of hex digits |
| Numbers.ParseMagnitude | src/lib/asm.ts:72 | the unsigned part of `parseInt` is never negative |
| Numbers.ParseIntDecimal | src/lib/asm.ts:130 | `parseInt` reads back the decimal a `define BODY .` recorded |
| Numbers.ParseIntNegative | src/lib/asm.ts:72 | `parseInt` reads back a negative decimal |
| Numbers.MagnitudeDecimal | src/lib/asm.ts:72 | the unsigned reading of a decimal is the number |
| Numbers.ParseIntNoDigit | src/lib/asm.ts:72 | text starting with something other than white space, a sign or a digit gives `NaN` |
| Numbers.ParseInt | src/lib/asm.ts:72 | `parseInt`: white space, a sign, then the longest digit run, `NaN` without digits; characterised by `Numbers.HexPrefix`, `Numbers.ParseIntDecimal`, `Numbers.ParseIntNegative` and `Numbers.ParseIntNoDigit` |
| Opcodes.TableLengths | src/lib/asm.ts:7-15 | the table pairs 41 mnemonics with 41 opcode characters |
| Opcodes.OpcodesDistinct | src/lib/asm.ts:7-15 | the 41 opcode characters are pairwise distinct |
| Opcodes.ReplaceOpcodes | src/lib/asm.ts:244-251 | the loop over the table gives the table applied entry by entry, in order |
| Opcodes.ReplaceMnemonicAbsent | src/lib/asm.ts:247-248 | a line in which the mnemonic does not occur is unchanged |
| Opcodes.ApplyTableAbsent | src/lib/asm.ts:245-250 | a line holding no mnemonic of the table is unchanged |
| Opcodes.SupportedOpcodes | src/lib/asm.ts:341-343 | one key per table entry, 41 in all, the third being `EVAL32 ` and the 23rd `RETURN`, the two the test script looks for |
| Opcodes.MnemonicAt | src/lib/asm.ts:247 | the match of `\bKEY(?= \|@\|\b)` at a position; by `Opcodes.MnemonicUnique` at most one table entry matches there |
| Opcodes.ReplaceMnemonic | src/lib/asm.ts:247-248 | one global `replace` of a mnemonic by its character; characterised by `Opcodes.ReplaceMnemonicAbsent`, `Opcodes.OtherMnemonicKept`, `Opcodes.OwnMnemonicReplaced` and `Opcodes.OpcodeKept` |
| Opcodes.ApplyTable | src/lib/asm.ts:244-251 | the table applied entry by entry, in order; characterised by `Opcodes.ApplyTableAbsent` and `Opcodes.OpcodeReplaced`, and computed by `Opcodes.ReplaceOpcodes` |
| Opcodes.MnemonicShaped | src/lib/asm.ts:7-15 | every mnemonic starts with two upper-case letters, is at least three characters long and is word characters but for a trailing space |
| Opcodes.ShortMnemonics | src/lib/asm.ts:7-15 | the mnemonics shorter than five characters are `IF `, `DEL `, `NOP`, `LOG` and `STOP` |
| Opcodes.MnemonicUnique | src/lib/asm.ts:7-15 | no mnemonic of the table is a prefix of another: two that both start the text are the same entry |
| Opcodes.NoUpperNoMnemonic | src/lib/asm.ts:7-15 | text without an upper-case letter holds no mnemonic |
| Opcodes.OtherMnemonicKept | src/lib/asm.ts:247-248 | the pass of another entry leaves a mnemonic in front of mnemonic-free text alone |
| Opcodes.OwnMnemonicReplaced | src/lib/asm.ts:247-248 | the pass of its own entry turns a mnemonic in front of text meeting the lookahead into its character |
| Opcodes.OpcodeKept | src/lib/asm.ts:247-248 | after the replacement no later pass changes the character and the text behind it |
| Opcodes.ApplyTableBefore | src/lib/asm.ts:245-249 | the entries before a mnemonic's own leave it alone, and its own entry replaces it |
| Opcodes.ApplyTableAfter | src/lib/asm.ts:245-249 | the entries after it change nothing more |
| Opcodes.OpcodeReplaced | src/lib/asm.ts:244-251 | a mnemonic at the start of the line, followed by mnemonic-free text that meets its lookahead and does not start with an upper-case letter, becomes its opcode character and the rest is kept |
| Opcodes.CallEntry | src/lib/asm.ts:9 | `CALL ` is encoded as `L` |
| Opcodes.CallEncoded | src/lib/asm.ts:244-251 | `CALL ` in front of mnemonic-free text starting with a lower-case word character becomes `L` |
| Opcodes.OpcodeTestEval | src/lib/asm.test.ts:29-31 | the test line `EVAL32 gi0,4,` becomes `Cgi0,4,` |
| Opcodes.OpcodeTestIf | src/lib/asm.test.ts:29-31 | the test line `IF ii0,4,` becomes `Kii0,4,` |
| Opcodes.OpcodeTestReturn | src/lib/asm.test.ts:29-31 | the test line `RETURN` becomes `Y` |
| Literals.PlainRun | src/lib/asm.ts:257 | the longest prefix without `,` or `"` |
| Literals.QuotedAt | src/lib/asm.ts:257 | a match of `"([^,"]+)"` is a non-empty group between two quotes at the start |
| Literals.ProcessStringsCopies | src/lib/asm.ts:256-264 | text before the first quote is copied unchanged |
| Literals.QuotedStep | src/lib/asm.ts:257-263 | a quoted string at the start becomes `x` and its character codes in hex |
| Literals.QuotedBecomesHex | src/lib/asm.ts:256-264 | a quoted string without comma or quote, after quote-free text, becomes `x` and its character codes in hex |
| Literals.PlainRunOf | src/lib/asm.ts:257 | the group ends at the closing quote |
| Literals.CharCodesHexOfBytes | src/lib/asm.ts:258-261 | on characters below 256 the literal is the hex encoding of the character codes, two digits each |
| Literals.CharBytes | src/lib/asm.ts:260 | the character codes of text below 256 as bytes |
| Literals.TestLiteral | src/lib/asm.test.ts:38-40 | `EVAL8 "test",` becomes `EVAL8 x74657374,` |
| Literals.TestHex | src/lib/asm.test.ts:40 | the codes of `test` are `74657374` |
| Literals.NoQuoteRun | src/lib/asm.ts:192 | `[^"]*` takes the longest prefix without a quote |
| Literals.CallAt | src/lib/asm.ts:192 | a call match is the name, `("`, a quote-free group and `")` |
| Literals.AbiToken | src/lib/asm.ts:192-203 | `abi` gives `x` and the first 8 digest digits; `ABI` gives those digits, never `00000000` (turned into `00000001`), and `00000000` |
| Literals.ReplaceCallsCopies | src/lib/asm.ts:192 | text without `(` holds no call and is copied |
| Literals.NoQuoteRunOf | src/lib/asm.ts:192 | the group ends at the first quote |
| Literals.CallBecomesToken | src/lib/asm.ts:192-195 | one pass replaces a call of its name by its token |
| Literals.UpperCallSkipped | src/lib/asm.ts:192 | the `abi` pass leaves an `ABI` call alone |
| Literals.TokenHasNoParen | src/lib/asm.ts:194-202 | a token holds no `(`, so the `ABI` pass leaves it alone |
| Literals.AbiCallBecomesToken | src/lib/asm.ts:190-206 | `processAbiFunctions` turns an `abi` or `ABI` call into its token |
| Literals.ReplaceCallsScan | src/lib/asm.ts:192 | text on which no call matches anywhere is copied |
| Literals.ProcessStrings | src/lib/asm.ts:256-264 | `processStrings`; characterised by `Literals.ProcessStringsCopies`, `Literals.QuotedBecomesHex` and `Literals.TestLiteral` |
| Literals.ReplaceCalls | src/lib/asm.ts:192-203 | one global `replace` of `abi("...")` or `ABI("...")` calls; characterised by `Literals.CallBecomesToken`, `Literals.ReplaceCallsCopies`, `Literals.ReplaceCallsScan` and `Literals.UpperCallSkipped` |
| Literals.ProcessAbiFunctions | src/lib/asm.ts:190-206 | the `abi` pass, then the `ABI` pass; characterised by `Literals.AbiCallBecomesToken` |
| Variables.HasVar | src/lib/asm.ts:230-239 | `hasvar` fails only when reading `loc` of `null`, and gives nothing when no object item has the name |
| Variables.HasVarFirst | src/lib/asm.ts:230-239 | the first object item that has the name supplies the `loc` |
| Variables.Resolve | src/lib/asm.ts:214-223 | a resolved location is non-empty; a failure is the null-`loc` error or the invalid-variable error of the name |
| Variables.ResolveCurrentFirst | src/lib/asm.ts:215 | a location from the open region wins |
| Variables.ResolveFallsBack | src/lib/asm.ts:216-218 | a name the open region lacks is looked up in the global region |
| Variables.ResolveUnknown | src/lib/asm.ts:219-222 | a name neither region binds throws the invalid-variable error |
| Variables.WordPrefix | src/lib/asm.ts:212 | `[0-9a-z_]+` with the `i` flag takes the longest run of word characters |
| Variables.VarTokenAt | src/lib/asm.ts:212 | a token match is `\`, a non-empty word and `,` at the start |
| Variables.ProcessVariablesOutcome | src/lib/asm.ts:211-225 | the line resolves exactly when every token resolves; otherwise the error is that of the first token that does not |
| Variables.ProcessVariablesReports | src/lib/asm.ts:211-225 | the same, as an invariant of the scan |
| Variables.ReportsCons | src/lib/asm.ts:214-224 | a token in front is resolved before the rest |
| Variables.ReportsCopy | src/lib/asm.ts:214 | a copied character changes neither the tokens nor the outcome |
| Variables.NoBackslashKept | src/lib/asm.ts:212-214 | text without a backslash has no token and is kept |
| Variables.TokenStep | src/lib/asm.ts:214-224 | a token at the start is replaced by its location, or its error is raised |
| Variables.TokenReplaced | src/lib/asm.ts:211-225 | a token between token-free text is replaced by its location, comma included |
| Variables.WordPrefixOf | src/lib/asm.ts:212 | a word followed by a non-word character is exactly the run |
| Variables.PrefixKept | src/lib/asm.ts:214 | token-free text in front is copied in front of the result |
| Variables.ProcessVariables | src/lib/asm.ts:211-225 | `processVariables`; characterised by `Variables.ProcessVariablesOutcome` and `Variables.TokenReplaced` |
| Symbols.Lookup | src/lib/asm.ts:72 | `defs[k]` is present exactly when an entry has that name, and then holds that entry's value |
| Symbols.Assign | src/lib/asm.ts:117 | a new name is appended; a known name keeps its place |
| Symbols.AssignLookup | src/lib/asm.ts:117 | after `defs[k] = v`, `k` maps to `v` and every other name is unchanged |
| Symbols.AssignDistinct | src/lib/asm.ts:117 | assignment keeps the names distinct |
| Symbols.DefineArgs | src/lib/asm.ts:109 | `^define\s+(.*)$` gives the text after `define` and its white space, with no line terminator |
| Symbols.DefineEntry | src/lib/asm.ts:111-117 | an entry is recorded exactly when there are two parts; its name is the first part and its value the last, `.` becoming `ln` |
| Symbols.SplitCount | src/lib/asm.ts:111-112 | there are two parts or more exactly when a space occurs |
| Symbols.SplitFirst | src/lib/asm.ts:111-117 | the first part is the text before the first space |
| Symbols.SplitLast | src/lib/asm.ts:113-117 | the last part is the text after the last space |
| Symbols.SplitNone | src/lib/asm.ts:111-112 | without a space the split is the whole text |
| Symbols.BodyValue | src/lib/asm.ts:72 | an unset `BODY` counts as 0 |
| Symbols.BodyAfterDefine | src/lib/asm.ts:114-117 | after `define BODY .` on line `n`, `BODY` is `n` |
| Symbols.Insert | src/lib/asm.ts:135 | insertion adds exactly the entry |
| Symbols.SortByLength | src/lib/asm.ts:135 | the sort is a permutation of the entries |
| Symbols.InsertMembers | src/lib/asm.ts:135 | insertion places only the entry and the given entries |
| Symbols.InsertLongestFirst | src/lib/asm.ts:135 | insertion keeps the order by descending name `length`, counted in UTF-16 code units |
| Symbols.InsertOfLength | src/lib/asm.ts:135 | insertion keeps the entries of each name `length` in order |
| Symbols.SortLongestFirst | src/lib/asm.ts:135 | the sorted entries have names of descending `length` |
| Symbols.SortStable | src/lib/asm.ts:135 | the sort is stable: entries whose names have the same `length` keep their definition order |
| Symbols.ReplaceWordWhole | src/lib/asm.ts:152 | a line that is exactly the name becomes the value |
| Symbols.ReplaceWordAbsent | src/lib/asm.ts:152 | a name that does not occur changes nothing |
| Symbols.WordRunKept | src/lib/asm.ts:152 | nothing is replaced inside a run of word characters |
| Symbols.WordKeptWhole | src/lib/asm.ts:152 | a whole word other than the name is kept: `BODY` does not clip `BODY2` |
| Symbols.ReplaceWord | src/lib/asm.ts:152 | the global whole-word `replace` of one define; characterised by `Symbols.ReplaceWordWhole`, `Symbols.ReplaceWordAbsent`, `Symbols.WordKeptWhole` and `Symbols.DotNameReplaced` |
| Symbols.SubstituteAll | src/lib/asm.ts:151-153 | the defines substituted one after another; characterised by `Symbols.SubstituteAbsent`, `Symbols.SubstituteOnce` and `Symbols.SortedSubstituteOnce` |
| Symbols.SortSurrogateTie | src/lib/asm.ts:135 | a name with a character outside the basic plane is measured as JavaScript does: `"\u{1D400}b"` ties with `"abc"` and the two keep their order |
| Symbols.SortMembers | src/lib/asm.ts:135 | the sorted list holds exactly the entries of `defs` |
| Symbols.InsertDistinct | src/lib/asm.ts:135 | inserting an entry with a new name keeps the names distinct |
| Symbols.SortDistinct | src/lib/asm.ts:135 | sorting keeps the names distinct |
| Symbols.SubstituteAbsent | src/lib/asm.ts:151-153 | a line holding no define name is unchanged |
| Symbols.SubstituteOnce | src/lib/asm.ts:151-153 | when only one define name occurs before and after its replacement, the substitution is that one replacement |
| Symbols.SortedSubstituteOnce | src/lib/asm.ts:135-153 | the same over the sorted `defs`, for the name `defs` binds to the value |
| Symbols.CommaPrefixKept | src/lib/asm.ts:152 | in `L0,.name,` only the whole word `name` is replaced |
| Symbols.CallDefine | src/lib/asm.ts:135-153 | the define loop turns `L0,.name,` into `L0,.` + value + `,` when no other define name occurs |
| Relative.Distance | src/lib/asm.ts:270-277 | the distance starts with `n` exactly when the target lies before the current line |
| Relative.DistanceDigits | src/lib/asm.ts:273-276 | the distance is decimal digits, after the `n` for a target behind, and never `n0` |
| Relative.DistanceRoundTrip | src/lib/asm.ts:270-277 | reading a distance back from the current line gives the target |
| Relative.BackwardRoundTrip | src/lib/asm.ts:273-274 | the same for a target behind the current line |
| Relative.ForwardRoundTrip | src/lib/asm.ts:276 | the same for a target at or after the current line |
| Relative.TargetAt | src/lib/asm.ts:270 | a match of `\.([0-9]+)` is `.` and a run of digits not followed by a digit |
| Relative.ProcessRelativeCopies | src/lib/asm.ts:269-278 | text without `.` is copied |
| Relative.CopyStep | src/lib/asm.ts:270 | a character other than `.` is copied |
| Relative.TargetStep | src/lib/asm.ts:270-277 | `.N` at the start becomes the distance from the line to `N` |
| Relative.TargetBecomesDistance | src/lib/asm.ts:269-278 | `.N` after `.`-free text becomes the distance from the line to `N` |
| Relative.ProcessRelative | src/lib/asm.ts:269-278 | `processRelativeAddresses`; characterised by `Relative.ProcessRelativeCopies`, `Relative.TargetStep` and `Relative.TargetBecomesDistance` |
| Regions.OnDirective | src/lib/asm.ts:60-93 | a directive keeps the region invariant; `code` pushes the open region, makes it the global one when there is none yet, and opens a new one; other directives leave the pushed ones and the global one; a malformed directive, and one that is none of `code`, `endcode` and `srcline`, changes nothing |
| Regions.SrclineRecorded | src/lib/asm.ts:79-86 | a `srcline` is added once: an already listed one changes nothing |
| Regions.EndcodeCloses | src/lib/asm.ts:75-78 | `endcode` sets the open region's `end` and nothing else |
| Regions.NoRegionIgnored | src/lib/asm.ts:75-86 | with no open region only `code` has an effect |
| Regions.Finalize | src/lib/asm.ts:126-132 | the open region is pushed, and the first record becomes the first pushed record with the last region's `end` and the `BODY` value |
| Regions.FinalizeValid | src/lib/asm.ts:126-132 | only the first record has a `body`; no record lists a source line twice; with no region the list is empty |
| Asm.WhiteRunEnd | src/lib/asm.ts:96 | the white run ends within the line |
| Asm.WhiteRunEndSpec | src/lib/asm.ts:96 | the run is white and ends at the first non-white character |
| Asm.WhiteRunAt | src/lib/asm.ts:96 | a white run before a non-white character ends there |
| Asm.CommentStartLeftmost | src/lib/asm.ts:96 | the comment match found is the leftmost one |
| Asm.StripNoComment | src/lib/asm.ts:96-99 | a line without `;` is kept |
| Asm.PlainCommentStart | src/lib/asm.ts:96 | the match starts at the white space before the first `;` |
| Asm.StripCommentPlain | src/lib/asm.ts:96-99 | the text before the first `;` remains, without its trailing white space |
| Asm.StripComment | src/lib/asm.ts:96-99 | comment removal; characterised by `Asm.StripNoComment` and `Asm.StripCommentPlain` |
| Asm.IsDirective | src/lib/asm.ts:60 | the match of `^;#\{[^}\n]+\}`: `;#{`, at least one character other than `}` and newline, then `}`; its branch of pass 1 is the first case of `Asm.StepCases` |
| Asm.Step | src/lib/asm.ts:57-123 | one line of pass 1; characterised by `Asm.StepCases`, `Asm.StepValid`, `Asm.DefineRecorded` and `Asm.InstructionEmitted` |
| Asm.Pass1Run | src/lib/asm.ts:56-124 | pass 1 over the lines; characterised by `Asm.Pass1RunValid`, `Asm.Pass1RegionCount` and `Asm.Pass1Errors`, and computed by `Asm.FirstPass` |
| Asm.DefineRecorded | src/lib/asm.ts:109-119 | a define is dropped without advancing `ln`; it binds its name, overwriting, or records nothing |
| Asm.InstructionEmitted | src/lib/asm.ts:122-123 | any other line is emitted and advances `ln` |
| Asm.StepCases | src/lib/asm.ts:57-123 | the four outcomes of a line: directive, empty after the comment, unresolved variable, recorded |
| Asm.StepValid | src/lib/asm.ts:56-124 | a line keeps the pass-1 invariant: `ln` counts the emitted lines, no emitted line is a define, names are distinct, regions are valid |
| Asm.Pass1RunValid | src/lib/asm.ts:56-124 | pass 1 keeps that invariant to the end |
| Asm.Pass1RegionCount | src/lib/asm.ts:65-74 | every `code` directive opens exactly one region |
| Asm.Pass1Errors | src/lib/asm.ts:103-106 | pass 1 fails only on a variable, with the null-`loc` or invalid-variable message |
| Asm.Pass1Advance | src/lib/asm.ts:56-124 | one iteration of the loop against pass 1 as a function |
| Asm.ApplyDirective | src/lib/asm.ts:60-93 | the directive branch, updating `debug`, `globvar` and `pdinfo`, is the region transition |
| Asm.RecordLine | src/lib/asm.ts:109-123 | the define-or-emit tail is the recording step, and `processedCode` stays the newline-terminated emitted lines |
| Asm.FirstPass | src/lib/asm.ts:56-124 | the loop gives pass 1, stopping at the first unresolved variable, with `processedCode` built from the emitted lines |
| Asm.Pass2Numbering | src/lib/asm.ts:138-160 | pass 2 numbers the lines as pass 1 counted them: output line `i` is emitted line `i` rewritten on line number `i` |
| Asm.Pass2Kept | src/lib/asm.ts:142-160 | over non-blank lines, pass 2 rewrites each line on its number and drops the empty last part |
| Asm.Pass2Advance | src/lib/asm.ts:142-160 | one iteration of the loop against pass 2 as a function |
| Asm.BlankLine | src/lib/asm.ts:143 | the skip test is true exactly on an all-white line |
| Asm.SubstituteDefines | src/lib/asm.ts:151-153 | the define loop substitutes every entry in the sorted order |
| Asm.RewriteLine | src/lib/asm.ts:145-156 | opcodes, strings, defines, then relative targets |
| Asm.SecondPassLine | src/lib/asm.ts:143-159 | a blank line is skipped and not counted; any other is rewritten, appended and counted |
| Asm.SecondPass | src/lib/asm.ts:138-160 | the loop gives pass 2 as a function, newline-terminated |
| Asm.Pass2Line | src/lib/asm.ts:145-156 | one line of pass 2; characterised by `Asm.RewriteLine` and `Asm.DefinedTarget` |
| Asm.Pass2Run | src/lib/asm.ts:142-160 | pass 2 over the lines; characterised by `Asm.Pass2Numbering` and `Asm.Pass2Kept`, and computed by `Asm.SecondPass` |
| Asm.LowerOperand | src/lib/asm.ts:7-15 | no mnemonic occurs in the operand `0,.name,` of a lower-case name |
| Asm.CallOpcode | src/lib/asm.ts:244-251 | the opcode step turns `CALL 0,.name,` into `L0,.name,` |
| Asm.CallStrings | src/lib/asm.ts:256-264 | the string step leaves `L0,.name,` alone |
| Asm.CallSubstituted | src/lib/asm.ts:135-153 | the define step turns `L0,.name,` into `L0,.n,` for `name` bound to `n` |
| Asm.CallRelative | src/lib/asm.ts:269-278 | the relative step turns `L0,.n,` into `L0,` and the distance to line `n` |
| Symbols.DotNameReplaced | src/lib/asm.ts:151-153 | `.name,` becomes `.` + value + `,` |
| Asm.DefinedTarget | src/lib/asm.ts:145-156 | pass 2 turns the line `CALL 0,.name,`, with `name` a lower-case word that a `define name .` bound to line `n` and no other define name in the line, into `L0,` followed by the distance from the current line to `n` and `,` |
| Asm.GenerateBytecode | src/lib/asm.ts:283-286 | the bytecode is the lowercase hex of the UTF-8 bytes of the object code, which hex parsing reads back |
| Asm.BytecodeOfAscii | src/lib/asm.ts:283-286 | on ASCII object code the bytecode has two digits per character |
| Asm.GenerateHash | src/lib/asm.ts:291-293 | RIPEMD-160 of the bytes the bytecode spells, which `Asm.GenerateBytecode` shows are the UTF-8 bytes of the object code |
| Asm.AssembledOutcome | src/lib/asm.ts:45-185 | success exactly when there is no error; a failure is the empty record with an unresolved-variable message; a success carries trimmed object code, its bytecode, the hash of its bytes and one debug record per `code` directive, the first with `body` |
| Asm.Assemble | src/lib/asm.ts:45-185 | `assemble` computes the specification's result |
| Asm.Assembled | src/lib/asm.ts:45-185 | the result of `assemble`; characterised by `Asm.AssembledOutcome`, and computed by `Asm.Assemble` |
| Tools.CheckErrors | src/lib/asm.ts:311-329 | at most three messages per line |
| Tools.TrimLines | src/lib/asm.ts:310 | one trimmed line per line |
| Tools.TrimLinesAt | src/lib/asm.ts:310 | trimmed line `i` is line `i` trimmed |
| Tools.CheckErrorsMeaning | src/lib/asm.ts:311-329 | each message appears exactly when its check fails; blank and comment lines have none |
| Tools.MessagesDistinct | src/lib/asm.ts:315-328 | the three messages of a line differ |
| Tools.PushLineErrors | src/lib/asm.ts:313-329 | the loop body pushes that line's messages |
| Tools.ValidateSyntax | src/lib/asm.ts:305-336 | the loop gives the specification's validation |
| Tools.ErrorsStep | src/lib/asm.ts:309-330 | one more line adds its messages at the end |
| Tools.ValidIffEveryLine | src/lib/asm.ts:332-335 | no messages exactly when every line passes |
| Tools.ErrorsBound | src/lib/asm.ts:309-330 | at most `m` messages per line gives at most `m * k` for `k` lines |
| Tools.ValidationMeaning | src/lib/asm.ts:305-336 | `valid` exactly when `errors` is empty, exactly when every line passes all checks; at most three messages per line |
| Tools.TwoFaultyLines | src/lib/asm.ts:305-336 | two lines with one fault each give those two messages, numbered, in order |
| Tools.ExampleSplit | src/lib/asm.ts:307 | two newline-free lines joined by a newline split back into them |
| Tools.ValidateExample | src/lib/asm.test.ts:74-76 | the example gives exactly the unmatched-quotes error of line 1 and the unmatched-parentheses error of line 2 |
| Tools.Validated | src/lib/asm.ts:305-336 | the result of `validateSyntax`; characterised by `Tools.ValidationMeaning` and `Tools.ValidateExample`, and computed by `Tools.ValidateSyntax` |
| Tools.ExampleLine1 | src/lib/asm.test.ts:74 | the first example line only has an odd quote count |
| Tools.ExampleLine2 | src/lib/asm.test.ts:74 | the second example line only has unbalanced parentheses |
| Tools.CountAppend | src/lib/asm.ts:319-326 | `match(/c/g)` counts add up over concatenation |
| Tools.CountAbsent | src/lib/asm.ts:319-326 | an absent character counts 0 (`\|\| []`) |
| Tools.CountOnce | src/lib/asm.ts:319-326 | a character occurring once counts 1 |
| Tools.OnlyOne | src/lib/asm.ts:319-326 | the counts of one present and two absent characters |
| Tools.FormatLineShape | src/lib/asm.ts:352-361 | a line becomes its trimmed text, indented by two spaces exactly when it is not a define, label, comment or empty line; no newline is introduced |
| Tools.FormatLineIdempotent | src/lib/asm.ts:352-361 | formatting a formatted line changes nothing |
| Tools.FormatLines | src/lib/asm.ts:350-352 | one formatted line per line |
| Tools.FormatCodeLines | src/lib/asm.ts:349-363 | the output has one line per input line, each formatted |
| Tools.FormatCodeIdempotent | src/lib/asm.ts:349-363 | applying `formatCode` twice is applying it once |
| Tools.FormatLine | src/lib/asm.ts:352-361 | one line of `formatCode`; characterised by `Tools.FormatLineShape` and `Tools.FormatLineIdempotent` |
| Tools.FormatCode | src/lib/asm.ts:349-363 | `formatCode`; characterised by `Tools.FormatCodeLines` and `Tools.FormatCodeIdempotent` |
| TxDecode.ToUint32 | src/lib/txdecode.ts:35 | `ToUint32` is below 2^32 |
| TxDecode.And32 | src/lib/txdecode.ts:37 | JavaScript `&`; characterised by `TxDecode.AndBit`, `TxDecode.AndBit0`, `TxDecode.AndBit1`, `TxDecode.AndBit31` and `TxDecode.AndNothing` |
| TxDecode.Or32 | src/lib/txdecode.ts:37 | JavaScript `\|`; characterised by `TxDecode.OrZero` and `TxDecode.SignExtendKeeps` |
| TxDecode.Not32 | src/lib/txdecode.ts:37 | JavaScript `~`; characterised by `TxDecode.NotAllOnes` |
| TxDecode.Shl32 | src/lib/txdecode.ts:35 | JavaScript `<<`; characterised by `TxDecode.ShlByte` and `TxDecode.ShlTopByte` |
| TxDecode.ToInt32 | src/lib/txdecode.ts:35 | `ToInt32` is in the signed 32-bit range |
| TxDecode.Bit | src/lib/txdecode.ts:37 | a bit is 0 or 1 |
| TxDecode.NotAllOnes | src/lib/txdecode.ts:37 | `~0xFFFFFFFF` is 0 |
| TxDecode.OrNothing | src/lib/txdecode.ts:37 | or-ing no bits keeps the bits |
| TxDecode.OrZero | src/lib/txdecode.ts:37 | `a \| 0` is `ToInt32(a)` |
| TxDecode.AndSingleBit | src/lib/txdecode.ts:37 | and-ing with a power of two keeps that bit only |
| TxDecode.AndNothing | src/lib/txdecode.ts:37 | and-ing with 0 gives 0 |
| TxDecode.BitTop | src/lib/txdecode.ts:37 | the top bit is set exactly when the number reaches that power of two |
| TxDecode.AndBit | src/lib/txdecode.ts:37 | `a & 2^j` is bit `j` of `a` in place |
| TxDecode.AndBit31 | src/lib/txdecode.ts:37 | `val & 0x80000000` is non-zero exactly when the pattern is at least 2^31 |
| TxDecode.AndBit0 | src/lib/txdecode.ts:101 | `tokenType & 1` is 1 exactly when bit 0 is set, and 0 otherwise |
| TxDecode.AndBit1 | src/lib/txdecode.ts:111 | `tokenType & 2` is non-zero exactly when bit 1 is set |
| TxDecode.AndBit4 | src/lib/txdecode.ts:123 | `version & 0x10` is 0 exactly when bit 4 is clear |
| TxDecode.AndBit5 | src/lib/txdecode.ts:70 | `version & 0x20` is 0 exactly when bit 5 is clear |
| TxDecode.Signed32 | src/lib/txdecode.ts:29-39 | the signed reading of a pattern is in range and has that pattern |
| TxDecode.ToInt32Small | src/lib/txdecode.ts:35 | `ToInt32` keeps a value in range |
| TxDecode.ByteAt | src/lib/txdecode.ts:31 | two hex digits read as a byte below 256 |
| TxDecode.UInt32LE | src/lib/txdecode.ts:31-35 | four bytes, least significant first, make a number below 2^32 |
| TxDecode.ReadInt32 | src/lib/txdecode.ts:29-39 | `readInt32` succeeds exactly when 8 characters remain and advances 8; otherwise the text is truncated |
| TxDecode.ReadInt32Signed | src/lib/txdecode.ts:29-39 | `readInt32` gives the two's-complement value of the four bytes, least significant first |
| TxDecode.Int32Combine | src/lib/txdecode.ts:35-37 | shifts, sum and sign extension give the signed reading of the bytes |
| TxDecode.ShiftedSum | src/lib/txdecode.ts:35 | the shifted sum is the signed reading of the bytes |
| TxDecode.SignExtendKeeps | src/lib/txdecode.ts:37 | the or with `~0xFFFFFFFF` changes no signed 32-bit value |
| TxDecode.SignedSum | src/lib/txdecode.ts:35 | the sum with the top byte's sign is the signed reading |
| TxDecode.Int32Of | src/lib/txdecode.ts:35-37 | the value `readInt32` computes from four bytes; characterised by `TxDecode.Int32Combine` and `TxDecode.ReadInt32Signed` |
| TxDecode.ShlByte | src/lib/txdecode.ts:35 | `b << 8` and `b << 16` of a byte are plain products |
| TxDecode.ShlTopByte | src/lib/txdecode.ts:35 | `b << 24` of a byte wraps to negative from 0x80 |
| TxDecode.HexFixed | src/lib/txdecode.ts:45 | fixed-width lowercase hex |
| TxDecode.HexFixedValue | src/lib/txdecode.ts:45 | fixed-width hex of a number that fits reads back as that number |
| TxDecode.Int32Bytes | src/lib/txdecode.ts:31-34 | the four bytes of a pattern, least significant first, make the pattern |
| TxDecode.Int32Hex | src/lib/txdecode.ts:29-39 | the eight lowercase digits of a 32-bit value |
| TxDecode.ReadInt32RoundTrip | src/lib/txdecode.ts:29-39 | `readInt32` reads back every signed 32-bit value written as its bytes |
| TxDecode.SignedOfPattern | src/lib/txdecode.ts:37 | a value in range is the signed reading of its pattern |
| TxDecode.ByteFromHex | src/lib/txdecode.ts:31 | the byte read is the byte written |
| TxDecode.ReadVarInt | src/lib/txdecode.ts:49-56 | a VarInt read moves at least 2 and stays within the text; it fails only on truncation or the 0xff prefix |
| TxDecode.ReadVarIntCases | src/lib/txdecode.ts:49-56 | below 0xfd the byte itself (2 characters); 0xfd the next 4 digits in written order (6); 0xfe the next 8 (10); 0xff throws |
| TxDecode.VarIntHex | src/lib/txdecode.ts:49-53 | the shortest encoding of a count is hex |
| TxDecode.ReadVarIntRoundTrip | src/lib/txdecode.ts:49-56 | `readVarInt` reads back every count below 2^32 and moves past it |
| TxDecode.ReadUInt64LE | src/lib/txdecode.ts:41-47 | `readUInt64LE` succeeds exactly when 16 characters remain and advances 16 |
| TxDecode.ReadUInt64Value | src/lib/txdecode.ts:45 | the value is the decimal, without leading zeros, of the 16 digits read in written order |
| TxDecode.ReadUInt64RoundTrip | src/lib/txdecode.ts:41-47 | it reads back every 64-bit number written in 16 digits |
| TxDecode.Reverse | src/lib/txdecode.ts:59 | `reverse` puts element `i` where element `n - 1 - i` was |
| TxDecode.PairsOfClean | src/lib/txdecode.ts:59 | the matches of `/.{2}/g` on hex are its consecutive pairs, an odd last character dropped |
| TxDecode.ConcatPairs | src/lib/txdecode.ts:59 | joined pairs: pair `i` sits at index `2i` |
| TxDecode.HashReverseBytes | src/lib/txdecode.ts:58-60 | on even-length text, `hashreverse` keeps the length and reverses the order of the bytes |
| TxDecode.HashReverseInvolution | src/lib/txdecode.ts:58-60 | `hashreverse` is its own inverse on such text |
| TxDecode.HashReverseShort | src/lib/txdecode.ts:59 | with fewer than two characters `match` gives `null` and the call throws |
| TxDecode.HashReverse | src/lib/txdecode.ts:58-60 | `hashreverse`; characterised by `TxDecode.HashReverseBytes`, `TxDecode.HashReverseInvolution` and `TxDecode.HashReverseShort` |
| TxDecode.HexClean | src/lib/txdecode.ts:59 | hex text has no line terminator for `.` to miss |
| TxDecode.ReadHash | src/lib/txdecode.ts:58-60 | a hash field succeeds exactly when 64 characters remain and advances 64; its value is `hashreverse` of those 64 characters, that is, their 32 bytes in reverse order; otherwise the text is truncated |
| TxDecode.HashFieldReversed | src/lib/txdecode.ts:58-60 | `hashreverse` of 64 hex characters puts byte `i` of the result where byte `31 - i` of the field was |
| TxDecode.ReversedFieldIsHashReverse | src/lib/txdecode.ts:58-60 | text holding the 32 bytes of a field in reverse order is exactly `hashreverse` of that field |
| TxDecode.ReadTxIn | src/lib/txdecode.ts:81-91 | a txIn takes exactly 64 + 8 + 8 + 8 characters, and its `prevHash` is `hashreverse` of the first 64 |
| TxDecode.ReadBytes | src/lib/txdecode.ts:115-118 | a length-prefixed script is exactly the `2 * len` characters at the offset |
| TxDecode.ReadValue | src/lib/txdecode.ts:99-110 | with `tokenType & 1` the `hashreverse` of the 64 characters at the offset, otherwise the decimal of 16 digits, each advancing by its width |
| TxDecode.ReadRights | src/lib/txdecode.ts:111-114 | `rights` is present exactly when `tokenType & 2` is non-zero, and is then the `hashreverse` of the 64 characters at the offset |
| TxDecode.ReadTxOut | src/lib/txdecode.ts:96-120 | a txOut advances the offset and its script has an even length |
| TxDecode.TxOutFields | src/lib/txdecode.ts:96-120 | rights exactly when bit 1 is set, and then `hashreverse` of the 64 characters after the value; with bit 0 set the value is `hashreverse` of the 64 characters after the token type, otherwise decimal digits; `pkScript` is the `2 * len` characters after its VarInt, where the txOut ends |
| TxDecode.ReadSig | src/lib/txdecode.ts:133-137 | a signature script advances the offset and has an even length |
| TxDecode.TxInsFrom | src/lib/txdecode.ts:78-91 | exactly `n` txIns, 88 characters each |
| TxDecode.TxOutsFrom | src/lib/txdecode.ts:93-120 | exactly `n` txOuts |
| TxDecode.SigsFrom | src/lib/txdecode.ts:129-138 | exactly `n` signature scripts |
| TxDecode.LockTimeAt | src/lib/txdecode.ts:122-127 | the lock time is present exactly when version bit 4 is clear |
| TxDecode.HeaderGate | src/lib/txdecode.ts:66-76 | the version comes from the first 8 characters; the txDef count is read exactly when bit 5 is clear |
| TxDecode.Header | src/lib/txdecode.ts:62-76 | the version and the optional txDef count; characterised by `TxDecode.HeaderGate` |
| TxDecode.Sections | src/lib/txdecode.ts:64-139 | the sections read in turn from lower-case text; characterised by `TxDecode.DecodedGates` |
| TxDecode.Decoded | src/lib/txdecode.ts:62-139 | the result of `parseRawTx`; characterised by `TxDecode.DecodedGates` and `TxDecode.DecodedIgnoresCase`, and computed by `TxDecode.ParseRawTx` |
| TxDecode.DecodedGates | src/lib/txdecode.ts:62-139 | `lockTime` is present exactly when version bit 4 is clear, and `txDef` is empty |
| TxDecode.LowerIsHex | src/lib/txdecode.ts:63 | lower-cased hex is hex |
| TxDecode.LowerHexIdempotent | src/lib/txdecode.ts:63 | lower-casing twice is lower-casing once |
| TxDecode.DecodedIgnoresCase | src/lib/txdecode.ts:62-63 | texts differing only in letter case decode alike, and decoding lower-cased text changes nothing |
| TxDecode.TxInsStep | src/lib/txdecode.ts:81-91 | one iteration of the txIn loop against the repeat function |
| TxDecode.ReadTxIns | src/lib/txdecode.ts:78-91 | the txIn loop pushes what the repeat function reads |
| TxDecode.TxOutsStep | src/lib/txdecode.ts:96-120 | one iteration of the txOut loop against the repeat function |
| TxDecode.ReadTxOuts | src/lib/txdecode.ts:93-120 | the txOut loop pushes what the repeat function reads |
| TxDecode.SigsStep | src/lib/txdecode.ts:132-138 | one iteration of the signature loop against the repeat function |
| TxDecode.ReadSigs | src/lib/txdecode.ts:129-138 | the signature loop pushes what the repeat function reads |
| TxDecode.ParseRawTx | src/lib/txdecode.ts:62-139 | `parseRawTx` with its mutable offset computes the decoded transaction of the specification |

## Left out

- **Crypto and JSON.** SHA-256, RIPEMD-160 and `JSON.parse` are parameters (`Asm.External`). The digests are unconstrained beyond their length and alphabet, and `JSON.parse` is unconstrained beyond its result type.
- **Logging.** `console.warn` and `console.log` are not modelled.
- **Exceptions other than those the code throws itself.** A directive object whose `vars` is not an array, and a `loc` that is not a string, are not modelled.
- **`$` patterns in define values.** `String.prototype.replace` gives `$&` and similar patterns a special meaning in the replacement text. The model inserts define values literally.
- **Object key order and prototype keys.** Two quirks of JavaScript objects are not modelled:
  - numeric-looking define names, which `Object.entries` lists first in ascending order;
  - `__proto__` and inherited keys seen by `in` in `hasvar`.
- **`escapeRegExp`.** It is the identity in the model: names and mnemonics are compared literally, which is what the escaped pattern means.
- **Non-integer and non-finite numbers.** A fractional `srcline` and the other floating-point edge cases of `parseInt` are not modelled.
- **Lone surrogates.** `Text.Utf8` takes Unicode scalar values (Dafny `char`), so lone UTF-16 surrogates are not modelled.
- Regions.Region: a debug record keeps only `code` and `vars` of the parsed directive, next to the `begin`, `end`, `lines` and `body` the assembler sets. The `types` field and any other keys of the JSON object are dropped. A JSON `end` or `body` given on a `code` directive is dropped too, as the model opens every region with no `end` and no `body` (src/lib/asm.ts:65-74). The source keeps both on the record: such an `end` stays until an `endcode` overwrites it, and finalization copies the last region's `end` to `debug[0].end` (src/lib/asm.ts:129); such a `body` stays on every record but the first, whose `body` finalization overwrites (src/lib/asm.ts:130). `Regions.FinalizeValid`'s "only the first record has a `body`" is therefore a statement about the modelled records only.
- **Aliasing of debug records.** Records are values. The source's `pdinfo`, `globvar` and `debug[0]` can alias, but a pushed record is only changed again at the final step, so the observable result is the same.
- **Sample programs.** The demo program and the larger sample in the test script are not evaluated as whole-program lemmas. Their parts are covered by `Asm.DefinedTarget`, `Symbols.BodyAfterDefine`, `Regions.OnDirective` and `Literals.TestLiteral`.
- **TxDecode reads past the end of the text.** JavaScript goes on with `NaN` or with short slices; every such read fails with `Truncated` in the model.
- **TxDecode input that is not hex.** The decoder requires hex text. `toLocaleLowerCase` is modelled only on hex digits.
- **"Invalid VarInt".** `readVarInt` throws this error when its first byte parses to `NaN` (src/lib/txdecode.ts:49-56). On hex text that happens only at the end of the text, where `parseInt("", 16)` is `NaN`, for example in `parseRawTx("00000000")`. The model reports `Truncated` there instead.
- **`readUInt64LE`'s unused `low` and `high`.** They are not computed.
- **The txDef loop.** Its body is empty, so `txDef` is always `[]` and the count only moves the offset.
- TxDecode.TxOutsFrom: states the count of txOuts and that the offset does not go back, but not the number of characters consumed, since that depends on each script length read.
