/** The symbol table of `define` statements (src/lib/asm.ts, the `defs`
    dictionary): how a define line is recognised and recorded in pass 1, how
    the entries are ordered for pass 2, and how one entry is substituted. */
module Symbols {
  import opened Wrappers
  import opened Text
  import opened Numbers

  /** A define name: the first space-separated part of a define, never empty. */
  type Name = s: string | |s| > 0 witness "BODY"

  /** One `defs` entry. */
  datatype Entry = Entry(name: Name, value: string)

  /** The dictionary as the list of its entries in insertion order, which is
      the order `Object.entries` reports for non-numeric names. */
  type Defs = seq<Entry>

  predicate DistinctNames(defs: Defs) {
    forall i, j :: 0 <= i < j < |defs| ==> defs[i].name != defs[j].name
  }

  /** `defs[k]`, when present. */
  function Lookup(defs: Defs, k: string): (r: Option<string>)
    ensures r.Some? <==> exists i :: 0 <= i < |defs| && defs[i].name == k
    ensures r.Some? ==> Entry(k, r.value) in defs
  {
    if defs == [] then None
    else if defs[0].name == k then Some(defs[0].value)
    else Lookup(defs[1..], k)
  }

  /** `defs[k] = v`: a new name is appended, a known name keeps its place and
      takes the new value. */
  function Assign(defs: Defs, k: Name, v: string): (r: Defs)
    ensures Lookup(defs, k).None? ==> r == defs + [Entry(k, v)]
    ensures Lookup(defs, k).Some? ==> |r| == |defs| && forall i :: 0 <= i < |r| ==> r[i].name == defs[i].name
  {
    if defs == [] then [Entry(k, v)]
    else if defs[0].name == k then [Entry(k, v)] + defs[1..]
    else
      assert Lookup(defs, k) == Lookup(defs[1..], k);
      assert defs == [defs[0]] + defs[1..];
      [defs[0]] + Assign(defs[1..], k, v)
  }

  /** After `defs[k] = v`, `k` maps to `v` and every other name to what it
      mapped to before. */
  lemma {:induction false} AssignLookup(defs: Defs, k: Name, v: string, n: string)
    ensures Lookup(Assign(defs, k, v), n) == if n == k then Some(v) else Lookup(defs, n)
  {
    if defs != [] && defs[0].name != k {
      AssignLookup(defs[1..], k, v, n);
      var r := Assign(defs, k, v);
      assert r[1..] == Assign(defs[1..], k, v);
    }
  }

  /** Assignment keeps the names distinct. */
  lemma AssignDistinct(defs: Defs, k: Name, v: string)
    requires DistinctNames(defs)
    ensures DistinctNames(Assign(defs, k, v))
  {
    var r := Assign(defs, k, v);
    if Lookup(defs, k).None? {
      forall i | 0 <= i < |defs| ensures defs[i].name != k {
      }
    }
  }

  // ---------------------------------------------------------------- define lines

  /** The group of `^define\s+(.*)$`: the text after `define` and a run of white
      space, when that text holds no line terminator. */
  function DefineArgs(line: string): (args: Option<string>)
    ensures args.Some? ==> StartsWith(line, "define") && |args.value| < |line| - 6
    ensures args.Some? ==> args.value == line[|line| - |args.value|..]
    ensures args.Some? ==> NoLineTerminator(args.value) && (args.value == [] || !IsWhite(args.value[0]))
    ensures args.Some? ==> forall i :: 6 <= i < |line| - |args.value| ==> IsWhite(line[i])
  {
    if StartsWith(line, "define") then
      var after := line[6..];
      var rest := TrimStart(after);
      if |rest| < |after| && NoLineTerminator(rest) then Some(rest) else None
    else None
  }

  /** The entry a define records, given its arguments and the current emitted-line
      count: the first part names it, the last part is its value, and a last part
      `.` stands for the line count. With fewer than two parts nothing is recorded. */
  function DefineEntry(args: string, ln: nat): (e: Option<Entry>)
    requires args == [] || !IsWhite(args[0])
    ensures e.Some? <==> ' ' in args
    ensures e.Some? ==> ' ' !in e.value.name && StartsWith(args, e.value.name + " ")
    ensures e.Some? ==> e.value.value == Decimal(ln)
                        || (e.value.value != "." && ' ' !in e.value.value && EndsWith(args, " " + e.value.value))
  {
    var parts := Split(args, ' ');
    SplitCount(args, ' ');
    if |parts| >= 2 then
      SplitFirst(args, ' ');
      SplitLast(args, ' ');
      var last := parts[|parts| - 1];
      Some(Entry(parts[0], if last == "." then Decimal(ln) else last))
    else None
  }

  predicate EndsWith(s: string, p: string) {
    |p| <= |s| && s[|s| - |p|..] == p
  }

  /** A split yields more than one part exactly when the separator occurs. */
  lemma {:induction false} SplitCount(s: string, sep: char)
    ensures |Split(s, sep)| >= 2 <==> sep in s
    decreases |s|
  {
    if s != [] {
      SplitCount(s[1..], sep);
      assert sep in s <==> s[0] == sep || sep in s[1..];
    }
  }

  /** With the separator present, the first part is the text before its first
      occurrence; it is non-empty when the text does not start with it. */
  lemma {:induction false} SplitFirst(s: string, sep: char)
    requires sep in s
    ensures var p := Split(s, sep)[0]; StartsWith(s, p + [sep]) && sep !in p
    ensures s[0] != sep ==> Split(s, sep)[0] != []
    decreases |s|
  {
    if s[0] != sep {
      SplitFirst(s[1..], sep);
      var p := Split(s[1..], sep)[0];
      assert Split(s, sep)[0] == [s[0]] + p;
      assert s == [s[0]] + s[1..];
    }
  }

  /** With the separator present, the last part is the text after its last
      occurrence. */
  lemma {:induction false} SplitLast(s: string, sep: char)
    requires sep in s
    ensures var ps := Split(s, sep); EndsWith(s, [sep] + ps[|ps| - 1])
    decreases |s|
  {
    if sep in s[1..] {
      SplitLast(s[1..], sep);
      SplitCount(s[1..], sep);
      SplitLastCons(s, sep);
    } else {
      SplitLastHere(s, sep);
    }
  }

  /** The last part does not change when a character is put in front. */
  lemma SplitLastCons(s: string, sep: char)
    requires s != [] && |Split(s[1..], sep)| >= 2
    requires var rest := Split(s[1..], sep); EndsWith(s[1..], [sep] + rest[|rest| - 1])
    ensures var ps := Split(s, sep); EndsWith(s, [sep] + ps[|ps| - 1])
  {
    var rest := Split(s[1..], sep);
    SplitLastPart(s, sep);
    EndsWithCons(s, [sep] + rest[|rest| - 1]);
  }

  lemma SplitLastPart(s: string, sep: char)
    requires s != [] && |Split(s[1..], sep)| >= 2
    ensures var ps := Split(s, sep); var rest := Split(s[1..], sep);
      ps[|ps| - 1] == rest[|rest| - 1]
  {
    var rest := Split(s[1..], sep);
    var ps := Split(s, sep);
    if s[0] == sep {
      assert ps == [""] + rest;
    } else {
      assert ps == [[s[0]] + rest[0]] + rest[1..];
    }
  }

  lemma EndsWithCons(s: string, q: string)
    requires s != [] && EndsWith(s[1..], q)
    ensures EndsWith(s, q)
  {
    var t := s[1..];
    assert s[|s| - |q|..] == t[|t| - |q|..];
  }

  /** A leading separator that is the only one leaves the rest as last part. */
  lemma SplitLastHere(s: string, sep: char)
    requires sep in s && sep !in s[1..]
    ensures var ps := Split(s, sep); EndsWith(s, [sep] + ps[|ps| - 1])
  {
    var ps := Split(s, sep);
    var rest := Split(s[1..], sep);
    assert s[0] == sep;
    SplitNone(s[1..], sep);
    assert ps == [""] + rest;
    assert s == [sep] + s[1..];
  }

  lemma {:induction false} SplitNone(s: string, sep: char)
    requires sep !in s
    ensures Split(s, sep) == [s]
    decreases |s|
  {
    if s != [] {
      SplitNone(s[1..], sep);
      assert s == [s[0]] + s[1..];
    }
  }

  /** The `BODY` value subtracted from every debug line number: `parseInt` of
      the define when it is set to non-empty text, and 0 otherwise. */
  function BodyValue(defs: Defs): (b: Num)
    ensures Lookup(defs, "BODY").None? ==> b == Int(0)
  {
    match Lookup(defs, "BODY")
    case Some(v) => if v != "" then ParseInt(v) else Int(0)
    case None => Int(0)
  }

  /** After `define BODY .` on emitted line `n`, `BODY` is `n`, so every debug
      line number recorded later is relative to that line. */
  lemma BodyAfterDefine(defs: Defs, n: nat)
    ensures BodyValue(Assign(defs, "BODY", Decimal(n))) == Int(n)
  {
    var d := Decimal(n);
    AssignLookup(defs, "BODY", d, "BODY");
    assert Lookup(Assign(defs, "BODY", d), "BODY") == Some(d);
    assert d != "";
    ParseIntDecimal(n);
  }

  // ---------------------------------------------------------------- pass-2 order

  /** `e` placed behind every entry with a strictly longer name, lengths
      counted as JavaScript does, in UTF-16 code units. */
  function Insert(e: Entry, sorted: Defs): (r: Defs)
    ensures multiset(r) == multiset(sorted) + multiset{e}
    ensures |r| == |sorted| + 1
  {
    if sorted == [] || Utf16Length(sorted[0].name) <= Utf16Length(e.name) then [e] + sorted
    else
      assert sorted == [sorted[0]] + sorted[1..];
      [sorted[0]] + Insert(e, sorted[1..])
  }

  /** `Object.entries(defs).sort((a, b) => b[0].length - a[0].length)`: a stable
      sort by descending name length. */
  function SortByLength(defs: Defs): (r: Defs)
    ensures multiset(r) == multiset(defs)
    ensures |r| == |defs|
  {
    if defs == [] then []
    else
      assert defs == [defs[0]] + defs[1..];
      Insert(defs[0], SortByLength(defs[1..]))
  }

  predicate LongestFirst(defs: Defs) {
    forall i, j :: 0 <= i < j < |defs| ==> Utf16Length(defs[i].name) >= Utf16Length(defs[j].name)
  }

  /** The entries whose name has `n` UTF-16 code units, in order. */
  function OfLength(defs: Defs, n: nat): Defs {
    if defs == [] then []
    else (if Utf16Length(defs[0].name) == n then [defs[0]] else []) + OfLength(defs[1..], n)
  }

  /** Every entry of `defs` has a name of at most `n` code units. */
  predicate NoLongerThan(defs: Defs, n: nat) {
    forall i :: 0 <= i < |defs| ==> Utf16Length(defs[i].name) <= n
  }

  lemma ConsLongestFirst(x: Entry, r: Defs)
    requires LongestFirst(r) && NoLongerThan(r, Utf16Length(x.name))
    ensures LongestFirst([x] + r)
  {
    var out := [x] + r;
    forall i, j | 0 <= i < j < |out| ensures Utf16Length(out[i].name) >= Utf16Length(out[j].name) {
      assert out[j] == r[j - 1];
      if i > 0 {
        assert out[i] == r[i - 1];
      }
    }
  }

  /** Insertion adds no name longer than those it was given and `e`'s. */
  lemma {:induction false} InsertNoLonger(e: Entry, sorted: Defs, n: nat)
    requires NoLongerThan(sorted, n) && Utf16Length(e.name) <= n
    ensures NoLongerThan(Insert(e, sorted), n)
  {
    if sorted != [] && Utf16Length(sorted[0].name) > Utf16Length(e.name) {
      InsertNoLonger(e, sorted[1..], n);
      var r := Insert(e, sorted[1..]);
      assert Insert(e, sorted) == [sorted[0]] + r;
    }
  }

  lemma {:induction false} InsertLongestFirst(e: Entry, sorted: Defs)
    requires LongestFirst(sorted)
    ensures LongestFirst(Insert(e, sorted))
  {
    if sorted != [] && Utf16Length(sorted[0].name) > Utf16Length(e.name) {
      var n := Utf16Length(sorted[0].name);
      InsertLongestFirst(e, sorted[1..]);
      assert NoLongerThan(sorted[1..], n) by {
        forall k | 0 <= k < |sorted[1..]| ensures Utf16Length(sorted[1..][k].name) <= n {
          assert sorted[1..][k] == sorted[k + 1];
        }
      }
      InsertNoLonger(e, sorted[1..], n);
      ConsLongestFirst(sorted[0], Insert(e, sorted[1..]));
    }
  }

  /** What `Insert` places: `e` and the entries it was given. */
  lemma {:induction false} InsertMembers(e: Entry, sorted: Defs)
    ensures forall x :: x in Insert(e, sorted) ==> x == e || x in sorted
  {
    if sorted != [] && Utf16Length(sorted[0].name) > Utf16Length(e.name) {
      InsertMembers(e, sorted[1..]);
      assert Insert(e, sorted) == [sorted[0]] + Insert(e, sorted[1..]);
      forall x | x in Insert(e, sorted) ensures x == e || x in sorted {
        if x != sorted[0] {
          assert x in Insert(e, sorted[1..]);
        }
      }
    }
  }

  /** Insertion keeps the relative order of the entries of each name length,
      with `e` ahead of the already sorted entries of its own length. */
  lemma {:induction false} InsertOfLength(e: Entry, sorted: Defs, n: nat)
    ensures OfLength(Insert(e, sorted), n) == (if Utf16Length(e.name) == n then [e] else []) + OfLength(sorted, n)
  {
    var r := Insert(e, sorted);
    if sorted == [] || Utf16Length(sorted[0].name) <= Utf16Length(e.name) {
      assert r == [e] + sorted;
      assert r[1..] == sorted;
      assert OfLength(r, n) == (if Utf16Length(e.name) == n then [e] else []) + OfLength(sorted, n);
    } else {
      InsertOfLength(e, sorted[1..], n);
      assert r == [sorted[0]] + Insert(e, sorted[1..]);
      assert r[1..] == Insert(e, sorted[1..]);
      assert r[0] == sorted[0] && Utf16Length(sorted[0].name) != Utf16Length(e.name);
      assert OfLength(r, n) == (if Utf16Length(sorted[0].name) == n then [sorted[0]] else []) + OfLength(r[1..], n);
      assert OfLength(sorted, n) == (if Utf16Length(sorted[0].name) == n then [sorted[0]] else []) + OfLength(sorted[1..], n);
    }
  }

  /** The pass-2 order puts longer names first, so a name is substituted before
      any shorter one that could clip it. */
  lemma {:induction false} SortLongestFirst(defs: Defs)
    ensures LongestFirst(SortByLength(defs))
  {
    if defs != [] {
      SortLongestFirst(defs[1..]);
      InsertLongestFirst(defs[0], SortByLength(defs[1..]));
    }
  }

  /** The sort is stable: entries whose names have the same length keep the
      order in which they were defined. */
  lemma {:induction false} SortStable(defs: Defs, n: nat)
    ensures OfLength(SortByLength(defs), n) == OfLength(defs, n)
  {
    if defs != [] {
      SortStable(defs[1..], n);
      InsertOfLength(defs[0], SortByLength(defs[1..]), n);
    }
  }

  /** Lengths are JavaScript's: a character outside the basic plane counts
      twice, so `"\U{1D400}b"` ties with `"abc"` and keeps its place. */
  lemma SortSurrogateTie(v: string, w: string)
    ensures SortByLength([Entry("\U{1D400}b", v), Entry("abc", w)])
         == [Entry("\U{1D400}b", v), Entry("abc", w)]
  {
  }

  /** The pass-2 order holds exactly the entries of `defs`. */
  lemma SortMembers(defs: Defs)
    ensures forall x :: x in SortByLength(defs) <==> x in defs
  {
    var sorted := SortByLength(defs);
    forall x ensures x in sorted <==> x in defs {
      assert x in sorted <==> x in multiset(sorted);
      assert x in defs <==> x in multiset(defs);
    }
  }

  /** Insertion keeps the names distinct when the new name is not there yet. */
  lemma {:induction false} InsertDistinct(e: Entry, sorted: Defs)
    requires DistinctNames(sorted) && forall x :: x in sorted ==> x.name != e.name
    ensures DistinctNames(Insert(e, sorted))
  {
    var r := Insert(e, sorted);
    if sorted == [] || Utf16Length(sorted[0].name) <= Utf16Length(e.name) {
      assert r == [e] + sorted;
      forall i, j | 0 <= i < j < |r| ensures r[i].name != r[j].name {
        assert r[j] == sorted[j - 1];
        if i > 0 {
          assert r[i] == sorted[i - 1];
        }
      }
    } else {
      var tail := Insert(e, sorted[1..]);
      InsertDistinct(e, sorted[1..]);
      InsertMembers(e, sorted[1..]);
      assert r == [sorted[0]] + tail;
      forall i, j | 0 <= i < j < |r| ensures r[i].name != r[j].name {
        assert r[j] == tail[j - 1];
        if i > 0 {
          assert r[i] == tail[i - 1];
        } else {
          assert r[j] in tail;
          if r[j] != e {
            var k :| 0 <= k < |sorted[1..]| && sorted[1..][k] == r[j];
            assert sorted[k + 1] == r[j];
          }
        }
      }
    }
  }

  /** The pass-2 order lists every name once, as `defs` does. */
  lemma {:induction false} SortDistinct(defs: Defs)
    requires DistinctNames(defs)
    ensures DistinctNames(SortByLength(defs))
  {
    if defs != [] {
      var rest := SortByLength(defs[1..]);
      SortDistinct(defs[1..]);
      forall x | x in rest ensures x.name != defs[0].name {
        assert x in multiset(rest);
        assert x in defs[1..];
        var k :| 0 <= k < |defs[1..]| && defs[1..][k] == x;
        assert defs[k + 1] == x;
      }
      InsertDistinct(defs[0], rest);
    }
  }

  // ---------------------------------------------------------------- substitution

  /** `\bKEY\b` matches at the start of `s`, where `prevWord` says whether the
      character before `s` is a word character. */
  predicate WordAt(s: string, key: Name, prevWord: bool) {
    && prevWord != IsWordChar(key[0])
    && StartsWith(s, key)
    && IsWordChar(key[|key| - 1]) != (|s| > |key| && IsWordChar(s[|key|]))
  }

  /** `s.replace(new RegExp('\\b' + escape(key) + '\\b', 'g'), value)`. The scan
      resumes after each match, and word boundaries are judged on the original text. */
  function ReplaceWord(s: string, key: Name, value: string, prevWord: bool): string
    decreases |s|
  {
    if s == [] then []
    else if WordAt(s, key, prevWord) then
      value + ReplaceWord(s[|key|..], key, value, IsWordChar(key[|key| - 1]))
    else [s[0]] + ReplaceWord(s[1..], key, value, IsWordChar(s[0]))
  }

  /** Every entry substituted in turn, each seeing the output of the previous one. */
  function SubstituteAll(line: string, defs: Defs): string
    decreases |defs|
  {
    if defs == [] then line
    else SubstituteAll(ReplaceWord(line, defs[0].name, defs[0].value, false), defs[1..])
  }

  /** A line that is exactly a word-bounded name becomes its value. */
  lemma ReplaceWordWhole(key: Name, value: string)
    requires IsWordChar(key[0]) && IsWordChar(key[|key| - 1])
    ensures ReplaceWord(key, key, value, false) == value
  {
    assert WordAt(key, key, false);
    assert key[|key|..] == [];
    assert value + [] == value;
  }

  /** A name that does not occur leaves the text unchanged. */
  lemma {:induction false} ReplaceWordAbsent(s: string, key: Name, value: string, prevWord: bool)
    requires !Contains(s, key)
    ensures ReplaceWord(s, key, value, prevWord) == s
    decreases |s|
  {
    if s != [] {
      assert !OccursAt(s, key, 0);
      assert !Contains(s[1..], key) by {
        forall j: nat | j <= |s[1..]| ensures !OccursAt(s[1..], key, j) {
          assert !OccursAt(s, key, j + 1);
          if j + |key| <= |s[1..]| {
            assert s[1..][j..j + |key|] == s[j + 1..j + 1 + |key|];
          }
        }
      }
      ReplaceWordAbsent(s[1..], key, value, IsWordChar(s[0]));
      assert s == [s[0]] + s[1..];
    }
  }

  /** Inside a run of word characters no boundary precedes a later position,
      so nothing there is replaced. */
  lemma {:induction false} WordRunKept(w: string, key: Name, value: string)
    requires forall i :: 0 <= i < |w| ==> IsWordChar(w[i])
    ensures ReplaceWord(w, key, value, true) == w
    decreases |w|
  {
    if w != [] {
      if !IsWordChar(key[0]) && |key| <= |w| {
        assert w[..|key|][0] == w[0];
      }
      assert !WordAt(w, key, true);
      WordRunKept(w[1..], key, value);
      assert w == [w[0]] + w[1..];
    }
  }

  /** A whole word other than the name is left alone: `BODY` does not clip
      `BODY2`. */
  lemma WordKeptWhole(w: string, key: Name, value: string)
    requires w != [] && forall i :: 0 <= i < |w| ==> IsWordChar(w[i])
    requires w != key
    ensures ReplaceWord(w, key, value, false) == w
  {
    if StartsWith(w, key) {
      assert w[..|key|] == key;
      assert IsWordChar(w[|key| - 1]);
    }
    assert !WordAt(w, key, false);
    WordRunKept(w[1..], key, value);
    assert w == [w[0]] + w[1..];
  }

  /** Entries whose names do not occur leave the line unchanged. */
  lemma {:induction false} SubstituteAbsent(line: string, defs: Defs)
    requires forall i :: 0 <= i < |defs| ==> !Contains(line, defs[i].name)
    ensures SubstituteAll(line, defs) == line
  {
    if defs != [] {
      ReplaceWordAbsent(line, defs[0].name, defs[0].value, false);
      SubstituteAbsent(line, defs[1..]);
    }
  }

  /** With distinct names, a line that only the entry `e` touches becomes what
      that one substitution makes of it, whatever the position of `e`. */
  lemma {:induction false} SubstituteOnce(defs: Defs, e: Entry, before: string, after: string)
    requires DistinctNames(defs) && e in defs
    requires ReplaceWord(before, e.name, e.value, false) == after
    requires forall i :: 0 <= i < |defs| && defs[i].name != e.name ==>
      !Contains(before, defs[i].name) && !Contains(after, defs[i].name)
    ensures SubstituteAll(before, defs) == after
  {
    var k :| 0 <= k < |defs| && defs[k] == e;
    if k == 0 {
      forall i | 0 <= i < |defs[1..]| ensures !Contains(after, defs[1..][i].name) {
        assert defs[1..][i] == defs[i + 1];
      }
      SubstituteAbsent(after, defs[1..]);
    } else {
      assert defs[0].name != e.name;
      ReplaceWordAbsent(before, defs[0].name, defs[0].value, false);
      assert defs[1..][k - 1] == e;
      forall i | 0 <= i < |defs[1..]| && defs[1..][i].name != e.name
        ensures !Contains(before, defs[1..][i].name) && !Contains(after, defs[1..][i].name)
      {
        assert defs[1..][i] == defs[i + 1];
      }
      SubstituteOnce(defs[1..], e, before, after);
    }
  }

  /** The `L0,` in front of a `.name,` reference is left alone by the
      substitution of a name that does not start with an upper-case letter. */
  lemma CommaPrefixKept(name: Name, v: string)
    requires forall i :: 0 <= i < |name| ==> IsWordChar(name[i])
    requires !IsUpper(name[0])
    ensures ReplaceWord("L0," + ("." + name + ","), name, v, false) == "L0,." + v + ","
  {
    var t := "." + name + ",";
    CommaSplit(t);
    ThreeCopied('L', '0', ',', t, name, v);
    DotNameReplaced(name, v);
    CommaSplit("." + v + ",");
    ConcatAssoc("L0,", "." + v, ",");
    ConcatAssoc("L0,", ".", v);
  }

  /** `L0,` as three characters. */
  lemma CommaSplit(t: string)
    ensures "L0," + t == ['L'] + (['0'] + ([','] + t))
  {
  }

  /** A word character other than the name's first, a second word character
      and a non-word character, in front of the text, are copied. */
  lemma ThreeCopied(c0: char, c1: char, c2: char, t: string, key: Name, v: string)
    requires IsWordChar(key[0]) && c0 != key[0]
    requires IsWordChar(c0) && IsWordChar(c1) && !IsWordChar(c2)
    ensures ReplaceWord([c0] + ([c1] + ([c2] + t)), key, v, false)
      == [c0] + ([c1] + ([c2] + ReplaceWord(t, key, v, false)))
  {
    var s0 := [c0] + ([c1] + ([c2] + t));
    assert |key| <= |s0| ==> s0[..|key|][0] == c0;
    CopiedChar(c0, [c1] + ([c2] + t), key, v, false);
    CopiedChar(c1, [c2] + t, key, v, true);
    CopiedChar(c2, t, key, v, true);
  }

  /** A character at which the name does not match is copied. */
  lemma CopiedChar(c: char, s: string, key: Name, v: string, prev: bool)
    requires !WordAt([c] + s, key, prev)
    ensures ReplaceWord([c] + s, key, v, prev) == [c] + ReplaceWord(s, key, v, IsWordChar(c))
  {
    assert ([c] + s)[1..] == s;
  }

  lemma DotNameReplaced(name: Name, v: string)
    requires forall i :: 0 <= i < |name| ==> IsWordChar(name[i])
    ensures ReplaceWord("." + name + ",", name, v, false) == "." + v + ","
  {
    var s := "." + name + ",";
    assert s[0] != name[0];
    ConcatAssoc(".", name, ",");
    DropPrefix(".", name + ",");
    var t := name + ",";
    DropPrefix(name, ",");
    assert t[|name|] == ',';
    assert StartsWith(t, name);
    assert ReplaceWord(t, name, v, false) == v + ReplaceWord(",", name, v, true);
    assert ReplaceWord(",", name, v, true) == ",";
    ConcatAssoc(".", v, ",");
  }

  /** With distinct names in `defs`, a line that only the entry of `name`
      touches becomes what that one substitution makes of it, in pass-2 order. */
  lemma SortedSubstituteOnce(defs: Defs, name: Name, d: string, before: string, after: string)
    requires DistinctNames(defs) && Lookup(defs, name) == Some(d)
    requires ReplaceWord(before, name, d, false) == after
    requires forall e :: e in defs && e.name != name ==> !Contains(before, e.name) && !Contains(after, e.name)
    ensures SubstituteAll(before, SortByLength(defs)) == after
  {
    var sorted := SortByLength(defs);
    SortDistinct(defs);
    SortMembers(defs);
    forall i | 0 <= i < |sorted| && sorted[i].name != name
      ensures !Contains(before, sorted[i].name) && !Contains(after, sorted[i].name)
    {
      assert sorted[i] in defs;
    }
    SubstituteOnce(sorted, Entry(name, d), before, after);
  }

  /** Pass 2's define step turns `L0,.name,` into `L0,.` and the value. */
  lemma CallDefine(name: Name, d: string, defs: Defs, before: string, after: string)
    requires forall i :: 0 <= i < |name| ==> IsWordChar(name[i])
    requires !IsUpper(name[0])
    requires before == "L0,." + name + "," && after == "L0,." + d + ","
    requires DistinctNames(defs) && Lookup(defs, name) == Some(d)
    requires forall e :: e in defs && e.name != name ==> !Contains(before, e.name) && !Contains(after, e.name)
    ensures SubstituteAll(before, SortByLength(defs)) == after
  {
    CommaPrefixKept(name, d);
    assert "L0," + ("." + name + ",") == before;
    SortedSubstituteOnce(defs, name, d, before, after);
  }
}
