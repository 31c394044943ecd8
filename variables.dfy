/** Variable references (src/lib/asm.ts, `processVariables` and `hasvar`): a
    `\name,` token is replaced by the location the debug regions give the name,
    and an unknown name aborts assembly. */
module Variables {
  import opened Wrappers
  import opened Text

  /** The value a `vars` item gives a name: `null`, from which reading `loc`
      throws, or any other value, whose `loc` is a string or absent. */
  datatype Binding = Null | Value(loc: Option<string>)

  /** One item of a region's `vars` list: an object (an array counts as the
      object of its index keys and `length`) or any other JSON value. */
  datatype VarItem = NotObject | Object(props: map<string, Binding>)

  /** The message of the `TypeError` raised when `loc` is read from `null`. */
  const NullLocError: string := "Cannot read properties of null (reading 'loc')"

  /** The message thrown for a token no region resolves. */
  function InvalidVariable(name: string): string {
    "Invalid variable in asm code: \\" + name + ","
  }

  /** `hasvar`: the `loc` of `name` in the first object item that has the name,
      as text ("" for an absent or empty `loc` and for no such item), or the
      error thrown when that item binds the name to `null`. */
  function HasVar(vars: seq<VarItem>, name: string): (r: Result<string, string>)
    ensures r.Failure? ==> r.error == NullLocError
    ensures (forall i :: 0 <= i < |vars| ==> !(vars[i].Object? && name in vars[i].props)) ==> r == Success("")
  {
    if vars == [] then Success("")
    else if vars[0].Object? && name in vars[0].props then
      match vars[0].props[name]
      case Null => Failure(NullLocError)
      case Value(loc) => Success(if loc.Some? then loc.value else "")
    else HasVar(vars[1..], name)
  }

  /** The item `HasVar` consults: the first object that has the name. */
  lemma {:induction false} HasVarFirst(vars: seq<VarItem>, name: string, i: nat, loc: string)
    requires i < |vars| && vars[i].Object? && name in vars[i].props && vars[i].props[name] == Value(Some(loc))
    requires forall j :: 0 <= j < i ==> !(vars[j].Object? && name in vars[j].props)
    ensures HasVar(vars, name) == Success(loc)
  {
    if i > 0 {
      HasVarFirst(vars[1..], name, i - 1, loc);
    }
  }

  /** The resolution of one name: the current region first, then, when that
      gives nothing, the global region; with neither, the invalid-variable error. */
  function Resolve(current: Option<seq<VarItem>>, global: Option<seq<VarItem>>, name: string): (r: Result<string, string>)
    ensures r.Success? ==> r.value != ""
    ensures r.Failure? ==> r.error == NullLocError || r.error == InvalidVariable(name)
  {
    var here :- if current.Some? then HasVar(current.value, name) else Success("");
    if here != "" then Success(here)
    else if global.Some? then
      var there :- HasVar(global.value, name);
      if there != "" then Success(there) else Failure(InvalidVariable(name))
    else Failure(InvalidVariable(name))
  }

  /** A location from the current region wins over the global one. */
  lemma ResolveCurrentFirst(current: seq<VarItem>, global: Option<seq<VarItem>>, name: string)
    requires HasVar(current, name).Success? && HasVar(current, name).value != ""
    ensures Resolve(Some(current), global, name) == HasVar(current, name)
  {
  }

  /** A name the current region lacks is looked up in the global region. */
  lemma ResolveFallsBack(current: Option<seq<VarItem>>, global: seq<VarItem>, name: string)
    requires current.None? || HasVar(current.value, name) == Success("")
    requires HasVar(global, name).Success? && HasVar(global, name).value != ""
    ensures Resolve(current, Some(global), name) == HasVar(global, name)
  {
  }

  /** A name no region binds is an invalid variable. */
  lemma ResolveUnknown(current: Option<seq<VarItem>>, global: Option<seq<VarItem>>, name: string)
    requires current.None? || HasVar(current.value, name) == Success("")
    requires global.None? || HasVar(global.value, name) == Success("")
    ensures Resolve(current, global, name) == Failure(InvalidVariable(name))
  {
  }

  // ---------------------------------------------------------------- tokens

  /** The longest prefix of `s` made of word characters, which is what
      `[0-9a-z_]+` covers under the `i` flag. */
  function WordPrefix(s: string): (w: string)
    ensures StartsWith(s, w) && forall i :: 0 <= i < |w| ==> IsWordChar(w[i])
    ensures |w| < |s| ==> !IsWordChar(s[|w|])
  {
    if s != [] && IsWordChar(s[0]) then [s[0]] + WordPrefix(s[1..]) else ""
  }

  /** The name of the token `\\([0-9a-z_]+),` when it matches at the start of `s`. */
  function VarTokenAt(s: string): (name: Option<string>)
    ensures name.Some? ==> name.value != [] && |name.value| + 2 <= |s|
    ensures name.Some? ==> s == "\\" + name.value + "," + s[|name.value| + 2..]
    ensures name.Some? ==> forall i :: 0 <= i < |name.value| ==> IsWordChar(name.value[i])
  {
    if s != [] && s[0] == '\\' then
      var w := WordPrefix(s[1..]);
      if w != [] && 1 + |w| < |s| && s[1 + |w|] == ',' then
        assert s == "\\" + w + "," + s[|w| + 2..];
        Some(w)
      else None
    else None
  }

  /** The names of the tokens of `s`, from left to right. */
  function Tokens(s: string): seq<string>
    decreases |s|
  {
    if s == [] then []
    else match VarTokenAt(s)
      case Some(name) => [name] + Tokens(s[|name| + 2..])
      case None => Tokens(s[1..])
  }

  /** `processVariables`: every token replaced by its resolved location, or the
      error of the first token, from the left, that does not resolve. */
  function ProcessVariables(s: string, current: Option<seq<VarItem>>, global: Option<seq<VarItem>>): Result<string, string>
    decreases |s|
  {
    if s == [] then Success([])
    else match VarTokenAt(s)
      case Some(name) =>
        var loc :- Resolve(current, global, name);
        var rest :- ProcessVariables(s[|name| + 2..], current, global);
        Success(loc + rest)
      case None =>
        var rest :- ProcessVariables(s[1..], current, global);
        Success([s[0]] + rest)
  }

  /** `r` is the outcome the tokens `ts` call for: success exactly when every
      token resolves, and otherwise the error of the first one that does not. */
  predicate Reports(ts: seq<string>, r: Result<string, string>, current: Option<seq<VarItem>>, global: Option<seq<VarItem>>) {
    && (r.Success? <==> forall i :: 0 <= i < |ts| ==> Resolve(current, global, ts[i]).Success?)
    && (r.Failure? ==> exists i :: 0 <= i < |ts| && Resolve(current, global, ts[i]) == Failure(r.error)
                                 && forall j :: 0 <= j < i ==> Resolve(current, global, ts[j]).Success?)
  }

  /** Processing succeeds exactly when every token resolves; otherwise its error
      is that of the first token that does not. */
  lemma {:induction false} ProcessVariablesOutcome(s: string, current: Option<seq<VarItem>>, global: Option<seq<VarItem>>)
    ensures var ts := Tokens(s); var r := ProcessVariables(s, current, global);
      && (r.Success? <==> forall i :: 0 <= i < |ts| ==> Resolve(current, global, ts[i]).Success?)
      && (r.Failure? ==> exists i :: 0 <= i < |ts| && Resolve(current, global, ts[i]) == Failure(r.error)
                                   && forall j :: 0 <= j < i ==> Resolve(current, global, ts[j]).Success?)
    decreases |s|
  {
    ProcessVariablesReports(s, current, global);
  }

  lemma {:induction false} ProcessVariablesReports(s: string, current: Option<seq<VarItem>>, global: Option<seq<VarItem>>)
    ensures Reports(Tokens(s), ProcessVariables(s, current, global), current, global)
    decreases |s|
  {
    if s != [] {
      match VarTokenAt(s)
      case Some(name) =>
        var rest := s[|name| + 2..];
        ProcessVariablesReports(rest, current, global);
        ReportsCons(name, Tokens(rest), ProcessVariables(rest, current, global), current, global);
      case None =>
        ProcessVariablesReports(s[1..], current, global);
        ReportsCopy(s[0], Tokens(s[1..]), ProcessVariables(s[1..], current, global), current, global);
    }
  }

  /** A token in front: its resolution comes first. */
  lemma ReportsCons(name: string, ts: seq<string>, r: Result<string, string>,
                    current: Option<seq<VarItem>>, global: Option<seq<VarItem>>)
    requires Reports(ts, r, current, global)
    ensures Reports([name] + ts, (var loc :- Resolve(current, global, name); var rest :- r; Success(loc + rest)),
                    current, global)
  {
    var ts' := [name] + ts;
    var r' := (var loc :- Resolve(current, global, name); var rest :- r; Success(loc + rest));
    assert ts'[0] == name;
    assert forall i :: 1 <= i < |ts'| ==> ts'[i] == ts[i - 1];
    if Resolve(current, global, name).Success? {
      if r.Failure? {
        var k :| 0 <= k < |ts| && Resolve(current, global, ts[k]) == Failure(r.error)
                 && forall j :: 0 <= j < k ==> Resolve(current, global, ts[j]).Success?;
        assert ts'[k + 1] == ts[k];
      }
    }
  }

  /** A character copied in front changes neither the tokens nor the outcome. */
  lemma ReportsCopy(c: char, ts: seq<string>, r: Result<string, string>,
                    current: Option<seq<VarItem>>, global: Option<seq<VarItem>>)
    requires Reports(ts, r, current, global)
    ensures Reports(ts, (var rest :- r; Success([c] + rest)), current, global)
  {
  }

  /** Text without a backslash has no token and is kept as it is. */
  lemma {:induction false} NoBackslashKept(s: string, current: Option<seq<VarItem>>, global: Option<seq<VarItem>>)
    requires '\\' !in s
    ensures ProcessVariables(s, current, global) == Success(s)
    ensures Tokens(s) == []
    decreases |s|
  {
    if s != [] {
      assert VarTokenAt(s).None?;
      NoBackslashKept(s[1..], current, global);
      assert s == [s[0]] + s[1..];
    }
  }

  /** A token between token-free text is replaced by the location its name
      resolves to. */
  lemma TokenReplaced(a: string, name: string, b: string, current: Option<seq<VarItem>>, global: Option<seq<VarItem>>)
    requires '\\' !in a && name != [] && forall i :: 0 <= i < |name| ==> IsWordChar(name[i])
    requires Resolve(current, global, name).Success?
    ensures var rest := ProcessVariables(b, current, global);
            rest.Success? ==> ProcessVariables(a + "\\" + name + "," + b, current, global)
                              == Success(a + Resolve(current, global, name).value + rest.value)
  {
    var u := "\\" + name + "," + b;
    assert a + "\\" + name + "," + b == a + u;
    var loc := Resolve(current, global, name).value;
    var rest := ProcessVariables(b, current, global);
    TokenStep(name, b, current, global);
    if rest.Success? {
      assert ProcessVariables(u, current, global) == Success(loc + rest.value);
      PrefixKept(a, u, current, global);
      ConcatAssoc(a, loc, rest.value);
    }
  }

  lemma TokenStep(name: string, b: string, current: Option<seq<VarItem>>, global: Option<seq<VarItem>>)
    requires name != [] && forall i :: 0 <= i < |name| ==> IsWordChar(name[i])
    ensures ProcessVariables("\\" + name + "," + b, current, global)
            == (var loc :- Resolve(current, global, name); var rest :- ProcessVariables(b, current, global); Success(loc + rest))
  {
    var u := "\\" + name + "," + b;
    WordPrefixOf(name, "," + b);
    assert u[1..] == name + ("," + b);
    assert u[|name| + 2..] == b;
    assert VarTokenAt(u) == Some(name);
  }

  lemma {:induction false} WordPrefixOf(w: string, t: string)
    requires forall i :: 0 <= i < |w| ==> IsWordChar(w[i])
    requires t != [] && !IsWordChar(t[0])
    ensures WordPrefix(w + t) == w
  {
    if w == [] {
      assert w + t == t;
    } else {
      assert (w + t)[1..] == w[1..] + t;
      WordPrefixOf(w[1..], t);
    }
  }

  /** Token-free text before the rest is copied in front of the rest's result. */
  lemma {:induction false} PrefixKept(a: string, u: string, current: Option<seq<VarItem>>, global: Option<seq<VarItem>>)
    requires '\\' !in a
    ensures ProcessVariables(a + u, current, global)
            == (var rest :- ProcessVariables(u, current, global); Success(a + rest))
  {
    if a == [] {
      assert a + u == u;
      match ProcessVariables(u, current, global)
      case Success(v) => assert a + v == v;
      case Failure(_) =>
    } else {
      var s := a + u;
      assert s[0] == a[0] != '\\';
      assert VarTokenAt(s).None?;
      assert s[1..] == a[1..] + u;
      PrefixKept(a[1..], u, current, global);
      var r := ProcessVariables(s, current, global);
      var r1 := ProcessVariables(s[1..], current, global);
      assert r == (var rest :- r1; Success([a[0]] + rest));
      match ProcessVariables(u, current, global)
      case Success(v) =>
        assert r1 == Success(a[1..] + v);
        ConsConcat(a, v);
      case Failure(_) =>
    }
  }
}
