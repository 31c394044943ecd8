/** Debug regions (src/lib/asm.ts, the `;#{...}` directives of pass 1 and the
    closing of the regions after it): `pdinfo` is the open region, `debug` the
    pushed ones and `globvar` the first pushed one, whose variables serve as
    the global scope. */
module Regions {
  import opened Wrappers
  import opened Numbers
  import opened Variables

  /** A directive as `JSON.parse` delivers it: malformed text, or an object of
      which the assembler consults whether `code` and `endcode` are present,
      the `srcline` number and the `vars` list. `code` holds the JSON text of
      its value. */
  datatype Directive =
    | Malformed
    | Parsed(code: Option<string>, endcode: bool, srcline: Option<int>, vars: seq<VarItem>)

  /** One `DebugInfo` record: the directive that opened it and the fields the
      assembler sets. Each entry of `lines` pairs a line number with a source line. */
  datatype Region = Region(code: string, vars: seq<VarItem>, begin: Num, end: Option<Num>,
                           lines: seq<(Num, int)>, body: Option<Num>)

  /** The region state of pass 1: `debug`, `globvar` and `pdinfo`. */
  datatype Regions = Regions(debug: seq<Region>, global: Option<Region>, open: Option<Region>)

  const NoRegions: Regions := Regions([], None, None)

  predicate HasSrcline(lines: seq<(Num, int)>, src: int) {
    exists i :: 0 <= i < |lines| && lines[i].1 == src
  }

  predicate DistinctSrclines(lines: seq<(Num, int)>) {
    forall i, j :: 0 <= i < j < |lines| ==> lines[i].1 != lines[j].1
  }

  /** What pass 1 keeps true of its regions: the global region is the first
      pushed one, a region is pushed only once a later one opens, no region lists
      a source line twice, and only the closing step sets `body`. */
  predicate Valid(r: Regions) {
    && r.global == (if r.debug == [] then None else Some(r.debug[0]))
    && (r.open.None? ==> r.debug == [])
    && (forall i :: 0 <= i < |r.debug| ==> DistinctSrclines(r.debug[i].lines) && r.debug[i].body.None?)
    && (r.open.Some? ==> DistinctSrclines(r.open.value.lines) && r.open.value.body.None?)
  }

  /** The number of regions opened so far. */
  function RegionCount(r: Regions): nat {
    |r.debug| + if r.open.Some? then 1 else 0
  }

  predicate OpensRegion(d: Directive) {
    d.Parsed? && d.code.Some?
  }

  /** One directive applied at line number `at` (`ln - BODY`): `code` pushes the
      open region and opens a new one, `endcode` closes the open region, `srcline`
      records a source line once, and anything else is skipped. */
  function OnDirective(r: Regions, d: Directive, at: Num): (r': Regions)
    ensures Valid(r) ==> Valid(r')
    ensures RegionCount(r') == RegionCount(r) + if OpensRegion(d) then 1 else 0
    ensures OpensRegion(d) ==> r'.open == Some(Region(d.code.value, d.vars, at, None, [], None))
    ensures !OpensRegion(d) ==> r'.debug == r.debug && r'.global == r.global
    ensures OpensRegion(d) ==> r'.debug == r.debug + (if r.open.Some? then [r.open.value] else [])
    ensures OpensRegion(d) ==> r'.global == (if r.open.Some? && r.global.None? then r.open else r.global)
    ensures (d.Malformed? || (!OpensRegion(d) && !d.endcode && d.srcline.None?)) ==> r' == r
  {
    match d
    case Malformed => r
    case Parsed(code, endcode, srcline, vars) =>
      if code.Some? then
        var debug := if r.open.Some? then r.debug + [r.open.value] else r.debug;
        var global := if r.open.Some? && r.global.None? then r.open else r.global;
        Regions(debug, global, Some(Region(code.value, vars, at, None, [], None)))
      else if endcode then
        if r.open.Some? then r.(open := Some(r.open.value.(end := Some(at)))) else r
      else if srcline.Some? then
        if r.open.Some? && !HasSrcline(r.open.value.lines, srcline.value) then
          var lines := r.open.value.lines + [(at, srcline.value)];
          assert Valid(r) ==> DistinctSrclines(lines) by {
            if Valid(r) {
              forall i | 0 <= i < |r.open.value.lines| ensures lines[i].1 != srcline.value {
              }
            }
          }
          r.(open := Some(r.open.value.(lines := lines)))
        else r
      else r
  }

  /** A `srcline` directive leaves the open region listing that source line, with
      the pair added exactly when it was not listed before. */
  lemma SrclineRecorded(r: Regions, vars: seq<VarItem>, src: int, at: Num)
    requires r.open.Some?
    ensures var r' := OnDirective(r, Parsed(None, false, Some(src), vars), at);
      && r'.open.Some? && HasSrcline(r'.open.value.lines, src)
      && (HasSrcline(r.open.value.lines, src) ==> r' == r)
      && (!HasSrcline(r.open.value.lines, src) ==> r'.open.value.lines == r.open.value.lines + [(at, src)])
  {
    var r' := OnDirective(r, Parsed(None, false, Some(src), vars), at);
    if !HasSrcline(r.open.value.lines, src) {
      assert r'.open.value.lines[|r.open.value.lines|].1 == src;
    }
  }

  /** An `endcode` directive sets the end of the open region and nothing else. */
  lemma EndcodeCloses(r: Regions, d: Directive, at: Num)
    requires d.Parsed? && d.code.None? && d.endcode && r.open.Some?
    ensures OnDirective(r, d, at) == r.(open := Some(r.open.value.(end := Some(at))))
  {
  }

  /** Without an open region only a `code` directive has an effect. */
  lemma NoRegionIgnored(r: Regions, d: Directive, at: Num)
    requires r.open.None? && !OpensRegion(d)
    ensures OnDirective(r, d, at) == r
  {
  }

  /** The `debugInfo` of the result: the open region pushed, and the first
      region given the end of the last one and the `BODY` value. */
  function Finalize(r: Regions, body: Num): (debug: seq<Region>)
    ensures |debug| == RegionCount(r)
    ensures r.open.None? ==> debug == r.debug
    ensures r.open.Some? ==> debug[0].end == r.open.value.end && debug[0].body == Some(body)
    ensures r.open.Some? ==> debug[0] == (r.debug + [r.open.value])[0].(end := r.open.value.end, body := Some(body))
    ensures r.open.Some? && |debug| > 1 ==> debug[|debug| - 1] == r.open.value
    ensures r.open.Some? ==> forall i :: 1 <= i < |debug| ==> debug[i] == (r.debug + [r.open.value])[i]
  {
    if r.open.None? then r.debug
    else
      var all := r.debug + [r.open.value];
      [all[0].(end := r.open.value.end, body := Some(body))] + all[1..]
  }

  /** Under the invariant, every region of the result but the first has no
      `body`, and with no region opened the result is empty. */
  lemma FinalizeValid(r: Regions, body: Num)
    requires Valid(r)
    ensures RegionCount(r) == 0 ==> Finalize(r, body) == []
    ensures forall i :: 1 <= i < |Finalize(r, body)| ==> Finalize(r, body)[i].body.None?
    ensures forall i :: 0 <= i < |Finalize(r, body)| ==> DistinctSrclines(Finalize(r, body)[i].lines)
  {
    var debug := Finalize(r, body);
    if r.open.Some? {
      var all := r.debug + [r.open.value];
      forall i | 0 <= i < |debug| ensures DistinctSrclines(debug[i].lines) && (i >= 1 ==> debug[i].body.None?) {
        assert debug[i].lines == all[i].lines;
        if i < |r.debug| {
          assert all[i] == r.debug[i];
        }
      }
    }
  }
}
