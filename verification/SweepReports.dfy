/** The sweep's warnings on sorted, disjoint inputs, and what survives when the inputs overlap. */
module SweepReports {
  import opened Addresses
  import opened SweepSpec
  import opened SweepStep

  ghost predicate LastIs(s: seq<nat>, x: nat) {
    s != [] && s[|s| - 1] == x
  }

  // ---------- Functions without lines ----------

  /** The functions reported so far: those already passed that have a gap, and the current one if it had a gap
      before `p.current`. */
  ghost predicate FunctionReportsSoFar(functions: seq<Range>, lines: seq<Range>, p: Position, cited: seq<nat>) {
    && p.func <= |functions|
    && cited == UncoveredFunctions(functions, lines, p.func)
                + (if p.func < |functions| && GapBefore(functions[p.func], lines, p.current) then [p.func] else [])
  }

  /** The function warning of the iteration at `p`. */
  ghost function CiteFunction(functions: seq<Range>, lines: seq<Range>, p: Position, cited: seq<nat>): seq<nat> {
    if Inside(functions, p.func, p.current) && !Inside(lines, p.line, p.current) && !LastIs(cited, p.func) then
      cited + [p.func]
    else
      cited
  }

  /** Adding the next index to an ascending list, or not. */
  lemma IndicesSnoc(init: seq<nat>, n: nat, keep: bool)
    requires forall x :: x in init ==> x < n
    requires forall i, j :: 0 <= i < j < |init| ==> init[i] < init[j]
    ensures var r := init + if keep then [n] else [];
            && (forall x :: x in r <==> x in init || (keep && x == n))
            && forall i, j :: 0 <= i < j < |r| ==> r[i] < r[j]
  {
    assert forall i :: 0 <= i < |init| ==> init[i] in init;
  }

  lemma {:induction false} UncoveredFunctionsBelow(functions: seq<Range>, lines: seq<Range>, n: nat)
    requires n <= |functions|
    ensures forall x :: x in UncoveredFunctions(functions, lines, n) ==> x < n && Uncovered(functions[x], lines)
    ensures forall x :: 0 <= x < n && Uncovered(functions[x], lines) ==> x in UncoveredFunctions(functions, lines, n)
    ensures forall i, j :: 0 <= i < j < |UncoveredFunctions(functions, lines, n)| ==>
                             UncoveredFunctions(functions, lines, n)[i] < UncoveredFunctions(functions, lines, n)[j]
  {
    if n != 0 {
      hide Uncovered;
      UncoveredFunctionsBelow(functions, lines, n - 1);
      IndicesSnoc(UncoveredFunctions(functions, lines, n - 1), n - 1, Uncovered(functions[n - 1], lines));
    }
  }

  /** The gaps of the current function before `q.current`. */
  lemma {:induction false} GapStep(functions: seq<Range>, lines: seq<Range>, p: Position, q: Position)
    requires Tame(functions, lines) && Move(functions, lines, p, q) && p.func < |functions|
    ensures GapBefore(functions[p.func], lines, q.current)
       <==> || GapBefore(functions[p.func], lines, p.current)
            || (Inside(functions, p.func, p.current) && !Inside(lines, p.line, p.current))
  {
    MoveIterators(functions, lines, p, q);
    var f := functions[p.func];
    forall b: int | p.current <= b < q.current
      ensures Covered(lines, b) <==> Inside(lines, p.line, p.current)
    {
      CoverageIsConstant(lines, p.line, p.current, q.current, b);
    }
    if Inside(functions, p.func, p.current) && !Inside(lines, p.line, p.current) {
      assert f.Has(p.current) && !Covered(lines, p.current);
    }
    if GapBefore(f, lines, q.current) {
      var b: int :| f.Has(b) && b < q.current && !Covered(lines, b);
      assert b < p.current || Inside(functions, p.func, p.current);
    }
  }

  /** The function warnings of an iteration, while the current function is not left. */
  lemma {:induction false} CiteFunctionStep(functions: seq<Range>, lines: seq<Range>, p: Position, q: Position,
                                            cited: seq<nat>)
    requires Tame(functions, lines) && Move(functions, lines, p, q) && p.func < |functions|
    requires FunctionReportsSoFar(functions, lines, p, cited)
    ensures CiteFunction(functions, lines, p, cited)
         == UncoveredFunctions(functions, lines, p.func)
            + if GapBefore(functions[p.func], lines, q.current) then [p.func] else []
  {
    hide GapBefore, Tame, Move, Inside, LastIs, UncoveredFunctions;
    GapStep(functions, lines, p, q);
    NotCitedYet(functions, lines, p.func);
    CiteOnce(UncoveredFunctions(functions, lines, p.func), p.func, GapBefore(functions[p.func], lines, p.current),
             Inside(functions, p.func, p.current) && !Inside(lines, p.line, p.current));
  }

  /** Leaving a function settles whether it is reported. */
  lemma LeaveFunction(functions: seq<Range>, lines: seq<Range>, k: nat, limit: int)
    requires k < |functions| && limit == functions[k].End()
    requires k + 1 < |functions| ==> limit <= functions[k + 1].address
    ensures UncoveredFunctions(functions, lines, k + 1)
         == UncoveredFunctions(functions, lines, k) + if GapBefore(functions[k], lines, limit) then [k] else []
    ensures k + 1 < |functions| ==> !GapBefore(functions[k + 1], lines, limit)
  {
  }

  lemma {:induction false} MoveKeepsFunctionReports(functions: seq<Range>, lines: seq<Range>, p: Position, q: Position,
                                                    cited: seq<nat>)
    requires Tame(functions, lines) && Move(functions, lines, p, q)
    requires FunctionReportsSoFar(functions, lines, p, cited)
    ensures FunctionReportsSoFar(functions, lines, q, CiteFunction(functions, lines, p, cited))
  {
    hide Tame, Move, NoJump, GapBefore, UncoveredFunctions;
    MoveIterators(functions, lines, p, q);
    TameOrder(functions, lines, p);
    if p.func < |functions| {
      CiteFunctionStep(functions, lines, p, q, cited);
      if q.func == p.func + 1 {
        LeaveFunction(functions, lines, p.func, q.current);
      }
    }
  }

  lemma NotCitedYet(functions: seq<Range>, lines: seq<Range>, n: nat)
    requires n <= |functions|
    ensures n !in UncoveredFunctions(functions, lines, n)
  {
    UncoveredFunctionsBelow(functions, lines, n);
  }

  /** An index is cited once: the test of the last one cited tells whether it already is. */
  lemma CiteOnce(before: seq<nat>, x: nat, cited: bool, cite: bool)
    requires x !in before
    ensures var now := before + if cited then [x] else [];
            (if cite && !LastIs(now, x) then now + [x] else now) == before + if cited || cite then [x] else []
  {
    if cited {
      assert (before + [x])[|before|] == x;
    } else {
      assert before + [] == before;
    }
  }

  // ---------- Lines without functions ----------

  ghost predicate LineReportsSoFar(functions: seq<Range>, lines: seq<Range>, p: Position, cited: seq<nat>) {
    && p.line <= |lines|
    && cited == StrayLines(functions, lines, p.line)
                + (if p.line < |lines| && StrayBefore(lines[p.line], functions, p.current) then [p.line] else [])
  }

  /** The index of the last line used, or -1; it is the current line exactly when a part of that has been used. */
  ghost predicate LastUsedSoFar(functions: seq<Range>, lines: seq<Range>, p: Position, lastUsed: int) {
    && lastUsed <= p.line
    && (p.line < |lines| ==> (lastUsed == p.line <==> UsedBefore(lines[p.line], functions, p.current)))
    && (p.line == |lines| ==> lastUsed < p.line)
  }

  ghost function UseLine(functions: seq<Range>, lines: seq<Range>, p: Position, lastUsed: int): int {
    if Inside(functions, p.func, p.current) && Inside(lines, p.line, p.current) then p.line else lastUsed
  }

  /** The source's test for the excused padding. */
  ghost predicate Excused(functions: seq<Range>, lines: seq<Range>, p: Position, lastUsed: int) {
    && p.func < |functions| && p.line < |lines|
    && lastUsed == p.line
    && functions[p.func].address == lines[p.line].End()
  }

  ghost function CiteLine(functions: seq<Range>, lines: seq<Range>, p: Position, lastUsed: int, cited: seq<nat>): seq<nat> {
    if !Inside(functions, p.func, p.current) && Inside(lines, p.line, p.current) && !LastIs(cited, p.line)
       && !Excused(functions, lines, p, lastUsed) then
      cited + [p.line]
    else
      cited
  }

  lemma {:induction false} StrayLinesBelow(functions: seq<Range>, lines: seq<Range>, n: nat)
    requires n <= |lines|
    ensures forall x :: x in StrayLines(functions, lines, n) ==> x < n && Stray(lines[x], functions)
    ensures forall x :: 0 <= x < n && Stray(lines[x], functions) ==> x in StrayLines(functions, lines, n)
    ensures forall i, j :: 0 <= i < j < |StrayLines(functions, lines, n)| ==>
                             StrayLines(functions, lines, n)[i] < StrayLines(functions, lines, n)[j]
  {
    if n != 0 {
      hide Stray;
      StrayLinesBelow(functions, lines, n - 1);
      IndicesSnoc(StrayLines(functions, lines, n - 1), n - 1, Stray(lines[n - 1], functions));
    }
  }

  lemma {:induction false} FunctionsConstant(functions: seq<Range>, lines: seq<Range>, p: Position, q: Position)
    requires Tame(functions, lines) && Move(functions, lines, p, q)
    ensures forall b: int :: p.current <= b < q.current ==> (Covered(functions, b) <==> Inside(functions, p.func, p.current))
  {
    MoveIterators(functions, lines, p, q);
    forall b: int | p.current <= b < q.current
      ensures Covered(functions, b) <==> Inside(functions, p.func, p.current)
    {
      CoverageIsConstant(functions, p.func, p.current, q.current, b);
    }
  }

  lemma {:induction false} MoveKeepsLastUsed(functions: seq<Range>, lines: seq<Range>, p: Position, q: Position,
                                             lastUsed: int)
    requires Tame(functions, lines) && Move(functions, lines, p, q)
    requires LastUsedSoFar(functions, lines, p, lastUsed)
    ensures LastUsedSoFar(functions, lines, q, UseLine(functions, lines, p, lastUsed))
  {
    MoveIterators(functions, lines, p, q);
    FunctionsConstant(functions, lines, p, q);
    if p.line < |lines| {
      var l := lines[p.line];
      if Inside(functions, p.func, p.current) && Inside(lines, p.line, p.current) {
        assert l.Has(p.current) && Covered(functions, p.current);
      }
      if UsedBefore(l, functions, q.current) {
        var x: int :| l.Has(x) && x < q.current && Covered(functions, x);
        assert x < p.current || Inside(lines, p.line, p.current);
      }
      assert q.line == p.line + 1 && q.line < |lines| ==> l.End() <= lines[q.line].address;
    }
  }

  /** In a line and in no function, the source's test is the padding condition at every byte up to `q.current`. */
  lemma {:induction false} ExcusedIsPadding(functions: seq<Range>, lines: seq<Range>, p: Position, q: Position,
                                            lastUsed: int, b: int)
    requires Tame(functions, lines) && Move(functions, lines, p, q)
    requires LastUsedSoFar(functions, lines, p, lastUsed)
    requires !Inside(functions, p.func, p.current) && Inside(lines, p.line, p.current)
    requires p.current <= b < q.current
    ensures Padding(lines[p.line], functions, b) <==> Excused(functions, lines, p, lastUsed)
  {
    var l := lines[p.line];
    MoveIterators(functions, lines, p, q);
    FunctionsConstant(functions, lines, p, q);
    assert UsedBefore(l, functions, b) <==> lastUsed == p.line;
    if p.func == |functions| {
      assert forall k :: 0 <= k < |functions| ==> functions[k].address < l.End();
    } else if functions[p.func].address < l.End() {
      var x := functions[p.func].address;
      assert functions[p.func].Has(x);
      assert Covered(functions, x) && b <= x < l.End();
    } else {
      forall k | 0 <= k < |functions| && k != p.func
        ensures functions[k].End() <= p.current || functions[p.func].End() <= functions[k].address
      {
      }
      assert forall k, x: int :: 0 <= k < |functions| && b <= x < l.End() ==> !functions[k].Has(x);
    }
  }

  /** The stray bytes of the current line before `q.current`. */
  lemma {:induction false} StrayStep(functions: seq<Range>, lines: seq<Range>, p: Position, q: Position, lastUsed: int)
    requires Tame(functions, lines) && Move(functions, lines, p, q) && p.line < |lines|
    requires LastUsedSoFar(functions, lines, p, lastUsed)
    ensures StrayBefore(lines[p.line], functions, q.current)
       <==> || StrayBefore(lines[p.line], functions, p.current)
            || (!Inside(functions, p.func, p.current) && Inside(lines, p.line, p.current)
                && !Excused(functions, lines, p, lastUsed))
  {
    var l := lines[p.line];
    MoveIterators(functions, lines, p, q);
    FunctionsConstant(functions, lines, p, q);
    if !Inside(functions, p.func, p.current) && Inside(lines, p.line, p.current) {
      forall b: int | p.current <= b < q.current
        ensures Padding(l, functions, b) <==> Excused(functions, lines, p, lastUsed)
      {
        ExcusedIsPadding(functions, lines, p, q, lastUsed, b);
      }
      assert l.Has(p.current) && !Covered(functions, p.current);
    }
    if StrayBefore(l, functions, q.current) {
      var b: int :| l.Has(b) && b < q.current && !Covered(functions, b) && !Padding(l, functions, b);
      assert b < p.current || Inside(lines, p.line, p.current);
    }
  }

  /** The line warnings of an iteration, while the current line is not left. */
  lemma {:induction false} CiteLineStep(functions: seq<Range>, lines: seq<Range>, p: Position, q: Position,
                                        lastUsed: int, cited: seq<nat>)
    requires Tame(functions, lines) && Move(functions, lines, p, q) && p.line < |lines|
    requires LastUsedSoFar(functions, lines, p, lastUsed)
    requires LineReportsSoFar(functions, lines, p, cited)
    ensures CiteLine(functions, lines, p, lastUsed, cited)
         == StrayLines(functions, lines, p.line)
            + if StrayBefore(lines[p.line], functions, q.current) then [p.line] else []
  {
    hide StrayBefore, Tame, Move, Inside, Excused, LastUsedSoFar, LastIs, StrayLines;
    StrayStep(functions, lines, p, q, lastUsed);
    NotListedYet(functions, lines, p.line);
    CiteOnce(StrayLines(functions, lines, p.line), p.line, StrayBefore(lines[p.line], functions, p.current),
             !Inside(functions, p.func, p.current) && Inside(lines, p.line, p.current)
             && !Excused(functions, lines, p, lastUsed));
  }

  /** Leaving a line settles whether it is reported. */
  lemma LeaveLine(functions: seq<Range>, lines: seq<Range>, k: nat, limit: int)
    requires k < |lines| && limit == lines[k].End()
    requires k + 1 < |lines| ==> limit <= lines[k + 1].address
    ensures StrayLines(functions, lines, k + 1)
         == StrayLines(functions, lines, k) + if StrayBefore(lines[k], functions, limit) then [k] else []
    ensures k + 1 < |lines| ==> !StrayBefore(lines[k + 1], functions, limit)
  {
  }

  lemma {:induction false} MoveKeepsLineReports(functions: seq<Range>, lines: seq<Range>, p: Position, q: Position,
                                                lastUsed: int, cited: seq<nat>)
    requires Tame(functions, lines) && Move(functions, lines, p, q)
    requires LastUsedSoFar(functions, lines, p, lastUsed)
    requires LineReportsSoFar(functions, lines, p, cited)
    ensures LineReportsSoFar(functions, lines, q, CiteLine(functions, lines, p, lastUsed, cited))
  {
    hide Tame, Move, NoJump, StrayBefore, StrayLines, LastUsedSoFar, Excused;
    MoveIterators(functions, lines, p, q);
    TameOrder(functions, lines, p);
    if p.line < |lines| {
      CiteLineStep(functions, lines, p, q, lastUsed, cited);
      if q.line == p.line + 1 {
        LeaveLine(functions, lines, p.line, q.current);
      }
    }
  }

  lemma NotListedYet(functions: seq<Range>, lines: seq<Range>, n: nat)
    requires n <= |lines|
    ensures n !in StrayLines(functions, lines, n)
  {
    StrayLinesBelow(functions, lines, n);
  }

  // ---------- Overlapping inputs ----------

  /** `piece` is a part of function `f` and of some line, with that line's file and number. */
  ghost predicate Fragment(f: Range, lines: seq<Line>, piece: Line) {
    && f.address <= piece.address && piece.Span().End() <= f.End()
    && exists k :: && 0 <= k < |lines| && lines[k].address <= piece.address
                   && piece.Span().End() <= lines[k].Span().End()
                   && piece.file == lines[k].file && piece.number == lines[k].number
  }

  ghost predicate FragmentsSoFar(functions: seq<Range>, lines: seq<Line>, limit: int, out: seq<seq<Line>>) {
    && |out| == |functions|
    && forall k :: 0 <= k < |out| ==>
         Ascending(out[k], limit) && forall piece :: piece in out[k] ==> Fragment(functions[k], lines, piece)
  }

  /** On any proper inputs, overlapping or not, an iteration keeps every piece in place and in order. */
  lemma {:induction false} EmitKeepsFragments(functions: seq<Range>, lines: seq<Line>, p: Position, out: seq<seq<Line>>)
    requires AllProper(functions) && AllProper(Spans(lines)) && PlacedBoth(functions, Spans(lines), p)
    requires 0 <= p.current && (p.func < |functions| || p.line < |lines|)
    requires FragmentsSoFar(functions, lines, p.current, out)
    ensures FragmentsSoFar(functions, lines, NextTransition(functions, Spans(lines), p), Emit(functions, lines, p, out))
  {
    var next := NextTransition(functions, Spans(lines), p);
    NextTransitionAdvances(functions, Spans(lines), p);
    hide NextTransition, AllProper, Placed, Ascending, Endpoint;
    FragmentsLater(functions, lines, p.current, next, out);
    if Inside(functions, p.func, p.current) && Inside(Spans(lines), p.line, p.current) {
      var l := lines[p.line];
      var piece := Line(p.current, next - p.current, l.file, l.number);
      assert Spans(lines)[p.line] == l.Span();
      AscendingSnoc(out[p.func], p.current, piece, next);
      assert Fragment(functions[p.func], lines, piece);
    }
  }

  lemma FragmentsLater(functions: seq<Range>, lines: seq<Line>, limit: int, later: int, out: seq<seq<Line>>)
    requires FragmentsSoFar(functions, lines, limit, out) && limit <= later
    ensures FragmentsSoFar(functions, lines, later, out)
  {
    hide Fragment;
    forall k | 0 <= k < |out|
      ensures Ascending(out[k], later)
    {
      AscendingLater(out[k], limit, later);
    }
  }

  // ---------- The number of iterations ----------

  ghost function Endpoints(items: seq<Range>): set<int> {
    if items == [] then {} else Endpoints(items[..|items| - 1]) + {items[|items| - 1].address, items[|items| - 1].End()}
  }

  lemma {:induction false} EndpointsCount(items: seq<Range>)
    ensures |Endpoints(items)| <= 2 * |items|
  {
    if items != [] {
      var init, last := items[..|items| - 1], items[|items| - 1];
      EndpointsCount(init);
      CountUnion(Endpoints(init), {last.address, last.End()});
    }
  }

  lemma CountUnion(a: set<int>, b: set<int>)
    ensures |a + b| <= |a| + |b|
  {
    assert |a + b| + |a * b| == |a| + |b|;
  }

  lemma {:induction false} EndpointIsCounted(items: seq<Range>, x: int)
    requires Endpoint(items, x)
    ensures x in Endpoints(items)
  {
    var k :| 0 <= k < |items| && (x == items[k].address || x == items[k].End());
    if k < |items| - 1 {
      assert items[..|items| - 1][k] == items[k];
      EndpointIsCounted(items[..|items| - 1], x);
    }
  }

  /** Distinct endpoints visited bound the number of iterations. */
  lemma VisitsBounded(functions: seq<Range>, lines: seq<Range>, visited: set<int>)
    requires forall x :: x in visited ==> Endpoint(functions, x) || Endpoint(lines, x)
    ensures |visited| <= 2 * (|functions| + |lines|)
  {
    forall x | x in visited ensures x in Endpoints(functions) + Endpoints(lines) {
      if Endpoint(functions, x) {
        EndpointIsCounted(functions, x);
      } else {
        EndpointIsCounted(lines, x);
      }
    }
    EndpointsCount(functions);
    EndpointsCount(lines);
    CountUnion(Endpoints(functions), Endpoints(lines));
    SubsetCount(visited, Endpoints(functions) + Endpoints(lines));
  }

  lemma SubsetCount(a: set<int>, b: set<int>)
    requires a <= b
    ensures |a| <= |b|
  {
    assert b == a + (b - a);
  }

  lemma {:induction false} CountedIsEndpoint(items: seq<Range>, x: int)
    requires x in Endpoints(items)
    ensures Endpoint(items, x)
  {
    var n := |items| - 1;
    if x == items[n].address || x == items[n].End() {
    } else {
      CountedIsEndpoint(items[..n], x);
      var k :| 0 <= k < n && (x == items[..n][k].address || x == items[..n][k].End());
      assert x == items[k].address || x == items[k].End();
    }
  }

  /** All addresses where a function or a line starts or ends. */
  ghost function Transitions(functions: seq<Range>, lines: seq<Range>): set<int> {
    Endpoints(functions) + Endpoints(lines)
  }

  lemma TransitionsAreEndpoints(functions: seq<Range>, lines: seq<Range>, x: int)
    ensures x in Transitions(functions, lines) <==> Endpoint(functions, x) || Endpoint(lines, x)
  {
    hide Endpoint, Endpoints;
    if Endpoint(functions, x) {
      EndpointIsCounted(functions, x);
    }
    if Endpoint(lines, x) {
      EndpointIsCounted(lines, x);
    }
    if x in Endpoints(functions) {
      CountedIsEndpoint(functions, x);
    }
    if x in Endpoints(lines) {
      CountedIsEndpoint(lines, x);
    }
  }

  ghost predicate Greatest(s: set<int>, m: int) {
    m in s && forall x :: x in s ==> x <= m
  }

  /** An iteration for every transition but the greatest, where nothing is left to do. */
  ghost predicate VisitsAllButLast(functions: seq<Range>, lines: seq<Range>, visited: set<int>) {
    exists m :: Greatest(Transitions(functions, lines), m) && visited == Transitions(functions, lines) - {m}
  }

  lemma VisitedAtEnd(functions: seq<Range>, lines: seq<Range>, current: int, visited: set<int>)
    requires AllProper(functions) && AllProper(lines)
    requires Endpoint(functions, current) || Endpoint(lines, current)
    requires Placed(functions, |functions|, current) && Placed(lines, |lines|, current)
    requires AllVisited(functions, lines, current, visited)
    requires forall x :: x in visited ==> x < current && (Endpoint(functions, x) || Endpoint(lines, x))
    ensures VisitsAllButLast(functions, lines, visited)
  {
    hide Transitions, AllProper, Endpoint;
    var all := Transitions(functions, lines);
    TransitionsAreEndpoints(functions, lines, current);
    forall x
      ensures x in all ==> x <= current
      ensures x in visited <==> x in all - {current}
    {
      TransitionsAreEndpoints(functions, lines, x);
      EndsBefore(functions, current, x);
      EndsBefore(lines, current, x);
    }
    assert Greatest(all, current);
    assert visited == all - {current};
  }

  lemma EndsBefore(items: seq<Range>, current: int, x: int)
    requires AllProper(items) && Placed(items, |items|, current)
    ensures Endpoint(items, x) ==> x <= current
  {
  }

  /** The number of iterations on disjoint inputs. */
  lemma VisitsCounted(functions: seq<Range>, lines: seq<Range>, visited: set<int>)
    requires VisitsAllButLast(functions, lines, visited)
    ensures |visited| + 1 == |Transitions(functions, lines)|
  {
    hide Transitions;
  }

  /** The source's second invariant, over a whole sweep: the state changes at every address visited exactly if there is no
      transition inside the address space where both families go on as before. */
  lemma StateAlwaysChangesExactly(functions: seq<Range>, lines: seq<Range>, visited: set<int>)
    requires Tame(functions, lines) && VisitsAllButLast(functions, lines, visited)
    ensures (forall x :: x in visited ==> StateChanges(functions, lines, x))
       <==> !exists x :: x in Transitions(functions, lines) && x < ADDRESS_SPACE && Unchanged(functions, lines, x)
  {
    hide StateChanges, Unchanged, Transitions, Tame, Greatest;
    var all := Transitions(functions, lines);
    var m :| Greatest(all, m) && visited == all - {m};
    LastChanges(functions, lines, m);
    forall x | x in all
      ensures x <= ADDRESS_SPACE && (x in visited <==> x != m) && (x != m ==> x < ADDRESS_SPACE)
      ensures StateChanges(functions, lines, x) <==> !Unchanged(functions, lines, x)
    {
      StateChangesExactly(functions, lines, x);
      InsideAddressSpace(functions, lines, m, x);
    }
  }

  lemma InsideAddressSpace(functions: seq<Range>, lines: seq<Range>, m: int, x: int)
    requires Tame(functions, lines) && Greatest(Transitions(functions, lines), m) && x in Transitions(functions, lines)
    ensures x <= m <= ADDRESS_SPACE
  {
    hide Transitions, Chained;
    TransitionsAreEndpoints(functions, lines, m);
  }

  lemma EndIsEndpoint(items: seq<Range>, k: nat)
    requires k < |items|
    ensures Endpoint(items, items[k].End())
  {
  }

  /** Nothing starts at the greatest transition. */
  lemma LastChanges(functions: seq<Range>, lines: seq<Range>, m: int)
    requires Tame(functions, lines) && Greatest(Transitions(functions, lines), m)
    ensures !Unchanged(functions, lines, m)
  {
    hide Transitions, Chained;
    TransitionsAreEndpoints(functions, lines, m);
    if k :| 0 <= k < |functions| && functions[k].address == m {
      EndIsEndpoint(functions, k);
      TransitionsAreEndpoints(functions, lines, functions[k].End());
    }
    if k :| 0 <= k < |lines| && lines[k].address == m {
      EndIsEndpoint(lines, k);
      TransitionsAreEndpoints(functions, lines, lines[k].End());
    }
  }

  // ---------- The whole loop state ----------

  /** What the loop has produced. `visited` holds the earlier transitions. */
  datatype Output = Output(pieces: seq<seq<Line>>, lastUsed: int, functionCites: seq<nat>, lineCites: seq<nat>,
                           visited: set<int>)

  /** The parts that are exact on disjoint inputs. */
  ghost predicate Exact(functions: seq<Range>, lines: seq<Line>, p: Position, o: Output)
    requires AllProper(functions) && AllProper(Spans(lines))
  {
    && AtTransition(functions, Spans(lines), p)
    && PiecesSoFar(functions, lines, p, o.pieces)
    && FunctionReportsSoFar(functions, Spans(lines), p, o.functionCites)
    && LineReportsSoFar(functions, Spans(lines), p, o.lineCites)
    && LastUsedSoFar(functions, Spans(lines), p, o.lastUsed)
    && AllVisited(functions, Spans(lines), p.current, o.visited)
  }

  /** Every endpoint before `current` has been visited. */
  ghost predicate AllVisited(functions: seq<Range>, lines: seq<Range>, current: int, visited: set<int>) {
    forall x :: x < current && (Endpoint(functions, x) || Endpoint(lines, x)) ==> x in visited
  }

  lemma AllVisitedAtStart(functions: seq<Range>, lines: seq<Range>, current: int)
    requires Tame(functions, lines)
    requires functions != [] ==> current <= functions[0].address
    requires lines != [] ==> current <= lines[0].address
    ensures AllVisited(functions, lines, current, {})
  {
    assert forall k :: 0 < k < |functions| ==> functions[0].End() <= functions[k].address;
    assert forall k :: 0 < k < |lines| ==> lines[0].End() <= lines[k].address;
  }

  lemma {:induction false} MoveKeepsAllVisited(functions: seq<Range>, lines: seq<Range>, p: Position, q: Position,
                                               visited: set<int>)
    requires Tame(functions, lines) && Move(functions, lines, p, q) && AllVisited(functions, lines, p.current, visited)
    ensures AllVisited(functions, lines, q.current, visited + {p.current})
  {
    hide NextTransition, NoJump, Endpoint, Chained, AllProper;
    MoveIterators(functions, lines, p, q);
    forall x | p.current < x < q.current
      ensures !Endpoint(functions, x) && !Endpoint(lines, x)
    {
      if Endpoint(functions, x) {
        NoEndpointSkipped(functions, p.func, p.current, q.current, x);
      }
      if Endpoint(lines, x) {
        NoEndpointSkipped(lines, p.line, p.current, q.current, x);
      }
    }
  }

  ghost predicate Invariant(functions: seq<Range>, lines: seq<Line>, disjoint: bool, p: Position, o: Output)
    requires AllProper(functions) && AllProper(Spans(lines))
  {
    && 0 <= p.current && PlacedBoth(functions, Spans(lines), p)
    && (Endpoint(functions, p.current) || Endpoint(Spans(lines), p.current))
    && FragmentsSoFar(functions, lines, p.current, o.pieces)
    && (forall x :: x in o.visited ==> x < p.current && (Endpoint(functions, x) || Endpoint(Spans(lines), x)))
    && (disjoint ==> Exact(functions, lines, p, o))
  }

  /** The output of one iteration. */
  ghost function Iterate(functions: seq<Range>, lines: seq<Line>, p: Position, o: Output): Output
    requires AllProper(functions) && AllProper(Spans(lines)) && |o.pieces| == |functions|
    requires PlacedBoth(functions, Spans(lines), p)
  {
    Output(Emit(functions, lines, p, o.pieces), UseLine(functions, Spans(lines), p, o.lastUsed),
           CiteFunction(functions, Spans(lines), p, o.functionCites),
           CiteLine(functions, Spans(lines), p, o.lastUsed, o.lineCites), o.visited + {p.current})
  }

  lemma {:induction false} InvariantAtStart(functions: seq<Range>, lines: seq<Line>, disjoint: bool, p: Position)
    requires AllProper(functions) && AllProper(Spans(lines)) && (disjoint ==> Tame(functions, Spans(lines)))
    requires p.func == p.line == 0 && 0 <= p.current
    requires functions != [] ==> p.current <= functions[0].address
    requires lines != [] ==> p.current <= Spans(lines)[0].address
    requires (functions != [] && p.current == functions[0].address) || (lines != [] && p.current == Spans(lines)[0].address)
    ensures Invariant(functions, lines, disjoint, p, Output(seq(|functions|, _ => []), -1, [], [], {}))
  {
    hide FragmentsSoFar, Exact, Tame;
    FragmentsAtStart(functions, lines, p.current);
    if disjoint {
      ExactAtStart(functions, lines, p);
    }
  }

  lemma FragmentsAtStart(functions: seq<Range>, lines: seq<Line>, limit: int)
    ensures FragmentsSoFar(functions, lines, limit, seq(|functions|, _ => []))
  {
  }

  lemma {:induction false} ExactAtStart(functions: seq<Range>, lines: seq<Line>, p: Position)
    requires Tame(functions, Spans(lines)) && p.func == p.line == 0
    requires functions != [] ==> p.current <= functions[0].address
    requires lines != [] ==> p.current <= Spans(lines)[0].address
    requires (functions != [] && p.current == functions[0].address) || (lines != [] && p.current == Spans(lines)[0].address)
    ensures Exact(functions, lines, p, Output(seq(|functions|, _ => []), -1, [], [], {}))
  {
    hide PiecesSoFar, FunctionReportsSoFar, LineReportsSoFar, AllVisited;
    PiecesAtStart(functions, lines, p);
    AllVisitedAtStart(functions, Spans(lines), p.current);
    ReportsAtStart(functions, Spans(lines), p);
  }

  lemma {:induction false} PiecesAtStart(functions: seq<Range>, lines: seq<Line>, p: Position)
    requires AllProper(functions) && AllProper(Spans(lines)) && p.func == p.line == 0
    ensures PiecesSoFar(functions, lines, p, seq(|functions|, _ => []))
  {
    assert functions != [] ==> Pieces(functions[0], lines, 0) == [];
  }

  lemma {:induction false} ReportsAtStart(functions: seq<Range>, lines: seq<Range>, p: Position)
    requires p.func == p.line == 0
    requires functions != [] ==> p.current <= functions[0].address
    requires lines != [] ==> p.current <= lines[0].address
    ensures FunctionReportsSoFar(functions, lines, p, []) && LineReportsSoFar(functions, lines, p, [])
  {
  }

  lemma InvariantPlaces(functions: seq<Range>, lines: seq<Line>, disjoint: bool, p: Position, o: Output)
    requires AllProper(functions) && AllProper(Spans(lines))
    requires Invariant(functions, lines, disjoint, p, o)
    ensures PlacedBoth(functions, Spans(lines), p) && |o.pieces| == |functions|
  {
  }

  lemma {:induction false} InvariantKept(functions: seq<Range>, lines: seq<Line>, disjoint: bool, p: Position, o: Output,
                                         q: Position)
    requires AllProper(functions) && AllProper(Spans(lines)) && (disjoint ==> Tame(functions, Spans(lines)))
    requires Invariant(functions, lines, disjoint, p, o) && Move(functions, Spans(lines), p, q)
    ensures |o.pieces| == |functions| && Invariant(functions, lines, disjoint, q, Iterate(functions, lines, p, o))
    ensures p.current < q.current && |Iterate(functions, lines, p, o).visited| == |o.visited| + 1
  {
    hide PiecesSoFar, FunctionReportsSoFar, LineReportsSoFar, LastUsedSoFar, FragmentsSoFar, AtTransition, NextTransition;
    hide Emit, UseLine, CiteFunction, CiteLine, Tame, Endpoint, AllVisited;
    InvariantPlaces(functions, lines, disjoint, p, o);
    NextTransitionAdvances(functions, Spans(lines), p);
    EmitKeepsFragments(functions, lines, p, o.pieces);
    if disjoint {
      MoveKeepsAtTransition(functions, Spans(lines), p, q);
      MoveKeepsPieces(functions, lines, p, q, o.pieces);
      MoveKeepsFunctionReports(functions, Spans(lines), p, q, o.functionCites);
      MoveKeepsLineReports(functions, Spans(lines), p, q, o.lastUsed, o.lineCites);
      MoveKeepsLastUsed(functions, Spans(lines), p, q, o.lastUsed);
      MoveKeepsAllVisited(functions, Spans(lines), p, q, o.visited);
    }
  }

  /** What the loop has produced when both iterators are at the end. */
  lemma {:induction false} InvariantAtEnd(functions: seq<Range>, lines: seq<Line>, disjoint: bool, p: Position, o: Output)
    requires AllProper(functions) && AllProper(Spans(lines)) && (disjoint ==> Tame(functions, Spans(lines)))
    requires Invariant(functions, lines, disjoint, p, o)
    requires p.func == |functions| && p.line == |lines| && p.current <= ADDRESS_SPACE
    ensures |o.visited| <= 2 * (|functions| + |lines|)
    ensures FragmentsSoFar(functions, lines, ADDRESS_SPACE, o.pieces)
    ensures disjoint ==>
              && (forall k :: 0 <= k < |functions| ==> o.pieces[k] == Pieces(functions[k], lines, |lines|))
              && o.functionCites == UncoveredFunctions(functions, Spans(lines), |functions|)
              && o.lineCites == StrayLines(functions, Spans(lines), |lines|)
              && VisitsAllButLast(functions, Spans(lines), o.visited)
  {
    hide FragmentsSoFar, Endpoint;
    VisitsBounded(functions, Spans(lines), o.visited);
    FragmentsLater(functions, lines, p.current, ADDRESS_SPACE, o.pieces);
    if disjoint {
      VisitedAtEnd(functions, Spans(lines), p.current, o.visited);
    }
  }
}
