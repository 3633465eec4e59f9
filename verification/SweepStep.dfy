/** One iteration of the sweep on plain values: where it moves to, and the invariants it keeps. */
module SweepStep {
  import opened Addresses
  import opened SweepSpec

  /** The two iterators, as indices, and the address reached. */
  datatype Position = Position(func: nat, line: nat, current: int)

  /** The first invariant of the loop: everything before index `i` ends at or before `current`, and the item at
      `i`, if there is one, contains `current` or starts after it. */
  ghost predicate Placed(items: seq<Range>, i: nat, current: int) {
    && i <= |items|
    && (forall k :: 0 <= k < i ==> items[k].End() <= current)
    && (i < |items| ==> current < items[i].End())
  }

  /** The first invariant in the form in which the loop asserts it. */
  lemma PlacedAssertion(items: seq<Range>, i: nat, current: Address)
    requires AllProper(items) && Placed(items, i, current)
    ensures i < |items| ==> current < items[i].address || Within(items[i], current)
  {
  }

  lemma PlacedAtEnd(items: seq<Range>)
    requires AllProper(items)
    ensures Placed(items, |items|, ADDRESS_SPACE)
  {
  }

  lemma PlacedBounds(items: seq<Range>, i: nat, current: int)
    requires Placed(items, i, current)
    ensures i <= |items|
  {
  }

  ghost predicate PlacedBoth(functions: seq<Range>, lines: seq<Range>, p: Position) {
    Placed(functions, p.func, p.current) && Placed(lines, p.line, p.current)
  }

  /** The item at `i` covers `current`, once `Placed` holds. */
  predicate Inside(items: seq<Range>, i: nat, current: int) {
    i < |items| && items[i].address <= current
  }

  /** The least address after `p.current` at which the state changes, over unbounded integers. */
  function NextTransition(functions: seq<Range>, lines: seq<Range>, p: Position): int
    requires p.func < |functions| || p.line < |lines|
  {
    var inFunc, inLine := Inside(functions, p.func, p.current), Inside(lines, p.line, p.current);
    if inFunc && inLine then
      Min(functions[p.func].End(), lines[p.line].End())
    else if inFunc then
      if p.line < |lines| && functions[p.func].Has(lines[p.line].address) then
        lines[p.line].address
      else
        functions[p.func].End()
    else if inLine then
      if p.func < |functions| && lines[p.line].Has(functions[p.func].address) then
        functions[p.func].address
      else
        lines[p.line].End()
    else if p.func < |functions| && p.line < |lines| then
      Min(functions[p.func].address, lines[p.line].address)
    else if p.func < |functions| then
      functions[p.func].address
    else
      lines[p.line].address
  }

  /** `next` does not jump over an endpoint of the item at `i`. */
  ghost predicate NoJump(items: seq<Range>, i: nat, current: int, next: int) {
    i < |items| ==> next <= items[i].End() && (current < items[i].address ==> next <= items[i].address)
  }

  /** `x` is where some item starts or ends. */
  ghost predicate Endpoint(items: seq<Range>, x: int) {
    exists k :: 0 <= k < |items| && (x == items[k].address || x == items[k].End())
  }

  /** Progress, for any proper ranges: the sweep moves forward, to an endpoint, and skips none of the current
      function and line. */
  lemma {:induction false} NextTransitionAdvances(functions: seq<Range>, lines: seq<Range>, p: Position)
    requires AllProper(functions) && AllProper(lines) && PlacedBoth(functions, lines, p)
    requires p.func < |functions| || p.line < |lines|
    ensures p.current < NextTransition(functions, lines, p) <= ADDRESS_SPACE
    ensures NoJump(functions, p.func, p.current, NextTransition(functions, lines, p))
    ensures NoJump(lines, p.line, p.current, NextTransition(functions, lines, p))
    ensures Endpoint(functions, NextTransition(functions, lines, p)) || Endpoint(lines, NextTransition(functions, lines, p))
  {
  }

  // ---------- Facts about sorted, disjoint ranges ----------

  ghost predicate Chained(items: seq<Range>) {
    forall i, j :: 0 <= i < j < |items| ==> items[i].End() <= items[j].address
  }

  lemma DisjointSortedIsChained(items: seq<Range>)
    requires AllProper(items) && SortedByAddress(items) && PairwiseDisjoint(items)
    ensures Chained(items)
  {
    forall i, j | 0 <= i < j < |items| ensures items[i].End() <= items[j].address {
      assert !items[i].Overlaps(items[j]);
    }
  }

  /** An iterator moves by at most one item, and exactly when the current item ends at `next`. */
  lemma {:induction false} IteratorMove(items: seq<Range>, i: nat, current: int, next: int, i': nat)
    requires AllProper(items) && Chained(items)
    requires Placed(items, i, current) && Placed(items, i', next)
    requires current < next && NoJump(items, i, current, next)
    ensures i' == if i < |items| && items[i].End() == next then i + 1 else i
  {
    assert i + 1 < i' ==> items[i].End() <= items[i + 1].address;
    assert i < i' ==> items[i].End() <= next;
  }

  /** Between transitions every byte is in the same state. */
  lemma {:induction false} CoverageIsConstant(items: seq<Range>, i: nat, current: int, next: int, b: int)
    requires AllProper(items) && Chained(items) && Placed(items, i, current) && NoJump(items, i, current, next)
    requires current <= b < next
    ensures Covered(items, b) <==> Inside(items, i, current)
  {
    forall k | 0 <= k < |items| && k != i ensures !items[k].Has(b) {
      assert k < i ==> items[k].End() <= current;
      assert i < k ==> items[i].End() <= items[k].address;
    }
    if Inside(items, i, current) {
      assert items[i].Has(b);
    }
  }

  // ---------- The pieces ----------

  /** The output so far on disjoint inputs: finished functions have all their pieces, the current one has those of
      the lines already passed, and the rest have none. */
  ghost predicate PiecesSoFar(functions: seq<Range>, lines: seq<Line>, p: Position, out: seq<seq<Line>>)
    requires AllProper(functions) && AllProper(Spans(lines))
  {
    && |out| == |functions|
    && p.line <= |lines|
    && (forall k :: 0 <= k < |out| && k < p.func ==> out[k] == Pieces(functions[k], lines, |lines|))
    && (p.func < |out| ==> out[p.func] == Pieces(functions[p.func], lines, p.line))
    && (forall k :: p.func < k < |out| ==> out[k] == [])
  }

  /** What the pieces need to know of `current`: in a function and in a line, it is the later of the starts. */
  ghost predicate AtTransition(functions: seq<Range>, lines: seq<Range>, p: Position) {
    Inside(functions, p.func, p.current) && Inside(lines, p.line, p.current) ==>
      p.current == Max(functions[p.func].address, lines[p.line].address)
  }

  /** A move of the sweep from `p` to `q`. */
  ghost predicate Move(functions: seq<Range>, lines: seq<Range>, p: Position, q: Position) {
    && PlacedBoth(functions, lines, p)
    && (p.func < |functions| || p.line < |lines|)
    && q.current == NextTransition(functions, lines, p)
    && PlacedBoth(functions, lines, q)
  }

  ghost predicate Tame(functions: seq<Range>, lines: seq<Range>) {
    AllProper(functions) && AllProper(lines) && Chained(functions) && Chained(lines)
  }

  lemma TameOrder(functions: seq<Range>, lines: seq<Range>, p: Position)
    requires Tame(functions, lines)
    ensures p.func + 1 < |functions| ==> functions[p.func].End() <= functions[p.func + 1].address
    ensures p.line + 1 < |lines| ==> lines[p.line].End() <= lines[p.line + 1].address
  {
  }

  lemma {:induction false} MoveIterators(functions: seq<Range>, lines: seq<Range>, p: Position, q: Position)
    requires Tame(functions, lines) && Move(functions, lines, p, q)
    ensures p.current < q.current
    ensures NoJump(functions, p.func, p.current, q.current) && NoJump(lines, p.line, p.current, q.current)
    ensures q.func == if p.func < |functions| && functions[p.func].End() == q.current then p.func + 1 else p.func
    ensures q.line == if p.line < |lines| && lines[p.line].End() == q.current then p.line + 1 else p.line
  {
    NextTransitionAdvances(functions, lines, p);
    IteratorMove(functions, p.func, p.current, q.current, q.func);
    IteratorMove(lines, p.line, p.current, q.current, q.line);
  }

  lemma {:induction false} MoveKeepsAtTransition(functions: seq<Range>, lines: seq<Range>, p: Position, q: Position)
    requires Tame(functions, lines) && Move(functions, lines, p, q)
    ensures AtTransition(functions, lines, q)
  {
    MoveIterators(functions, lines, p, q);
    assert p.func < q.func < |functions| ==> functions[p.func].End() <= functions[q.func].address;
    assert p.line < q.line < |lines| ==> lines[p.line].End() <= lines[q.line].address;
  }

  // ---------- Changes of state ----------

  ghost predicate StartsAt(items: seq<Range>, x: int) {
    exists k :: 0 <= k < |items| && items[k].address == x
  }

  ghost predicate EndsAt(items: seq<Range>, x: int) {
    exists k :: 0 <= k < |items| && items[k].End() == x
  }

  /** Byte `x` differs from the byte before it in being covered by a function, or in being covered by a line. */
  ghost predicate StateChanges(functions: seq<Range>, lines: seq<Range>, x: int) {
    Covered(functions, x) != Covered(functions, x - 1) || Covered(lines, x) != Covered(lines, x - 1)
  }

  lemma CoverageChanges(items: seq<Range>, x: int)
    requires AllProper(items) && Chained(items)
    ensures Covered(items, x) != Covered(items, x - 1) <==> StartsAt(items, x) != EndsAt(items, x)
  {
    if i :| 0 <= i < |items| && items[i].address == x {
      assert items[i].Has(x);
    }
    if j :| 0 <= j < |items| && items[j].End() == x {
      assert items[j].Has(x - 1);
    }
  }

  /** At `x` both families go on as before: each has a start exactly if it has an end. */
  ghost predicate Unchanged(functions: seq<Range>, lines: seq<Range>, x: int) {
    (StartsAt(functions, x) <==> EndsAt(functions, x)) && (StartsAt(lines, x) <==> EndsAt(lines, x))
  }

  /** The source says that `current` is always where the state changes. It changes exactly if, for functions or for lines,
      one of them ends there and none starts, or one starts and none ends. */
  lemma StateChangesExactly(functions: seq<Range>, lines: seq<Range>, x: int)
    requires Tame(functions, lines)
    ensures StateChanges(functions, lines, x) <==> !Unchanged(functions, lines, x)
  {
    hide StartsAt, EndsAt, Covered, AllProper, Chained;
    CoverageChanges(functions, x);
    CoverageChanges(lines, x);
  }

  /** The next transition is the least endpoint that is left. */
  lemma {:induction false} NoEndpointSkipped(items: seq<Range>, i: nat, current: int, next: int, x: int)
    requires AllProper(items) && Chained(items) && Placed(items, i, current) && NoJump(items, i, current, next)
    requires Endpoint(items, x) && current < x
    ensures next <= x
  {
    var k :| 0 <= k < |items| && (x == items[k].address || x == items[k].End());
    assert k < i ==> items[k].End() <= current;
    assert i < k ==> items[i].End() <= items[k].address;
  }

  /** A function over two lines that meet: the sweep moves from 1 to 11, where nothing changes. */
  lemma MeetingLinesChangeNothing()
    ensures var functions, lines := [Range(1, 20)], [Range(1, 10), Range(11, 10)];
            && Tame(functions, lines) && Move(functions, lines, Position(0, 0, 1), Position(0, 1, 11))
            && !StateChanges(functions, lines, 11)
  {
    var functions, lines := [Range(1, 20)], [Range(1, 10), Range(11, 10)];
    assert functions[0].Has(10) && functions[0].Has(11) && lines[0].Has(10) && lines[1].Has(11);
  }

  /** What the iteration at `p` appends, if it appends anything. */
  function Emit(functions: seq<Range>, lines: seq<Line>, p: Position, out: seq<seq<Line>>): seq<seq<Line>>
    requires AllProper(functions) && AllProper(Spans(lines)) && |out| == |functions|
    requires PlacedBoth(functions, Spans(lines), p)
  {
    if Inside(functions, p.func, p.current) && Inside(Spans(lines), p.line, p.current) then
      var size := NextTransition(functions, Spans(lines), p) - p.current;
      var piece := Line(p.current, size, lines[p.line].file, lines[p.line].number);
      out[p.func := out[p.func] + [piece]]
    else
      out
  }

  lemma {:induction false} MoveKeepsPieces(functions: seq<Range>, lines: seq<Line>, p: Position, q: Position,
                                           out: seq<seq<Line>>)
    requires Tame(functions, Spans(lines)) && Move(functions, Spans(lines), p, q)
    requires AtTransition(functions, Spans(lines), p)
    requires PiecesSoFar(functions, lines, p, out)
    ensures PiecesSoFar(functions, lines, q, Emit(functions, lines, p, out))
  {
    hide NextTransition, Pieces, NoJump, AtTransition, Chained, Covered;
    MoveIterators(functions, Spans(lines), p, q);
    OneEnds(functions, Spans(lines), p);
    if p.func < |functions| {
      CurrentFunctionStep(functions, lines, p, q, out);
      if q.func == p.func + 1 {
        FinishedByMove(functions, lines, p, q);
      }
    }
  }

  lemma OneEnds(functions: seq<Range>, lines: seq<Range>, p: Position)
    requires p.func < |functions| || p.line < |lines|
    ensures Inside(functions, p.func, p.current) && Inside(lines, p.line, p.current) ==>
              NextTransition(functions, lines, p) == Min(functions[p.func].End(), lines[p.line].End())
  {
  }

  /** A function left behind has met all its lines, and the next one none. */
  lemma {:induction false} FinishedByMove(functions: seq<Range>, lines: seq<Line>, p: Position, q: Position)
    requires Tame(functions, Spans(lines)) && Move(functions, Spans(lines), p, q)
    requires p.func < |functions| && q.func == p.func + 1
    ensures var passed := if Inside(functions, p.func, p.current) && Inside(Spans(lines), p.line, p.current) then p.line + 1
                          else q.line;
            passed <= |lines| && Pieces(functions[p.func], lines, passed) == Pieces(functions[p.func], lines, |lines|)
    ensures q.line <= |lines| && (q.func < |functions| ==> Pieces(functions[q.func], lines, q.line) == [])
  {
    hide Pieces;
    var spans := Spans(lines);
    var passed := if Inside(functions, p.func, p.current) && Inside(spans, p.line, p.current) then p.line + 1 else q.line;
    MoveIterators(functions, spans, p, q);
    assert p.line < passed < |lines| ==> spans[p.line].End() <= spans[passed].address;
    FinishedFunction(functions[p.func], lines, passed);
    if q.func < |functions| {
      assert functions[p.func].End() <= functions[q.func].address;
      NewFunction(functions[q.func], lines, q);
    }
  }

  /** The pieces of the current function after one move. */
  lemma {:induction false} CurrentFunctionStep(functions: seq<Range>, lines: seq<Line>, p: Position, q: Position,
                                               out: seq<seq<Line>>)
    requires Tame(functions, Spans(lines)) && Move(functions, Spans(lines), p, q)
    requires AtTransition(functions, Spans(lines), p)
    requires PiecesSoFar(functions, lines, p, out)
    requires p.func < |functions|
    ensures var pieces := Emit(functions, lines, p, out)[p.func];
            if Inside(functions, p.func, p.current) && Inside(Spans(lines), p.line, p.current) then
              pieces == Pieces(functions[p.func], lines, p.line + 1)
            else
              pieces == Pieces(functions[p.func], lines, q.line)
  {
    var spans := Spans(lines);
    var f := functions[p.func];
    MoveIterators(functions, spans, p, q);
    if Inside(functions, p.func, p.current) && Inside(spans, p.line, p.current) {
      assert Pieces(f, lines, p.line + 1) == Pieces(f, lines, p.line) + [Intersection(f, lines[p.line])];
    } else if q.line == p.line + 1 {
      assert !f.Overlaps(spans[p.line]);
    }
  }

  /** A function that ends before line `m` starts gets nothing from that line on. */
  lemma {:induction false} FinishedFunction(f: Range, lines: seq<Line>, m: nat)
    requires f.Proper() && AllProper(Spans(lines)) && Chained(Spans(lines))
    requires m <= |lines| && (m < |lines| ==> f.End() <= Spans(lines)[m].address)
    ensures Pieces(f, lines, |lines|) == Pieces(f, lines, m)
  {
    forall k | m <= k < |lines| ensures !f.Overlaps(Spans(lines)[k]) {
      assert m < k ==> Spans(lines)[m].End() <= Spans(lines)[k].address;
    }
    PiecesSkip(f, lines, m, |lines|);
  }

  /** A function that starts at or after `q.current` gets nothing from the lines already passed. */
  lemma {:induction false} NewFunction(f: Range, lines: seq<Line>, q: Position)
    requires f.Proper() && AllProper(Spans(lines)) && Placed(Spans(lines), q.line, q.current)
    requires q.current <= f.address
    ensures Pieces(f, lines, q.line) == []
  {
    PiecesSkip(f, lines, 0, q.line);
  }
}
