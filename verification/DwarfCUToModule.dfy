/** Compilation units: collecting functions and lines, and dividing the lines among the functions. */
module DwarfCUToModule {
  import opened Addresses
  import opened DwarfLineToModule
  import opened Options
  import opened Sorting
  import opened SweepSpec
  import opened SweepStep
  import opened SweepReports

  /** `Module::Function`; only `lines` changes after construction. */
  class Function {
    const name: string
    const address: Address
    const size: Address
    var lines: seq<Line>

    constructor (name: string, address: Address, size: Address)
      ensures this.name == name && this.address == address && this.size == size && lines == []
    {
      this.name, this.address, this.size := name, address, size;
      lines := [];
    }

    function Span(): Range {
      Range(address, size)
    }
  }

  /** The two warnings of the sweep, in the order they are issued. */
  class WarningReporter {
    var uncoveredFunctions: seq<Function>
    var uncoveredLines: seq<Line>

    constructor ()
      ensures uncoveredFunctions == [] && uncoveredLines == []
    {
      uncoveredFunctions, uncoveredLines := [], [];
    }

    method UncoveredFunction(function_: Function)
      modifies this
      ensures uncoveredFunctions == old(uncoveredFunctions) + [function_] && uncoveredLines == old(uncoveredLines)
    {
      uncoveredFunctions := uncoveredFunctions + [function_];
    }

    method UncoveredLine(line: Line)
      modifies this
      ensures uncoveredLines == old(uncoveredLines) + [line] && uncoveredFunctions == old(uncoveredFunctions)
    {
      uncoveredLines := uncoveredLines + [line];
    }
  }

  function FunctionSpans(functions: seq<Function>): (r: seq<Range>)
    ensures |r| == |functions|
    ensures forall i :: 0 <= i < |functions| ==> r[i] == functions[i].Span()
  {
    seq(|functions|, i requires 0 <= i < |functions| => functions[i].Span())
  }

  ghost predicate Indices(cites: seq<nat>, n: nat) {
    forall i :: 0 <= i < |cites| ==> cites[i] < n
  }

  /** The elements of `s` at the given indices. */
  ghost function Select<T>(s: seq<T>, indices: seq<nat>): (r: seq<T>)
    requires Indices(indices, |s|)
    ensures |r| == |indices|
  {
    seq(|indices|, i requires 0 <= i < |indices| => s[indices[i]])
  }

  lemma SelectSnoc<T>(s: seq<T>, indices: seq<nat>, x: nat)
    requires Indices(indices, |s|) && x < |s|
    ensures Indices(indices + [x], |s|)
    ensures Select(s, indices + [x]) == Select(s, indices) + [s[x]]
  {
  }

  lemma RearrangedKeepsRanges(s: seq<Range>, r: seq<Range>, origin: seq<nat>)
    requires Rearranged(s, r, origin)
    ensures AllProper(s) ==> AllProper(r)
    ensures PairwiseDisjoint(s) ==> PairwiseDisjoint(r)
  {
  }

  lemma RearrangedKeepsFunctions(s: seq<Function>, r: seq<Function>, origin: seq<nat>)
    requires Rearranged(s, r, origin)
    requires forall i, j :: 0 <= i < j < |s| ==> s[i] != s[j]
    ensures forall i, j :: 0 <= i < j < |r| ==> r[i] != r[j]
    ensures forall i :: 0 <= i < |r| ==> r[i] in s
  {
  }

  function FunctionAddress(f: Function): Address {
    f.address
  }

  function LineAddress(line: Line): Address {
    line.address
  }

  /** What sorting gives the sweep. */
  lemma SortedRanges(s: seq<Range>, r: seq<Range>, origin: seq<nat>)
    requires Rearranged(s, r, origin) && AllProper(s) && SortedByAddress(r)
    ensures AllProper(r)
    ensures PairwiseDisjoint(s) ==> Chained(r)
  {
    hide Rearranged, AllProper, SortedByAddress, PairwiseDisjoint, Chained;
    RearrangedKeepsRanges(s, r, origin);
    if PairwiseDisjoint(s) {
      DisjointSortedIsChained(r);
    }
  }

  lemma SortedFunctions(s: seq<Function>, r: seq<Function>, origin: seq<nat>)
    requires Rearranged(s, r, origin) && SortedBy(r, FunctionAddress) && AllProper(FunctionSpans(s))
    ensures AllProper(FunctionSpans(r)) && SortedByAddress(FunctionSpans(r))
    ensures PairwiseDisjoint(FunctionSpans(s)) ==> Chained(FunctionSpans(r))
  {
    hide AllProper, PairwiseDisjoint, Chained;
    assert forall i, j :: 0 <= i < j < |r| ==> FunctionAddress(r[i]) <= FunctionAddress(r[j]);
    SortedRanges(FunctionSpans(s), FunctionSpans(r), origin);
  }

  lemma SortedLines(s: seq<Line>, r: seq<Line>, origin: seq<nat>)
    requires Rearranged(s, r, origin) && SortedBy(r, LineAddress) && AllProper(Spans(s))
    ensures AllProper(Spans(r)) && SortedByAddress(Spans(r))
    ensures PairwiseDisjoint(Spans(s)) ==> Chained(Spans(r))
  {
    hide AllProper, PairwiseDisjoint, Chained;
    assert forall i, j :: 0 <= i < j < |r| ==> LineAddress(r[i]) <= LineAddress(r[j]);
    SortedRanges(Spans(s), Spans(r), origin);
  }

  /** `log` was `before` and has since received the items at `cites`; `last` is the latest of these, or -1. */
  ghost predicate Logged<T>(items: seq<T>, cites: seq<nat>, before: seq<T>, log: seq<T>) {
    Indices(cites, |items|) && log == before + Select(items, cites)
  }

  lemma LoggedSnoc<T>(items: seq<T>, cites: seq<nat>, before: seq<T>, log: seq<T>, x: nat)
    requires Logged(items, cites, before, log) && x < |items|
    ensures Logged(items, cites + [x], before, log + [items[x]])
  {
    SelectSnoc(items, cites, x);
  }

  class DwarfCUToModule {
    var functions: seq<Function>
    var lines: seq<Line>
    const reporter: WarningReporter

    constructor (reporter: WarningReporter)
      ensures Valid() && functions == [] && lines == [] && this.reporter == reporter
    {
      functions, lines := [], [];
      this.reporter := reporter;
    }

    /** What `FinishFunction` and the line reader establish: distinct functions and lines, all proper, with no
        line assigned yet. */
    ghost predicate Valid()
      reads this, functions
    {
      && (forall i, j :: 0 <= i < j < |functions| ==> functions[i] != functions[j])
      && (forall i :: 0 <= i < |functions| ==> functions[i].lines == [])
      && AllProper(FunctionSpans(functions))
      && AllProper(Spans(lines))
    }

    /** The line number program fills the list of lines; the sweep may rely on what it recorded. */
    method ReadSourceLines(program: DwarfLineToModule)
      requires Valid() && program.Valid() && lines == []
      modifies this`lines
      ensures Valid() && lines == Recorded(program.calls, |program.calls|)
    {
      RecordedAreProper(program.calls, |program.calls|);
      lines := program.lines;
    }

    /** `FuncHandler::Finish`, for a DIE with the given attribute values. */
    method FinishFunction(name: string, lowPc: Address, highPc: Address, highPcIsAddress: bool)
      requires Valid()
      modifies this`functions
      ensures Valid()
      ensures var end := if highPcIsAddress then highPc else Add(highPc, lowPc);
              if lowPc < end && lowPc != 0 then
                && |functions| == |old(functions)| + 1
                && functions[..|old(functions)|] == old(functions)
                && fresh(functions[|old(functions)|])
                && functions[|old(functions)|].Span() == Range(lowPc, end - lowPc)
                && functions[|old(functions)|].name == if name != "" then name else "<name omitted>"
              else
                functions == old(functions)
    {
      var end := highPc;
      if !highPcIsAddress {
        end := Add(end, lowPc);
      }
      if lowPc < end {
        var func := new Function(if name != "" then name else "<name omitted>", lowPc, Sub(end, lowPc));
        if func.address != 0 {
          functions := functions + [func];
        }
      }
    }

    ghost predicate HasPieces(pieces: seq<seq<Line>>)
      reads this`functions, functions
    {
      && |pieces| == |functions|
      && (forall i, j :: 0 <= i < j < |functions| ==> functions[i] != functions[j])
      && (forall k :: 0 <= k < |functions| ==> functions[k].lines == pieces[k])
    }

    ghost predicate HasReports(functionCites: seq<nat>, lineCites: seq<nat>,
                               functionsBefore: seq<Function>, linesBefore: seq<Line>,
                               lastFunctionCited: Function?, lastLineCited: int)
      reads this, reporter
    {
      && (forall i, j :: 0 <= i < j < |functions| ==> functions[i] != functions[j])
      && Logged(functions, functionCites, functionsBefore, reporter.uncoveredFunctions)
      && Logged(lines, lineCites, linesBefore, reporter.uncoveredLines)
      && lastFunctionCited == (if functionCites == [] then null else functions[functionCites[|functionCites| - 1]])
      && lastLineCited == (if lineCites == [] then -1 else lineCites[|lineCites| - 1])
    }

    /** The functions' lines, the warnings and the three `last` variables are those of the output `o`, where
        `functionsBefore` and `linesBefore` are the warnings issued earlier. */
    ghost predicate Refines(o: Output, functionsBefore: seq<Function>, linesBefore: seq<Line>,
                            lastLineUsed: int, lastFunctionCited: Function?, lastLineCited: int)
      reads this, functions, reporter
    {
      && |o.pieces| == |functions| && HasPieces(o.pieces)
      && HasReports(o.functionCites, o.lineCites, functionsBefore, linesBefore, lastFunctionCited, lastLineCited)
      && lastLineUsed == o.lastUsed
    }

    /** Warn about a function unless it was the last one warned about; pointers are compared, as in the source. */
    method CiteUncoveredFunction(funcIt: nat, lastFunctionCited: Function?, lastLineCited: int, ghost o: Output,
                                 ghost functionsBefore: seq<Function>, ghost linesBefore: seq<Line>)
      returns (functionCited: Function?)
      requires HasReports(o.functionCites, o.lineCites, functionsBefore, linesBefore, lastFunctionCited, lastLineCited)
      requires funcIt < |functions|
      modifies reporter
      ensures HasReports(if LastIs(o.functionCites, funcIt) then o.functionCites else o.functionCites + [funcIt], o.lineCites,
                         functionsBefore, linesBefore, functionCited, lastLineCited)
    {
      functionCited := lastFunctionCited;
      if functions[funcIt] != functionCited {
        LoggedSnoc(functions, o.functionCites, functionsBefore, reporter.uncoveredFunctions, funcIt);
        reporter.UncoveredFunction(functions[funcIt]);
        functionCited := functions[funcIt];
      }
    }

    method CiteUncoveredLine(lineIt: nat, lastFunctionCited: Function?, lastLineCited: int, ghost o: Output,
                             ghost functionsBefore: seq<Function>, ghost linesBefore: seq<Line>)
      returns (lineCited: int)
      requires HasReports(o.functionCites, o.lineCites, functionsBefore, linesBefore, lastFunctionCited, lastLineCited)
      requires lineIt < |lines|
      modifies reporter
      ensures HasReports(o.functionCites, if LastIs(o.lineCites, lineIt) then o.lineCites else o.lineCites + [lineIt],
                         functionsBefore, linesBefore, lastFunctionCited, lineCited)
    {
      lineCited := lastLineCited;
      if lineIt != lineCited {
        LoggedSnoc(lines, o.lineCites, linesBefore, reporter.uncoveredLines, lineIt);
        reporter.UncoveredLine(lines[lineIt]);
        lineCited := lineIt;
      }
    }

    /** `func->lines.push_back(l)`. */
    method PushLine(funcIt: nat, line: Line, ghost pieces: seq<seq<Line>>)
      requires HasPieces(pieces) && funcIt < |functions|
      modifies functions[funcIt]
      ensures |pieces| == |functions| && HasPieces(pieces[funcIt := pieces[funcIt] + [line]])
    {
      var func := functions[funcIt];
      func.lines := func.lines + [line];
    }

    /** The sweep has come to `p`, and has produced `o`. */
    ghost predicate Reached(disjoint: bool, p: Position, o: Output)
      reads this
    {
      var fs, ls := FunctionSpans(functions), Spans(lines);
      && AllProper(fs) && AllProper(ls) && (disjoint ==> Tame(fs, ls))
      && p.func <= |functions| && p.line <= |lines|
      && Invariant(fs, lines, disjoint, p, o)
    }

    /** There is something left to visit at `p`, and visiting it takes the output from `o` to `after`. */
    ghost predicate Visits(disjoint: bool, p: Position, o: Output, next: int, after: Output)
      requires Reached(disjoint, p, o)
      reads this
    {
      var fs, ls := FunctionSpans(functions), Spans(lines);
      InvariantPlaces(fs, lines, disjoint, p, o);
      (p.func < |functions| || p.line < |lines|) && next == NextTransition(fs, ls, p) && after == Iterate(fs, lines, p, o)
    }

    /** Classify `current`, extend the function's lines or warn, and find the next transition. A transition at the end of
        the address space comes out as zero. */
    method VisitTransition(funcIt: nat, lineIt: nat, current: Address, lastLineUsed: int, lastFunctionCited: Function?,
                           lastLineCited: int, ghost o: Output, ghost functionsBefore: seq<Function>,
                           ghost linesBefore: seq<Line>)
      returns (nextTransition: Address, lineUsed: int, functionCited: Function?, lineCited: int)
      requires AllProper(FunctionSpans(functions)) && AllProper(Spans(lines))
      requires Refines(o, functionsBefore, linesBefore, lastLineUsed, lastFunctionCited, lastLineCited)
      requires PlacedBoth(FunctionSpans(functions), Spans(lines), Position(funcIt, lineIt, current))
      requires funcIt < |functions| || lineIt < |lines|
      modifies functions, reporter
      ensures nextTransition == var next := NextTransition(FunctionSpans(functions), Spans(lines), Position(funcIt, lineIt, current));
                                if next == ADDRESS_SPACE then 0 else next
      ensures |o.pieces| == |functions|
      ensures Refines(Iterate(FunctionSpans(functions), lines, Position(funcIt, lineIt, current), o),
                      functionsBefore, linesBefore, lineUsed, functionCited, lineCited)
    {
      hide Logged, LastIs, Placed, NoJump, Endpoint, HasPieces, HasReports;
      lineUsed, functionCited, lineCited := lastLineUsed, lastFunctionCited, lastLineCited;
      NextTransitionAdvances(FunctionSpans(functions), Spans(lines), Position(funcIt, lineIt, current));
      if funcIt < |functions| && functions[funcIt].address <= current {
        var func := functions[funcIt];
        if lineIt < |lines| && lines[lineIt].address <= current {
          // The common part becomes the function's.
          var line := lines[lineIt];
          var funcLeft := Sub(func.size, Sub(current, func.address));
          var lineLeft := Sub(line.size, Sub(current, line.address));
          nextTransition := Add(current, Min(funcLeft, lineLeft));
          PushLine(funcIt, Line(current, Sub(nextTransition, current), line.file, line.number), o.pieces);
          lineUsed := lineIt;
        } else {
          // A gap, up to the next line or the function's end.
          functionCited := CiteUncoveredFunction(funcIt, functionCited, lineCited, o, functionsBefore, linesBefore);
          if lineIt < |lines| && Within(func.Span(), lines[lineIt].address) {
            nextTransition := lines[lineIt].address;
          } else {
            nextTransition := Add(func.address, func.size);
          }
        }
      } else if lineIt < |lines| && lines[lineIt].address <= current {
        // Stray, unless it is padding at the end of a used line.
        var line := lines[lineIt];
        if !(funcIt < |functions| && lineIt == lineUsed
             && Sub(functions[funcIt].address, line.address) == line.size) {
          lineCited := CiteUncoveredLine(lineIt, functionCited, lineCited, o, functionsBefore, linesBefore);
        }
        if funcIt < |functions| && Within(line.Span(), functions[funcIt].address) {
          nextTransition := functions[funcIt].address;
        } else {
          nextTransition := Add(line.address, line.size);
        }
      } else {
        // Nothing here: go on to whatever comes first.
        if funcIt < |functions| && lineIt < |lines| {
          nextTransition := Min(functions[funcIt].address, lines[lineIt].address);
        } else if funcIt < |functions| {
          nextTransition := functions[funcIt].address;
        } else {
          nextTransition := lines[lineIt].address;
        }
      }
    }

    /** The first half of an iteration. */
    method Visit(funcIt: nat, lineIt: nat, current: Address, lastLineUsed: int, lastFunctionCited: Function?,
                 lastLineCited: int, ghost disjoint: bool, ghost o: Output, ghost functionsBefore: seq<Function>,
                 ghost linesBefore: seq<Line>)
      returns (nextTransition: Address, lineUsed: int, functionCited: Function?, lineCited: int, ghost after: Output)
      requires Reached(disjoint, Position(funcIt, lineIt, current), o)
      requires Refines(o, functionsBefore, linesBefore, lastLineUsed, lastFunctionCited, lastLineCited)
      requires funcIt < |functions| || lineIt < |lines|
      modifies functions, reporter
      ensures Reached(disjoint, Position(funcIt, lineIt, current), o)
      ensures Visits(disjoint, Position(funcIt, lineIt, current), o,
                     if nextTransition == 0 then ADDRESS_SPACE else nextTransition, after)
      ensures Refines(after, functionsBefore, linesBefore, lineUsed, functionCited, lineCited)
    {
      hide Invariant, Refines, AllProper, Tame, NextTransition, NoJump, Endpoint, Placed, Iterate;
      ghost var p := Position(funcIt, lineIt, current);
      TransitionIsPositive(disjoint, p, o);
      after := Iterate(FunctionSpans(functions), lines, p, o);
      nextTransition, lineUsed, functionCited, lineCited :=
        VisitTransition(funcIt, lineIt, current, lastLineUsed, lastFunctionCited, lastLineCited, o, functionsBefore, linesBefore);
    }

    lemma TransitionIsPositive(disjoint: bool, p: Position, o: Output)
      requires Reached(disjoint, p, o) && (p.func < |functions| || p.line < |lines|)
      ensures PlacedBoth(FunctionSpans(functions), Spans(lines), p) && |o.pieces| == |functions|
      ensures NextTransition(FunctionSpans(functions), Spans(lines), p) > 0
    {
      assert 0 <= p.current;
      hide Invariant, AllProper, NextTransition, NoJump, Endpoint;
      InvariantPlaces(FunctionSpans(functions), lines, disjoint, p, o);
      NextTransitionAdvances(FunctionSpans(functions), Spans(lines), p);
    }

    /** Every function's pieces are in ascending order, do not overlap, and lie in the function and in some line. */
    ghost predicate Robust()
      reads this, functions
    {
      forall k :: 0 <= k < |functions| ==>
        && Ascending(functions[k].lines, ADDRESS_SPACE)
        && forall piece :: piece in functions[k].lines ==> Fragment(functions[k].Span(), lines, piece)
    }

    /** Every function has exactly its intersections with the lines, and the warnings added to the given ones are
        exactly the functions with a gap and the lines with a stray byte, each once, in address order. */
    ghost predicate Complete(functionsBefore: seq<Function>, linesBefore: seq<Line>)
      requires AllProper(FunctionSpans(functions)) && AllProper(Spans(lines))
      reads this, functions, reporter
    {
      var fs, ls := FunctionSpans(functions), Spans(lines);
      var gaps, strays := UncoveredFunctions(fs, ls, |fs|), StrayLines(fs, ls, |ls|);
      && (forall k :: 0 <= k < |functions| ==> functions[k].lines == Pieces(fs[k], lines, |lines|))
      && Indices(gaps, |functions|)
      && reporter.uncoveredFunctions == functionsBefore + Select(functions, gaps)
      && Indices(strays, |lines|)
      && reporter.uncoveredLines == linesBefore + Select(lines, strays)
    }

    /** There is an iteration for every address where a function or a line starts or ends, but the greatest. */
    ghost predicate VisitsExactly(visited: set<int>)
      reads this, functions
    {
      if functions == [] && lines == [] then visited == {}
      else VisitsAllButLast(FunctionSpans(functions), Spans(lines), visited)
    }

    /** Divide the lines among the functions. */
    method AssignLinesToFunctions()
      returns (ghost iterations: nat, ghost visited: set<int>, ghost functionOrigin: seq<nat>, ghost lineOrigin: seq<nat>)
      requires Valid()
      modifies this, functions, reporter
      // Both lists are sorted in place.
      ensures Rearranged(old(functions), functions, functionOrigin) && SortedByAddress(FunctionSpans(functions))
      ensures Rearranged(old(lines), lines, lineOrigin) && SortedByAddress(Spans(lines))
      ensures AllProper(FunctionSpans(functions)) && AllProper(Spans(lines))
      // On all inputs, overlapping or not.
      ensures iterations == |visited| <= 2 * (|functions| + |lines|)
      ensures Robust()
      // On disjoint inputs.
      ensures PairwiseDisjoint(old(FunctionSpans(functions))) && PairwiseDisjoint(old(Spans(lines))) ==>
                && Complete(old(reporter.uncoveredFunctions), old(reporter.uncoveredLines))
                && VisitsExactly(visited)
    {
      hide Robust, Complete, VisitsExactly, AllProper, Rearranged, SortedBy, SortedByAddress, PairwiseDisjoint, Chained;
      functions, functionOrigin := Sort(functions, FunctionAddress);
      lines, lineOrigin := Sort(lines, LineAddress);
      RearrangedKeepsFunctions(old(functions), functions, functionOrigin);
      SortedFunctions(old(functions), functions, functionOrigin);
      SortedLines(old(lines), lines, lineOrigin);
      ghost var disjoint := PairwiseDisjoint(FunctionSpans(old(functions))) && PairwiseDisjoint(Spans(old(lines)));
      iterations, visited := Sweep(disjoint);
    }

    lemma Conclude(disjoint: bool, p: Position, o: Output, functionsBefore: seq<Function>, linesBefore: seq<Line>,
                   lastLineUsed: int, lastFunctionCited: Function?, lastLineCited: int)
      requires Reached(disjoint, p, o) && p.func == |functions| && p.line == |lines| && p.current <= ADDRESS_SPACE
      requires Refines(o, functionsBefore, linesBefore, lastLineUsed, lastFunctionCited, lastLineCited)
      ensures |o.visited| <= 2 * (|functions| + |lines|)
      ensures Robust()
      ensures disjoint ==> AllProper(FunctionSpans(functions)) && AllProper(Spans(lines)) && Complete(functionsBefore, linesBefore)
      ensures disjoint ==> VisitsExactly(o.visited)
    {
      InvariantAtEnd(FunctionSpans(functions), lines, disjoint, p, o);
    }

    lemma ConcludeEmpty(disjoint: bool)
      requires functions == [] && lines == []
      ensures Robust()
      ensures AllProper(FunctionSpans(functions)) && AllProper(Spans(lines))
      ensures disjoint ==> Complete(reporter.uncoveredFunctions, reporter.uncoveredLines)
      ensures VisitsExactly({})
    {
    }

    lemma RefinesAtStart(o: Output)
      requires Valid() && o == Output(seq(|functions|, _ => []), -1, [], [], {})
      ensures Refines(o, reporter.uncoveredFunctions, reporter.uncoveredLines, -1, null, -1)
    {
    }

    /** The lesser of the two first addresses; nothing without functions and lines. */
    method FirstTransition(ghost disjoint: bool) returns (first: Option<Address>, ghost o: Output)
      requires Valid()
      requires disjoint ==> Tame(FunctionSpans(functions), Spans(lines))
      ensures first.None? <==> functions == [] && lines == []
      ensures first.Some? ==>
                && Reached(disjoint, Position(0, 0, first.value), o)
                && Refines(o, reporter.uncoveredFunctions, reporter.uncoveredLines, -1, null, -1)
                && o.visited == {}
    {
      hide Invariant, Refines, AllProper, Tame;
      o := Output(seq(|functions|, _ => []), -1, [], [], {});
      if functions != [] && lines != [] {
        first := Some(Min(functions[0].address, lines[0].address));
      } else if lines != [] {
        first := Some(lines[0].address);
      } else if functions != [] {
        first := Some(functions[0].address);
      } else {
        return None, o;
      }
      InvariantAtStart(FunctionSpans(functions), lines, disjoint, Position(0, 0, first.value));
      RefinesAtStart(o);
    }

    /** What the source asserts of the two iterators at the head of the loop. */
    lemma IteratorsPlaced(disjoint: bool, p: Position, o: Output)
      requires Reached(disjoint, p, o) && p.current < ADDRESS_SPACE
      ensures 0 <= p.current
      ensures p.func < |functions| ==>
                p.current < functions[p.func].address || Within(functions[p.func].Span(), p.current)
      ensures p.line < |lines| ==> p.current < lines[p.line].address || Within(lines[p.line].Span(), p.current)
    {
      assert 0 <= p.current;
      hide Invariant, AllProper, Placed, Within, Tame;
      InvariantPlaces(FunctionSpans(functions), lines, disjoint, p, o);
      PlacedAssertion(FunctionSpans(functions), p.func, p.current);
      PlacedAssertion(Spans(lines), p.line, p.current);
    }

    /** There is no transition left inside the address space. */
    lemma LastTransition(disjoint: bool, p: Position, o: Output, after: Output)
      requires Reached(disjoint, p, o) && Visits(disjoint, p, o, ADDRESS_SPACE, after)
      ensures Reached(disjoint, Position(|functions|, |lines|, ADDRESS_SPACE), after)
      ensures |after.visited| == |o.visited| + 1
    {
      hide Invariant, NextTransition, AllProper, Tame, Placed, Iterate;
      InvariantPlaces(FunctionSpans(functions), lines, disjoint, p, o);
      PlacedAtEnd(FunctionSpans(functions));
      PlacedAtEnd(Spans(lines));
      InvariantKept(FunctionSpans(functions), lines, disjoint, p, o, Position(|functions|, |lines|, ADDRESS_SPACE));
    }

    /** The second half of an iteration: both iterators move past what ends at or before the next transition. */
    method Advance(funcIt: nat, lineIt: nat, current: Address, nextTransition: Address, ghost disjoint: bool,
                   ghost o: Output, ghost after: Output)
      returns (nextFunc: nat, nextLine: nat)
      requires Reached(disjoint, Position(funcIt, lineIt, current), o)
      requires Visits(disjoint, Position(funcIt, lineIt, current), o, nextTransition, after)
      ensures Reached(disjoint, Position(nextFunc, nextLine, nextTransition), after)
      ensures |after.visited| == |o.visited| + 1 && current < nextTransition
    {
      hide Invariant, NextTransition, NoJump, Endpoint, AllProper, Tame, Placed, Iterate, Within;
      ghost var p := Position(funcIt, lineIt, current);
      InvariantPlaces(FunctionSpans(functions), lines, disjoint, p, o);
      NextTransitionAdvances(FunctionSpans(functions), Spans(lines), p);
      nextFunc := SkipPast(FunctionSpans(functions), funcIt, nextTransition, current);
      nextLine := SkipPast(Spans(lines), lineIt, nextTransition, current);
      PlacedBounds(FunctionSpans(functions), nextFunc, nextTransition);
      PlacedBounds(Spans(lines), nextLine, nextTransition);
      InvariantKept(FunctionSpans(functions), lines, disjoint, p, o, Position(nextFunc, nextLine, nextTransition));
    }

    /** The single pass over the sorted lists. */
    method Sweep(ghost disjoint: bool) returns (ghost iterations: nat, ghost visited: set<int>)
      requires Valid()
      requires disjoint ==> Tame(FunctionSpans(functions), Spans(lines))
      modifies functions, reporter
      ensures iterations == |visited| <= 2 * (|functions| + |lines|)
      ensures Robust()
      ensures disjoint ==> VisitsExactly(visited)
      ensures disjoint ==>
                && AllProper(FunctionSpans(functions)) && AllProper(Spans(lines))
                && Complete(old(reporter.uncoveredFunctions), old(reporter.uncoveredLines))
    {
      hide Valid, Reached, Visits, VisitsExactly, Refines, Complete, Robust, AllProper, Tame, Within, FunctionSpans, Spans;
      iterations, visited := 0, {};
      var lastLineUsed, lastLineCited := -1, -1;
      var lastFunctionCited: Function? := null;
      var first;
      ghost var o;
      first, o := FirstTransition(disjoint);
      if first.None? {
        ConcludeEmpty(disjoint);
        return;
      }
      var funcIt: nat, lineIt: nat := 0, 0;
      var current: Address := first.value;
      ghost var p := Position(0, 0, current);
      while funcIt < |functions| || lineIt < |lines|
        invariant Reached(disjoint, p, o)
        invariant Refines(o, old(reporter.uncoveredFunctions), old(reporter.uncoveredLines),
                          lastLineUsed, lastFunctionCited, lastLineCited)
        invariant p == Position(funcIt, lineIt, current)
        invariant |o.visited| == iterations
        decreases ADDRESS_SPACE - current
      {
        IteratorsPlaced(disjoint, p, o);
        assert funcIt < |functions| ==> current < functions[funcIt].address || Within(functions[funcIt].Span(), current);
        assert lineIt < |lines| ==> current < lines[lineIt].address || Within(lines[lineIt].Span(), current);
        var nextTransition;
        ghost var after;
        nextTransition, lastLineUsed, lastFunctionCited, lastLineCited, after :=
          Visit(funcIt, lineIt, current, lastLineUsed, lastFunctionCited, lastLineCited, disjoint, o,
                old(reporter.uncoveredFunctions), old(reporter.uncoveredLines));
        iterations := iterations + 1;
        if nextTransition == 0 {
          LastTransition(disjoint, p, o, after);
          p, o := Position(|functions|, |lines|, ADDRESS_SPACE), after;
          break;
        }
        funcIt, lineIt := Advance(funcIt, lineIt, current, nextTransition, disjoint, o, after);
        assert current < nextTransition;
        current, o := nextTransition, after;
        p := Position(funcIt, lineIt, current);
      }
      ReachedBounds(disjoint, p, o);
      visited := o.visited;
      Conclude(disjoint, p, o, old(reporter.uncoveredFunctions), old(reporter.uncoveredLines),
               lastLineUsed, lastFunctionCited, lastLineCited);
    }

    lemma ReachedBounds(disjoint: bool, p: Position, o: Output)
      requires Reached(disjoint, p, o)
      ensures p.func <= |functions| && p.line <= |lines|
    {
    }
  }

  /** Advance an iterator past the items that end at or before `next`. */
  method SkipPast(items: seq<Range>, start: nat, next: Address, ghost current: Address) returns (it: nat)
    requires AllProper(items) && Placed(items, start, current) && current <= next
    ensures start <= it && Placed(items, it, next)
  {
    it := start;
    while it < |items| && items[it].address <= next && !Within(items[it], next)
      invariant start <= it <= |items|
      invariant forall k :: 0 <= k < it ==> items[k].End() <= next
    {
      it := it + 1;
    }
  }
}
