/** Which functions a section of STABS entries means, told from its entries. */
module StabsFunctions {
  import opened Addresses
  import opened Leb128
  import opened Module
  import opened Options
  import opened Sequences
  import opened StabsEntries
  import opened StabsProtocol
  import opened StabsToModule

  /** The entry is read as the start of a function: it stands inside a unit and does not end an open function, as an N_FUN
      entry without a symbol does. */
  predicate StartsFunction(c: Section, s: State, e: Entry)
    requires c.Terminated()
  {
    e.kind == N_FUN && (s.mode.InUnit? || (s.mode.InFunction? && !c.Unnamed(c.Symbol(s.base, e))))
  }

  /** The address of the function that the entry starts, and its name without type information, demangled. */
  function StartKey(c: Section, demangle: Demangler, s: State, e: Entry): FunctionKey
    requires c.Terminated()
  {
    FunctionKey(e.value, demangle(c.FunctionName(c.Symbol(s.base, e))))
  }

  /** The address of the unit after an entry: an open unit starts at the last N_SO entry. */
  function UnitAfter(unit: Address, e: Entry): Address {
    if e.kind == N_SO then e.value else unit
  }

  /** One for each entry that starts a function at or above its unit, in order. */
  function ExpectedFunctions(c: Section, demangle: Demangler, s: State, unit: Address, entries: seq<Entry>): seq<FunctionKey>
    requires c.Terminated()
    decreases entries
  {
    if entries == [] then []
    else
      var e := entries[0];
      (if StartsFunction(c, s, e) && unit <= e.value then [StartKey(c, demangle, s, e)] else [])
      + ExpectedFunctions(c, demangle, Step(c, s, e).state, UnitAfter(unit, e), entries[1..])
  }

  // ---------- Calls ----------

  function RawKey(raw: Raw): FunctionKey {
    FunctionKey(raw.address, raw.name)
  }

  function RawKeys(raws: seq<Raw>): (r: seq<FunctionKey>)
    ensures |r| == |raws|
  {
    seq(|raws|, i requires 0 <= i < |raws| => RawKey(raws[i]))
  }

  /** The functions kept so far, and the open one if it will be. */
  function Promised(k: Collection): seq<FunctionKey> {
    RawKeys(k.kept) + if k.open.Some? && k.base <= k.open.value.address then [RawKey(k.open.value)] else []
  }

  /** What each call does to them. */
  lemma CallPromises(c: Section, demangle: Demangler, k: Collection, call: Call)
    ensures var next := Collect(c, demangle, k, call);
            match call
            case StartCompilationUnit(_, address, _) =>
              next.open == k.open && next.base == address && (k.open.None? ==> Promised(next) == Promised(k))
            case EndCompilationUnit(_) => next.open == k.open && (k.open.None? ==> Promised(next) == Promised(k))
            case StartFunction(name, address) =>
              && next.open.Some? && next.base == k.base
              && (k.open.None? ==>
                    Promised(next) == Promised(k) + if k.base <= address then [FunctionKey(address, demangle(name))] else [])
            case EndFunction(_) => next.open.None? && next.base == k.base && Promised(next) == Promised(k)
            case Line(_, _, _) =>
              (next.open.None? <==> k.open.None?) && next.base == k.base && Promised(next) == Promised(k)
  {
    if call.EndFunction? && k.open.Some? && k.base <= k.open.value.address {
      assert RawKeys(k.kept + [k.open.value]) == RawKeys(k.kept) + [RawKey(k.open.value)];
    }
    EmptyEnds(RawKeys(k.kept));
  }

  lemma NoCalls(c: Section, demangle: Demangler, k: Collection)
    ensures CollectAll(c, demangle, k, []) == k
  {
  }

  lemma OneCall(c: Section, demangle: Demangler, k: Collection, call: Call)
    ensures CollectAll(c, demangle, k, [call]) == Collect(c, demangle, k, call)
  {
    assert [call][..0] == [];
  }

  lemma {:induction false} CollectConcat(c: Section, demangle: Demangler, k: Collection, a: seq<Call>, b: seq<Call>)
    ensures CollectAll(c, demangle, k, a + b) == CollectAll(c, demangle, CollectAll(c, demangle, k, a), b)
  {
    hide CollectAll, Collect;
    if b == [] {
      EmptyEnds(a);
      NoCalls(c, demangle, CollectAll(c, demangle, k, a));
    } else {
      var init, last := b[..|b| - 1], b[|b| - 1];
      assert init + [last] == b;
      CollectConcat(c, demangle, k, a, init);
      Associative(a, init, [last]);
      LastCall(c, demangle, k, a + init, last);
      LastCall(c, demangle, CollectAll(c, demangle, k, a), init, last);
    }
  }

  lemma LastCall(c: Section, demangle: Demangler, k: Collection, calls: seq<Call>, call: Call)
    ensures CollectAll(c, demangle, k, calls + [call]) == Collect(c, demangle, CollectAll(c, demangle, k, calls), call)
  {
    hide Collect;
    assert (calls + [call])[..|calls|] == calls;
  }

  lemma FirstCall(c: Section, demangle: Demangler, k: Collection, call: Call, rest: seq<Call>)
    ensures CollectAll(c, demangle, k, [call] + rest) == CollectAll(c, demangle, Collect(c, demangle, k, call), rest)
  {
    hide CollectAll, Collect;
    CollectConcat(c, demangle, k, [call], rest);
    OneCall(c, demangle, k, call);
  }

  /** Lines promise nothing. */
  lemma {:induction false} LinesPromise(c: Section, demangle: Demangler, k: Collection, lines: seq<Call>)
    requires forall i :: 0 <= i < |lines| ==> lines[i].Line?
    ensures var next := CollectAll(c, demangle, k, lines);
            (next.open.None? <==> k.open.None?) && next.base == k.base && Promised(next) == Promised(k)
  {
    hide Promised, Collect;
    if lines != [] {
      LinesPromise(c, demangle, k, lines[..|lines| - 1]);
      CallPromises(c, demangle, CollectAll(c, demangle, k, lines[..|lines| - 1]), lines[|lines| - 1]);
    }
  }

  // ---------- Steps ----------

  /** What the calls so far have opened is what the reader has open. */
  ghost predicate Matches(s: State, unit: Address, k: Collection) {
    match s.mode
    case Outside | AfterDirectory(_) => k.open.None?
    case InUnit => k.open.None? && k.base == unit
    case InFunction(_) => k.open.Some? && k.base == unit
  }

  /** A move that promises `more`. */
  ghost predicate Promises(c: Section, demangle: Demangler, k: Collection, m: Move, unit: Address, more: seq<FunctionKey>) {
    var next := CollectAll(c, demangle, k, m.calls);
    Matches(m.state, unit, next) && Promised(next) == Promised(k) + more
  }

  lemma NoCallPromises(c: Section, demangle: Demangler, k: Collection, s: State, unit: Address)
    requires Matches(s, unit, k)
    ensures Promises(c, demangle, k, Move(s, []), unit, [])
  {
    hide Promised, Matches;
    NoCalls(c, demangle, k);
    EmptyEnds(Promised(k));
  }

  lemma OneCallPromises(c: Section, demangle: Demangler, k: Collection, s: State, call: Call, unit: Address)
    requires var next := Collect(c, demangle, k, call); Matches(s, unit, next) && Promised(next) == Promised(k)
    ensures Promises(c, demangle, k, Move(s, [call]), unit, [])
  {
    hide Promised, Matches, Collect;
    OneCall(c, demangle, k, call);
    EmptyEnds(Promised(k));
  }

  /** A call that promises nothing, before a move. */
  lemma AfterPromises(c: Section, demangle: Demangler, k: Collection, call: Call, m: Move, unit: Address, more: seq<FunctionKey>)
    requires var next := Collect(c, demangle, k, call);
             Promised(next) == Promised(k) && Promises(c, demangle, next, m, unit, more)
    ensures Promises(c, demangle, k, m.After(call), unit, more)
  {
    hide Promised, Matches, Collect, CollectAll;
    FirstCall(c, demangle, k, call, m.calls);
  }

  lemma StepOutsidePromises(c: Section, demangle: Demangler, s: State, unit: Address, k: Collection, e: Entry,
                            directory: Option<nat>)
    requires c.Terminated() && k.open.None?
    ensures Promises(c, demangle, k, StepOutside(c, s, e), UnitAfter(unit, e), [])
    ensures e.kind == N_SO ==> Promises(c, demangle, k, StartUnit(c, s, e, directory), e.value, [])
  {
    hide Promised, Promises, Section.Symbol, Section.Unnamed, Section.IsDirectory, Collect;
    var name := c.Symbol(s.base, e);
    forall d: Option<nat>
      ensures Promises(c, demangle, k, StartUnit(c, s, e, d), e.value, [])
    {
      StartUnitPromises(c, demangle, s, k, e, d);
    }
    NoCallPromises(c, demangle, k, s.(mode := AfterDirectory(name)), UnitAfter(unit, e));
    NoCallPromises(c, demangle, k, s.(mode := Outside, base := s.nextBase, nextBase := e.value), UnitAfter(unit, e));
    NoCallPromises(c, demangle, k, s.(mode := Outside), UnitAfter(unit, e));
  }

  lemma StartUnitPromises(c: Section, demangle: Demangler, s: State, k: Collection, e: Entry, directory: Option<nat>)
    requires c.Terminated() && k.open.None?
    ensures Promises(c, demangle, k, StartUnit(c, s, e, directory), e.value, [])
  {
    hide Promised, Promises, Section.Symbol, Section.Unnamed, Collect;
    var name := c.Symbol(s.base, e);
    if c.Unnamed(name) {
      NoCallPromises(c, demangle, k, s.(mode := Outside), e.value);
    } else {
      var call := StartCompilationUnit(name, e.value, directory);
      CallPromises(c, demangle, k, call);
      OneCallPromises(c, demangle, k, s.(mode := InUnit, source := name), call, e.value);
    }
  }

  /** What an entry inside a unit promises. */
  function StartOf(c: Section, demangle: Demangler, s: State, unit: Address, e: Entry): seq<FunctionKey>
    requires c.Terminated()
  {
    if StartsFunction(c, s, e) && unit <= e.value then [StartKey(c, demangle, s, e)] else []
  }

  lemma StartFunctionPromises(c: Section, demangle: Demangler, s: State, unit: Address, k: Collection, e: Entry)
    requires c.Terminated() && s.Valid() && s.mode.InUnit? && Matches(s, unit, k) && e.kind == N_FUN
    ensures Promises(c, demangle, k, StepInUnit(c, s, e), unit, StartOf(c, demangle, s, unit, e))
  {
    hide Promised, Section.Symbol, Section.Unnamed, Section.FunctionName, Collect, CollectAll;
    var call := StartFunction(c.FunctionName(c.Symbol(s.base, e)), e.value);
    CallPromises(c, demangle, k, call);
    FirstCall(c, demangle, k, call, s.queue);
    LinesPromise(c, demangle, Collect(c, demangle, k, call), s.queue);
  }

  lemma StepInUnitPromises(c: Section, demangle: Demangler, s: State, unit: Address, k: Collection, e: Entry)
    requires c.Terminated() && s.Valid() && s.mode.InUnit? && Matches(s, unit, k)
    ensures Promises(c, demangle, k, StepInUnit(c, s, e), UnitAfter(unit, e), StartOf(c, demangle, s, unit, e))
  {
    hide Promised, Promises, Section.Symbol, Section.Unnamed, Collect, StepOutside;
    if e.kind == N_SO {
      var closed := s.(mode := Outside, queue := []);
      CallPromises(c, demangle, k, EndCompilationUnit(e.value));
      CallPromises(c, demangle, k, EndCompilationUnit(0));
      OneCallPromises(c, demangle, k, closed, EndCompilationUnit(e.value), e.value);
      StepOutsidePromises(c, demangle, closed, unit, Collect(c, demangle, k, EndCompilationUnit(0)), e, None);
      AfterPromises(c, demangle, k, EndCompilationUnit(0), StepOutside(c, closed, e), e.value, []);
    } else if e.kind == N_FUN {
      StartFunctionPromises(c, demangle, s, unit, k, e);
    } else {
      NoCallPromises(c, demangle, k, s.(queue := s.queue + [Line(e.value, s.source, LineNumber(e))]), unit);
      NoCallPromises(c, demangle, k, s.(source := c.Symbol(s.base, e)), unit);
      NoCallPromises(c, demangle, k, s, unit);
    }
  }

  lemma StepInFunctionPromises(c: Section, demangle: Demangler, s: State, start: Address, unit: Address, k: Collection, e: Entry)
    requires c.Terminated() && s.Valid() && s.mode == InFunction(start) && Matches(s, unit, k)
    ensures Promises(c, demangle, k, StepInFunction(c, s, start, e), UnitAfter(unit, e), StartOf(c, demangle, s, unit, e))
  {
    hide Promised, Promises, Section.Symbol, Section.Unnamed, Collect, StepInUnit;
    var open := s.(mode := InUnit);
    if e.kind == N_FUN && c.Unnamed(c.Symbol(s.base, e)) {
      var call := EndFunction(Add(start, e.value));
      CallPromises(c, demangle, k, call);
      OneCallPromises(c, demangle, k, open, call, unit);
    } else if e.kind == N_SO || e.kind == N_FUN {
      CallPromises(c, demangle, k, EndFunction(e.value));
      StepInUnitPromises(c, demangle, open, unit, Collect(c, demangle, k, EndFunction(e.value)), e);
      AfterPromises(c, demangle, k, EndFunction(e.value), StepInUnit(c, open, e), UnitAfter(unit, e),
                    StartOf(c, demangle, s, unit, e));
    } else {
      var call := Line(Add(start, e.value), s.source, LineNumber(e));
      CallPromises(c, demangle, k, call);
      OneCallPromises(c, demangle, k, s, call, unit);
      NoCallPromises(c, demangle, k, s.(source := c.Symbol(s.base, e)), unit);
      NoCallPromises(c, demangle, k, s, unit);
    }
  }

  lemma StepPromises(c: Section, demangle: Demangler, s: State, unit: Address, k: Collection, e: Entry)
    requires c.Terminated() && s.Valid() && Matches(s, unit, k)
    ensures Promises(c, demangle, k, Step(c, s, e), UnitAfter(unit, e), StartOf(c, demangle, s, unit, e))
  {
    hide Promises, Section.Symbol, Section.Unnamed, StepOutside, StartUnit, StepInUnit, StepInFunction;
    match s.mode
    case Outside => StepOutsidePromises(c, demangle, s, unit, k, e, None);
    case AfterDirectory(directory) => StepOutsidePromises(c, demangle, s, unit, k, e, Some(directory));
    case InUnit => StepInUnitPromises(c, demangle, s, unit, k, e);
    case InFunction(start) => StepInFunctionPromises(c, demangle, s, start, unit, k, e);
  }

  /** Closing keeps the open function if it was promised. */
  lemma ClosePromises(c: Section, demangle: Demangler, s: State, unit: Address, k: Collection)
    requires Matches(s, unit, k)
    ensures RawKeys(CollectAll(c, demangle, k, Close(s)).kept) == Promised(k)
  {
    hide CollectAll, RawKeys;
    var k1 := Collect(c, demangle, k, EndFunction(0));
    NoCalls(c, demangle, k);
    OneCall(c, demangle, k, EndCompilationUnit(0));
    FirstCall(c, demangle, k, EndFunction(0), [EndCompilationUnit(0)]);
    OneCall(c, demangle, k1, EndCompilationUnit(0));
    assert [EndFunction(0)] + [EndCompilationUnit(0)] == [EndFunction(0), EndCompilationUnit(0)];
    CallPromises(c, demangle, k, EndFunction(0));
    EmptyEnds(RawKeys(k.kept));
    EmptyEnds(RawKeys(k1.kept));
  }

  lemma StepStaysValid(c: Section, s: State, e: Entry)
    requires c.Terminated() && s.Valid()
    ensures Step(c, s, e).state.Valid()
  {
    hide Step;
    StepProper(c, s, e);
  }

  lemma {:induction false} RunPromises(c: Section, demangle: Demangler, s: State, unit: Address, k: Collection, entries: seq<Entry>)
    requires c.Terminated() && s.Valid() && Matches(s, unit, k)
    ensures RawKeys(CollectAll(c, demangle, k, Run(c, s, entries)).kept)
         == Promised(k) + ExpectedFunctions(c, demangle, s, unit, entries)
    decreases entries
  {
    hide Step, CollectAll, RawKeys, Promised, Matches, StartsFunction, StartKey;
    if entries == [] {
      ClosePromises(c, demangle, s, unit, k);
      EmptyEnds(Promised(k));
    } else {
      var e, rest := entries[0], entries[1..];
      var m := Step(c, s, e);
      StepPromises(c, demangle, s, unit, k, e);
      StepStaysValid(c, s, e);
      CollectConcat(c, demangle, k, m.calls, Run(c, m.state, rest));
      RunPromises(c, demangle, m.state, UnitAfter(unit, e), CollectAll(c, demangle, k, m.calls), rest);
      Associative(Promised(k), StartOf(c, demangle, s, unit, e),
                  ExpectedFunctions(c, demangle, m.state, UnitAfter(unit, e), rest));
    }
  }

  /** With terminated strings: the functions kept are, in order, those that an entry starts at or above its unit. */
  lemma FunctionsKept(c: Section, demangle: Demangler, entries: seq<Entry>)
    requires c.Terminated()
    ensures RawKeys(CollectAll(c, demangle, EMPTY, Run(c, START, entries)).kept)
         == ExpectedFunctions(c, demangle, START, 0, entries)
  {
    hide Run, CollectAll, ExpectedFunctions;
    RunPromises(c, demangle, START, 0, EMPTY, entries);
    assert Promised(EMPTY) == [];
    EmptyEnds(ExpectedFunctions(c, demangle, START, 0, entries));
  }

  // ---------- Entry by entry ----------

  /** The address of the unit in which `entries` end. */
  function UnitAt(unit: Address, entries: seq<Entry>): Address
    decreases entries
  {
    if entries == [] then unit else UnitAt(UnitAfter(unit, entries[0]), entries[1..])
  }

  /** Entry `i` starts a function with the given key, at or above its unit. */
  ghost predicate StartsAt(c: Section, demangle: Demangler, s: State, unit: Address, entries: seq<Entry>, i: int,
                           key: FunctionKey)
    requires c.Terminated()
  {
    && 0 <= i < |entries|
    && var before := After(c, s, entries[..i]);
       && StartsFunction(c, before, entries[i]) && UnitAt(unit, entries[..i]) <= entries[i].value
       && StartKey(c, demangle, before, entries[i]) == key
  }

  lemma StartsAtFirst(c: Section, demangle: Demangler, s: State, unit: Address, entries: seq<Entry>, key: FunctionKey)
    requires c.Terminated() && entries != []
    ensures StartsAt(c, demangle, s, unit, entries, 0, key) <==> key in StartOf(c, demangle, s, unit, entries[0])
  {
    hide StartsFunction, StartKey;
  }

  lemma StartsAtLater(c: Section, demangle: Demangler, s: State, unit: Address, entries: seq<Entry>, i: int, key: FunctionKey)
    requires c.Terminated() && 0 < i < |entries|
    ensures StartsAt(c, demangle, s, unit, entries, i, key)
       <==> StartsAt(c, demangle, Step(c, s, entries[0]).state, UnitAfter(unit, entries[0]), entries[1..], i - 1, key)
  {
    hide StartsFunction, StartKey, Step;
    assert entries[..i][1..] == entries[1..][..i - 1] && entries[..i][0] == entries[0];
  }

  lemma {:induction false} ExpectedExactly(c: Section, demangle: Demangler, s: State, unit: Address, entries: seq<Entry>,
                                           key: FunctionKey)
    requires c.Terminated()
    ensures key in ExpectedFunctions(c, demangle, s, unit, entries)
       <==> exists i :: StartsAt(c, demangle, s, unit, entries, i, key)
    decreases entries
  {
    hide StartsAt, Step, StartsFunction, StartKey;
    if entries == [] {
      NothingStarts(c, demangle, s, unit, key);
    } else {
      var next, later, rest := Step(c, s, entries[0]).state, UnitAfter(unit, entries[0]), entries[1..];
      StartsAtFirst(c, demangle, s, unit, entries, key);
      ExpectedExactly(c, demangle, next, later, rest, key);
      if i :| StartsAt(c, demangle, s, unit, entries, i, key) {
        StartsInside(c, demangle, s, unit, entries, i, key);
        if i > 0 {
          StartsAtLater(c, demangle, s, unit, entries, i, key);
        }
      }
      if j :| StartsAt(c, demangle, next, later, rest, j, key) {
        StartsInside(c, demangle, next, later, rest, j, key);
        StartsAtLater(c, demangle, s, unit, entries, j + 1, key);
      }
    }
  }

  lemma StartsInside(c: Section, demangle: Demangler, s: State, unit: Address, entries: seq<Entry>, i: int, key: FunctionKey)
    requires c.Terminated() && StartsAt(c, demangle, s, unit, entries, i, key)
    ensures 0 <= i < |entries|
  {
  }

  lemma NothingStarts(c: Section, demangle: Demangler, s: State, unit: Address, key: FunctionKey)
    requires c.Terminated()
    ensures !exists i :: StartsAt(c, demangle, s, unit, [], i, key)
  {
  }

  /** Entry `i` starts a function at or above its unit, and nothing is left of its name. */
  ghost predicate Nameless(c: Section, demangle: Demangler, entries: seq<Entry>, i: int)
    requires c.Terminated()
  {
    0 <= i < |entries| && StartsAt(c, demangle, START, 0, entries, i, FunctionKey(entries[i].value, []))
  }

  /** Exactly then a function without a name is kept. */
  lemma NamelessExactly(c: Section, demangle: Demangler, entries: seq<Entry>)
    requires c.Terminated()
    ensures (exists raw :: raw in CollectAll(c, demangle, EMPTY, Run(c, START, entries)).kept && raw.name == [])
       <==> exists i :: Nameless(c, demangle, entries, i)
  {
    hide Run, CollectAll, ExpectedFunctions, StartsAt;
    var kept := CollectAll(c, demangle, EMPTY, Run(c, START, entries)).kept;
    FunctionsKept(c, demangle, entries);
    if raw :| raw in kept && raw.name == [] {
      KeyOfRaw(kept, raw);
      ExpectedExactly(c, demangle, START, 0, entries, RawKey(raw));
      var i :| StartsAt(c, demangle, START, 0, entries, i, RawKey(raw));
      StartsHere(c, demangle, entries, i, RawKey(raw));
      assert Nameless(c, demangle, entries, i);
    }
    if i :| Nameless(c, demangle, entries, i) {
      ExpectedExactly(c, demangle, START, 0, entries, FunctionKey(entries[i].value, []));
      var raw := RawOfKey(kept, FunctionKey(entries[i].value, []));
    }
  }

  lemma StartsHere(c: Section, demangle: Demangler, entries: seq<Entry>, i: int, key: FunctionKey)
    requires c.Terminated() && StartsAt(c, demangle, START, 0, entries, i, key)
    ensures 0 <= i < |entries| && key.address == entries[i].value
  {
  }

  lemma KeyOfRaw(raws: seq<Raw>, raw: Raw)
    requires raw in raws
    ensures RawKey(raw) in RawKeys(raws)
  {
    var i :| 0 <= i < |raws| && raws[i] == raw;
    assert RawKeys(raws)[i] == RawKey(raw);
  }

  lemma RawOfKey(raws: seq<Raw>, key: FunctionKey) returns (raw: Raw)
    requires key in RawKeys(raws)
    ensures raw in raws && RawKey(raw) == key
  {
    var i :| 0 <= i < |raws| && RawKeys(raws)[i] == key;
    raw := raws[i];
  }

  // ---------- A section that cannot be loaded ----------

  /** A unit named "a" at 0x1000, and a function there whose symbol is empty. */
  const NAMELESS_SECTION := Section(['a' as int, 0], false)
  const NAMELESS_ENTRIES := [Entry(0, N_SO, 0, 0, 0x1000), Entry(1, N_FUN, 0, 0, 0x1000)]

  lemma NamelessFunctionIsKept()
    ensures NAMELESS_SECTION.Terminated() && Nameless(NAMELESS_SECTION, name => name, NAMELESS_ENTRIES, 1)
  {
    var c, e0, e1 := NAMELESS_SECTION, NAMELESS_ENTRIES[0], NAMELESS_ENTRIES[1];
    assert NAMELESS_ENTRIES[..1] == [e0] && [e0][1..] == [];
    var s := Step(c, START, e0).state;
    assert s == State(InUnit, 0, 0, 0, []);
    assert After(c, START, [e0]) == After(c, s, []) == s;
    assert UnitAt(0, [e0]) == UnitAt(0x1000, []) == 0x1000;
    assert c.FunctionName(1) == [];
  }
}
