/** What a section of STABS entries means to a handler: one pass over the entries, keeping track of the open unit and
    function, and the protocol that the calls obey. */
module StabsProtocol {
  import opened Addresses
  import opened Leb128
  import opened Options
  import opened Sequences
  import opened StabsEntries

  /** The calls of a StabsHandler. File names are offsets into the string section, as the source passes pointers. */
  datatype Call =
    | StartCompilationUnit(name: nat, address: Address, directory: Option<nat>)
    | EndCompilationUnit(address: Address)
    | StartFunction(functionName: seq<Byte>, address: Address)
    | EndFunction(address: Address)
    | Line(address: Address, file: nat, number: nat)

  /** The bytes of the C string at the front of `s`, up to `stop` or the terminating zero. */
  function Until(s: seq<Byte>, stop: Byte): (r: seq<Byte>)
    ensures |r| <= |s| && r == s[..|r|]
    ensures 0 !in r && stop !in r
    ensures |r| < |s| ==> s[|r|] == 0 || s[|r|] == stop
  {
    if s == [] || s[0] == 0 || s[0] == stop then [] else [s[0]] + Until(s[1..], stop)
  }

  /** What does not change while a section is read. */
  datatype Section = Section(strings: seq<Byte>, unitized: bool)
  {
    /** The string section ends in a zero byte, so every name in it is terminated. */
    predicate Terminated() {
      strings != [] && strings[|strings| - 1] == 0
    }

    /** An entry's name is out of the string section, read as a signed offset. */
    predicate Misplaced(base: Address, e: Entry) {
      var offset := Add(base, e.nameOffset);
      offset >= 0x8000_0000_0000_0000 || offset >= |strings|
    }

    /** The offset of an entry's name; a misplaced name is replaced by the first string. */
    function Symbol(base: Address, e: Entry): (offset: nat)
      requires Terminated()
      ensures offset < |strings|
    {
      if Misplaced(base, e) then 0 else Add(base, e.nameOffset)
    }

    function Name(offset: nat): seq<Byte>
      requires offset < |strings|
    {
      Until(strings[offset..], 0)
    }

    /** The name at `offset` is empty. */
    predicate Unnamed(offset: nat)
      requires offset < |strings|
    {
      strings[offset] == 0
    }

    predicate IsDirectory(offset: nat)
      requires offset < |strings|
    {
      var name := Name(offset);
      name != [] && name[|name| - 1] == '/' as int
    }

    /** The part of a function's symbol before the type information. */
    function FunctionName(offset: nat): seq<Byte>
      requires offset < |strings|
    {
      Until(strings[offset..], ':' as int)
    }
  }

  datatype Mode = Outside | AfterDirectory(directory: nat) | InUnit | InFunction(start: Address)

  /** The reader's fields between two entries. The queue holds lines that no function has claimed yet. */
  datatype State = State(mode: Mode, base: Address, nextBase: Address, source: nat, queue: seq<Call>)
  {
    predicate Valid() {
      (queue == [] || mode.InUnit?) && forall i :: 0 <= i < |queue| ==> queue[i].Line?
    }
  }

  const START := State(Outside, 0, 0, 0, [])

  datatype Move = Move(state: State, calls: seq<Call>)
  {
    function After(call: Call): Move {
      Move(state, [call] + calls)
    }
  }

  /** Source line numbers are stored as signed 16-bit numbers and used as unsigned ones. */
  function LineNumber(e: Entry): nat {
    e.descriptor % 0x1_0000
  }

  // ---------- One entry ----------

  function StartUnit(c: Section, s: State, e: Entry, directory: Option<nat>): Move
    requires c.Terminated()
  {
    var name := c.Symbol(s.base, e);
    if c.Unnamed(name) then Move(s.(mode := Outside), [])
    else Move(s.(mode := InUnit, source := name), [StartCompilationUnit(name, e.value, directory)])
  }

  /** Between units. Only here does an N_UNDF entry move the string base, and it moves it to where the previous one said;
      the sizes are not added up. */
  function StepOutside(c: Section, s: State, e: Entry): Move
    requires c.Terminated()
  {
    if e.kind == N_SO then
      var name := c.Symbol(s.base, e);
      if c.IsDirectory(name) then Move(s.(mode := AfterDirectory(name)), []) else StartUnit(c, s, e, None)
    else if e.kind == N_UNDF && c.unitized then
      Move(s.(mode := Outside, base := s.nextBase, nextBase := e.value), [])
    else
      Move(s.(mode := Outside), [])
  }

  function StepInUnit(c: Section, s: State, e: Entry): Move
    requires c.Terminated()
  {
    if e.kind == N_SO then
      var closed := s.(mode := Outside, queue := []);
      if c.Unnamed(c.Symbol(s.base, e)) then Move(closed, [EndCompilationUnit(e.value)])
      else StepOutside(c, closed, e).After(EndCompilationUnit(0))
    else if e.kind == N_FUN then
      Move(s.(mode := InFunction(e.value), queue := []),
           [StartFunction(c.FunctionName(c.Symbol(s.base, e)), e.value)] + s.queue)
    else if e.kind == N_SLINE then
      Move(s.(queue := s.queue + [Line(e.value, s.source, LineNumber(e))]), [])
    else if e.kind == N_SOL then
      Move(s.(source := c.Symbol(s.base, e)), [])
    else
      Move(s, [])
  }

  function StepInFunction(c: Section, s: State, start: Address, e: Entry): Move
    requires c.Terminated()
  {
    if e.kind == N_FUN && c.Unnamed(c.Symbol(s.base, e)) then
      Move(s.(mode := InUnit), [EndFunction(Add(start, e.value))])
    else if e.kind == N_SO || e.kind == N_FUN then
      StepInUnit(c, s.(mode := InUnit), e).After(EndFunction(e.value))
    else if e.kind == N_SLINE then
      Move(s, [Line(Add(start, e.value), s.source, LineNumber(e))])
    else if e.kind == N_SOL then
      Move(s.(source := c.Symbol(s.base, e)), [])
    else
      Move(s, [])
  }

  function Step(c: Section, s: State, e: Entry): Move
    requires c.Terminated()
  {
    match s.mode
    case Outside => StepOutside(c, s, e)
    case AfterDirectory(directory) =>
      if e.kind == N_SO then StartUnit(c, s, e, Some(directory)) else StepOutside(c, s, e)
    case InUnit => StepInUnit(c, s, e)
    case InFunction(start) => StepInFunction(c, s, start, e)
  }

  /** At the end of the section what is still open is closed, with no ending address. */
  function Close(s: State): seq<Call> {
    match s.mode
    case Outside | AfterDirectory(_) => []
    case InUnit => [EndCompilationUnit(0)]
    case InFunction(_) => [EndFunction(0), EndCompilationUnit(0)]
  }

  /** All the calls for `entries`, when no handler refuses one. */
  function Run(c: Section, s: State, entries: seq<Entry>): seq<Call>
    requires c.Terminated()
    decreases entries
  {
    if entries == [] then Close(s)
    else
      var m := Step(c, s, entries[0]);
      m.calls + Run(c, m.state, entries[1..])
  }

  // ---------- The protocol ----------

  datatype Phase = Idle | UnitOpen | FunctionOpen

  /** The assertions of StabsToModule's handlers. */
  predicate Permitted(p: Phase, call: Call) {
    match call
    case StartCompilationUnit(_, _, _) => p == Idle
    case EndCompilationUnit(_) => p == UnitOpen
    case StartFunction(_, _) => p == UnitOpen
    case EndFunction(_) => p == FunctionOpen
    case Line(_, _, _) => p == FunctionOpen
  }

  function PhaseAfter(call: Call): Phase {
    match call
    case StartCompilationUnit(_, _, _) => UnitOpen
    case EndCompilationUnit(_) => Idle
    case StartFunction(_, _) => FunctionOpen
    case EndFunction(_) => UnitOpen
    case Line(_, _, _) => FunctionOpen
  }

  function Reached(p: Phase, calls: seq<Call>): Phase {
    if calls == [] then p else PhaseAfter(calls[|calls| - 1])
  }

  /** Each call is permitted where it stands: units in sequence, functions in sequence inside a unit, lines inside a
      function. */
  ghost predicate Accepted(p: Phase, calls: seq<Call>) {
    forall i :: 0 <= i < |calls| ==> Permitted(Reached(p, calls[..i]), calls[i])
  }

  lemma AcceptedConcat(p: Phase, a: seq<Call>, b: seq<Call>)
    requires Accepted(p, a) && Accepted(Reached(p, a), b)
    ensures Accepted(p, a + b) && Reached(p, a + b) == Reached(Reached(p, a), b)
  {
    hide Reached, Permitted;
    var s := a + b;
    ReachedConcat(p, a, b);
    forall i | 0 <= i < |s|
      ensures Permitted(Reached(p, s[..i]), s[i])
    {
      TakeOfConcat(a, b, i);
      if i < |a| {
        assert Permitted(Reached(p, a[..i]), a[i]);
      } else {
        ReachedConcat(p, a, b[..i - |a|]);
        assert Permitted(Reached(Reached(p, a), b[..i - |a|]), b[i - |a|]);
      }
    }
  }

  lemma ReachedConcat(p: Phase, a: seq<Call>, b: seq<Call>)
    ensures Reached(p, a + b) == Reached(Reached(p, a), b)
  {
    if b == [] {
      assert a + b == a;
    } else {
      assert (a + b)[|a + b| - 1] == b[|b| - 1];
    }
  }

  function PhaseOf(m: Mode): Phase {
    match m
    case Outside | AfterDirectory(_) => Idle
    case InUnit => UnitOpen
    case InFunction(_) => FunctionOpen
  }

  lemma OneAccepted(p: Phase, call: Call)
    requires Permitted(p, call)
    ensures Accepted(p, [call]) && Reached(p, [call]) == PhaseAfter(call)
  {
  }

  lemma NoneAccepted(p: Phase)
    ensures Accepted(p, []) && Reached(p, []) == p
  {
  }

  lemma LinesAccepted(lines: seq<Call>)
    requires forall i :: 0 <= i < |lines| ==> lines[i].Line?
    ensures Accepted(FunctionOpen, lines) && Reached(FunctionOpen, lines) == FunctionOpen
  {
  }

  /** A move that makes permitted calls and ends in the phase they lead to. */
  ghost predicate Proper(p: Phase, m: Move) {
    m.state.Valid() && Accepted(p, m.calls) && Reached(p, m.calls) == PhaseOf(m.state.mode)
  }

  lemma AfterProper(p: Phase, call: Call, m: Move)
    requires Permitted(p, call) && Proper(PhaseAfter(call), m)
    ensures Proper(p, m.After(call))
  {
    OneAccepted(p, call);
    AcceptedConcat(p, [call], m.calls);
  }

  lemma StepOutsideProper(c: Section, s: State, e: Entry)
    requires c.Terminated() && s.Valid() && PhaseOf(s.mode) == Idle
    ensures Proper(Idle, StepOutside(c, s, e))
    ensures forall directory :: Proper(Idle, StartUnit(c, s, e, directory))
  {
  }

  lemma StepInUnitProper(c: Section, s: State, e: Entry)
    requires c.Terminated() && s.Valid() && s.mode.InUnit?
    ensures Proper(UnitOpen, StepInUnit(c, s, e))
  {
    if e.kind == N_SO {
      var closed := s.(mode := Outside, queue := []);
      StepOutsideProper(c, closed, e);
      NoneAccepted(Idle);
      AfterProper(UnitOpen, EndCompilationUnit(0), StepOutside(c, closed, e));
      OneAccepted(UnitOpen, EndCompilationUnit(e.value));
    } else if e.kind == N_FUN {
      var call := StartFunction(c.FunctionName(c.Symbol(s.base, e)), e.value);
      LinesAccepted(s.queue);
      OneAccepted(UnitOpen, call);
      AcceptedConcat(UnitOpen, [call], s.queue);
    } else {
      NoneAccepted(UnitOpen);
    }
  }

  lemma StepProper(c: Section, s: State, e: Entry)
    requires c.Terminated() && s.Valid()
    ensures Proper(PhaseOf(s.mode), Step(c, s, e))
  {
    hide StepOutside, StepInUnit, StepInFunction, StartUnit, Proper;
    match s.mode
    case Outside => StepOutsideProper(c, s, e);
    case AfterDirectory(directory) => StepOutsideProper(c, s, e);
    case InUnit => StepInUnitProper(c, s, e);
    case InFunction(start) => StepInFunctionProper(c, s, start, e);
  }

  lemma NoCallProper(s: State)
    requires s.Valid()
    ensures Proper(PhaseOf(s.mode), Move(s, []))
  {
  }

  lemma OneCallProper(p: Phase, s: State, call: Call)
    requires s.Valid() && Permitted(p, call) && PhaseAfter(call) == PhaseOf(s.mode)
    ensures Proper(p, Move(s, [call]))
  {
  }

  lemma StepInFunctionProper(c: Section, s: State, start: Address, e: Entry)
    requires c.Terminated() && s.Valid() && s.mode == InFunction(start)
    ensures Proper(FunctionOpen, StepInFunction(c, s, start, e))
  {
    hide StepInUnit, Proper, Section.Symbol, Section.Unnamed;
    var open := s.(mode := InUnit);
    StepInUnitProper(c, open, e);
    AfterProper(FunctionOpen, EndFunction(e.value), StepInUnit(c, open, e));
    OneCallProper(FunctionOpen, open, EndFunction(Add(start, e.value)));
    OneCallProper(FunctionOpen, s, Line(Add(start, e.value), s.source, LineNumber(e)));
    NoCallProper(s.(source := c.Symbol(s.base, e)));
    NoCallProper(s);
  }

  /** With terminated strings, and from any point in the section: the calls obey the protocol and leave nothing open. */
  lemma {:induction false} RunAccepted(c: Section, s: State, entries: seq<Entry>)
    requires c.Terminated() && s.Valid()
    ensures Accepted(PhaseOf(s.mode), Run(c, s, entries))
    ensures Reached(PhaseOf(s.mode), Run(c, s, entries)) == Idle
    decreases entries
  {
    hide Step, Accepted;
    if entries == [] {
      CloseAccepted(s);
    } else {
      var m := Step(c, s, entries[0]);
      StepProper(c, s, entries[0]);
      RunAccepted(c, m.state, entries[1..]);
      AcceptedConcat(PhaseOf(s.mode), m.calls, Run(c, m.state, entries[1..]));
    }
  }

  lemma CloseAccepted(s: State)
    ensures Accepted(PhaseOf(s.mode), Close(s)) && Reached(PhaseOf(s.mode), Close(s)) == Idle
  {
  }

  /** A handler that refuses cuts the calls short, and what is left is still permitted. */
  lemma PrefixAccepted(p: Phase, calls: seq<Call>, prefix: seq<Call>)
    requires Accepted(p, calls) && prefix <= calls
    ensures Accepted(p, prefix)
  {
    forall i | 0 <= i < |prefix|
      ensures Permitted(Reached(p, prefix[..i]), prefix[i])
    {
      assert prefix[..i] == calls[..i];
    }
  }

  // ---------- The lines ----------

  function OnlyLines(calls: seq<Call>): seq<Call> {
    if calls == [] then [] else (if calls[0].Line? then [calls[0]] else []) + OnlyLines(calls[1..])
  }

  /** A function starts in `entries` before the unit ends. */
  ghost predicate FunctionFollows(entries: seq<Entry>) {
    exists j :: 0 <= j < |entries| && entries[j].kind == N_FUN && forall i :: 0 <= i < j ==> entries[i].kind != N_SO
  }

  /** The line that an N_SLINE entry stands for: inside a function its value is relative to the function's start. */
  function LineOf(s: State, e: Entry): Call {
    Line(if s.mode.InFunction? then Add(s.mode.start, e.value) else e.value, s.source, LineNumber(e))
  }

  /** The N_SLINE entries, in order, without those that stand outside a unit or that no function of their unit contains or
      follows. */
  ghost function ExpectedLines(c: Section, s: State, entries: seq<Entry>): seq<Call>
    requires c.Terminated()
    decreases entries
  {
    if entries == [] then []
    else
      var e, rest := entries[0], entries[1..];
      var reported := e.kind == N_SLINE && (s.mode.InFunction? || (s.mode.InUnit? && FunctionFollows(rest)));
      (if reported then [LineOf(s, e)] else []) + ExpectedLines(c, Step(c, s, e).state, rest)
  }

  lemma {:induction false} OnlyLinesConcat(a: seq<Call>, b: seq<Call>)
    ensures OnlyLines(a + b) == OnlyLines(a) + OnlyLines(b)
  {
    hide OnlyLines;
    if a == [] {
      assert [] + b == b && [] + OnlyLines(b) == OnlyLines(b);
      OnlyLinesOfNone();
    } else {
      var rest := a[1..];
      assert a == [a[0]] + rest;
      Associative([a[0]], rest, b);
      OnlyLinesFirst(a[0], rest);
      OnlyLinesFirst(a[0], rest + b);
      OnlyLinesConcat(rest, b);
      Associative(if a[0].Line? then [a[0]] else [], OnlyLines(rest), OnlyLines(b));
    }
  }

  lemma OnlyLinesOfNone()
    ensures OnlyLines([]) == []
  {
  }

  lemma OnlyLinesFirst(call: Call, rest: seq<Call>)
    ensures OnlyLines([call] + rest) == (if call.Line? then [call] else []) + OnlyLines(rest)
  {
    assert ([call] + rest)[1..] == rest;
  }

  lemma {:induction false} OnlyLinesOfLines(lines: seq<Call>)
    requires forall i :: 0 <= i < |lines| ==> lines[i].Line?
    ensures OnlyLines(lines) == lines
  {
    if lines != [] {
      OnlyLinesOfLines(lines[1..]);
    }
  }

  lemma FunctionFollowsStep(entries: seq<Entry>)
    ensures FunctionFollows(entries) <==>
              entries != [] && (entries[0].kind == N_FUN || (entries[0].kind != N_SO && FunctionFollows(entries[1..])))
  {
    if entries != [] {
      var rest := entries[1..];
      if FunctionFollows(rest) && entries[0].kind != N_SO {
        var j :| 0 <= j < |rest| && rest[j].kind == N_FUN && forall i :: 0 <= i < j ==> rest[i].kind != N_SO;
        assert entries[j + 1].kind == N_FUN;
        forall i | 0 <= i < j + 1
          ensures entries[i].kind != N_SO
        {
          assert i > 0 ==> entries[i] == rest[i - 1];
        }
      }
      if FunctionFollows(entries) && entries[0].kind != N_FUN {
        var j :| 0 <= j < |entries| && entries[j].kind == N_FUN && forall i :: 0 <= i < j ==> entries[i].kind != N_SO;
        assert rest[j - 1].kind == N_FUN;
        assert forall i :: 0 <= i < j - 1 ==> rest[i] == entries[i + 1];
      }
    }
  }

  /** The queued lines that a later function will claim. */
  ghost function Claimed(s: State, entries: seq<Entry>): seq<Call> {
    if s.mode.InUnit? && FunctionFollows(entries) then s.queue else []
  }

  lemma StepOutsideLines(c: Section, s: State, e: Entry)
    requires c.Terminated()
    ensures OnlyLines(StepOutside(c, s, e).calls) == []
    ensures forall directory :: OnlyLines(StartUnit(c, s, e, directory).calls) == []
    ensures StepOutside(c, s, e).state.queue == s.queue
    ensures forall directory :: StartUnit(c, s, e, directory).state.queue == s.queue
  {
  }

  /** What one entry does to the lines: those it makes the reader report now, those left to claim, and its own. */
  lemma StepInUnitLines(c: Section, s: State, e: Entry, rest: seq<Entry>)
    requires c.Terminated() && s.Valid() && s.mode.InUnit?
    ensures var m := StepInUnit(c, s, e);
            OnlyLines(m.calls) + Claimed(m.state, rest)
            == Claimed(s, [e] + rest) + (if e.kind == N_SLINE && FunctionFollows(rest) then [LineOf(s, e)] else [])
  {
    assert ([e] + rest)[1..] == rest;
    FunctionFollowsStep([e] + rest);
    var m := StepInUnit(c, s, e);
    if e.kind == N_SO {
      var closed := s.(mode := Outside, queue := []);
      StepOutsideLines(c, closed, e);
      OnlyLinesConcat([EndCompilationUnit(0)], StepOutside(c, closed, e).calls);
    } else if e.kind == N_FUN {
      OnlyLinesOfLines(s.queue);
      OnlyLinesConcat([m.calls[0]], s.queue);
    }
  }

  lemma StepInFunctionLines(c: Section, s: State, start: Address, e: Entry, rest: seq<Entry>)
    requires c.Terminated() && s.Valid() && s.mode == InFunction(start)
    ensures var m := StepInFunction(c, s, start, e);
            OnlyLines(m.calls) + Claimed(m.state, rest) == if e.kind == N_SLINE then [LineOf(s, e)] else []
  {
    hide StepInUnit;
    var open := s.(mode := InUnit);
    StepInUnitLines(c, open, e, rest);
    OnlyLinesConcat([EndFunction(e.value)], StepInUnit(c, open, e).calls);
  }

  lemma StepLines(c: Section, s: State, e: Entry, rest: seq<Entry>)
    requires c.Terminated() && s.Valid()
    ensures var m := Step(c, s, e);
            var reported := e.kind == N_SLINE && (s.mode.InFunction? || (s.mode.InUnit? && FunctionFollows(rest)));
            OnlyLines(m.calls) + Claimed(m.state, rest)
            == Claimed(s, [e] + rest) + (if reported then [LineOf(s, e)] else [])
  {
    hide StepInUnit, StepInFunction, StepOutside, StartUnit;
    match s.mode
    case InUnit => StepInUnitLines(c, s, e, rest);
    case InFunction(start) => StepInFunctionLines(c, s, start, e, rest);
    case Outside => StepOutsideLines(c, s, e);
    case AfterDirectory(directory) => StepOutsideLines(c, s, e);
  }

  lemma {:induction false} RunLines(c: Section, s: State, entries: seq<Entry>)
    requires c.Terminated() && s.Valid()
    ensures OnlyLines(Run(c, s, entries)) == Claimed(s, entries) + ExpectedLines(c, s, entries)
    decreases entries
  {
    hide Step, Claimed, FunctionFollows, LineOf;
    if entries == [] {
      CloseLines(s);
    } else {
      var m := Step(c, s, entries[0]);
      StepProper(c, s, entries[0]);
      assert [entries[0]] + entries[1..] == entries;
      StepLines(c, s, entries[0], entries[1..]);
      RunLines(c, m.state, entries[1..]);
      OnlyLinesConcat(m.calls, Run(c, m.state, entries[1..]));
      var later := ExpectedLines(c, m.state, entries[1..]);
      var own := ExpectedLines(c, s, entries)[..|ExpectedLines(c, s, entries)| - |later|];
      assert ExpectedLines(c, s, entries) == own + later;
      Associative(OnlyLines(m.calls), Claimed(m.state, entries[1..]), later);
      Associative(Claimed(s, entries), own, later);
    }
  }

  lemma CloseLines(s: State)
    ensures OnlyLines(Close(s)) == [] == Claimed(s, [])
  {
    assert Close(s) != [] ==> OnlyLines(Close(s)[1..]) == [];
  }

  /** With terminated strings: the lines reported are the N_SLINE entries, in order, minus those with no function of their
      unit at or after them. */
  lemma LinesReported(c: Section, entries: seq<Entry>)
    requires c.Terminated()
    ensures OnlyLines(Run(c, START, entries)) == ExpectedLines(c, START, entries)
  {
    RunLines(c, START, entries);
  }

  // ---------- The string base ----------

  /** The state after `entries`. */
  function After(c: Section, s: State, entries: seq<Entry>): State
    requires c.Terminated()
    decreases entries
  {
    if entries == [] then s else After(c, Step(c, s, entries[0]).state, entries[1..])
  }

  /** The entry is read as a unit header. */
  predicate IsHeader(c: Section, s: State, e: Entry) {
    c.unitized && e.kind == N_UNDF && !s.mode.InUnit? && !s.mode.InFunction?
  }

  /** The string sizes that the unit headers among `entries` give. */
  function HeaderSizes(c: Section, s: State, entries: seq<Entry>): seq<Address>
    requires c.Terminated()
    decreases entries
  {
    if entries == [] then []
    else
      (if IsHeader(c, s, entries[0]) then [entries[0].value] else [])
      + HeaderSizes(c, Step(c, s, entries[0]).state, entries[1..])
  }

  lemma StepBases(c: Section, s: State, e: Entry)
    requires c.Terminated()
    ensures var next := Step(c, s, e).state;
            if IsHeader(c, s, e) then next.base == s.nextBase && next.nextBase == e.value
            else next.base == s.base && next.nextBase == s.nextBase
  {
  }

  lemma {:induction false} BasesAfter(c: Section, s: State, entries: seq<Entry>)
    requires c.Terminated()
    ensures var sizes := HeaderSizes(c, s, entries);
            var all, end := [s.base, s.nextBase] + sizes, After(c, s, entries);
            end.base == all[|sizes|] && end.nextBase == all[|sizes| + 1]
    decreases entries
  {
    hide Step, IsHeader;
    if entries != [] {
      StepBases(c, s, entries[0]);
      BasesAfter(c, Step(c, s, entries[0]).state, entries[1..]);
    }
  }

  function Sum(s: seq<Address>): nat {
    if s == [] then 0 else Sum(s[..|s| - 1]) + s[|s| - 1]
  }

  /** The strings of a unit start after those of all the units before it. The reader's base is only the size of the last
      of these, so it is right exactly when the others have no strings; up to the second unit there are no others. */
  lemma StringBaseExactly(c: Section, entries: seq<Entry>)
    requires c.Terminated() && HeaderSizes(c, START, entries) != []
    ensures var sizes := HeaderSizes(c, START, entries);
            var before := sizes[..|sizes| - 1];
            After(c, START, entries).base == Sum(before) <==> |before| < 2 || Sum(before[..|before| - 1]) == 0
  {
    BasesAfter(c, START, entries);
    var sizes := HeaderSizes(c, START, entries);
    var before := sizes[..|sizes| - 1];
    assert |before| == 1 ==> before[..0] == [];
  }

  /** Three headers, for units with 5, 7 and 0 bytes of strings: the third unit's strings start at 12, and the reader looks
      for them at 7. */
  lemma ThirdUnitIsMisplaced()
    ensures var c := Section([0], true);
            var headers := [Entry(0, N_UNDF, 0, 0, 5), Entry(0, N_UNDF, 0, 0, 7), Entry(0, N_UNDF, 0, 0, 0)];
            && c.Terminated() && HeaderSizes(c, START, headers) == [5, 7, 0]
            && After(c, START, headers).base == 7 && Sum([5, 7]) == 12
  {
    var c := Section([0], true);
    var e0, e1, e2 := Entry(0, N_UNDF, 0, 0, 5), Entry(0, N_UNDF, 0, 0, 7), Entry(0, N_UNDF, 0, 0, 0);
    HeaderFirst(c, START, e0, [e1, e2]);
    HeaderFirst(c, START.(nextBase := 5), e1, [e2]);
    HeaderFirst(c, START.(base := 5, nextBase := 7), e2, []);
    assert [e0, e1, e2] == [e0] + [e1, e2] && [e1, e2] == [e1] + [e2] && [e2] == [e2] + [];
    SumOfTwo(5, 7);
  }

  lemma HeaderFirst(c: Section, s: State, e: Entry, rest: seq<Entry>)
    requires c.Terminated() && c.unitized && s.mode.Outside? && e.kind == N_UNDF
    ensures var next := s.(base := s.nextBase, nextBase := e.value);
            && After(c, s, [e] + rest) == After(c, next, rest)
            && HeaderSizes(c, s, [e] + rest) == [e.value] + HeaderSizes(c, next, rest)
  {
    assert ([e] + rest)[1..] == rest;
  }

  lemma SumOfTwo(a: Address, b: Address)
    ensures Sum([a, b]) == a + b
  {
    assert [a, b][..1] == [a] && [a][..0] == [];
    assert Sum([a]) == Sum([]) + a;
  }

  // ---------- Names ----------

  /** The names of a call are offsets into the string section. */
  predicate InStrings(section: Section, call: Call) {
    match call
    case StartCompilationUnit(name, _, _) => name < |section.strings|
    case Line(_, file, _) => file < |section.strings|
    case _ => true
  }

  ghost predicate AllInStrings(section: Section, calls: seq<Call>) {
    forall i :: 0 <= i < |calls| ==> InStrings(section, calls[i])
  }

  lemma StepInStrings(c: Section, s: State, e: Entry)
    requires c.Terminated() && s.source < |c.strings| && AllInStrings(c, s.queue)
    ensures var m := Step(c, s, e);
            m.state.source < |c.strings| && AllInStrings(c, m.state.queue) && AllInStrings(c, m.calls)
  {
    hide Section.Symbol, Section.Unnamed, Section.IsDirectory, Section.FunctionName, LineNumber;
  }

  /** Every file name in a call is taken from the string section, misplaced names included. */
  lemma {:induction false} RunInStrings(c: Section, s: State, entries: seq<Entry>)
    requires c.Terminated() && s.source < |c.strings| && AllInStrings(c, s.queue)
    ensures AllInStrings(c, Run(c, s, entries))
    decreases entries
  {
    hide Step;
    if entries != [] {
      StepInStrings(c, s, entries[0]);
      RunInStrings(c, Step(c, s, entries[0]).state, entries[1..]);
    }
  }
}
