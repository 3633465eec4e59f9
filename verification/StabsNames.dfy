/** The names under which a section of STABS entries starts functions, told from its bytes; and a section call by call. */
module StabsNames {
  import opened Addresses
  import opened Leb128
  import opened Options
  import opened Sequences
  import opened StabsEntries
  import opened StabsProtocol

  // ---------- Entry by entry ----------

  /** Where the reader is after `entries`, and the calls it has made. */
  function ReadAll(c: Section, s: State, entries: seq<Entry>): Move
    requires c.Terminated()
    decreases |entries|
  {
    if entries == [] then Move(s, [])
    else
      var before := ReadAll(c, s, entries[..|entries| - 1]);
      var m := Step(c, before.state, entries[|entries| - 1]);
      Move(m.state, before.calls + m.calls)
  }

  lemma ReadSnoc(c: Section, s: State, entries: seq<Entry>, e: Entry)
    requires c.Terminated()
    ensures ReadAll(c, s, entries + [e])
         == var before := ReadAll(c, s, entries); var m := Step(c, before.state, e); Move(m.state, before.calls + m.calls)
  {
    hide Step;
    assert (entries + [e])[..|entries|] == entries;
  }

  lemma ReadNone(c: Section, s: State)
    requires c.Terminated()
    ensures ReadAll(c, s, []) == Move(s, [])
  {
  }

  lemma RunFirst(c: Section, s: State, e: Entry, rest: seq<Entry>)
    requires c.Terminated()
    ensures Run(c, s, [e] + rest) == var m := Step(c, s, e); m.calls + Run(c, m.state, rest)
  {
    hide Step;
    assert ([e] + rest)[1..] == rest;
  }

  lemma {:induction false} RunFrom(c: Section, s: State, a: seq<Entry>, b: seq<Entry>)
    requires c.Terminated()
    ensures Run(c, s, a + b) == var m := ReadAll(c, s, a); m.calls + Run(c, m.state, b)
    decreases |a|
  {
    hide Run, Step, ReadAll;
    if a == [] {
      EmptyEnds(b);
      ReadNone(c, s);
      EmptyEnds(Run(c, s, b));
    } else {
      var init, last := a[..|a| - 1], a[|a| - 1];
      assert init + [last] == a;
      ReadSnoc(c, s, init, last);
      Associative(init, [last], b);
      RunFrom(c, s, init, [last] + b);
      var before := ReadAll(c, s, init);
      RunFirst(c, before.state, last, b);
      var m := Step(c, before.state, last);
      Associative(before.calls, m.calls, Run(c, m.state, b));
    }
  }

  /** The calls of a section are those of its entries and the closing ones. */
  lemma RunIsReadAll(c: Section, s: State, entries: seq<Entry>)
    requires c.Terminated()
    ensures Run(c, s, entries) == ReadAll(c, s, entries).calls + Close(ReadAll(c, s, entries).state)
  {
    hide Step, ReadAll;
    RunFrom(c, s, entries, []);
    EmptyEnds(entries);
  }

  // ---------- Names ----------

  /** Where in the string section an entry's name begins: the sum is taken as a signed 64-bit offset, and one outside the
      section stands for its first byte. */
  function NameStart(strings: seq<Byte>, base: Address, e: Entry): nat {
    var offset := (base + e.nameOffset) % 0x1_0000_0000_0000_0000;
    if offset < 0x8000_0000_0000_0000 && offset < |strings| then offset else 0
  }

  /** `name` is the C string that begins at `start`, up to its first colon. */
  ghost predicate IsFunctionName(strings: seq<Byte>, start: nat, name: seq<Byte>) {
    && start + |name| < |strings| && name == strings[start..start + |name|]
    && 0 !in name && ':' as int !in name
    && (strings[start + |name|] == 0 || strings[start + |name|] == ':' as int)
  }

  lemma FunctionNameIs(c: Section, base: Address, e: Entry)
    requires c.Terminated()
    ensures c.Symbol(base, e) == NameStart(c.strings, base, e)
    ensures IsFunctionName(c.strings, NameStart(c.strings, base, e), c.FunctionName(c.Symbol(base, e)))
    ensures NameStart(c.strings, base, e) < |c.strings|
  {
    hide Until;
    var start := c.Symbol(base, e);
    assert c.strings[start..][|c.strings| - 1 - start] == 0;
  }

  /** The entry starts a function: N_FUN, inside a unit, and not the unnamed one that ends an open function. */
  ghost predicate Starts(strings: seq<Byte>, before: State, e: Entry) {
    && e.kind == 0x24
    && (before.mode.InUnit?
        || (before.mode.InFunction? && strings != [] && strings[NameStart(strings, before.base, e)] != 0))
  }

  function OnlyStarts(calls: seq<Call>): seq<Call> {
    if calls == [] then []
    else OnlyStarts(calls[..|calls| - 1]) + if calls[|calls| - 1].StartFunction? then [calls[|calls| - 1]] else []
  }

  lemma OnlyStartsSnoc(calls: seq<Call>, call: Call)
    ensures OnlyStarts(calls + [call]) == OnlyStarts(calls) + if call.StartFunction? then [call] else []
  {
    assert (calls + [call])[..|calls|] == calls;
  }

  lemma {:induction false} OnlyStartsConcat(a: seq<Call>, b: seq<Call>)
    ensures OnlyStarts(a + b) == OnlyStarts(a) + OnlyStarts(b)
    decreases |b|
  {
    hide OnlyStarts;
    if b == [] {
      EmptyEnds(a);
      NoStarts(b);
      EmptyEnds(OnlyStarts(a));
    } else {
      var init, last := b[..|b| - 1], b[|b| - 1];
      assert init + [last] == b;
      Associative(a, init, [last]);
      OnlyStartsSnoc(a + init, last);
      OnlyStartsSnoc(init, last);
      OnlyStartsConcat(a, init);
      Associative(OnlyStarts(a), OnlyStarts(init), if last.StartFunction? then [last] else []);
    }
  }

  lemma {:induction false} NoStarts(calls: seq<Call>)
    requires forall i :: 0 <= i < |calls| ==> !calls[i].StartFunction?
    ensures OnlyStarts(calls) == []
    decreases |calls|
  {
    if calls != [] {
      NoStarts(calls[..|calls| - 1]);
    }
  }

  /** A StartFunction call with the address and the name of the entry. */
  ghost predicate StartedBy(strings: seq<Byte>, before: State, e: Entry, call: Call) {
    call.StartFunction? && call.address == e.value
    && IsFunctionName(strings, NameStart(strings, before.base, e), call.functionName)
  }

  /** `calls` are, in order, the starts that the entries mean, one for each entry that starts a function. */
  ghost predicate AreStarts(c: Section, s: State, entries: seq<Entry>, calls: seq<Call>)
    requires c.Terminated()
    decreases |entries|
  {
    if entries == [] then calls == []
    else
      var init, e := entries[..|entries| - 1], entries[|entries| - 1];
      var before := ReadAll(c, s, init).state;
      if Starts(c.strings, before, e) then
        calls != [] && StartedBy(c.strings, before, e, calls[|calls| - 1]) && AreStarts(c, s, init, calls[..|calls| - 1])
      else
        AreStarts(c, s, init, calls)
  }

  lemma StepInUnitStarts(c: Section, s: State, e: Entry)
    requires c.Terminated() && s.Valid() && s.mode.InUnit?
    ensures if e.kind == 0x24
            then exists call :: OnlyStarts(StepInUnit(c, s, e).calls) == [call] && StartedBy(c.strings, s, e, call)
            else OnlyStarts(StepInUnit(c, s, e).calls) == []
  {
    hide OnlyStarts, IsFunctionName, NameStart, Section.Symbol, Section.FunctionName, Section.IsDirectory, Section.Unnamed;
    if e.kind == 0x24 {
      var call := StartFunction(c.FunctionName(c.Symbol(s.base, e)), e.value);
      FunctionNameIs(c, s.base, e);
      OnlyStartsConcat([call], s.queue);
      NoStarts(s.queue);
      NoStarts([]);
      EmptyEnds([call]);
      OnlyStartsSnoc([], call);
      assert OnlyStarts(StepInUnit(c, s, e).calls) == [call];
    } else {
      NoStarts(StepInUnit(c, s, e).calls);
    }
  }

  lemma StepStarts(c: Section, s: State, e: Entry)
    requires c.Terminated() && s.Valid()
    ensures if Starts(c.strings, s, e)
            then exists call :: OnlyStarts(Step(c, s, e).calls) == [call] && StartedBy(c.strings, s, e, call)
            else OnlyStarts(Step(c, s, e).calls) == []
  {
    hide OnlyStarts, StartedBy, NameStart, Section.Symbol, Section.FunctionName, Section.IsDirectory, StepInUnit;
    FunctionNameIs(c, s.base, e);
    if s.mode.InUnit? {
      StepInUnitStarts(c, s, e);
    } else if s.mode.InFunction? && (e.kind == N_SO || (e.kind == N_FUN && !c.Unnamed(c.Symbol(s.base, e)))) {
      var open := s.(mode := InUnit);
      StepInUnitStarts(c, open, e);
      NoStarts([EndFunction(e.value)]);
      OnlyStartsConcat([EndFunction(e.value)], StepInUnit(c, open, e).calls);
      EmptyEnds(OnlyStarts(StepInUnit(c, open, e).calls));
      StartedByBase(c.strings, open, s, e);
    } else {
      NoStarts(Step(c, s, e).calls);
    }
  }

  lemma StartedByBase(strings: seq<Byte>, s: State, t: State, e: Entry)
    requires s.base == t.base
    ensures forall call :: StartedBy(strings, s, e, call) ==> StartedBy(strings, t, e, call)
  {
  }

  lemma {:induction false} ReadAllStarts(c: Section, s: State, entries: seq<Entry>)
    requires c.Terminated() && s.Valid()
    ensures ReadAll(c, s, entries).state.Valid()
    ensures AreStarts(c, s, entries, OnlyStarts(ReadAll(c, s, entries).calls))
    decreases |entries|
  {
    hide State.Valid, Step, OnlyStarts, StartedBy, Starts;
    if entries == [] {
      NoStarts([]);
    } else {
      var init, e := entries[..|entries| - 1], entries[|entries| - 1];
      ReadAllStarts(c, s, init);
      var before := ReadAll(c, s, init);
      var m := Step(c, before.state, e);
      StepKeepsValid(c, before.state, e);
      StepStarts(c, before.state, e);
      OnlyStartsConcat(before.calls, m.calls);
      EmptyEnds(OnlyStarts(before.calls));
      if call :| OnlyStarts(m.calls) == [call] && StartedBy(c.strings, before.state, e, call) {
        var all := OnlyStarts(before.calls) + [call];
        assert all[..|all| - 1] == OnlyStarts(before.calls) && all[|all| - 1] == call;
      }
    }
  }

  lemma StepKeepsValid(c: Section, s: State, e: Entry)
    requires c.Terminated() && s.Valid()
    ensures Step(c, s, e).state.Valid()
  {
    hide Step;
    StepProper(c, s, e);
  }

  /** From any point in a section with terminated strings: the functions started are, in order, one for each N_FUN entry
      that starts one, each at the entry's value and under the entry's C string up to its first colon. */
  lemma FunctionsStarted(c: Section, s: State, entries: seq<Entry>)
    requires c.Terminated() && s.Valid()
    ensures AreStarts(c, s, entries, OnlyStarts(Run(c, s, entries)))
  {
    hide Run, ReadAll, AreStarts;
    RunIsReadAll(c, s, entries);
    ReadAllStarts(c, s, entries);
    var m := ReadAll(c, s, entries);
    NoStarts(Close(m.state));
    OnlyStartsConcat(m.calls, Close(m.state));
    EmptyEnds(OnlyStarts(m.calls));
  }

  lemma {:induction false} StartIsAmong(calls: seq<Call>, call: Call)
    requires call in calls && call.StartFunction?
    ensures call in OnlyStarts(calls)
    decreases |calls|
  {
    var init, last := calls[..|calls| - 1], calls[|calls| - 1];
    assert init + [last] == calls;
    if call != last {
      StartIsAmong(init, call);
    }
  }

  lemma {:induction false} StartHasEntry(c: Section, s: State, entries: seq<Entry>, starts: seq<Call>, call: Call)
    requires c.Terminated() && AreStarts(c, s, entries, starts) && call in starts
    ensures exists j :: 0 <= j < |entries| && entries[j].kind == 0x24
                        && StartedBy(c.strings, ReadAll(c, s, entries[..j]).state, entries[j], call)
    decreases |entries|
  {
    hide ReadAll, StartedBy;
    var init, e := entries[..|entries| - 1], entries[|entries| - 1];
    var before := ReadAll(c, s, init).state;
    if Starts(c.strings, before, e) && call == starts[|starts| - 1] {
      assert entries[..|init|] == init && entries[|init|] == e;
    } else {
      var rest := if Starts(c.strings, before, e) then starts[..|starts| - 1] else starts;
      StartHasEntry(c, s, init, rest, call);
      var j :| 0 <= j < |init| && init[j].kind == 0x24
               && StartedBy(c.strings, ReadAll(c, s, init[..j]).state, init[j], call);
      assert entries[..j] == init[..j] && entries[j] == init[j];
    }
  }

  /** Every StartFunction call comes from an N_FUN entry, whose value is the address, and whose C string up to the first
      colon is the name. */
  lemma StartIsNamed(c: Section, s: State, entries: seq<Entry>, call: Call)
    requires c.Terminated() && s.Valid() && call in Run(c, s, entries) && call.StartFunction?
    ensures exists j :: 0 <= j < |entries| && entries[j].kind == 0x24
                        && StartedBy(c.strings, ReadAll(c, s, entries[..j]).state, entries[j], call)
  {
    hide Run, ReadAll, AreStarts, StartedBy, OnlyStarts;
    FunctionsStarted(c, s, entries);
    StartIsAmong(Run(c, s, entries), call);
    StartHasEntry(c, s, entries, OnlyStarts(Run(c, s, entries)), call);
  }

  // ---------- A section call by call ----------

  lemma TextAt(c: Section, start: nat, stop: Byte, name: seq<Byte>)
    requires start + |name| < |c.strings|
    requires forall i :: 0 <= i < |name| ==> c.strings[start + i] == name[i]
    requires 0 !in name && stop !in name && (c.strings[start + |name|] == 0 || c.strings[start + |name|] == stop)
    ensures Until(c.strings[start..], stop) == name
  {
    hide Until;
    var s := c.strings[start..];
    var r := Until(s, stop);
    assert forall k :: 0 <= k < |r| ==> r[k] == s[k];
    assert forall k :: 0 <= k < |name| ==> s[k] == name[k];
  }

  lemma DirectoryAt(c: Section, start: nat, name: seq<Byte>)
    requires name != [] && start + |name| < |c.strings|
    requires forall i :: 0 <= i < |name| ==> c.strings[start + i] == name[i]
    requires 0 !in name && c.strings[start + |name|] == 0
    ensures c.IsDirectory(start) <==> name[|name| - 1] == 0x2F
  {
    TextAt(c, start, 0, name);
  }

  /** Two units' strings: "", "/d/", "a.c", "main:F1", "b.h", "f"; and "c". */
  const STRINGS: seq<Byte> :=
    [0, 0x2F, 0x64, 0x2F, 0, 0x61, 0x2E, 0x63, 0, 0x6D, 0x61, 0x69, 0x6E, 0x3A, 0x46, 0x31, 0,
     0x62, 0x2E, 0x68, 0, 0x66, 0, 0x63, 0]

  lemma Directories(c: Section)
    requires c.strings == STRINGS
    ensures c.Terminated() && c.IsDirectory(1)
  {
    hide Section.IsDirectory;
    DirectoryAt(c, 1, [0x2F, 0x64, 0x2F]);
  }

  lemma NoDirectories(c: Section)
    requires c.strings == STRINGS
    ensures !c.IsDirectory(5) && !c.IsDirectory(23)
  {
    hide Section.IsDirectory;
    DirectoryAt(c, 5, [0x61, 0x2E, 0x63]);
    DirectoryAt(c, 23, [0x63]);
  }

  lemma MainName(c: Section)
    requires c.strings == STRINGS
    ensures c.FunctionName(9) == [0x6D, 0x61, 0x69, 0x6E]
  {
    hide Until;
    TextAt(c, 9, 0x3A, [0x6D, 0x61, 0x69, 0x6E]);
  }

  lemma ShortNames(c: Section)
    requires c.strings == STRINGS
    ensures c.FunctionName(21) == [0x66] && c.FunctionName(23) == [0x63]
  {
    hide Until;
    TextAt(c, 21, 0x3A, [0x66]);
    TextAt(c, 23, 0x3A, [0x63]);
  }

  lemma Unnameds(c: Section)
    requires c.strings == STRINGS
    ensures c.Unnamed(0) && !c.Unnamed(5) && !c.Unnamed(9) && !c.Unnamed(21) && !c.Unnamed(23)
  {
  }

  /** What is known of these strings. */
  ghost predicate Known(c: Section) {
    && |c.strings| == 25 && c.unitized && c.Terminated()
    && c.Unnamed(0) && !c.Unnamed(5) && !c.Unnamed(9) && !c.Unnamed(21) && !c.Unnamed(23)
    && c.IsDirectory(1) && !c.IsDirectory(5) && !c.IsDirectory(23)
    && c.FunctionName(9) == [0x6D, 0x61, 0x69, 0x6E] && c.FunctionName(21) == [0x66] && c.FunctionName(23) == [0x63]
  }

  /** A unit with a directory, a line before its first function, a header file, a function without an end and one with its
      size; a second unit that is entered without an end of the first one's last function; and one that ends nowhere. */
  const FIRST_UNIT: seq<Entry> :=
    [Entry(0, 0x00, 0, 10, 23), Entry(1, 0x64, 0, 0, 0x1000), Entry(5, 0x64, 0, 0, 0x1000),
     Entry(0, 0x44, 0, 3, 0x1000), Entry(9, 0x24, 0, 0, 0x1000), Entry(17, 0x84, 0, 0, 0x1004), Entry(0, 0x44, 0, -1, 4),
     Entry(21, 0x24, 0, 0, 0x1010), Entry(0, 0x24, 0, 0, 8), Entry(0, 0x64, 0, 0, 0x1020)]
  const SECOND_UNIT: seq<Entry> :=
    [Entry(0, 0x00, 0, 6, 2), Entry(0, 0x64, 0, 0, 0x2000), Entry(0, 0x24, 0, 0, 0x2000), Entry(100, 0x84, 0, 0, 0x2010),
     Entry(0, 0x44, 0, 7, 0x10), Entry(0, 0x64, 0, 0, 0x3000), Entry(0, 0x24, 0, 0, 0x3000)]

  lemma ReadNext(c: Section, s: State, entries: seq<Entry>, i: nat, m: Move, more: seq<Call>, next: State)
    requires c.Terminated() && i < |entries|
    requires ReadAll(c, s, entries[..i]) == m && Step(c, m.state, entries[i]) == Move(next, more)
    ensures ReadAll(c, s, entries[..i + 1]) == Move(next, m.calls + more)
  {
    hide Step, ReadAll;
    assert entries[..i] + [entries[i]] == entries[..i + 1];
    ReadSnoc(c, s, entries[..i], entries[i]);
  }

  lemma HeadRead(c: Section)
    requires Known(c)
    ensures ReadAll(c, START, FIRST_UNIT[..3])
         == Move(State(InUnit, 0, 23, 5, []), [StartCompilationUnit(5, 0x1000, Some(1))])
  {
    hide ReadAll, Section.IsDirectory, Section.Unnamed, Section.FunctionName;
    var none := Move(START, []);
    ReadNone(c, START);
    assert FIRST_UNIT[..0] == [];
    ReadNext(c, START, FIRST_UNIT, 0, none, [], State(Outside, 0, 23, 0, []));
    ReadNext(c, START, FIRST_UNIT, 1, Move(State(Outside, 0, 23, 0, []), []), [], State(AfterDirectory(1), 0, 23, 0, []));
    ReadNext(c, START, FIRST_UNIT, 2, Move(State(AfterDirectory(1), 0, 23, 0, []), []),
             [StartCompilationUnit(5, 0x1000, Some(1))], State(InUnit, 0, 23, 5, []));
  }

  lemma FirstFunctionRead(c: Section)
    requires Known(c)
    ensures ReadAll(c, START, FIRST_UNIT[..7])
         == Move(State(InFunction(0x1000), 0, 23, 17, []),
                 [StartCompilationUnit(5, 0x1000, Some(1)),
                  StartFunction([0x6D, 0x61, 0x69, 0x6E], 0x1000), Line(0x1000, 5, 3), Line(0x1004, 17, 65535)])
  {
    hide ReadAll, Section.IsDirectory, Section.Unnamed, Section.FunctionName;
    var calls := [StartCompilationUnit(5, 0x1000, Some(1))];
    var s3 := State(InUnit, 0, 23, 5, []);
    var s4 := State(InUnit, 0, 23, 5, [Line(0x1000, 5, 3)]);
    var more := [StartFunction([0x6D, 0x61, 0x69, 0x6E], 0x1000), Line(0x1000, 5, 3)];
    var s5 := State(InFunction(0x1000), 0, 23, 5, []);
    var s6 := State(InFunction(0x1000), 0, 23, 17, []);
    HeadRead(c);
    ReadNext(c, START, FIRST_UNIT, 3, Move(s3, calls), [], s4);
    ReadNext(c, START, FIRST_UNIT, 4, Move(s4, calls), more, s5);
    ReadNext(c, START, FIRST_UNIT, 5, Move(s5, calls + more), [], s6);
    ReadNext(c, START, FIRST_UNIT, 6, Move(s6, calls + more), [Line(0x1004, 17, 65535)], s6);
  }

  lemma FirstUnitRead(c: Section)
    requires Known(c)
    ensures ReadAll(c, START, FIRST_UNIT)
         == Move(State(Outside, 0, 23, 17, []),
                 [StartCompilationUnit(5, 0x1000, Some(1)),
                  StartFunction([0x6D, 0x61, 0x69, 0x6E], 0x1000), Line(0x1000, 5, 3), Line(0x1004, 17, 65535),
                  EndFunction(0x1010), StartFunction([0x66], 0x1010), EndFunction(0x1018), EndCompilationUnit(0x1020)])
  {
    hide ReadAll, Section.IsDirectory, Section.Unnamed, Section.FunctionName;
    FirstFunctionRead(c);
    var m7 := ReadAll(c, START, FIRST_UNIT[..7]);
    var s8, s9 := State(InFunction(0x1010), 0, 23, 17, []), State(InUnit, 0, 23, 17, []);
    ReadNext(c, START, FIRST_UNIT, 7, m7, [EndFunction(0x1010), StartFunction([0x66], 0x1010)], s8);
    var m8 := ReadAll(c, START, FIRST_UNIT[..8]);
    ReadNext(c, START, FIRST_UNIT, 8, m8, [EndFunction(0x1018)], s9);
    var m9 := ReadAll(c, START, FIRST_UNIT[..9]);
    ReadNext(c, START, FIRST_UNIT, 9, m9, [EndCompilationUnit(0x1020)], State(Outside, 0, 23, 17, []));
    assert FIRST_UNIT[..10] == FIRST_UNIT;
  }

  lemma SecondUnitRead(c: Section)
    requires Known(c)
    ensures ReadAll(c, State(Outside, 0, 23, 17, []), SECOND_UNIT)
         == Move(State(InFunction(0x3000), 23, 2, 23, []),
                 [StartCompilationUnit(23, 0x2000, None),
                  StartFunction([0x63], 0x2000), Line(0x2010, 0, 7), EndFunction(0x3000), EndCompilationUnit(0),
                  StartCompilationUnit(23, 0x3000, None), StartFunction([0x63], 0x3000)])
  {
    hide ReadAll, Section.IsDirectory, Section.Unnamed, Section.FunctionName;
    var s := State(Outside, 0, 23, 17, []);
    SecondFunctionRead(c);
    var m5 := ReadAll(c, s, SECOND_UNIT[..5]);
    var s6 := State(InUnit, 23, 2, 23, []);
    ReadNext(c, s, SECOND_UNIT, 5, m5,
             [EndFunction(0x3000), EndCompilationUnit(0), StartCompilationUnit(23, 0x3000, None)], s6);
    var m6 := ReadAll(c, s, SECOND_UNIT[..6]);
    ReadNext(c, s, SECOND_UNIT, 6, m6, [StartFunction([0x63], 0x3000)], State(InFunction(0x3000), 23, 2, 23, []));
    assert SECOND_UNIT[..7] == SECOND_UNIT;
  }

  lemma SecondFunctionRead(c: Section)
    requires Known(c)
    ensures ReadAll(c, State(Outside, 0, 23, 17, []), SECOND_UNIT[..5])
         == Move(State(InFunction(0x2000), 23, 2, 0, []),
                 [StartCompilationUnit(23, 0x2000, None), StartFunction([0x63], 0x2000), Line(0x2010, 0, 7)])
  {
    hide ReadAll, Section.IsDirectory, Section.Unnamed, Section.FunctionName;
    var s := State(Outside, 0, 23, 17, []);
    var s1, s2 := State(Outside, 23, 2, 17, []), State(InUnit, 23, 2, 23, []);
    var s3, s4 := State(InFunction(0x2000), 23, 2, 23, []), State(InFunction(0x2000), 23, 2, 0, []);
    var started := [StartCompilationUnit(23, 0x2000, None)];
    ReadNone(c, s);
    assert SECOND_UNIT[..0] == [];
    ReadNext(c, s, SECOND_UNIT, 0, Move(s, []), [], s1);
    ReadNext(c, s, SECOND_UNIT, 1, Move(s1, []), started, s2);
    ReadNext(c, s, SECOND_UNIT, 2, Move(s2, started), [StartFunction([0x63], 0x2000)], s3);
    ReadNext(c, s, SECOND_UNIT, 3, Move(s3, started + [StartFunction([0x63], 0x2000)]), [], s4);
    ReadNext(c, s, SECOND_UNIT, 4, Move(s4, started + [StartFunction([0x63], 0x2000)]), [Line(0x2010, 0, 7)], s4);
  }

  /** The calls of these two units, one by one. */
  lemma WorkedSection()
    ensures Section(STRINGS, true).Terminated()
    ensures Run(Section(STRINGS, true), START, FIRST_UNIT + SECOND_UNIT)
         == [StartCompilationUnit(5, 0x1000, Some(1)),
             StartFunction([0x6D, 0x61, 0x69, 0x6E], 0x1000), Line(0x1000, 5, 3), Line(0x1004, 17, 65535),
             EndFunction(0x1010), StartFunction([0x66], 0x1010), EndFunction(0x1018), EndCompilationUnit(0x1020)]
            + ([StartCompilationUnit(23, 0x2000, None),
                StartFunction([0x63], 0x2000), Line(0x2010, 0, 7), EndFunction(0x3000), EndCompilationUnit(0),
                StartCompilationUnit(23, 0x3000, None), StartFunction([0x63], 0x3000)]
               + [EndFunction(0), EndCompilationUnit(0)])
  {
    hide Run, ReadAll, Section.IsDirectory, Section.Unnamed, Section.FunctionName;
    var c := Section(STRINGS, true);
    Directories(c);
    NoDirectories(c);
    MainName(c);
    ShortNames(c);
    Unnameds(c);
    FirstUnitRead(c);
    RunFrom(c, START, FIRST_UNIT, SECOND_UNIT);
    SecondUnitRead(c);
    RunIsReadAll(c, State(Outside, 0, 23, 17, []), SECOND_UNIT);
  }
}
