/** The reader of STABS sections: nested loops with an entry of lookahead, against the one-pass meaning of a section. */
module StabsReader {
  import opened Addresses
  import opened ByteCursor
  import opened Leb128
  import opened Options
  import opened Sequences
  import opened StabsEntries
  import opened StabsProtocol

  class StabsReader {
    const section: Section
    const it: EntryIterator
    /** The handler: whether it returns true from the last of the calls made on it so far. */
    const accepts: seq<Call> -> bool
    var calls: seq<Call>
    var warnings: seq<nat>
    var stringOffset: Address
    var nextCUStringOffset: Address
    var currentSourceFile: nat
    var queuedLines: seq<Call>

    ghost predicate Valid()
      reads this, it, it.cursor
    {
      section.Terminated() && it.Valid()
    }

    /** The handler has accepted every call so far. */
    ghost predicate Accepting()
      reads `calls
    {
      forall k :: 0 < k <= |calls| ==> accepts(calls[..k])
    }

    function Fields(mode: Mode): State
      reads this
    {
      State(mode, stringOffset, nextCUStringOffset, currentSourceFile, queuedLines)
    }

    /** The reader is inside `mode`, and the calls so far are those of `total` up to the current entry. */
    ghost predicate OnTrack(total: seq<Call>, mode: Mode)
      reads this, it, it.cursor
    {
      Valid() && Accepting() && calls + Run(section, Fields(mode), it.Rest()) == total
    }

    /** The calls are those of `total` up to the first that the handler refused. */
    ghost predicate Refused(total: seq<Call>)
      reads `calls
    {
      && calls != [] && calls <= total && !accepts(calls)
      && forall k :: 0 < k < |calls| ==> accepts(calls[..k])
    }

    constructor (stab: seq<Byte>, strings: seq<Byte>, layout: Layout, unitized: bool, accepts: seq<Call> -> bool)
      requires layout.Plausible() && Section(strings, unitized).Terminated()
      ensures this.section == Section(strings, unitized) && this.accepts == accepts
      ensures fresh(it) && fresh(it.cursor)
      ensures OnTrack(Run(section, START, layout.Entries(stab)), Outside) && warnings == []
    {
      hide Run;
      section, this.accepts := Section(strings, unitized), accepts;
      calls, warnings := [], [];
      stringOffset, nextCUStringOffset, currentSourceFile, queuedLines := 0, 0, 0, [];
      it := new EntryIterator(stab, layout);
      new;
      assert Fields(Outside) == START;
    }

    /** One call on the handler. */
    method Issue(call: Call, ghost total: seq<Call>) returns (ok: bool)
      requires Accepting() && calls + [call] <= total
      modifies `calls
      ensures calls == old(calls) + [call]
      ensures if ok then Accepting() else Refused(total)
    {
      calls := calls + [call];
      ok := accepts(calls);
      assert calls[..|calls|] == calls;
      assert forall k :: 0 <= k < |calls| ==> calls[..k] == old(calls)[..k];
    }

    /** The offset of the current entry's name. A misplaced name draws a warning, and no other name does. */
    method SymbolString() returns (offset: nat)
      requires Valid() && !it.atEnd
      modifies `warnings
      ensures offset == section.Symbol(stringOffset, it.entry)
      ensures warnings == if section.Misplaced(stringOffset, it.entry) then old(warnings) + [it.index] else old(warnings)
      ensures var sum := (stringOffset + it.entry.nameOffset) % 0x1_0000_0000_0000_0000;
              if sum < 0x8000_0000_0000_0000 && sum < |section.strings| then offset == sum && warnings == old(warnings)
              else offset == 0 && warnings == old(warnings) + [it.index]
    {
      offset := Add(stringOffset, it.entry.nameOffset);
      if offset >= 0x8000_0000_0000_0000 || offset >= |section.strings| {
        warnings := warnings + [it.index];
        offset := 0;
      }
    }

    /** `Process`: makes the calls that the section means, and returns true when the handler accepts them all; otherwise it
        stops with the first call that is refused. */
    method Process() returns (ok: bool)
      requires Valid() && Accepting()
      modifies this, it, it.cursor
      ensures var total := old(calls + Run(section, Fields(Outside), it.Rest()));
              if ok then Accepting() && calls == total else Refused(total)
    {
      hide Run, Step, Layout.Entries;
      ghost var total := calls + Run(section, Fields(Outside), it.Rest());
      while !it.atEnd
        invariant OnTrack(total, Outside)
        decreases |it.Rest()|
      {
        if it.entry.kind == N_SO {
          var more := ProcessCompilationUnit(total);
          if !more {
            return false;
          }
        } else {
          SkipOutside(section, Fields(Outside), it.Rest());
          if it.entry.kind == N_UNDF && section.unitized {
            stringOffset := nextCUStringOffset;
            nextCUStringOffset := it.entry.value;
          }
          it.Advance();
        }
      }
      RunEnd(section, Fields(Outside));
      ok := true;
    }

    method ProcessCompilationUnit(ghost total: seq<Call>) returns (ok: bool)
      requires OnTrack(total, Outside) && !it.atEnd && it.entry.kind == N_SO
      modifies this, it, it.cursor
      ensures Valid()
      ensures if ok then OnTrack(total, Outside) && |it.Rest()| < old(|it.Rest()|) else Refused(total)
    {
      hide Run, Step, Layout.Entries, Section.Symbol, Section.IsDirectory, Section.Unnamed, Accepting, Refused;
      ghost var count := |it.Rest()|;
      var directory := None;
      ghost var mode := Outside;
      var name := SymbolString();
      if section.IsDirectory(name) {
        directory, mode := Some(name), AfterDirectory(name);
        DirectoryNamed(section, Fields(Outside), it.Rest());
        it.Advance();
      }
      if it.atEnd || it.entry.kind != N_SO {
        LeaveDirectory(section, Fields(mode), it.Rest());
        return true;
      }
      name := SymbolString();
      UnitStarts(section, Fields(mode), it.Rest(), directory);
      if section.Unnamed(name) {
        it.Advance();
        return true;
      }
      ok := ProcessNamedUnit(name, directory, total);
    }

    /** A unit whose name is known, from its N_SO entry. */
    method ProcessNamedUnit(name: nat, directory: Option<nat>, ghost total: seq<Call>) returns (ok: bool)
      requires Valid() && Accepting() && !it.atEnd
      requires calls + ([StartCompilationUnit(name, it.entry.value, directory)]
                        + Run(section, Fields(InUnit).(source := name), it.Rest()[1..])) == total
      modifies this, it, it.cursor
      ensures Valid()
      ensures if ok then OnTrack(total, Outside) && |it.Rest()| < old(|it.Rest()|) else Refused(total)
    {
      hide Run, Step, Layout.Entries, Section.Symbol, Section.IsDirectory, Section.Unnamed, Accepting, Refused;
      currentSourceFile := name;
      var call := StartCompilationUnit(name, it.entry.value, directory);
      Heads(calls, call, Run(section, Fields(InUnit), it.Rest()[1..]), total);
      ok := Issue(call, total);
      if !ok {
        return;
      }
      it.Advance();
      ok := ProcessUnitBody(total);
      if !ok {
        return;
      }
      ok := FinishUnit(total);
    }

    /** The entries up to the next N_SO. */
    method ProcessUnitBody(ghost total: seq<Call>) returns (ok: bool)
      requires OnTrack(total, InUnit)
      modifies this, it, it.cursor
      ensures Valid()
      ensures if ok then OnTrack(total, InUnit) && (it.atEnd || it.entry.kind == N_SO) else Refused(total)
      ensures |it.Rest()| <= old(|it.Rest()|)
    {
      hide Run, Step, Layout.Entries, Section.Symbol, Accepting, Refused;
      while !it.atEnd && it.entry.kind != N_SO
        invariant OnTrack(total, InUnit) && |it.Rest()| <= old(|it.Rest()|)
        decreases |it.Rest()|
      {
        if it.entry.kind == N_FUN {
          ok := ProcessFunction(total);
          if !ok {
            return;
          }
        } else {
          UnitEntry(section, Fields(InUnit), it.Rest());
          if it.entry.kind == N_SLINE {
            queuedLines := queuedLines + [Line(it.entry.value, currentSourceFile, LineNumber(it.entry))];
          } else if it.entry.kind == N_SOL {
            currentSourceFile := SymbolString();
          }
          it.Advance();
        }
      }
      ok := true;
    }

    /** The end of a unit: an N_SO entry without a name gives the ending address and is consumed; any other begins the next
        unit. */
    method FinishUnit(ghost total: seq<Call>) returns (ok: bool)
      requires OnTrack(total, InUnit) && (it.atEnd || it.entry.kind == N_SO)
      modifies this, it, it.cursor
      ensures Valid()
      ensures if ok then OnTrack(total, Outside) else Refused(total)
      ensures |it.Rest()| <= old(|it.Rest()|)
    {
      hide Run, Step, Layout.Entries, Section.Symbol, Section.Unnamed, Accepting, Refused;
      UnitEnds(section, Fields(InUnit), it.Rest());
      var ending: Address := 0;
      if !it.atEnd {
        var name := SymbolString();
        if section.Unnamed(name) {
          ending := it.entry.value;
          it.Advance();
        }
      }
      Heads(calls, EndCompilationUnit(ending), Run(section, Fields(Outside).(queue := []), it.Rest()), total);
      ok := Issue(EndCompilationUnit(ending), total);
      if !ok {
        return;
      }
      queuedLines := [];
    }

    method ProcessFunction(ghost total: seq<Call>) returns (ok: bool)
      requires OnTrack(total, InUnit) && !it.atEnd && it.entry.kind == N_FUN
      modifies this, it, it.cursor
      ensures Valid()
      ensures if ok then OnTrack(total, InUnit) else Refused(total)
      ensures |it.Rest()| <= old(|it.Rest()|) && (ok ==> |it.Rest()| < old(|it.Rest()|))
    {
      hide Run, Step, Layout.Entries, Section.Symbol, Section.FunctionName, Accepting, Refused;
      var functionAddress := it.entry.value;
      var symbol := SymbolString();
      var name := section.FunctionName(symbol);
      FunctionStarts(section, Fields(InUnit), it.Rest());
      ghost var more := Run(section, Fields(InFunction(functionAddress)).(queue := []), it.Rest()[1..]);
      Heads(calls, StartFunction(name, functionAddress), queuedLines + more, total);
      ok := Issue(StartFunction(name, functionAddress), total);
      if !ok {
        return;
      }
      it.Advance();
      ok := ReportQueue(more, total);
      if !ok {
        return;
      }
      ok := ProcessFunctionBody(functionAddress, total);
      if !ok {
        return;
      }
      ok := FinishFunction(functionAddress, total);
    }

    /** The lines that came before the function. */
    method ReportQueue(ghost more: seq<Call>, ghost total: seq<Call>) returns (ok: bool)
      requires Accepting() && calls + (queuedLines + more) == total
      modifies `calls, `queuedLines
      ensures if ok then Accepting() && calls + more == total && queuedLines == [] else Refused(total)
    {
      hide Accepting, Refused;
      ghost var before := calls;
      for i := 0 to |queuedLines|
        invariant queuedLines == old(queuedLines)
        invariant Accepting() && calls == before + queuedLines[..i]
      {
        QueueStep(before, queuedLines, i, more, total);
        ok := Issue(queuedLines[i], total);
        if !ok {
          return;
        }
      }
      assert queuedLines[..|queuedLines|] == queuedLines;
      Associative(before, queuedLines, more);
      queuedLines := [];
      ok := true;
    }

    /** The entries up to the next N_SO or N_FUN. */
    method ProcessFunctionBody(functionAddress: Address, ghost total: seq<Call>) returns (ok: bool)
      requires OnTrack(total, InFunction(functionAddress))
      modifies this, it, it.cursor
      ensures Valid()
      ensures if ok then OnTrack(total, InFunction(functionAddress)) else Refused(total)
      ensures ok ==> it.atEnd || it.entry.kind == N_SO || it.entry.kind == N_FUN
      ensures |it.Rest()| <= old(|it.Rest()|)
    {
      hide Run, Step, Layout.Entries, Section.Symbol, Accepting, Refused;
      while !it.atEnd && it.entry.kind != N_SO && it.entry.kind != N_FUN
        invariant OnTrack(total, InFunction(functionAddress)) && |it.Rest()| <= old(|it.Rest()|)
        decreases |it.Rest()|
      {
        FunctionEntry(section, Fields(InFunction(functionAddress)), it.Rest());
        if it.entry.kind == N_SLINE {
          var line := Line(Add(functionAddress, it.entry.value), currentSourceFile, LineNumber(it.entry));
          Heads(calls, line, Run(section, Fields(InFunction(functionAddress)), it.Rest()[1..]), total);
          ok := Issue(line, total);
          if !ok {
            return;
          }
        } else if it.entry.kind == N_SOL {
          currentSourceFile := SymbolString();
        }
        it.Advance();
      }
      ok := true;
    }

    /** The end of a function: an N_FUN entry without a name gives the function's size and is consumed; any other entry
        gives the ending address and is left for its own purpose. */
    method FinishFunction(functionAddress: Address, ghost total: seq<Call>) returns (ok: bool)
      requires OnTrack(total, InFunction(functionAddress))
      requires it.atEnd || it.entry.kind == N_SO || it.entry.kind == N_FUN
      modifies this, it, it.cursor
      ensures Valid()
      ensures if ok then OnTrack(total, InUnit) else Refused(total)
      ensures |it.Rest()| <= old(|it.Rest()|)
    {
      hide Run, Step, Layout.Entries, Section.Symbol, Section.Unnamed, Accepting, Refused;
      FunctionEnds(section, Fields(InFunction(functionAddress)), it.Rest());
      var ending: Address := 0;
      if !it.atEnd {
        if it.entry.kind == N_FUN {
          var name := SymbolString();
          if section.Unnamed(name) {
            ending := Add(functionAddress, it.entry.value);
            it.Advance();
          } else {
            ending := it.entry.value;
          }
        } else {
          ending := it.entry.value;
        }
      }
      Heads(calls, EndFunction(ending), Run(section, Fields(InUnit), it.Rest()), total);
      ok := Issue(EndFunction(ending), total);
    }
  }

  // What the section means from each point where the reader looks at an entry.

  lemma SkipOutside(c: Section, s: State, entries: seq<Entry>)
    requires c.Terminated() && s.mode.Outside? && entries != [] && entries[0].kind != N_SO
    ensures var header := entries[0].kind == N_UNDF && c.unitized;
            var next := if header then s.(base := s.nextBase, nextBase := entries[0].value) else s;
            Run(c, s, entries) == Run(c, next, entries[1..])
  {
  }

  lemma DirectoryNamed(c: Section, s: State, entries: seq<Entry>)
    requires c.Terminated() && s.mode.Outside? && entries != [] && entries[0].kind == N_SO
    requires c.IsDirectory(c.Symbol(s.base, entries[0]))
    ensures Run(c, s, entries) == Run(c, s.(mode := AfterDirectory(c.Symbol(s.base, entries[0]))), entries[1..])
  {
  }

  /** An N_SO entry that is not taken for a directory. */
  lemma UnitStarts(c: Section, s: State, entries: seq<Entry>, directory: Option<nat>)
    requires c.Terminated() && entries != [] && entries[0].kind == N_SO
    requires if directory.Some? then s.mode == AfterDirectory(directory.value)
             else s.mode.Outside? && !c.IsDirectory(c.Symbol(s.base, entries[0]))
    ensures var name := c.Symbol(s.base, entries[0]);
            Run(c, s, entries)
            == if c.Unnamed(name) then Run(c, s.(mode := Outside), entries[1..])
               else [StartCompilationUnit(name, entries[0].value, directory)]
                    + Run(c, s.(mode := InUnit, source := name), entries[1..])
  {
  }

  lemma UnitEntry(c: Section, s: State, entries: seq<Entry>)
    requires c.Terminated() && s.mode.InUnit? && entries != [] && entries[0].kind != N_SO && entries[0].kind != N_FUN
    ensures var e := entries[0];
            var next := if e.kind == N_SLINE then s.(queue := s.queue + [Line(e.value, s.source, LineNumber(e))])
                        else if e.kind == N_SOL then s.(source := c.Symbol(s.base, e)) else s;
            Run(c, s, entries) == Run(c, next, entries[1..])
  {
  }

  lemma FunctionStarts(c: Section, s: State, entries: seq<Entry>)
    requires c.Terminated() && s.mode.InUnit? && entries != [] && entries[0].kind == N_FUN
    ensures var e := entries[0];
            Run(c, s, entries)
            == [StartFunction(c.FunctionName(c.Symbol(s.base, e)), e.value)]
               + (s.queue + Run(c, s.(mode := InFunction(e.value), queue := []), entries[1..]))
  {
    hide Section.FunctionName, Section.Symbol;
    var e := entries[0];
    var call := StartFunction(c.FunctionName(c.Symbol(s.base, e)), e.value);
    Associative([call], s.queue, Run(c, s.(mode := InFunction(e.value), queue := []), entries[1..]));
  }

  lemma FunctionEntry(c: Section, s: State, entries: seq<Entry>)
    requires c.Terminated() && s.mode.InFunction? && entries != [] && entries[0].kind != N_SO && entries[0].kind != N_FUN
    ensures var e := entries[0];
            var next := if e.kind == N_SOL then s.(source := c.Symbol(s.base, e)) else s;
            Run(c, s, entries)
            == if e.kind == N_SLINE then
                 [Line(Add(s.mode.start, e.value), s.source, LineNumber(e))] + Run(c, next, entries[1..])
               else Run(c, next, entries[1..])
  {
  }

  lemma RunEnd(c: Section, s: State)
    requires c.Terminated() && s.mode.Outside?
    ensures Run(c, s, []) == []
  {
  }

  /** After a directory, anything but an N_SO entry is as if there had been none. */
  lemma LeaveDirectory(c: Section, s: State, entries: seq<Entry>)
    requires c.Terminated() && (s.mode.AfterDirectory? || s.mode.Outside?)
    requires entries == [] || entries[0].kind != N_SO
    ensures Run(c, s, entries) == Run(c, s.(mode := Outside), entries)
  {
  }

  lemma UnitEnds(c: Section, s: State, entries: seq<Entry>)
    requires c.Terminated() && s.mode.InUnit?
    requires entries == [] || entries[0].kind == N_SO
    ensures var unnamed := entries != [] && c.Unnamed(c.Symbol(s.base, entries[0]));
            Run(c, s, entries)
            == [EndCompilationUnit(if unnamed then entries[0].value else 0)]
               + Run(c, s.(mode := Outside, queue := []), if unnamed then entries[1..] else entries)
  {
    hide StepOutside;
  }

  lemma FunctionEnds(c: Section, s: State, entries: seq<Entry>)
    requires c.Terminated() && s.mode.InFunction?
    requires entries == [] || entries[0].kind == N_SO || entries[0].kind == N_FUN
    ensures var sized := entries != [] && entries[0].kind == N_FUN && c.Unnamed(c.Symbol(s.base, entries[0]));
            var ending := if entries == [] then 0 else if sized then Add(s.mode.start, entries[0].value) else entries[0].value;
            Run(c, s, entries)
            == [EndFunction(ending)] + Run(c, s.(mode := InUnit), if sized then entries[1..] else entries)
  {
    hide StepInUnit;
  }

  lemma Heads(calls: seq<Call>, call: Call, more: seq<Call>, total: seq<Call>)
    requires calls + ([call] + more) == total
    ensures calls + [call] <= total && calls + [call] + more == total
  {
    Associative(calls, [call], more);
  }

  lemma QueueStep(before: seq<Call>, queue: seq<Call>, i: nat, more: seq<Call>, total: seq<Call>)
    requires i < |queue| && before + (queue + more) == total
    ensures before + queue[..i] + [queue[i]] == before + queue[..i + 1] <= total
  {
    Associative(before, queue[..i], [queue[i]]);
    assert queue[..i] + [queue[i]] == queue[..i + 1];
  }
}
