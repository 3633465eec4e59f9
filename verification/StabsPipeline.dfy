/** Reading a STABS section into a module. */
module StabsPipeline {
  import opened Addresses
  import opened Leb128
  import opened Module
  import opened Sorting
  import Sweep = SweepSpec
  import opened StabsEntries
  import opened StabsFunctions
  import opened StabsProtocol
  import opened StabsReader
  import opened StabsToModule

  /** What the sections say about functions, their lines, and boundaries. */
  function Meaning(stab: seq<Byte>, strings: seq<Byte>, layout: Layout, unitized: bool, demangle: Demangler): Collection
    requires layout.Plausible() && Section(strings, unitized).Terminated()
  {
    var section := Section(strings, unitized);
    CollectAll(section, demangle, EMPTY, Run(section, START, layout.Entries(stab)))
  }

  /** `f` is the function `raw`, with its lines, sorted stably, and with all sizes. */
  ghost predicate Loaded(f: Function, raw: Raw, files: seq<seq<Byte>>, boundaries: seq<Address>)
    reads f
  {
    && f.name == raw.name && f.address == raw.address
    && exists before :: RowsOf(before, files) == raw.rows && Finished(f, before, boundaries)
  }

  ghost predicate AllLoaded(functions: seq<Function>, raws: seq<Raw>, files: seq<seq<Byte>>, boundaries: seq<Address>)
    reads functions
  {
    |raws| == |functions| && forall i :: 0 <= i < |functions| ==> Loaded(functions[i], raws[i], files, boundaries)
  }

  /** Rearranging functions rearranges what they stand for. */
  lemma RearrangedRaws(s: seq<Function>, raws: seq<Raw>, r: seq<Function>, origin: seq<nat>) returns (moved: seq<Raw>)
    requires Rearranged(s, r, origin) && |raws| == |s|
    ensures Rearranged(raws, moved, origin)
    ensures forall i :: 0 <= i < |r| ==> origin[i] < |s| && r[i] == s[origin[i]] && moved[i] == raws[origin[i]]
  {
    moved := seq(|r|, i requires 0 <= i < |r| => raws[origin[i]]);
  }

  lemma FinishedIsLoaded(f: Function, raw: Raw, before: seq<Sweep.Line>, files: seq<seq<Byte>>, boundaries: seq<Address>)
    requires f.name == raw.name && f.address == raw.address && RowsOf(before, files) == raw.rows
    requires Finished(f, before, boundaries)
    ensures Loaded(f, raw, files, boundaries) && Sized(boundaries, f.address, f.size)
  {
  }

  /** From `before` to `after` the module has got one function for each address and name among `kept`, unless it had one
      already: what it had stays, each new function is one of those with its key, with the lines of that one and the sizes
      that the boundaries give, and the rest have been deleted. */
  ghost predicate Added(before: Holdings, after: Holdings, kept: seq<Raw>, files: seq<seq<Byte>>, boundaries: seq<Address>)
    reads after.functions.Values
  {
    && (forall key :: key in after.functions <==> key in before.functions || key in RawKeys(kept))
    && (forall key :: key in before.functions ==> after.functions[key] == before.functions[key])
    && (forall key :: key in after.functions && key !in before.functions ==>
          exists raw :: raw in kept && RawKey(raw) == key && Loaded(after.functions[key], raw, files, boundaries))
    && |after.functions| + |after.freed| == |before.functions| + |before.freed| + |kept|
  }

  lemma AddedKeys(before: Holdings, after: Holdings, kept: seq<Raw>, files: seq<seq<Byte>>, boundaries: seq<Address>)
    requires Added(before, after, kept, files, boundaries)
    ensures forall key :: key in after.functions <==> key in before.functions || key in RawKeys(kept)
  {
  }

  lemma LoadedAreAdded(before: Holdings, fs: seq<Function>, kept: seq<Raw>, raws: seq<Raw>, origin: seq<nat>,
                       files: seq<seq<Byte>>, boundaries: seq<Address>)
    requires Rearranged(kept, raws, origin) && AllLoaded(fs, raws, files, boundaries)
    ensures Added(before, InsertAll(before, fs), kept, files, boundaries)
  {
    hide InsertAll, Rearranged, AllLoaded, Loaded, RawKeys, HasKey, FirstOf, KeyOf, RawKey;
    LoadedCount(fs, raws, files, boundaries);
    InsertAllExactly(before, fs);
    RearrangedMembers(kept, raws, origin);
    RearrangedCount(kept, raws, origin);
    var after := InsertAll(before, fs);
    forall key
      ensures HasKey(fs, key) <==> key in RawKeys(kept)
    {
      LoadedKeys(fs, kept, raws, files, boundaries, key);
    }
    forall key | key in after.functions && key !in before.functions
      ensures exists raw :: raw in kept && RawKey(raw) == key && Loaded(after.functions[key], raw, files, boundaries)
    {
      var raw := RawOfLoaded(fs, raws, files, boundaries, after.functions[key]);
    }
  }

  lemma LoadedCount(fs: seq<Function>, raws: seq<Raw>, files: seq<seq<Byte>>, boundaries: seq<Address>)
    requires AllLoaded(fs, raws, files, boundaries)
    ensures |fs| == |raws|
  {
  }

  lemma RawOfLoaded(fs: seq<Function>, raws: seq<Raw>, files: seq<seq<Byte>>, boundaries: seq<Address>, f: Function)
    returns (raw: Raw)
    requires AllLoaded(fs, raws, files, boundaries) && FirstOf(fs, f)
    ensures raw in raws && RawKey(raw) == KeyOf(f) && Loaded(f, raw, files, boundaries)
  {
    hide Loaded;
    var i :| 0 <= i < |fs| && fs[i] == f;
    raw := raws[i];
    LoadedHasKey(fs[i], raws[i], files, boundaries);
  }

  lemma LoadedHasKey(f: Function, raw: Raw, files: seq<seq<Byte>>, boundaries: seq<Address>)
    requires Loaded(f, raw, files, boundaries)
    ensures KeyOf(f) == RawKey(raw)
  {
  }

  lemma LoadedKeys(fs: seq<Function>, kept: seq<Raw>, raws: seq<Raw>, files: seq<seq<Byte>>, boundaries: seq<Address>,
                   key: FunctionKey)
    requires AllLoaded(fs, raws, files, boundaries) && forall raw :: raw in kept <==> raw in raws
    ensures HasKey(fs, key) <==> key in RawKeys(kept)
  {
    hide Loaded, RawKeys, RawKey, KeyOf;
    forall i | 0 <= i < |fs|
      ensures KeyOf(fs[i]) == RawKey(raws[i])
    {
      LoadedHasKey(fs[i], raws[i], files, boundaries);
    }
    if HasKey(fs, key) {
      var i :| 0 <= i < |fs| && KeyOf(fs[i]) == key;
      KeyOfRaw(kept, raws[i]);
    }
    if key in RawKeys(kept) {
      var raw := RawOfKey(kept, key);
      var i :| 0 <= i < |raws| && raws[i] == raw;
      assert KeyOf(fs[i]) == key;
    }
  }

  /** Whatever the entries are, with terminated strings: the reader stops, and no assertion of the handler or the module
      fails exactly when no entry starts a function without a name. Then the module has the functions that the section
      means, one for each address and name, and those at different addresses share no byte. */
  method LoadStabs(module_: Module, stab: seq<Byte>, strings: seq<Byte>, layout: Layout, unitized: bool, demangle: Demangler)
    returns (ok: bool, ghost boundaries: seq<Address>)
    requires layout.Plausible() && Section(strings, unitized).Terminated()
    modifies module_
    ensures ok <==> !exists i :: Nameless(Section(strings, unitized), demangle, layout.Entries(stab), i)
    ensures exists origin :: Rearranged(Meaning(stab, strings, layout, unitized, demangle).boundaries, boundaries, origin)
    ensures old(module_.files) <= module_.files
    ensures ok ==> Added(old(module_.Held()), module_.Held(), Meaning(stab, strings, layout, unitized, demangle).kept,
                         module_.files, boundaries)
    ensures ok ==> forall key :: key in module_.functions <==>
                     || key in old(module_.functions)
                     || key in ExpectedFunctions(Section(strings, unitized), demangle, START, 0, layout.Entries(stab))
    ensures ok ==> forall k, l :: k in module_.functions && l in module_.functions && k.address != l.address
                                  && k !in old(module_.functions) && l !in old(module_.functions) ==>
                                    !Range(k.address, module_.functions[k].size).Overlaps(Range(l.address, module_.functions[l].size))
  {
    hide Run, Accepted, Layout.Entries, Rearranged, Loaded, RowsOf, FilesKnown, Nameless, Added, ExpectedFunctions, RawKeys, Sized;
    var section := Section(strings, unitized);
    var reader := new StabsReader(stab, strings, layout, unitized, _ => true);
    var read := reader.Process();
    assert read;
    RunAccepted(section, START, layout.Entries(stab));
    RunInStrings(section, START, layout.Entries(stab));
    var handler := new StabsToModule(section, demangle, module_);
    handler.Receive(reader.calls);
    forall i | 0 <= i < |handler.functions|
      ensures fresh(handler.functions[i])
    {
      assert handler.functions[i] in handler.functions;
    }
    FunctionsKept(section, demangle, layout.Entries(stab));
    NamelessExactly(section, demangle, layout.Entries(stab));
    ok := FinishLoading(handler, Meaning(stab, strings, layout, unitized, demangle));
    boundaries := handler.boundaries;
    if ok {
      AddedKeys(old(module_.Held()), module_.Held(), Meaning(stab, strings, layout, unitized, demangle).kept, module_.files, boundaries);
      forall k, l | k in module_.functions && l in module_.functions && k.address != l.address
                    && k !in old(module_.functions) && l !in old(module_.functions)
        ensures !Range(k.address, module_.functions[k].size).Overlaps(Range(l.address, module_.functions[l].size))
      {
        SizedFunctionsAreDisjoint(boundaries, k.address, module_.functions[k].size, l.address, module_.functions[l].size);
      }
    }
  }

  /** After the last call: sort and size everything, and add it. */
  method FinishLoading(handler: StabsToModule, ghost meaning: Collection) returns (ok: bool)
    requires handler.Valid() && handler.Collected() == meaning
    modifies handler, handler.functions, handler.module_`functions, handler.module_`freed
    ensures ok <==> !exists raw :: raw in meaning.kept && raw.name == []
    ensures exists origin :: Rearranged(meaning.boundaries, handler.boundaries, origin)
    ensures ok ==> Added(old(handler.module_.Held()), handler.module_.Held(), meaning.kept, handler.module_.files,
                         handler.boundaries)
    ensures ok ==> forall key :: key in handler.module_.functions && key !in old(handler.module_.functions) ==>
                     key.address in handler.boundaries && Sized(handler.boundaries, key.address, handler.module_.functions[key].size)
  {
    hide Rearranged, SortedBy, Sized, Finished, Loaded, RowsOf, Added, InsertAll;
    ghost var collected, unsorted, held := handler.functions, handler.boundaries, handler.module_.Held();
    ghost var lines := seq(|collected|, i requires 0 <= i < |collected| reads collected => collected[i].lines);
    assert forall i :: 0 <= i < |collected| ==> meaning.kept[i] == Raw(collected[i].name, collected[i].address, RowsOf(lines[i], handler.module_.files));
    ok := handler.Finalize();
    RawNames(collected, meaning.kept);
    ghost var origin :| Rearranged(unsorted, handler.boundaries, origin);
    if ok {
      ghost var sorted: seq<Function>, order :| Rearranged(collected, sorted, order) && SortedBy(sorted, FunctionAddress)
                                                && handler.module_.Held() == InsertAll(held, sorted);
      RearrangedMembers(collected, sorted, order);
      RearrangedMembers(unsorted, handler.boundaries, origin);
      AllAreAdded(handler, held, collected, lines, meaning.kept, sorted, order);
    }
  }

  lemma RawNames(functions: seq<Function>, raws: seq<Raw>)
    requires |raws| == |functions| && forall i :: 0 <= i < |raws| ==> raws[i].name == functions[i].name
    ensures (forall f :: f in functions ==> f.name != []) <==> !exists raw :: raw in raws && raw.name == []
  {
    if f :| f in functions && f.name == [] {
      var i :| 0 <= i < |functions| && functions[i] == f;
      assert raws[i] in raws;
    }
  }

  lemma AllAreAdded(handler: StabsToModule, before: Holdings, collected: seq<Function>, lines: seq<seq<Sweep.Line>>,
                    kept: seq<Raw>, sorted: seq<Function>, order: seq<nat>)
    requires |collected| == |lines| == |kept| && Rearranged(collected, sorted, order)
    requires handler.module_.Held() == InsertAll(before, sorted)
    requires forall i :: 0 <= i < |collected| ==>
               && kept[i] == Raw(collected[i].name, collected[i].address, RowsOf(lines[i], handler.module_.files))
               && Finished(collected[i], lines[i], handler.boundaries) && collected[i].address in handler.boundaries
    ensures Added(before, handler.module_.Held(), kept, handler.module_.files, handler.boundaries)
    ensures forall key :: key in handler.module_.functions && key !in before.functions ==>
              key.address in handler.boundaries && Sized(handler.boundaries, key.address, handler.module_.functions[key].size)
  {
    hide Rearranged, Sized, Finished, Loaded, RowsOf, Added, InsertAll;
    var raws := RearrangedRaws(collected, kept, sorted, order);
    RearrangedCount(collected, sorted, order);
    RearrangedCount(kept, raws, order);
    forall i | 0 <= i < |sorted|
      ensures Loaded(sorted[i], raws[i], handler.module_.files, handler.boundaries)
      ensures Sized(handler.boundaries, sorted[i].address, sorted[i].size) && sorted[i].address in handler.boundaries
    {
      FinishedIsLoaded(sorted[i], raws[i], lines[order[i]], handler.module_.files, handler.boundaries);
    }
    LoadedAreAdded(before, sorted, kept, raws, order, handler.module_.files, handler.boundaries);
    InsertAllExactly(before, sorted);
  }
}
