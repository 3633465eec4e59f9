/** The handler that turns STABS into functions and lines, and works out the sizes that STABS does not give. */
module StabsToModule {
  import opened Addresses
  import opened Leb128
  import opened Module
  import opened Options
  import opened Sorting
  import Sweep = SweepSpec
  import opened StabsProtocol

  const FALLBACK_SIZE: Address := 0x1000_0000

  // ---------- Sizes ----------

  /** The end of a function is the least boundary above its address; a function with none above it gets a large size. */
  ghost predicate Sized(boundaries: seq<Address>, address: Address, size: Address) {
    if forall b :: b in boundaries ==> b <= address then
      size == FALLBACK_SIZE
    else
      && size > 0 && address + size in boundaries
      && forall b :: b in boundaries && b > address ==> address + size <= b
  }

  /** Whatever the boundaries are, sizes are positive. When the functions' own addresses are among them, functions at
      different addresses share no byte, and only one at the greatest boundary can be without an end. */
  lemma SizedFunctionsAreDisjoint(boundaries: seq<Address>, a: Address, sizeA: Address, b: Address, sizeB: Address)
    requires Sized(boundaries, a, sizeA) && Sized(boundaries, b, sizeB)
    requires a in boundaries && b in boundaries && a != b
    ensures sizeA > 0 && sizeB > 0
    ensures !Range(a, sizeA).Overlaps(Range(b, sizeB))
    ensures a + sizeA !in boundaries ==> forall x :: x in boundaries ==> x <= a
  {
  }

  function LineAddress(line: Sweep.Line): Address {
    line.address
  }

  function BoundaryAddress(b: Address): Address {
    b
  }

  /** Each line ends where the next one starts, and the last where the function does. */
  function SizeLines(sorted: seq<Sweep.Line>, end: Address): (r: seq<Sweep.Line>)
    ensures |r| == |sorted|
  {
    seq(|sorted|, i requires 0 <= i < |sorted| =>
      sorted[i].(size := Sub(if i + 1 < |sorted| then sorted[i + 1].address else end, sorted[i].address)))
  }

  function SumOfSizes(lines: seq<Sweep.Line>): Address {
    if lines == [] then 0 else Add(lines[0].size, SumOfSizes(lines[1..]))
  }

  /** The sizes add up to the distance from the first line to the end, modulo 2^64. */
  lemma {:induction false} LineSizesAddUp(sorted: seq<Sweep.Line>, end: Address)
    requires sorted != []
    ensures SumOfSizes(SizeLines(sorted, end)) == Sub(end, sorted[0].address)
  {
    var sized := SizeLines(sorted, end);
    if |sorted| > 1 {
      LineSizesAddUp(sorted[1..], end);
      assert sized[1..] == SizeLines(sorted[1..], end);
    } else {
      assert sized[1..] == [];
    }
  }

  /** Lines inside their function do not overlap, and leave no byte between the first of them and the end. */
  lemma LinesTile(sorted: seq<Sweep.Line>, end: Address, i: nat)
    requires SortedBy(sorted, LineAddress) && i < |sorted| && sorted[|sorted| - 1].address <= end
    ensures SizeLines(sorted, end)[i].Span().End() == if i + 1 < |sorted| then sorted[i + 1].address else end
  {
    assert LineAddress(sorted[i]) <= LineAddress(sorted[|sorted| - 1]) || i == |sorted| - 1;
    assert i + 1 < |sorted| ==> LineAddress(sorted[i]) <= LineAddress(sorted[i + 1]);
  }

  /** `f`'s size is worked out, and its lines are those of before, sorted stably and sized. */
  ghost predicate Finished(f: Function, before: seq<Sweep.Line>, boundaries: seq<Address>)
    reads f
  {
    && Sized(boundaries, f.address, f.size)
    && exists sorted, origin :: SortedLines(before, sorted, origin) && f.lines == SizeLines(sorted, Add(f.address, f.size))
  }

  ghost predicate SortedLines(before: seq<Sweep.Line>, sorted: seq<Sweep.Line>, origin: seq<nat>) {
    Rearranged(before, sorted, origin) && SortedBy(sorted, LineAddress) && Stable(sorted, LineAddress, origin)
  }

  method FinishFunction(f: Function, boundaries: seq<Address>)
    requires forall i, j :: 0 <= i < j < |boundaries| ==> boundaries[i] <= boundaries[j]
    modifies f
    ensures Finished(f, old(f.lines), boundaries)
  {
    hide SortedLines, SizeLines;
    f.size := FindSize(f.address, boundaries);
    ghost var sorted, origin;
    f.lines, sorted, origin := FinishLines(f.lines, Add(f.address, f.size));
    assert SortedLines(old(f.lines), sorted, origin);
  }

  method FindSize(address: Address, boundaries: seq<Address>) returns (size: Address)
    requires forall i, j :: 0 <= i < j < |boundaries| ==> boundaries[i] <= boundaries[j]
    ensures Sized(boundaries, address, size)
    ensures (forall b :: b in boundaries ==> b <= address) ==> size == 0x1000_0000
  {
    var k := UpperBound(boundaries, address);
    if k < |boundaries| {
      size := boundaries[k] - address;
      assert boundaries[k] in boundaries;
    } else {
      size := FALLBACK_SIZE;
    }
  }

  /** The lines of a function that ends at `end`, if there are any. */
  method FinishLines(lines: seq<Sweep.Line>, end: Address)
    returns (r: seq<Sweep.Line>, ghost sorted: seq<Sweep.Line>, ghost origin: seq<nat>)
    ensures SortedLines(lines, sorted, origin) && r == SizeLines(sorted, end)
  {
    hide Rearranged, SortedBy, Stable, SizeLines;
    if lines == [] {
      NothingToSort();
      return [], [], [];
    }
    r, origin := StableSort(lines, LineAddress);
    sorted := r;
    RearrangedCount(lines, r, origin);
    for i := 0 to |r| - 1
      invariant |r| == |sorted|
      invariant forall j :: 0 <= j < i ==> r[j] == SizeLines(sorted, end)[j]
      invariant forall j :: i <= j < |r| ==> r[j] == sorted[j]
    {
      SizedLine(sorted, end, i);
      r := r[i := r[i].(size := Sub(r[i + 1].address, r[i].address))];
    }
    var last := |r| - 1;
    SizedLine(sorted, end, last);
    r := r[last := r[last].(size := Sub(end, r[last].address))];
    assert forall j :: 0 <= j < |r| ==> r[j] == SizeLines(sorted, end)[j];
  }

  lemma SizedLine(sorted: seq<Sweep.Line>, end: Address, i: nat)
    requires i < |sorted|
    ensures SizeLines(sorted, end)[i]
         == sorted[i].(size := Sub(if i + 1 < |sorted| then sorted[i + 1].address else end, sorted[i].address))
  {
  }

  lemma RearrangedCount<T>(s: seq<T>, r: seq<T>, origin: seq<nat>)
    requires Rearranged(s, r, origin)
    ensures |r| == |s|
  {
  }

  lemma NothingToSort()
    ensures Rearranged<Sweep.Line>([], [], []) && SortedBy([], LineAddress) && Stable([], LineAddress, [])
    ensures forall end :: SizeLines([], end) == []
  {
  }

  // ---------- What calls mean ----------

  /** What `Demangle` does with a name, which is for the C++ runtime to say. */
  type Demangler = seq<Byte> -> seq<Byte>

  /** A line before its size is known, with the name of its file. */
  datatype Row = Row(address: Address, file: seq<Byte>, number: int)

  /** A function before its size is known. */
  datatype Raw = Raw(name: seq<Byte>, address: Address, rows: seq<Row>)

  /** The base address of the open unit, the open function, the functions kept, and the boundaries. */
  datatype Collection = Collection(base: Address, open: Option<Raw>, kept: seq<Raw>, boundaries: seq<Address>)

  function RowOf(line: Sweep.Line, files: seq<seq<Byte>>): Row {
    Row(line.address, if 0 <= line.file < |files| then files[line.file] else [], line.number)
  }

  function RowsOf(lines: seq<Sweep.Line>, files: seq<seq<Byte>>): (r: seq<Row>)
    ensures |r| == |lines|
  {
    seq(|lines|, i requires 0 <= i < |lines| => RowOf(lines[i], files))
  }

  function RawOf(f: Function, files: seq<seq<Byte>>): Raw
    reads f
  {
    Raw(f.name, f.address, RowsOf(f.lines, files))
  }

  function RawsOf(functions: seq<Function>, files: seq<seq<Byte>>): (r: seq<Raw>)
    reads functions
    ensures |r| == |functions|
  {
    seq(|functions|, i requires 0 <= i < |functions| reads functions => RawOf(functions[i], files))
  }

  ghost predicate FilesKnown(lines: seq<Sweep.Line>, files: seq<seq<Byte>>) {
    forall i :: 0 <= i < |lines| ==> 0 <= lines[i].file < |files|
  }

  /** New files change nothing for lines in old ones. */
  lemma RowsStay(lines: seq<Sweep.Line>, files: seq<seq<Byte>>, more: seq<seq<Byte>>)
    requires FilesKnown(lines, files) && files <= more
    ensures FilesKnown(lines, more) && RowsOf(lines, more) == RowsOf(lines, files)
  {
    assert forall i :: 0 <= i < |lines| ==> RowOf(lines[i], more) == RowOf(lines[i], files);
  }

  lemma RowsSnoc(lines: seq<Sweep.Line>, line: Sweep.Line, files: seq<seq<Byte>>)
    requires FilesKnown(lines, files) && 0 <= line.file < |files|
    ensures FilesKnown(lines + [line], files)
    ensures RowsOf(lines + [line], files) == RowsOf(lines, files) + [Row(line.address, files[line.file], line.number)]
  {
  }

  function Known(address: Address): seq<Address> {
    if address != 0 then [address] else []
  }

  function FileName(section: Section, file: nat): seq<Byte> {
    if file < |section.strings| then section.Name(file) else []
  }

  /** A function is kept, with its lines, unless it starts below its unit. Starts are boundaries, and so are ends that are
      known. */
  function Collect(section: Section, demangle: Demangler, c: Collection, call: Call): Collection {
    match call
    case StartCompilationUnit(_, address, _) => c.(base := address, boundaries := c.boundaries + [address])
    case EndCompilationUnit(address) => c.(base := 0, boundaries := c.boundaries + Known(address))
    case StartFunction(name, address) =>
      c.(open := Some(Raw(demangle(name), address, [])), boundaries := c.boundaries + [address])
    case EndFunction(address) =>
      Collection(c.base, None, if c.open.Some? && c.open.value.address >= c.base then c.kept + [c.open.value] else c.kept,
                 c.boundaries + Known(address))
    case Line(address, file, number) =>
      if c.open.None? then c
      else
        var row := Row(address, FileName(section, file), number);
        c.(open := Some(c.open.value.(rows := c.open.value.rows + [row])))
  }

  function CollectAll(section: Section, demangle: Demangler, c: Collection, calls: seq<Call>): Collection {
    if calls == [] then c
    else Collect(section, demangle, CollectAll(section, demangle, c, calls[..|calls| - 1]), calls[|calls| - 1])
  }

  const EMPTY := Collection(0, None, [], [])

  /** The start of every function is a boundary. */
  lemma {:induction false} StartsAreBoundaries(section: Section, demangle: Demangler, c: Collection, calls: seq<Call>)
    ensures c.boundaries <= CollectAll(section, demangle, c, calls).boundaries
    ensures forall call :: call in calls && call.StartFunction? ==> call.address in CollectAll(section, demangle, c, calls).boundaries
  {
    if calls != [] {
      StartsAreBoundaries(section, demangle, c, calls[..|calls| - 1]);
      assert forall call :: call in calls ==> call in calls[..|calls| - 1] || call == calls[|calls| - 1];
    }
  }

  lemma NoRows(files: seq<seq<Byte>>)
    ensures FilesKnown([], files) && RowsOf([], files) == []
  {
  }

  // ---------- The handler ----------

  class StabsToModule {
    const section: Section
    const demangle: Demangler
    const module_: Module
    var functions: seq<Function>
    var boundaries: seq<Address>
    var inCompilationUnit: bool
    var compUnitBaseAddress: Address
    var currentFunction: Function?
    var currentSourceFile: Option<nat>
    var currentSourceFileName: Option<nat>

    /** The addresses of all functions are boundaries; no function object is listed twice; the current file is the one
        with the current file name. */
    ghost predicate Valid()
      reads this, module_
    {
      && (forall f :: f in functions ==> f.address in boundaries && f != currentFunction)
      && (forall i, j :: 0 <= i < j < |functions| ==> functions[i] != functions[j])
      && (currentFunction != null ==> inCompilationUnit && currentFunction.address in boundaries)
      && (inCompilationUnit <==> currentSourceFile.Some?)
      && (inCompilationUnit ==>
            && currentSourceFileName.Some? && currentSourceFileName.value < |section.strings|
            && currentSourceFile.value < |module_.files|
            && module_.files[currentSourceFile.value] == section.Name(currentSourceFileName.value))
    }

    /** Where this handler is in the protocol. */
    function Now(): Phase
      reads this
    {
      if !inCompilationUnit then Idle else if currentFunction == null then UnitOpen else FunctionOpen
    }

    /** What this handler has collected. */
    function Collected(): Collection
      reads this, module_, functions, currentFunction
    {
      Collection(compUnitBaseAddress, if currentFunction == null then None else Some(RawOf(currentFunction, module_.files)),
                 RawsOf(functions, module_.files), boundaries)
    }

    /** Every line is in one of the module's files. */
    ghost predicate KnowsFiles()
      reads this, module_, functions, currentFunction
    {
      && (currentFunction != null ==> FilesKnown(currentFunction.lines, module_.files))
      && forall i :: 0 <= i < |functions| ==> FilesKnown(functions[i].lines, module_.files)
    }

    constructor (section: Section, demangle: Demangler, module_: Module)
      ensures this.section == section && this.demangle == demangle && this.module_ == module_
      ensures Valid() && Now() == Idle && functions == [] && boundaries == []
      ensures Collected() == EMPTY && KnowsFiles()
    {
      this.section, this.demangle, this.module_ := section, demangle, module_;
      functions, boundaries := [], [];
      inCompilationUnit, compUnitBaseAddress, currentFunction := false, 0, null;
      currentSourceFile, currentSourceFileName := None, None;
    }

    method StartCompilationUnit(name: nat, address: Address, directory: Option<nat>)
      requires Valid() && !inCompilationUnit && name < |section.strings|
      modifies this, module_`files
      ensures Valid() && Now() == UnitOpen
      ensures functions == old(functions)
      ensures boundaries == old(boundaries) + [address] && compUnitBaseAddress == address
      ensures currentSourceFileName == Some(name) && old(module_.files) <= module_.files
    {
      inCompilationUnit := true;
      currentSourceFileName := Some(name);
      var file := module_.FindFile(section.Name(name));
      currentSourceFile := Some(file);
      compUnitBaseAddress := address;
      boundaries := boundaries + [address];
    }

    /** A zero address means that the end is not known. */
    method EndCompilationUnit(address: Address)
      requires Valid() && inCompilationUnit && currentFunction == null
      modifies this
      ensures Valid() && Now() == Idle
      ensures functions == old(functions)
      ensures boundaries == old(boundaries) + (if address != 0 then [address] else []) && compUnitBaseAddress == 0
      ensures currentSourceFileName == None
    {
      inCompilationUnit := false;
      compUnitBaseAddress := 0;
      currentSourceFile := None;
      currentSourceFileName := None;
      if address != 0 {
        boundaries := boundaries + [address];
      }
    }

    method StartFunction(name: seq<Byte>, address: Address)
      requires Valid() && inCompilationUnit && currentFunction == null
      modifies this
      ensures Valid() && Now() == FunctionOpen && fresh(currentFunction)
      ensures currentFunction.name == demangle(name) && currentFunction.address == address
      ensures currentFunction.lines == [] && currentFunction.size == 0
      ensures functions == old(functions)
      ensures boundaries == old(boundaries) + [address] && compUnitBaseAddress == old(compUnitBaseAddress)
      ensures currentSourceFileName == old(currentSourceFileName)
    {
      currentFunction := new Function(demangle(name), address);
      boundaries := boundaries + [address];
    }

    /** A function below its unit's base address is dropped, but its end is still a boundary. */
    method EndFunction(address: Address)
      requires Valid() && currentFunction != null
      modifies this
      ensures Valid() && Now() == UnitOpen
      ensures var f: Function := old(currentFunction);
              functions == old(functions) + if f.address >= old(compUnitBaseAddress) then [f] else []
      ensures boundaries == old(boundaries) + (if address != 0 then [address] else [])
      ensures compUnitBaseAddress == old(compUnitBaseAddress) && currentSourceFileName == old(currentSourceFileName)
    {
      if currentFunction.address >= compUnitBaseAddress {
        functions := functions + [currentFunction];
      }
      currentFunction := null;
      if address != 0 {
        boundaries := boundaries + [address];
      }
    }

    /** The file is looked up only when the name is not the current one; it is the named file all the same. */
    method Line(address: Address, name: nat, number: nat)
      requires Valid() && currentFunction != null && name < |section.strings|
      modifies this, module_`files, currentFunction
      ensures Valid() && Now() == FunctionOpen && currentFunction == old(currentFunction)
      ensures currentFunction.size == old(currentFunction.size)
      ensures exists file: nat :: file < |module_.files| && module_.files[file] == section.Name(name)
                                  && currentFunction.lines == old(currentFunction.lines) + [Sweep.Line(address, 0, file, number)]
      ensures functions == old(functions) && old(module_.files) <= module_.files
      ensures boundaries == old(boundaries) && compUnitBaseAddress == old(compUnitBaseAddress)
      ensures currentSourceFileName == Some(name)
    {
      if Some(name) != currentSourceFileName {
        var found := module_.FindFile(section.Name(name));
        currentSourceFile := Some(found);
        currentSourceFileName := Some(name);
      }
      var file := currentSourceFile.value;
      currentFunction.lines := currentFunction.lines + [Sweep.Line(address, 0, file, number)];
    }

    lemma CurrentIsNotListed()
      requires Valid()
      ensures !inCompilationUnit ==> currentFunction == null
      ensures forall i :: 0 <= i < |functions| ==> functions[i] != currentFunction
    {
    }

    /** One of the reader's calls. What the protocol permits is just what the handlers assert. */
    method Handle(call: Call)
      requires Valid() && KnowsFiles() && Permitted(Now(), call) && InStrings(section, call)
      modifies this, module_`files, currentFunction
      ensures Valid() && Now() == PhaseAfter(call)
      ensures KnowsFiles() && Collected() == Collect(section, demangle, old(Collected()), call)
      ensures currentFunction == null || currentFunction == old(currentFunction) || fresh(currentFunction)
      ensures forall f :: f in functions ==> f in old(functions) || f == old(currentFunction)
      ensures old(module_.files) <= module_.files
    {
      hide Section.Name, FilesKnown, RowsOf, Valid;
      CurrentIsNotListed();
      match call {
      case StartCompilationUnit(name, address, directory) => StartCompilationUnit(name, address, directory);
      case EndCompilationUnit(address) => EndCompilationUnit(address);
      case StartFunction(name, address) => StartFunction(name, address);
      case EndFunction(address) => EndFunction(address);
      case Line(address, name, number) =>
        Line(address, name, number);
        ghost var file :| 0 <= file < |module_.files| && module_.files[file] == section.Name(name)
                          && currentFunction.lines == old(currentFunction.lines) + [Sweep.Line(address, 0, file, number)];
        RowsStay(old(currentFunction.lines), old(module_.files), module_.files);
        RowsSnoc(old(currentFunction.lines), Sweep.Line(address, 0, file, number), module_.files);
      }
      forall i | 0 <= i < |old(functions)|
        ensures old(functions)[i].lines == old(functions[i].lines)
        ensures RawOf(old(functions)[i], module_.files) == old(RawOf(functions[i], module_.files))
        ensures FilesKnown(old(functions)[i].lines, module_.files)
      {
        RowsStay(old(functions[i].lines), old(module_.files), module_.files);
      }
      NoRows(module_.files);
    }

    /** A whole sequence of calls that obeys the protocol: no assertion of a handler fails, and what is collected is what
        the calls mean. */
    method Receive(calls: seq<Call>)
      requires Valid() && KnowsFiles() && Accepted(Now(), calls)
      requires forall i :: 0 <= i < |calls| ==> InStrings(section, calls[i])
      modifies this, module_`files, currentFunction
      ensures Valid() && Now() == Reached(old(Now()), calls)
      ensures forall f :: f in functions ==> f in old(functions) || f == old(currentFunction) || fresh(f)
      ensures old(module_.files) <= module_.files
      ensures KnowsFiles() && Collected() == CollectAll(section, demangle, old(Collected()), calls)
    {
      hide FilesKnown, RowsOf;
      for i := 0 to |calls|
        invariant Valid() && Now() == Reached(old(Now()), calls[..i])
        invariant currentFunction == null || currentFunction == old(currentFunction) || fresh(currentFunction)
        invariant forall f :: f in functions ==> f in old(functions) || f == old(currentFunction) || fresh(f)
        invariant old(module_.files) <= module_.files
        invariant KnowsFiles() && Collected() == CollectAll(section, demangle, old(Collected()), calls[..i])
      {
        Handle(calls[i]);
        assert calls[..i + 1][i] == calls[i] && calls[..i + 1][..i] == calls[..i];
      }
      assert calls[..|calls|] == calls;
    }

    /** `Finalize`: every function gets its size from the boundaries, every line from the next one, and all functions are
        added to the module, in address order. False stands for a failed assertion there: a function has no name. */
    method Finalize() returns (ok: bool)
      requires Valid()
      modifies this, functions, module_`functions, module_`freed
      ensures SortedBy(boundaries, BoundaryAddress)
      ensures exists origin :: Rearranged(old(boundaries), boundaries, origin)
      ensures forall f :: f in old(functions) ==> Finished(f, old(f.lines), boundaries)
      ensures ok <==> forall f :: f in old(functions) ==> f.name != []
      ensures ok ==> functions == []
      ensures ok ==> exists sorted: seq<Function>, origin ::
                       && Rearranged(old(functions), sorted, origin) && SortedBy(sorted, FunctionAddress)
                       && module_.Held() == InsertAll(old(module_.Held()), sorted)
    {
      hide Rearranged, SortedBy, Finished, InsertAll;
      ghost var origin;
      boundaries, origin := Sort(boundaries, BoundaryAddress);
      ghost var order;
      functions, order := Sort(functions, FunctionAddress);
      RearrangedMembers(old(functions), functions, order);
      SizeFunctions(functions, boundaries);
      ok := module_.AddFunctions(functions);
      if ok {
        functions := [];
      }
    }
  }

  method SizeFunctions(functions: seq<Function>, boundaries: seq<Address>)
    requires SortedBy(boundaries, BoundaryAddress)
    requires forall i, j :: 0 <= i < j < |functions| ==> functions[i] != functions[j]
    modifies functions
    ensures forall f :: f in functions ==> Finished(f, old(f.lines), boundaries)
  {
    hide Finished;
    assert forall i, j :: 0 <= i < j < |boundaries| ==> BoundaryAddress(boundaries[i]) <= BoundaryAddress(boundaries[j]);
    for i := 0 to |functions|
      invariant forall k :: 0 <= k < i ==> Finished(functions[k], old(functions[k].lines), boundaries)
      invariant forall k :: i <= k < |functions| ==> functions[k].lines == old(functions[k].lines)
    {
      FinishFunction(functions[i], boundaries);
    }
  }

  function FunctionAddress(f: Function): Address {
    f.address
  }

  lemma RearrangedMembers<T>(s: seq<T>, r: seq<T>, origin: seq<nat>)
    requires Rearranged(s, r, origin)
    ensures forall x :: x in s <==> x in r
    ensures (forall i, j :: 0 <= i < j < |s| ==> s[i] != s[j]) ==> forall i, j :: 0 <= i < j < |r| ==> r[i] != r[j]
  {
    forall x | x in s
      ensures x in r
    {
      var k :| 0 <= k < |s| && s[k] == x;
      assert k in origin;
      var i :| 0 <= i < |origin| && origin[i] == k;
      assert r[i] == x;
    }
  }
}
