/** `Module`: the files and functions that the loaders collect. */
module Module {
  import opened Addresses
  import opened Leb128
  import Sweep = SweepSpec

  /** `Module::Function`, as the STABS loader makes it: the size is not known until the whole section has been read. */
  class Function {
    const name: seq<Byte>
    const address: Address
    var size: Address
    var lines: seq<Sweep.Line>

    constructor (name: seq<Byte>, address: Address)
      ensures this.name == name && this.address == address && size == 0 && lines == []
    {
      this.name, this.address := name, address;
      size, lines := 0, [];
    }
  }

  /** What FunctionCompare compares. */
  datatype FunctionKey = FunctionKey(address: Address, name: seq<Byte>)

  function KeyOf(f: Function): FunctionKey {
    FunctionKey(f.address, f.name)
  }

  /** The functions a module owns, and the duplicates it has deleted. */
  datatype Holdings = Holdings(functions: map<FunctionKey, Function>, freed: seq<Function>)

  function Insert(h: Holdings, f: Function): Holdings {
    if KeyOf(f) in h.functions then h.(freed := h.freed + [f]) else h.(functions := h.functions[KeyOf(f) := f])
  }

  function InsertAll(h: Holdings, fs: seq<Function>): Holdings {
    if fs == [] then h else Insert(InsertAll(h, fs[..|fs| - 1]), fs[|fs| - 1])
  }

  /** `f` is the first function of `fs` with its key. */
  ghost predicate FirstOf(fs: seq<Function>, f: Function) {
    exists i :: 0 <= i < |fs| && fs[i] == f && forall j :: 0 <= j < i ==> KeyOf(fs[j]) != KeyOf(f)
  }

  ghost predicate HasKey(fs: seq<Function>, key: FunctionKey) {
    exists i :: 0 <= i < |fs| && KeyOf(fs[i]) == key
  }

  lemma HasKeySnoc(fs: seq<Function>, f: Function, key: FunctionKey)
    ensures HasKey(fs + [f], key) <==> HasKey(fs, key) || KeyOf(f) == key
  {
    if HasKey(fs, key) {
      var i :| 0 <= i < |fs| && KeyOf(fs[i]) == key;
      assert KeyOf((fs + [f])[i]) == key;
    }
    assert (fs + [f])[|fs|] == f;
  }

  lemma FirstOfSnoc(fs: seq<Function>, f: Function, g: Function)
    requires FirstOf(fs, g) || (g == f && !HasKey(fs, KeyOf(f)))
    ensures FirstOf(fs + [f], g)
  {
    if FirstOf(fs, g) {
      var i :| 0 <= i < |fs| && fs[i] == g && forall j :: 0 <= j < i ==> KeyOf(fs[j]) != KeyOf(g);
      assert (fs + [f])[i] == g;
    } else {
      assert (fs + [f])[|fs|] == f;
    }
  }

  /** Adding functions one after the other: what was there stays, every new key gets the first function that has it, and the
      others are deleted, so none is lost and none is owned twice. */
  lemma {:induction false} InsertAllExactly(h: Holdings, fs: seq<Function>)
    ensures var r := InsertAll(h, fs);
            && (forall key :: key in r.functions <==> key in h.functions || HasKey(fs, key))
            && (forall key :: key in h.functions ==> r.functions[key] == h.functions[key])
            && (forall key :: key in r.functions && key !in h.functions ==>
                  KeyOf(r.functions[key]) == key && FirstOf(fs, r.functions[key]))
            && |r.functions| + |r.freed| == |h.functions| + |h.freed| + |fs|
  {
    hide FirstOf, HasKey, KeyOf;
    if fs == [] {
      NoKey();
    } else {
      var init, f := fs[..|fs| - 1], fs[|fs| - 1];
      InsertAllExactly(h, init);
      assert init + [f] == fs;
      forall key
        ensures HasKey(fs, key) <==> HasKey(init, key) || KeyOf(f) == key
      {
        HasKeySnoc(init, f, key);
      }
      var before, r := InsertAll(h, init), InsertAll(h, fs);
      forall key | key in r.functions && key !in h.functions
        ensures KeyOf(r.functions[key]) == key && FirstOf(fs, r.functions[key])
      {
        FirstOfSnoc(init, f, r.functions[key]);
      }
    }
  }

  lemma NoKey()
    ensures forall key :: !HasKey([], key)
  {
  }

  /** Two functions with one address and one name: the first stays, the second is deleted. */
  lemma DuplicateIsDeleted(f: Function, g: Function)
    requires KeyOf(f) == KeyOf(g)
    ensures InsertAll(Holdings(map[], []), [f, g]) == Holdings(map[KeyOf(f) := f], [g])
  {
    assert [f, g][..1] == [f] && [f][..0] == [];
    assert InsertAll(Holdings(map[], []), []) == Holdings(map[], []);
    assert InsertAll(Holdings(map[], []), [f]) == Holdings(map[KeyOf(f) := f], []);
  }

  class Module {
    /** The names of the files; a file is known by its place. */
    var files: seq<seq<Byte>>
    var functions: map<FunctionKey, Function>
    ghost var freed: seq<Function>

    constructor ()
      ensures files == [] && functions == map[] && freed == []
    {
      files, functions, freed := [], map[], [];
    }

    ghost function Held(): Holdings
      reads this
    {
      Holdings(functions, freed)
    }

    /** `FindFile`: the file with this name, made if there is none. */
    method FindFile(name: seq<Byte>) returns (file: nat)
      modifies `files
      ensures old(files) <= files && |files| <= |old(files)| + 1
      ensures file < |files| && files[file] == name
      ensures name in old(files) ==> files == old(files)
    {
      if name in files {
        file :| file < |files| && files[file] == name;
      } else {
        file := |files|;
        files := files + [name];
      }
    }

    /** `AddFunction`: false stands for the assertion that a function has a name, which stops the program. A function whose
        address and name are taken is deleted. */
    method AddFunction(f: Function) returns (ok: bool)
      modifies `functions, `freed
      ensures ok == (f.name != [])
      ensures Held() == if ok then Insert(old(Held()), f) else old(Held())
    {
      if f.name == [] {
        return false;
      }
      if KeyOf(f) in functions {
        freed := freed + [f];
      } else {
        functions := functions[KeyOf(f) := f];
      }
      return true;
    }

    /** `AddFunctions`: up to the first function without a name. */
    method AddFunctions(fs: seq<Function>) returns (ok: bool)
      modifies `functions, `freed
      ensures ok <==> forall f :: f in fs ==> f.name != []
      ensures ok ==> Held() == InsertAll(old(Held()), fs)
    {
      for i := 0 to |fs|
        invariant forall k :: 0 <= k < i ==> fs[k].name != []
        invariant Held() == InsertAll(old(Held()), fs[..i])
      {
        ok := AddFunction(fs[i]);
        if !ok {
          return;
        }
        assert fs[..i + 1][..i] == fs[..i];
      }
      assert fs[..|fs|] == fs;
      return true;
    }
  }
}
