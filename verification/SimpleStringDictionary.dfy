/** NonAllocatingMap: a dictionary in a fixed array of fixed-size string buffers, against a finite map. */
module SimpleStringDictionary {
  import opened Options
  import opened Sequences

  // ---------- C strings ----------

  const NUL: char := 0 as char

  /** The characters before the first NUL. */
  function CString(buffer: seq<char>): (s: string)
    ensures NUL !in s && |s| <= |buffer|
    ensures s == buffer[..|s|]
    ensures |s| < |buffer| ==> buffer[|s|] == NUL
  {
    if buffer == [] || buffer[0] == NUL then [] else [buffer[0]] + CString(buffer[1..])
  }

  function Cut(s: string, n: nat): string {
    if |s| <= n then s else s[..n]
  }

  /** `strncmp(s, buffer, n) == 0`: equal up to the first NUL, or in the first `n` characters. */
  predicate StrnEqual(s: string, buffer: seq<char>, n: nat) {
    Cut(s, n) == Cut(CString(buffer), n)
  }

  /** What `strncpy` of `n` characters leaves in a buffer of `n`, once the last is set to NUL. */
  function Stored(s: string, n: nat): (buffer: seq<char>)
    requires n > 0
    ensures |buffer| == n
  {
    var kept := Cut(s, n - 1);
    kept + seq(n - |kept|, _ => NUL)
  }

  /** The buffer holds the string, without what is too long. */
  lemma StoredHolds(s: string, n: nat)
    requires n > 0 && NUL !in s
    ensures CString(Stored(s, n)) == Cut(s, n - 1)
  {
    var kept := Cut(s, n - 1);
    StopsAtNul(kept, seq(n - |kept|, _ => NUL));
  }

  lemma {:induction false} StopsAtNul(s: string, rest: seq<char>)
    requires NUL !in s && rest != [] && rest[0] == NUL
    ensures CString(s + rest) == s
  {
    if s == [] {
      assert s + rest == rest;
    } else {
      assert (s + rest)[1..] == s[1..] + rest;
      StopsAtNul(s[1..], rest);
    }
  }

  /** The first characters of the string, as many as leave room for a NUL, and NULs from there on. */
  ghost predicate Holds(buffer: seq<char>, s: string) {
    forall i :: 0 <= i < |buffer| ==> buffer[i] == if i < |s| && i < |buffer| - 1 then s[i] else 0 as char
  }

  lemma StoredInPlace(s: string, n: nat)
    requires n > 0
    ensures Holds(Stored(s, n), s)
  {
  }

  // ---------- Entries ----------

  datatype Entry = Entry(key: seq<char>, value: seq<char>)
  {
    predicate Active()
      requires key != []
    {
      key[0] != NUL
    }

    function Key(): string {
      CString(key)
    }

    function Value(): string {
      CString(value)
    }
  }

  /** The template parameters. */
  datatype Sizes = Sizes(keySize: nat, valueSize: nat)
  {
    /** Every buffer has its size and is terminated. */
    ghost predicate Valid(es: seq<Entry>) {
      && keySize > 0 && valueSize > 0
      && forall i :: 0 <= i < |es| ==> ValidEntry(es[i])
    }

    predicate ValidEntry(e: Entry) {
      && |e.key| == keySize > 0 && |e.value| == valueSize > 0
      && |e.Key()| < keySize && |e.Value()| < valueSize
    }

    /** The key is kept whole. */
    predicate Short(key: string) {
      |key| < keySize
    }
  }

  ghost predicate NonEmpty(es: seq<Entry>) {
    forall i :: 0 <= i < |es| ==> es[i].key != [] && es[i].value != []
  }

  /** No key has two active entries. */
  ghost predicate Unique(es: seq<Entry>)
    requires NonEmpty(es)
  {
    forall i, j :: 0 <= i < j < |es| && es[i].Active() && es[j].Active() ==> es[i].Key() != es[j].Key()
  }

  /** The map that the entries stand for. */
  function Contents(es: seq<Entry>): map<string, string>
    requires NonEmpty(es)
  {
    if es == [] then
      map[]
    else
      var e, m := es[|es| - 1], Contents(es[..|es| - 1]);
      if e.Active() then m[e.Key() := e.Value()] else m
  }

  function Actives(es: seq<Entry>): seq<Entry>
    requires NonEmpty(es)
  {
    if es == [] then []
    else Actives(es[..|es| - 1]) + if es[|es| - 1].Active() then [es[|es| - 1]] else []
  }

  lemma ActivesSnoc(es: seq<Entry>, e: Entry)
    requires NonEmpty(es) && e.key != [] && e.value != []
    ensures NonEmpty(es + [e]) && Actives(es + [e]) == Actives(es) + if e.Active() then [e] else []
  {
    assert (es + [e])[..|es|] == es;
  }

  ghost predicate HasFree(es: seq<Entry>)
    requires NonEmpty(es)
  {
    exists i :: 0 <= i < |es| && !es[i].Active()
  }

  lemma {:induction false} ContentsHas(es: seq<Entry>, key: string)
    requires NonEmpty(es)
    ensures key in Contents(es) <==> exists i :: 0 <= i < |es| && es[i].Active() && es[i].Key() == key
  {
    if es != [] {
      var n := |es| - 1;
      ContentsHas(es[..n], key);
      if exists i :: 0 <= i < |es| && es[i].Active() && es[i].Key() == key {
        var i :| 0 <= i < |es| && es[i].Active() && es[i].Key() == key;
        assert i < n ==> es[..n][i] == es[i];
      }
    }
  }

  lemma {:induction false} ContentsAt(es: seq<Entry>, i: nat)
    requires NonEmpty(es) && Unique(es) && i < |es| && es[i].Active()
    ensures es[i].Key() in Contents(es) && Contents(es)[es[i].Key()] == es[i].Value()
  {
    var n := |es| - 1;
    if i < n {
      ContentsAt(es[..n], i);
    }
  }

  /** One entry of the map for each active entry. */
  lemma {:induction false} ContentsSize(es: seq<Entry>)
    requires NonEmpty(es) && Unique(es)
    ensures |Contents(es)| == |Actives(es)|
  {
    if es != [] {
      var n := |es| - 1;
      ContentsSize(es[..n]);
      ContentsHas(es[..n], es[n].Key());
      if es[n].Active() {
        assert forall i :: 0 <= i < n ==> es[..n][i] == es[i];
        assert es[n].Key() !in Contents(es[..n]);
      }
    }
  }

  // ---------- Lookup ----------

  /** `GetConstEntryForKey`: the first entry whose buffer matches. */
  function Find(sizes: Sizes, es: seq<Entry>, key: string): (found: Option<nat>)
    ensures found.Some? ==> found.value < |es| && StrnEqual(key, es[found.value].key, sizes.keySize)
    ensures forall i :: 0 <= i < (if found.Some? then found.value else |es|) ==> !StrnEqual(key, es[i].key, sizes.keySize)
  {
    FindFrom(sizes, es, key, 0)
  }

  function FindFrom(sizes: Sizes, es: seq<Entry>, key: string, start: nat): (found: Option<nat>)
    requires start <= |es|
    ensures found.Some? ==> start <= found.value < |es| && StrnEqual(key, es[found.value].key, sizes.keySize)
    ensures forall i :: start <= i < (if found.Some? then found.value else |es|) ==> !StrnEqual(key, es[i].key, sizes.keySize)
    decreases |es| - start
  {
    hide StrnEqual;
    if start == |es| then None
    else if StrnEqual(key, es[start].key, sizes.keySize) then Some(start)
    else FindFrom(sizes, es, key, start + 1)
  }

  function FirstFree(es: seq<Entry>): (free: Option<nat>)
    requires NonEmpty(es)
    ensures free.Some? ==> free.value < |es| && !es[free.value].Active()
    ensures forall i :: 0 <= i < (if free.Some? then free.value else |es|) ==> es[i].Active()
    ensures free.Some? <==> HasFree(es)
  {
    FirstFreeFrom(es, 0)
  }

  function FirstFreeFrom(es: seq<Entry>, start: nat): (free: Option<nat>)
    requires NonEmpty(es) && start <= |es|
    ensures free.Some? ==> start <= free.value < |es| && !es[free.value].Active()
    ensures forall i :: start <= i < (if free.Some? then free.value else |es|) ==> es[i].Active()
    decreases |es| - start
  {
    if start == |es| then None
    else if !es[start].Active() then Some(start)
    else FirstFreeFrom(es, start + 1)
  }

  /** `GetValueForKey`. */
  function Lookup(sizes: Sizes, es: seq<Entry>, key: string): Option<string> {
    var found := Find(sizes, es, key);
    if found.Some? then Some(es[found.value].Value()) else None
  }

  /** A buffer matches exactly the key it holds; none matches a key that does not fit in one. */
  lemma MatchIsEquality(sizes: Sizes, key: string, e: Entry)
    requires sizes.ValidEntry(e) && NUL !in key
    ensures StrnEqual(key, e.key, sizes.keySize) <==> key == e.Key()
    ensures key == "" ==> (StrnEqual(key, e.key, sizes.keySize) <==> !e.Active())
  {
  }

  function MapLookup(m: map<string, string>, key: string): Option<string> {
    if key in m then Some(m[key]) else None
  }

  lemma ActiveIsNamed(e: Entry)
    requires e.key != []
    ensures e.Active() <==> e.Key() != ""
  {
  }

  /** Looking up a key in the buffers finds the first entry that holds it. */
  lemma FoundHasKey(sizes: Sizes, es: seq<Entry>, key: string)
    requires sizes.Valid(es) && NUL !in key
    ensures var found := Find(sizes, es, key);
            && (found.Some? ==> es[found.value].Key() == key && (es[found.value].Active() <==> key != ""))
            && (found.None? ==> forall i :: 0 <= i < |es| ==> es[i].Key() != key)
            && (key != "" ==> (found.Some? <==> key in Contents(es)))
            && (key == "" ==> (found.Some? <==> HasFree(es)))
  {
    hide StrnEqual, CString, Contents;
    forall i | 0 <= i < |es|
      ensures StrnEqual(key, es[i].key, sizes.keySize) <==> key == es[i].Key()
      ensures es[i].Active() <==> es[i].Key() != ""
    {
      MatchIsEquality(sizes, key, es[i]);
      ActiveIsNamed(es[i]);
    }
    ContentsHas(es, key);
  }

  lemma NoEmptyKey(es: seq<Entry>)
    requires NonEmpty(es)
    ensures "" !in Contents(es)
  {
    ContentsHas(es, "");
    forall i | 0 <= i < |es|
      ensures es[i].Active() <==> es[i].Key() != ""
    {
      ActiveIsNamed(es[i]);
    }
  }

  /** A lookup gives the map's answer for every key but the empty one, which matches a free entry: it is right exactly when
      the key is not empty or no entry is free. */
  lemma LookupExactly(sizes: Sizes, es: seq<Entry>, key: string)
    requires sizes.Valid(es) && Unique(es) && NUL !in key
    ensures Lookup(sizes, es, key) == MapLookup(Contents(es), key) <==> key != "" || !HasFree(es)
  {
    hide CString, StrnEqual, Contents, Find;
    FoundHasKey(sizes, es, key);
    ContentsHas(es, key);
    var found := Find(sizes, es, key);
    if found.Some? && es[found.value].Active() {
      ContentsAt(es, found.value);
    } else if key == "" {
      NoEmptyKey(es);
    }
  }

  // ---------- Updates ----------

  function StoredEntry(sizes: Sizes, key: string, value: string): Entry
    requires sizes.keySize > 0 && sizes.valueSize > 0
  {
    Entry(Stored(key, sizes.keySize), Stored(value, sizes.valueSize))
  }

  lemma StoredEntryHolds(sizes: Sizes, key: string, value: string)
    requires sizes.keySize > 0 && sizes.valueSize > 0 && NUL !in key && NUL !in value
    ensures var e := StoredEntry(sizes, key, value);
            && sizes.ValidEntry(e)
            && (e.Active() <==> key != "" && sizes.keySize > 1)
            && e.Key() == Cut(key, sizes.keySize - 1) && e.Value() == Cut(value, sizes.valueSize - 1)
  {
    StoredHolds(key, sizes.keySize);
    StoredHolds(value, sizes.valueSize);
  }

  /** Replacing entry `i`, free or with the same key, by one for a key that no other entry has. */
  lemma ReplaceEntry(es: seq<Entry>, i: nat, e: Entry)
    requires NonEmpty(es) && Unique(es) && i < |es| && e.key != [] && e.value != [] && e.Active()
    requires es[i].Active() ==> es[i].Key() == e.Key()
    requires forall j :: 0 <= j < |es| && j != i && es[j].Active() ==> es[j].Key() != e.Key()
    ensures NonEmpty(es[i := e]) && Unique(es[i := e])
    ensures Contents(es[i := e]) == Contents(es)[e.Key() := e.Value()]
  {
    hide CString;
    var r := es[i := e];
    assert NonEmpty(r) && Unique(r);
    hide Unique, Contents;
    var before, after := Contents(es)[e.Key() := e.Value()], Contents(r);
    ContentsAt(r, i);
    forall k
      ensures k in after <==> k in before
      ensures k in after ==> after[k] == before[k]
    {
      ContentsHas(es, k);
      ContentsHas(r, k);
      if k != e.Key() {
        if k in before {
          var j :| 0 <= j < |es| && es[j].Active() && es[j].Key() == k;
          assert r[j] == es[j];
          ContentsAt(es, j);
          ContentsAt(r, j);
        }
        if k in after {
          var j :| 0 <= j < |r| && r[j].Active() && r[j].Key() == k;
          assert r[j] == es[j];
        }
      }
    }
  }

  /** A free entry in place of any other. */
  lemma UniqueWithout(es: seq<Entry>, i: nat, e: Entry)
    requires NonEmpty(es) && i < |es| && e.key != [] && e.value != [] && !e.Active()
    ensures NonEmpty(es[i := e]) && (Unique(es) ==> Unique(es[i := e]))
  {
    hide CString;
  }

  /** Freeing entry `i`. */
  lemma FreeEntry(es: seq<Entry>, i: nat, e: Entry)
    requires NonEmpty(es) && Unique(es) && i < |es| && e.key != [] && e.value != [] && !e.Active()
    requires es[i].Active()
    ensures NonEmpty(es[i := e]) && Unique(es[i := e])
    ensures Contents(es[i := e]) == Contents(es) - {es[i].Key()}
  {
    hide CString;
    var r, key := es[i := e], es[i].Key();
    UniqueWithout(es, i, e);
    assert forall j :: 0 <= j < |es| && j != i && es[j].Active() ==> es[j].Key() != key;
    hide Unique, Contents;
    var before, after := Contents(es) - {key}, Contents(r);
    forall k
      ensures k in after <==> k in before
      ensures k in after ==> after[k] == before[k]
    {
      ContentsHas(es, k);
      ContentsHas(r, k);
      if k in before {
        var j :| 0 <= j < |es| && es[j].Active() && es[j].Key() == k;
        assert r[j] == es[j];
        ContentsAt(es, j);
        ContentsAt(r, j);
      }
      if k in after {
        var j :| 0 <= j < |r| && r[j].Active() && r[j].Key() == k;
        assert r[j] == es[j];
      }
    }
  }

  /** `SetKeyValue` with a value: the value goes into the entry that the key is found in, or into the first free one
      together with the key; with neither, nothing changes. */
  function SetResult(sizes: Sizes, es: seq<Entry>, key: string, value: string): seq<Entry>
    requires sizes.Valid(es) && sizes.keySize > 0 && sizes.valueSize > 0
  {
    var found, free := Find(sizes, es, key), FirstFree(es);
    if key == "" then es
    else if found.Some? then es[found.value := es[found.value].(value := Stored(value, sizes.valueSize))]
    else if free.Some? then es[free.value := StoredEntry(sizes, key, value)]
    else es
  }

  /** `RemoveKey`. */
  function RemoveResult(sizes: Sizes, es: seq<Entry>, key: string): seq<Entry>
    requires sizes.Valid(es)
  {
    var found := Find(sizes, es, key);
    if found.Some? then
      var e := es[found.value];
      es[found.value := Entry(e.key[0 := NUL], e.value[0 := NUL])]
    else
      es
  }

  lemma ValidReplace(sizes: Sizes, es: seq<Entry>, i: nat, e: Entry)
    requires sizes.Valid(es) && i < |es| && sizes.ValidEntry(e)
    ensures sizes.Valid(es[i := e])
  {
  }

  /** With a key that fits, storing is updating the map, as long as there is room; the value is cut to its buffer. */
  lemma SetRefines(sizes: Sizes, es: seq<Entry>, key: string, value: string)
    requires sizes.Valid(es) && Unique(es) && sizes.keySize > 0 && sizes.valueSize > 0
    requires NUL !in key && NUL !in value && key != "" && sizes.Short(key)
    ensures var r := SetResult(sizes, es, key, value);
            && sizes.Valid(r) && Unique(r)
            && Contents(r) == (if key in Contents(es) || HasFree(es) then Contents(es)[key := Cut(value, sizes.valueSize - 1)]
                               else Contents(es))
            && (key !in Contents(es) && !HasFree(es) ==> r == es)
  {
    hide Contents, Find, FirstFree, CString, Stored;
    FoundHasKey(sizes, es, key);
    ContentsHas(es, key);
    StoredEntryHolds(sizes, key, value);
    StoredHolds(value, sizes.valueSize);
    var found, free := Find(sizes, es, key), FirstFree(es);
    if found.Some? {
      var e := es[found.value].(value := Stored(value, sizes.valueSize));
      ValidReplace(sizes, es, found.value, e);
      ReplaceEntry(es, found.value, e);
    } else if free.Some? {
      ValidReplace(sizes, es, free.value, StoredEntry(sizes, key, value));
      ReplaceEntry(es, free.value, StoredEntry(sizes, key, value));
    }
  }

  /** A key too long for its buffer is never found, so each store of it takes another entry for the shortened key. */
  lemma SetLongKey(sizes: Sizes, es: seq<Entry>, key: string, value: string)
    requires sizes.Valid(es) && Unique(es) && sizes.keySize > 1 && sizes.valueSize > 0
    requires NUL !in key && NUL !in value && !sizes.Short(key)
    ensures var r := SetResult(sizes, es, key, value);
            && sizes.Valid(r) && Lookup(sizes, r, key) == None
            && (Unique(r) <==> !HasFree(es) || Cut(key, sizes.keySize - 1) !in Contents(es))
  {
    hide Contents, Find, FirstFree, CString, Stored;
    var r, short := SetResult(sizes, es, key, value), Cut(key, sizes.keySize - 1);
    LongKeyNotFound(sizes, es, key);
    StoredEntryHolds(sizes, key, value);
    var free := FirstFree(es);
    if free.Some? {
      ValidReplace(sizes, es, free.value, StoredEntry(sizes, key, value));
      AddedTwice(es, free.value, StoredEntry(sizes, key, value));
    }
    LongKeyNotFound(sizes, r, key);
  }

  lemma LongKeyNotFound(sizes: Sizes, es: seq<Entry>, key: string)
    requires sizes.Valid(es) && NUL !in key && !sizes.Short(key)
    ensures Find(sizes, es, key) == None
  {
    hide Contents, Find, CString;
    FoundHasKey(sizes, es, key);
  }

  /** Using a free entry for a key. */
  lemma AddedTwice(es: seq<Entry>, i: nat, e: Entry)
    requires NonEmpty(es) && Unique(es) && i < |es| && !es[i].Active() && e.key != [] && e.value != [] && e.Active()
    ensures NonEmpty(es[i := e]) && (Unique(es[i := e]) <==> e.Key() !in Contents(es))
  {
    hide Contents, CString;
    ContentsHas(es, e.Key());
    var r := es[i := e];
    if e.Key() in Contents(es) {
      var j :| 0 <= j < |es| && es[j].Active() && es[j].Key() == e.Key();
      assert r[j] == es[j] && r[i] == e;
      assert r[j].Active() && r[i].Active() && r[j].Key() == r[i].Key();
    } else {
      assert forall j :: 0 <= j < |es| && j != i ==> r[j] == es[j];
    }
  }

  /** Reading back what was stored: it is there exactly when the key fits its buffer. */
  lemma SetThenLookupExactly(sizes: Sizes, es: seq<Entry>, key: string, value: string)
    requires sizes.Valid(es) && Unique(es) && sizes.keySize > 1 && sizes.valueSize > 0
    requires NUL !in key && NUL !in value && key != ""
    requires key in Contents(es) || HasFree(es)
    ensures Lookup(sizes, SetResult(sizes, es, key, value), key) == Some(Cut(value, sizes.valueSize - 1)) <==> sizes.Short(key)
  {
    hide Contents, Find, SetResult, Unique;
    if sizes.Short(key) {
      SetRefines(sizes, es, key, value);
      LookupExactly(sizes, SetResult(sizes, es, key, value), key);
    } else {
      SetLongKey(sizes, es, key, value);
    }
  }

  /** A map with room for one key of three characters. */
  const TINY := Sizes(4, 4)
  const FREE := Entry([NUL, NUL, NUL, NUL], [NUL, NUL, NUL, NUL])

  lemma FreeIsValid()
    ensures TINY.Valid([FREE]) && Unique([FREE]) && HasFree([FREE]) && Contents([FREE]) == map[]
  {
    NulFirst(FREE.key);
    NulFirst(FREE.value);
    NothingActive([FREE]);
    assert !([FREE])[0].Active();
  }

  /** A key of four characters, stored in it, is not found. */
  lemma LongKeyIsLost()
    ensures TINY.Valid([FREE]) && Unique([FREE]) && HasFree([FREE])
    ensures Lookup(TINY, SetResult(TINY, [FREE], "abcd", "x"), "abcd") == None
  {
    hide Find, FirstFree, Contents, Stored, Unique;
    FreeIsValid();
    SetLongKey(TINY, [FREE], "abcd", "x");
  }

  /** The empty key, never stored, is found. */
  lemma EmptyKeyIsFound()
    ensures TINY.Valid([FREE]) && Contents([FREE]) == map[]
    ensures Lookup(TINY, [FREE], "") == Some("")
  {
    hide StrnEqual, Contents;
    FreeIsValid();
    FoundHasKey(TINY, [FREE], "");
    NulFirst(FREE.value);
  }

  /** Removing any key, the empty one and those too long included. */
  lemma RemoveRefines(sizes: Sizes, es: seq<Entry>, key: string)
    requires sizes.Valid(es) && Unique(es) && NUL !in key
    ensures var r := RemoveResult(sizes, es, key);
            sizes.Valid(r) && Unique(r) && Contents(r) == Contents(es) - {key}
  {
    hide Contents, Find, CString;
    FoundHasKey(sizes, es, key);
    NoEmptyKey(es);
    var found := Find(sizes, es, key);
    if found.Some? {
      var e := Entry(es[found.value].key[0 := NUL], es[found.value].value[0 := NUL]);
      NulFirst(e.key);
      NulFirst(e.value);
      ValidReplace(sizes, es, found.value, e);
      if key == "" {
        FreeAgain(es, found.value, e);
        assert Contents(es) - {key} == Contents(es);
      } else {
        FreeEntry(es, found.value, e);
      }
    } else {
      assert Contents(es) - {key} == Contents(es);
    }
  }

  lemma NulFirst(buffer: seq<char>)
    requires buffer != [] && buffer[0] == NUL
    ensures CString(buffer) == ""
  {
  }

  /** Changing a free entry for another. */
  lemma {:induction false} FreeAgain(es: seq<Entry>, i: nat, e: Entry)
    requires NonEmpty(es) && i < |es| && !es[i].Active() && e.key != [] && e.value != [] && !e.Active()
    ensures NonEmpty(es[i := e]) && Contents(es[i := e]) == Contents(es)
    ensures Unique(es) ==> Unique(es[i := e])
  {
    hide CString, Unique, Contents;
    var n := |es| - 1;
    UpdateTake(es, i, e, n);
    UniqueWithout(es, i, e);
    ContentsLast(es);
    ContentsLast(es[i := e]);
    if i < n {
      FreeAgain(es[..n], i, e);
    }
  }

  lemma ContentsLast(es: seq<Entry>)
    requires NonEmpty(es) && es != []
    ensures var e, m := es[|es| - 1], Contents(es[..|es| - 1]);
            Contents(es) == if e.Active() then m[e.Key() := e.Value()] else m
  {
  }

  // ---------- Runs ----------

  /** A call that changes the map. No value means that the key is removed. */
  datatype Operation = Operation(key: string, value: Option<string>)

  /** The key is one that the map can hold. */
  predicate Proper(sizes: Sizes, op: Operation) {
    op.key != "" && sizes.Short(op.key) && NUL !in op.key && (op.value.Some? ==> NUL !in op.value.value)
  }

  function OneEntries(sizes: Sizes, es: seq<Entry>, op: Operation): seq<Entry>
    requires sizes.Valid(es) && sizes.keySize > 0 && sizes.valueSize > 0
  {
    if op.value.Some? then SetResult(sizes, es, op.key, op.value.value) else RemoveResult(sizes, es, op.key)
  }

  /** A map of at most `capacity` keys, with values of at most `width` characters. */
  function OneMap(m: map<string, string>, op: Operation, capacity: nat, width: nat): map<string, string> {
    if op.value.None? then m - {op.key}
    else if op.key in m || |m| < capacity then m[op.key := Cut(op.value.value, width)]
    else m
  }

  function RunMap(m: map<string, string>, ops: seq<Operation>, capacity: nat, width: nat): map<string, string> {
    if ops == [] then m else OneMap(RunMap(m, ops[..|ops| - 1], capacity, width), ops[|ops| - 1], capacity, width)
  }

  /** There is a free entry exactly when the map is not full. */
  lemma {:induction false} FreeIsRoom(es: seq<Entry>)
    requires NonEmpty(es)
    ensures |Actives(es)| <= |es| && (HasFree(es) <==> |Actives(es)| < |es|)
  {
    if es != [] {
      var n := |es| - 1;
      FreeIsRoom(es[..n]);
      assert HasFree(es) <==> HasFree(es[..n]) || !es[n].Active();
    }
  }

  lemma OneRefines(sizes: Sizes, es: seq<Entry>, op: Operation)
    requires sizes.Valid(es) && Unique(es) && sizes.keySize > 0 && sizes.valueSize > 0 && Proper(sizes, op)
    ensures var r := OneEntries(sizes, es, op);
            && |r| == |es| && sizes.Valid(r) && Unique(r)
            && Contents(r) == OneMap(Contents(es), op, |es|, sizes.valueSize - 1)
  {
    ContentsSize(es);
    FreeIsRoom(es);
    if op.value.Some? {
      SetRefines(sizes, es, op.key, op.value.value);
    } else {
      RemoveRefines(sizes, es, op.key);
    }
  }

  // ---------- Serialization ----------

  function EntriesSize(sizes: Sizes, n: nat): nat {
    if n == 0 then 0 else sizes.keySize + sizes.valueSize + EntriesSize(sizes, n - 1)
  }

  /** The entries as they lie in memory. */
  function Bytes(es: seq<Entry>): seq<char> {
    if es == [] then [] else es[0].key + es[0].value + Bytes(es[1..])
  }

  function Parse(sizes: Sizes, bytes: seq<char>, n: nat): (es: seq<Entry>)
    requires |bytes| == EntriesSize(sizes, n)
    ensures |es| == n
  {
    if n == 0 then
      []
    else
      var width := sizes.keySize + sizes.valueSize;
      [Entry(bytes[..sizes.keySize], bytes[sizes.keySize..width])] + Parse(sizes, bytes[width..], n - 1)
  }

  lemma {:induction false} ParseBytes(sizes: Sizes, es: seq<Entry>)
    requires sizes.Valid(es)
    ensures |Bytes(es)| == EntriesSize(sizes, |es|)
    ensures Parse(sizes, Bytes(es), |es|) == es
  {
    hide CString;
    if es != [] {
      ParseBytes(sizes, es[1..]);
      hide Parse;
      ParseOne(sizes, es[0], Bytes(es[1..]), |es| - 1);
      assert es == [es[0]] + es[1..];
    }
  }

  lemma ParseOne(sizes: Sizes, e: Entry, rest: seq<char>, n: nat)
    requires sizes.ValidEntry(e) && |rest| == EntriesSize(sizes, n)
    ensures |e.key + e.value + rest| == EntriesSize(sizes, n + 1)
    ensures Parse(sizes, e.key + e.value + rest, n + 1) == [e] + Parse(sizes, rest, n)
  {
    hide CString;
    SplitInThree(e.key, e.value, rest);
  }

  lemma BytesFirst(e: Entry, rest: seq<Entry>)
    ensures Bytes([e] + rest) == e.key + e.value + Bytes(rest)
  {
    assert ([e] + rest)[1..] == rest;
  }

  /** One entry after the other, each its key and then its value, and nothing between them. */
  lemma {:induction false} BytesInPlace(before: seq<Entry>, e: Entry, after: seq<Entry>)
    ensures Bytes(before + [e] + after) == Bytes(before) + (e.key + e.value) + Bytes(after)
  {
    hide Bytes;
    if before == [] {
      BytesFirst(e, after);
      NoBytes();
      EmptyEnds([e]);
      EmptyEnds(e.key + e.value);
    } else {
      var first, rest := before[0], before[1..];
      assert before == [first] + rest;
      BytesInPlace(rest, e, after);
      BytesFirst(first, rest);
      BytesFirst(first, rest + [e] + after);
      Associative([first], rest, [e]);
      Associative([first], rest + [e], after);
      Associative(first.key + first.value, Bytes(rest), e.key + e.value);
      Associative(first.key + first.value, Bytes(rest) + (e.key + e.value), Bytes(after));
    }
  }

  lemma NoBytes()
    ensures Bytes([]) == []
  {
  }

  // ---------- The class ----------

  class NonAllocatingMap {
    const sizes: Sizes
    const entries: array<Entry>

    ghost predicate Valid()
      reads entries
    {
      sizes.keySize > 0 && sizes.valueSize > 0 && sizes.Valid(entries[..])
    }

    constructor (sizes: Sizes, numEntries: nat)
      requires sizes.keySize > 0 && sizes.valueSize > 0
      ensures this.sizes == sizes && entries.Length == numEntries && fresh(entries)
      ensures Valid() && Unique(entries[..]) && Contents(entries[..]) == map[]
    {
      var empty := Entry(seq(sizes.keySize, _ => NUL), seq(sizes.valueSize, _ => NUL));
      this.sizes := sizes;
      entries := new Entry[numEntries](_ => empty);
      new;
      NulFirst(empty.key);
      NulFirst(empty.value);
      NothingActive(entries[..]);
    }

    /** The deserializing constructor. */
    constructor Deserialize(sizes: Sizes, numEntries: nat, bytes: seq<char>)
      requires |bytes| == EntriesSize(sizes, numEntries)
      ensures this.sizes == sizes && fresh(entries) && entries[..] == Parse(sizes, bytes, numEntries)
    {
      var es := Parse(sizes, bytes, numEntries);
      this.sizes := sizes;
      entries := new Entry[numEntries](i requires 0 <= i < numEntries => es[i]);
    }

    /** A map made from what this returns has the same entries. */
    method Serialize() returns (bytes: seq<char>)
      requires Valid()
      ensures bytes == Bytes(entries[..]) && |bytes| == EntriesSize(sizes, entries.Length)
      ensures Parse(sizes, bytes, entries.Length) == entries[..]
    {
      ParseBytes(sizes, entries[..]);
      bytes := Bytes(entries[..]);
    }

    method GetCount() returns (count: nat)
      requires Valid()
      ensures count == |Actives(entries[..])|
      ensures Unique(entries[..]) ==> count == |Contents(entries[..])|
    {
      count := 0;
      for i := 0 to entries.Length
        invariant count == |Actives(entries[..i])|
      {
        assert entries[..i + 1][..i] == entries[..i];
        if entries[i].Active() {
          count := count + 1;
        }
      }
      assert entries[..entries.Length] == entries[..];
      if Unique(entries[..]) {
        ContentsSize(entries[..]);
      }
    }

    method GetConstEntryForKey(key: string) returns (found: Option<nat>)
      requires Valid()
      ensures found == Find(sizes, entries[..], key)
    {
      hide StrnEqual;
      for i := 0 to entries.Length
        invariant forall j :: 0 <= j < i ==> !StrnEqual(key, entries[j].key, sizes.keySize)
      {
        if StrnEqual(key, entries[i].key, sizes.keySize) {
          return Some(i);
        }
      }
      return None;
    }

    method GetValueForKey(key: string) returns (value: Option<string>)
      requires Valid() && NUL !in key
      ensures value == Lookup(sizes, entries[..], key)
      ensures Unique(entries[..]) && key != "" ==> value == MapLookup(Contents(entries[..]), key)
    {
      hide Find, Unique, Contents;
      var entry := GetConstEntryForKey(key);
      if Unique(entries[..]) {
        LookupExactly(sizes, entries[..], key);
      }
      return if entry.Some? then Some(entries[entry.value].Value()) else None;
    }

    /** Nothing happens for an empty key, or when the key is new and the map is full. */
    method SetKeyValue(key: string, value: Option<string>)
      requires Valid() && NUL !in key && (value.Some? ==> NUL !in value.value)
      modifies entries
      ensures Valid()
      ensures entries[..] == if value.None? then RemoveResult(sizes, old(entries[..]), key)
                             else SetResult(sizes, old(entries[..]), key, value.value)
      ensures value.Some? ==> forall i :: 0 <= i < entries.Length && entries[i] != old(entries[i]) ==>
                && Holds(entries[i].value, value.value)
                && (entries[i].key == old(entries[i].key) || (!old(entries[i]).Active() && Holds(entries[i].key, key)))
    {
      hide Find, FirstFree, Stored, CString, Holds;
      StoredInPlace(key, sizes.keySize);
      if value.None? {
        RemoveKey(key);
        return;
      }
      if key == "" {
        return;
      }
      var entry := GetConstEntryForKey(key);
      StoredEntryHolds(sizes, key, value.value);
      StoredHolds(value.value, sizes.valueSize);
      StoredInPlace(value.value, sizes.valueSize);
      if entry.None? {
        var free := FindFree();
        if free.Some? {
          entries[free.value] := entries[free.value].(key := Stored(key, sizes.keySize));
          entry := free;
        }
      }
      if entry.None? {
        return;
      }
      entries[entry.value] := entries[entry.value].(value := Stored(value.value, sizes.valueSize));
    }

    method FindFree() returns (free: Option<nat>)
      requires Valid()
      ensures free == FirstFree(entries[..])
    {
      for i := 0 to entries.Length
        invariant forall j :: 0 <= j < i ==> entries[j].Active()
      {
        if !entries[i].Active() {
          return Some(i);
        }
      }
      return None;
    }

    method RemoveKey(key: string)
      requires Valid() && NUL !in key
      modifies entries
      ensures Valid() && entries[..] == RemoveResult(sizes, old(entries[..]), key)
      ensures forall i :: 0 <= i < entries.Length && entries[i] != old(entries[i]) ==>
                entries[i] == old(Entry(entries[i].key[0 := 0 as char], entries[i].value[0 := 0 as char]))
    {
      hide Find, CString;
      var entry := GetConstEntryForKey(key);
      if entry.Some? {
        var e := entries[entry.value];
        NulFirst(e.key[0 := NUL]);
        NulFirst(e.value[0 := NUL]);
        entries[entry.value] := Entry(e.key[0 := NUL], e.value[0 := NUL]);
      }
    }

    /** Any run of calls with keys that the map can hold acts on a finite map of limited size. */
    method Perform(ops: seq<Operation>)
      requires Valid() && Unique(entries[..])
      requires forall i :: 0 <= i < |ops| ==> Proper(sizes, ops[i])
      modifies entries
      ensures Valid() && Unique(entries[..])
      ensures Contents(entries[..]) == RunMap(old(Contents(entries[..])), ops, entries.Length, sizes.valueSize - 1)
    {
      hide Contents, Unique, SetResult, RemoveResult, OneMap;
      ghost var start := Contents(entries[..]);
      for i := 0 to |ops|
        invariant Valid() && Unique(entries[..])
        invariant Contents(entries[..]) == RunMap(start, ops[..i], entries.Length, sizes.valueSize - 1)
      {
        OneRefines(sizes, entries[..], ops[i]);
        SetKeyValue(ops[i].key, ops[i].value);
        assert ops[..i + 1][..i] == ops[..i];
      }
      assert ops[..|ops|] == ops;
    }
  }

  lemma {:induction false} NothingActive(es: seq<Entry>)
    requires NonEmpty(es) && forall i :: 0 <= i < |es| ==> !es[i].Active()
    ensures Unique(es) && Contents(es) == map[]
  {
    if es != [] {
      NothingActive(es[..|es| - 1]);
    }
  }

  // ---------- Iteration ----------

  class MapIterator {
    const map_: NonAllocatingMap
    var current: nat

    constructor (map_: NonAllocatingMap)
      ensures this.map_ == map_ && current == 0
    {
      this.map_, current := map_, 0;
    }

    /** The next active entry, or nothing when there are no more. */
    method Next() returns (entry: Option<Entry>)
      requires map_.Valid() && current <= map_.entries.Length
      modifies this
      ensures old(current) <= current <= map_.entries.Length
      ensures var before, after := Actives(map_.entries[..old(current)]), Actives(map_.entries[..current]);
              if entry.Some? then
                && entry.value.key != [] && entry.value.Active()
                && after == before + [entry.value] && old(current) < current
              else
                after == before && current == map_.entries.Length
    {
      hide Actives, CString;
      ghost var before := Actives(map_.entries[..current]);
      while current < map_.entries.Length
        invariant old(current) <= current <= map_.entries.Length
        invariant Actives(map_.entries[..current]) == before
      {
        var e := map_.entries[current];
        assert map_.entries[..current + 1] == map_.entries[..current] + [e];
        ActivesSnoc(map_.entries[..current], e);
        current := current + 1;
        if e.Active() {
          return Some(e);
        }
      }
      return None;
    }
  }

  /** Iterating to the end yields each active entry once, in order. */
  method IterateAll(map_: NonAllocatingMap) returns (all: seq<Entry>)
    requires map_.Valid()
    ensures all == Actives(map_.entries[..])
  {
    var iteration := new MapIterator(map_);
    all := [];
    var entry := iteration.Next();
    while entry.Some?
      invariant map_.Valid() && iteration.map_ == map_ && iteration.current <= map_.entries.Length
      invariant entry.Some? ==> Actives(map_.entries[..iteration.current]) == all + [entry.value]
      invariant entry.None? ==> iteration.current == map_.entries.Length && Actives(map_.entries[..iteration.current]) == all
      decreases if entry.Some? then map_.entries.Length - iteration.current + 1 else 0
    {
      all := all + [entry.value];
      entry := iteration.Next();
    }
    assert map_.entries[..map_.entries.Length] == map_.entries[..];
  }
}
