/** Receiving the rows of a DWARF line number program, and what they guarantee to the sweep. */
module DwarfLineToModule {
  import opened Addresses
  import opened Options
  import opened SweepSpec

  /** One AddLine call: its arguments, and the file its number stood for at the time, if any. */
  datatype Call = Call(address: Address, length: Address, file: Option<int>, number: int) {
    /** The length that stays inside the address space. */
    function Clipped(): Address {
      Min(length, ADDRESS_SPACE - address)
    }

    predicate Empty() {
      length == 0
    }
  }

  /** Call `j` is the latest non-empty one before call `i`. */
  ghost predicate Precedes(calls: seq<Call>, j: int, i: int) {
    0 <= j < i <= |calls| && !calls[j].Empty() && forall k :: j < k < i ==> calls[k].Empty()
  }

  /** Call `i` belongs to a contiguous run that starts at address zero: code the linker left out. */
  ghost predicate Dead(calls: seq<Call>, i: nat)
    requires i < |calls|
    decreases i
  {
    || calls[i].address == 0
    || exists j :: Precedes(calls, j, i) && Dead(calls, j) && calls[j].address + calls[j].Clipped() == calls[i].address
  }

  ghost predicate Kept(calls: seq<Call>, i: nat)
    requires i < |calls|
  {
    !calls[i].Empty() && !Dead(calls, i) && calls[i].file.Some?
  }

  /** The lines of the first `n` calls: the kept ones, clipped, in order. */
  ghost function Recorded(calls: seq<Call>, n: nat): seq<Line>
    requires n <= |calls|
  {
    if n == 0 then
      []
    else
      Recorded(calls, n - 1)
      + (if Kept(calls, n - 1) then
           var c := calls[n - 1];
           [Line(c.address, c.Clipped(), c.file.value, c.number)]
         else
           [])
  }

  /** Every recorded line is fit for the sweep: not empty, inside the address space, and not at address zero. */
  lemma {:induction false} RecordedAreProper(calls: seq<Call>, n: nat)
    requires n <= |calls|
    ensures AllProper(Spans(Recorded(calls, n)))
    ensures forall l :: l in Recorded(calls, n) ==> l.address != 0
  {
    if n != 0 {
      RecordedAreProper(calls, n - 1);
    }
  }

  lemma {:induction false} DeadDependsOnPrefix(calls: seq<Call>, more: seq<Call>, i: nat)
    requires i < |calls| && calls <= more
    ensures Dead(calls, i) <==> Dead(more, i)
    decreases i
  {
    forall j | 0 <= j < i
      ensures Precedes(calls, j, i) <==> Precedes(more, j, i)
      ensures Dead(calls, j) <==> Dead(more, j)
    {
      DeadDependsOnPrefix(calls, more, j);
    }
  }

  lemma {:induction false} RecordedDependsOnPrefix(calls: seq<Call>, more: seq<Call>, n: nat)
    requires n <= |calls| && calls <= more
    ensures Recorded(calls, n) == Recorded(more, n)
  {
    if n != 0 {
      DeadDependsOnPrefix(calls, more, n - 1);
      RecordedDependsOnPrefix(calls, more, n - 1);
    }
  }

  /** What `omitted_line_end_` holds: the end of the latest non-empty call if that was dead, else zero. */
  ghost predicate OmittedEnd(calls: seq<Call>, end: Address) {
    && (forall j :: Precedes(calls, j, |calls|) ==> end == if Dead(calls, j) then Add(calls[j].address, calls[j].Clipped()) else 0)
    && ((forall j :: 0 <= j < |calls| ==> calls[j].Empty()) ==> end == 0)
  }

  /** Unless all calls were empty, one of them is the latest that was not. */
  lemma {:induction false} LatestExists(calls: seq<Call>, n: nat) returns (j: int)
    requires n <= |calls|
    ensures Precedes(calls, j, n) || (j == -1 && forall k :: 0 <= k < n ==> calls[k].Empty())
  {
    if n == 0 {
      j := -1;
    } else if calls[n - 1].Empty() {
      j := LatestExists(calls, n - 1);
    } else {
      j := n - 1;
    }
  }

  /** The source's test for omitting a line is `Dead`. */
  lemma {:induction false} OmitTest(calls: seq<Call>, call: Call, end: Address)
    requires OmittedEnd(calls, end) && !call.Empty()
    ensures call.address == 0 || call.address == end <==> Dead(calls + [call], |calls|)
  {
    var n, more := |calls|, calls + [call];
    var j := LatestExists(calls, n);
    if j == -1 {
      assert forall i :: !Precedes(more, i, n);
    } else {
      DeadDependsOnPrefix(calls, more, j);
      assert forall i :: Precedes(more, i, n) <==> i == j;
    }
  }

  /** Appending a call changes nothing for the earlier ones. */
  lemma {:induction false} OmittedEndAfter(calls: seq<Call>, call: Call, end: Address)
    requires OmittedEnd(calls, end)
    ensures call.Empty() ==> OmittedEnd(calls + [call], end)
    ensures !call.Empty() ==>
              OmittedEnd(calls + [call],
                         if Dead(calls + [call], |calls|) then Add(call.address, call.Clipped()) else 0)
  {
    var n, more := |calls|, calls + [call];
    var m := n + 1;
    assert forall k :: 0 <= k < n ==> calls[k] == more[k];
    assert more[n] == call;
    forall j | Precedes(more, j, m)
      ensures if call.Empty() then Precedes(calls, j, n) && (Dead(calls, j) <==> Dead(more, j)) else j == n
    {
      if call.Empty() {
        DeadDependsOnPrefix(calls, more, j);
      }
    }
  }

  // ---------- Runs from address zero ----------

  /** Where the line of a call ends. */
  function EndOf(call: Call): int {
    if call.address + call.length <= 0x1_0000_0000_0000_0000 then call.address + call.length else 0x1_0000_0000_0000_0000
  }

  /** `i` is a call with a length, and all between it and call `n` have none. */
  ghost predicate LastBefore(calls: seq<Call>, i: int, n: int) {
    0 <= i < n <= |calls| && calls[i].length != 0 && forall k :: i < k < n ==> calls[k].length == 0
  }

  /** The calls `run`, one after another but for calls without a length, start at address zero and reach `address` without a
      gap before call `n`. */
  ghost predicate RunFromZero(calls: seq<Call>, n: int, run: seq<int>, address: int)
    decreases |run|
  {
    && run != []
    && var rest, last := run[..|run| - 1], run[|run| - 1];
       && LastBefore(calls, last, n) && EndOf(calls[last]) == address
       && if rest == [] then calls[last].address == 0 else RunFromZero(calls, last, rest, calls[last].address)
  }

  ghost predicate ContinuesFromZero(calls: seq<Call>, n: int, address: int) {
    exists run: seq<int> :: RunFromZero(calls, n, run, address)
  }

  lemma {:induction false} DeadFromZero(calls: seq<Call>, i: nat)
    requires i < |calls| && Dead(calls, i)
    ensures calls[i].address == 0 || ContinuesFromZero(calls, i, calls[i].address)
    decreases i
  {
    if calls[i].address != 0 {
      var j :| Precedes(calls, j, i) && Dead(calls, j) && calls[j].address + calls[j].Clipped() == calls[i].address;
      DeadFromZero(calls, j);
      assert LastBefore(calls, j, i);
      if calls[j].address == 0 {
        assert RunFromZero(calls, i, [j], calls[i].address);
      } else {
        var run :| RunFromZero(calls, j, run, calls[j].address);
        RunGoesOn(calls, j, run, i, calls[i].address);
      }
    }
  }

  lemma RunGoesOn(calls: seq<Call>, j: int, run: seq<int>, i: int, address: Address)
    requires LastBefore(calls, j, i) && RunFromZero(calls, j, run, calls[j].address) && EndOf(calls[j]) == address
    ensures RunFromZero(calls, i, run + [j], address)
  {
    assert (run + [j])[..|run|] == run;
  }

  lemma {:induction false} RunIsDead(calls: seq<Call>, i: nat, run: seq<int>)
    requires i < |calls| && RunFromZero(calls, i, run, calls[i].address)
    ensures Dead(calls, i)
    decreases |run|
  {
    var j := run[|run| - 1];
    assert Precedes(calls, j, i);
    if |run| > 1 {
      RunIsDead(calls, j, run[..|run| - 1]);
    }
    assert Dead(calls, j) && calls[j].address + calls[j].Clipped() == calls[i].address;
  }

  /** A line is left out exactly if it is at address zero or continues a run from there. */
  lemma DeadExactly(calls: seq<Call>, i: nat)
    requires i < |calls|
    ensures Dead(calls, i) <==> calls[i].address == 0 || ContinuesFromZero(calls, i, calls[i].address)
  {
    if Dead(calls, i) {
      DeadFromZero(calls, i);
    }
    if run: seq<int> :| RunFromZero(calls, i, run, calls[i].address) {
      RunIsDead(calls, i, run);
    }
  }

  class DwarfLineToModule {
    var files: map<int, int>
    var highestFileNumber: int
    var omittedLineEnd: Address
    var warnedBadFileNumber: bool
    var lines: seq<Line>
    /** The calls received so far. */
    ghost var calls: seq<Call>

    constructor ()
      ensures Valid() && calls == [] && lines == []
    {
      files, highestFileNumber, omittedLineEnd, warnedBadFileNumber, lines, calls := map[], -1, 0, false, [], [];
    }

    ghost predicate Valid()
      reads this
    {
      && lines == Recorded(calls, |calls|)
      && OmittedEnd(calls, omittedLineEnd)
      && (forall n :: n in files ==> n <= highestFileNumber)
    }

    /** `file` is the module's file object for the expanded name. */
    method DefineFile(fileNumber: int, file: int)
      requires Valid()
      modifies this`files, this`highestFileNumber
      ensures Valid()
      ensures var n := if fileNumber == -1 then old(highestFileNumber) + 1 else fileNumber;
              files == old(files)[n := file] && (fileNumber == -1 ==> n !in old(files))
    {
      var number := fileNumber;
      if fileNumber == -1 {
        highestFileNumber := highestFileNumber + 1;
        number := highestFileNumber;
      } else if fileNumber > highestFileNumber {
        highestFileNumber := fileNumber;
      }
      files := files[number := file];
    }

    method AddLine(address: Address, length: Address, fileNumber: int, lineNumber: int)
      requires Valid()
      modifies this`omittedLineEnd, this`warnedBadFileNumber, this`lines, this`calls
      ensures Valid()
      ensures calls == old(calls) + [Call(address, length, if fileNumber in files then Some(files[fileNumber]) else None, lineNumber)]
      ensures if length != 0 && fileNumber in files && address != 0 && !ContinuesFromZero(calls, |old(calls)|, address) then
                var size := if address + length <= 0x1_0000_0000_0000_0000 then length else 0x1_0000_0000_0000_0000 - address;
                lines == old(lines) + [Line(address, size, files[fileNumber], lineNumber)]
              else
                lines == old(lines)
    {
      hide OmittedEnd, Dead, ContinuesFromZero;
      ghost var before := calls;
      ghost var call := Call(address, length, if fileNumber in files then Some(files[fileNumber]) else None, lineNumber);
      calls := calls + [call];
      RecordedDependsOnPrefix(before, calls, |before|);
      OmittedEndAfter(before, call, omittedLineEnd);
      if length == 0 {
        return;
      }
      // The sum wrapped: keep what lies below 2^64.
      var size := length;
      if Add(address, size) < address {
        size := Sub(0, address);
      }
      OmitTest(before, call, omittedLineEnd);
      DeadExactly(calls, |before|);
      if address == 0 || address == omittedLineEnd {
        omittedLineEnd := Add(address, size);
        return;
      } else {
        omittedLineEnd := 0;
      }
      if fileNumber !in files {
        warnedBadFileNumber := true;
        return;
      }
      lines := lines + [Line(address, size, files[fileNumber], lineNumber)];
    }
  }
}
