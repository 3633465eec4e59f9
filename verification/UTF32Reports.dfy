/** Resuming a conversion from UTF-32 can lose the report of a replaced value. When that happens, told from the source. */
module UTF32Reports {
  import opened ConvertUTFSteps
  import opened Transcoding
  import opened UnicodeForms

  // ---------- Converters of single values ----------

  /** The step looks at one value only, takes it, and asks for at most four units. */
  ghost predicate ByValue<T>(step: seq<bv32> -> Outcome<T>, after: bv32 -> Outcome<T>) {
    && Fair(step)
    && forall s :: s != [] ==> step(s) == after(s[0]) && OneValue(step(s))
  }

  predicate OneValue<T>(o: Outcome<T>) {
    match o
    case Emit(consumed, units, need, _) => consumed == 1 && |units| <= need <= 4
    case Stop(result, need) => result.SourceIllegal? && need <= 4
  }

  predicate Refused<T>(after: bv32 -> Outcome<T>, c: bv32) {
    after(c).Stop?
  }

  predicate Marked<T>(after: bv32 -> Outcome<T>, c: bv32) {
    after(c).Emit? && after(c).bad
  }

  predicate Good<T>(after: bv32 -> Outcome<T>, c: bv32) {
    !Refused(after, c) && !Marked(after, c)
  }

  lemma StopsAreIllegal<T>(step: seq<bv32> -> Outcome<T>, after: bv32 -> Outcome<T>)
    requires ByValue(step, after)
    ensures forall s :: s != [] && step(s).Stop? ==> step(s).result.SourceExhausted? || step(s).result.SourceIllegal?
  {
  }

  /** `Unfold` for such a step. */
  lemma UnfoldValue<T>(step: seq<bv32> -> Outcome<T>, after: bv32 -> Outcome<T>, src: seq<bv32>, room: nat, bad: bool)
    requires ByValue(step, after) && src != []
    ensures Fair(step) && OneValue(after(src[0]))
    ensures var o, r := after(src[0]), Convert(step, src, room, bad);
            if room < o.need then
              r == Conversion(0, [], TargetExhausted)
            else if o.Stop? then
              r == Conversion(0, [], SourceIllegal)
            else
              var rest := Convert(step, src[1..], room - |o.units|, bad || o.bad);
              r == Conversion(1 + rest.consumed, o.units + rest.written, rest.result)
  {
    hide Convert, Fair, OneValue;
    assert step(src) == after(src[0]);
    OneValueStep(after(src[0]));
    Unfold(step, src, room, bad);
  }

  lemma OneValueStep<T>(o: Outcome<T>)
    requires OneValue(o)
    ensures o.Emit? ==> o.consumed == 1 && |o.units| <= o.need
    ensures o.Stop? ==> o.result.SourceIllegal?
    ensures o.need <= 4
  {
  }

  lemma UnfoldEmpty<T>(step: seq<bv32> -> Outcome<T>, room: nat, bad: bool)
    requires Fair(step)
    ensures Convert(step, [], room, bad) == Conversion(0, [], if bad then SourceIllegal else ConversionOK)
  {
  }

  /** Four units for each value are always room enough; then the call ends in conversionOK exactly when no value is
      refused and none was marked. */
  lemma {:induction false} EnoughRoom<T>(step: seq<bv32> -> Outcome<T>, after: bv32 -> Outcome<T>, src: seq<bv32>, room: nat,
                                         bad: bool)
    requires ByValue(step, after) && 4 * |src| <= room
    ensures var r := Convert(step, src, room, bad);
            && !r.result.TargetExhausted?
            && (r.result.ConversionOK? <==> !bad && forall j :: 0 <= j < |src| ==> Good(after, src[j]))
    decreases |src|
  {
    hide Convert, Fair;
    if src == [] {
      UnfoldEmpty(step, room, bad);
    } else {
      UnfoldValue(step, after, src, room, bad);
      var o := after(src[0]);
      OneValueStep(o);
      if o.Emit? {
        EnoughRoom(step, after, src[1..], room - |o.units|, bad || o.bad);
        GoodTail(after, src);
      } else {
        assert !Good(after, src[0]);
      }
    }
  }

  lemma GoodTail<T>(after: bv32 -> Outcome<T>, src: seq<bv32>)
    requires src != []
    ensures (forall j :: 0 <= j < |src| ==> Good(after, src[j]))
            <==> Good(after, src[0]) && forall j :: 0 <= j < |src[1..]| ==> Good(after, src[1..][j])
  {
    hide Good;
    assert forall j :: 0 < j < |src| ==> src[j] == src[1..][j - 1];
  }

  /** What is consumed was not refused; if it stopped for lack of room, something is left; and right after a marked value
      that left room over, only a value that needs two units is too large. */
  lemma {:induction false} ConsumedWasEmitted<T>(step: seq<bv32> -> Outcome<T>, after: bv32 -> Outcome<T>, src: seq<bv32>,
                                                 room: nat, bad: bool)
    requires ByValue(step, after)
    ensures var r := Convert(step, src, room, bad);
            && (forall j :: 0 <= j < r.consumed ==> !Refused(after, src[j]))
            && (r.result.TargetExhausted? ==> r.consumed < |src|)
            && (r.result.TargetExhausted? && r.consumed > 0 ==>
                  var o := after(src[r.consumed - 1]); o.Emit? && after(src[r.consumed]).need > o.need - |o.units|)
    decreases |src|
  {
    hide Convert, Fair, OneValue;
    if src == [] {
      UnfoldEmpty(step, room, bad);
    } else {
      UnfoldValue(step, after, src, room, bad);
      var o := after(src[0]);
      if o.need <= room && o.Emit? {
        ConsumedWasEmitted(step, after, src[1..], room - |o.units|, bad || o.bad);
        if src[1..] == [] {
          UnfoldEmpty(step, room - |o.units|, bad || o.bad);
        } else {
          UnfoldValue(step, after, src[1..], room - |o.units|, bad || o.bad);
        }
      }
    }
  }

  /** Among consumed values, the marked ones are those that `BadWithin` finds. */
  lemma {:induction false} MarkedWithin<T>(step: seq<bv32> -> Outcome<T>, after: bv32 -> Outcome<T>, src: seq<bv32>, k: nat)
    requires ByValue(step, after) && k <= |src| && (forall j :: 0 <= j < k ==> !Refused(after, src[j]))
    ensures BadWithin(step, src, k) <==> exists j :: 0 <= j < k && Marked(after, src[j])
    decreases |src|
  {
    hide Fair, OneValue, BadWithin;
    BadWithinStep(step, src, k);
    if src != [] {
      assert step(src) == after(src[0]);
      OneValueStep(after(src[0]));
      if k > 0 {
        assert !Refused(after, src[0]);
        MarkedWithin(step, after, src[1..], k - 1);
        assert forall j :: 0 < j < k ==> src[j] == src[1..][j - 1];
        assert forall j :: 0 <= j < k - 1 ==> src[1..][j] == src[j + 1];
      }
    }
  }

  // ---------- Losing a report ----------

  /** A call that stops for lack of room, resumed with room enough, ends differently from one call with room enough. */
  ghost predicate Loses<T>(step: seq<bv32> -> Outcome<T>, src: seq<bv32>, room: nat)
    requires Fair(step)
  {
    var first, enough := Convert(step, src, room, false), 4 * |src|;
    && first.result.TargetExhausted?
    && Convert(step, src[first.consumed..], enough, false).result != Convert(step, src, enough, false).result
  }

  /** For one call: what is left is good, and something marked was consumed. */
  lemma LosesWhen<T>(step: seq<bv32> -> Outcome<T>, after: bv32 -> Outcome<T>, src: seq<bv32>, room: nat)
    requires ByValue(step, after)
    ensures var first := Convert(step, src, room, false);
            Loses(step, src, room) <==>
              && first.result.TargetExhausted?
              && (forall j :: first.consumed <= j < |src| ==> Good(after, src[j]))
              && exists j :: 0 <= j < first.consumed && Marked(after, src[j])
  {
    hide Convert, Fair, BadWithin, Good, Marked, Refused, OneValue;
    var first, enough := Convert(step, src, room, false), 4 * |src|;
    StopsAreIllegal(step, after);
    ConsumedWasEmitted(step, after, src, room, false);
    MarkedWithin(step, after, src, first.consumed);
    EnoughRoom(step, after, src, enough, false);
    EnoughRoom(step, after, src[first.consumed..], enough, false);
    var left := src[first.consumed..];
    assert forall j :: 0 <= j < |left| ==> left[j] == src[first.consumed + j];
    assert forall j :: first.consumed <= j < |src| ==> src[j] == left[j - first.consumed];
    if first.result.TargetExhausted? {
      ResumeWithBad(step, src, room, enough, false);
    }
  }

  /** Value `i` is the last that is marked; none before it is refused, and all after it are good. */
  ghost predicate LastMarked<T>(after: bv32 -> Outcome<T>, src: seq<bv32>, i: int) {
    && 0 <= i < |src| && Marked(after, src[i])
    && (forall j :: 0 <= j < i ==> !Refused(after, src[j]))
    && (forall j :: i < j < |src| ==> Good(after, src[j]))
  }

  /** The last marked value before `k`, when those from `k` on are good. */
  lemma {:induction false} FindLastMarked<T>(after: bv32 -> Outcome<T>, src: seq<bv32>, k: nat) returns (i: int)
    requires k <= |src| && (forall j :: 0 <= j < k ==> !Refused(after, src[j]))
    requires (forall j :: k <= j < |src| ==> Good(after, src[j])) && (exists j :: 0 <= j < k && Marked(after, src[j]))
    ensures i < k && LastMarked(after, src, i)
  {
    if Marked(after, src[k - 1]) {
      i := k - 1;
    } else {
      i := FindLastMarked(after, src, k - 1);
    }
  }

  /** A lost report leaves a last marked value that is not at the end. */
  lemma LosesOnlyWhen<T>(step: seq<bv32> -> Outcome<T>, after: bv32 -> Outcome<T>, src: seq<bv32>, room: nat) returns (i: int)
    requires ByValue(step, after) && Loses(step, src, room)
    ensures LastMarked(after, src, i) && i + 1 < |src|
    ensures i + 2 < |src| || after(src[i + 1]).need > after(src[i]).need - |after(src[i]).units|
  {
    hide Convert, Fair, Good, Marked, Refused, OneValue, Loses;
    LosesWhen(step, after, src, room);
    ConsumedWasEmitted(step, after, src, room, false);
    i := FindLastMarked(after, src, Convert(step, src, room, false).consumed);
  }

  // ---------- Choosing the room ----------

  /** What the values write. */
  function Written<T>(after: bv32 -> Outcome<T>, src: seq<bv32>): seq<T> {
    if src == [] then [] else (if after(src[0]).Emit? then after(src[0]).units else []) + Written(after, src[1..])
  }

  /** With room for what the first `n` values write and `slack` more, they are consumed and the slack is left, when none
      is refused and none asks for more than the slack beyond what it writes. */
  lemma {:induction false} SkipValues<T>(step: seq<bv32> -> Outcome<T>, after: bv32 -> Outcome<T>, src: seq<bv32>, n: nat,
                                         slack: nat, bad: bool) returns (bad': bool)
    requires ByValue(step, after) && n <= |src|
    requires forall j :: 0 <= j < n ==> after(src[j]).Emit? && after(src[j]).need <= |after(src[j]).units| + slack
    ensures var r := Convert(step, src, |Written(after, src[..n])| + slack, bad);
            var rest := Convert(step, src[n..], slack, bad');
            r.consumed == n + rest.consumed && r.result == rest.result
    decreases n
  {
    hide Convert, Fair, OneValue, Written;
    if n == 0 {
      assert src[..0] == [] && src[0..] == src;
      WrittenNothing(after);
      bad' := bad;
    } else {
      var o, room := after(src[0]), |Written(after, src[..n])| + slack;
      UnfoldValue(step, after, src, room, bad);
      WrittenFirst(after, src, n);
      bad' := SkipValues(step, after, src[1..], n - 1, slack, bad || o.bad);
      assert src[1..][n - 1..] == src[n..];
    }
  }

  lemma WrittenNothing<T>(after: bv32 -> Outcome<T>)
    ensures Written(after, []) == []
  {
  }

  lemma WrittenFirst<T>(after: bv32 -> Outcome<T>, src: seq<bv32>, n: nat)
    requires 0 < n <= |src| && after(src[0]).Emit?
    ensures |Written(after, src[..n])| == |after(src[0]).units| + |Written(after, src[1..][..n - 1])|
  {
    assert src[..n][0] == src[0] && src[..n][1..] == src[1..][..n - 1];
  }

  /** If a call with the slack that is left over after the last marked value stops for lack of room, the report is lost. */
  lemma LosesAfter<T>(step: seq<bv32> -> Outcome<T>, after: bv32 -> Outcome<T>, src: seq<bv32>, i: int, slack: nat)
    returns (room: nat)
    requires ByValue(step, after) && LastMarked(after, src, i)
    requires forall j :: 0 <= j <= i ==> after(src[j]).Emit? ==> after(src[j]).need <= |after(src[j]).units| + slack
    requires Convert(step, src[i + 1..], slack, false).result.TargetExhausted?
    requires Convert(step, src[i + 1..], slack, true).result.TargetExhausted?
    ensures Loses(step, src, room)
  {
    hide Convert, Fair, OneValue, Loses;
    room := |Written(after, src[..i + 1])| + slack;
    var bad := SkipValues(step, after, src, i + 1, slack, false);
    LosesWhen(step, after, src, room);
  }

  // ---------- The two converters ----------

  lemma From32to8ByValue(flags: ConversionFlags)
    ensures ByValue(From32to8(flags), c => After32to8(flags, c))
  {
    hide EncodeReplacing, Fair;
    From32to8Fair(flags);
    forall c
      ensures 1 <= |EncodeReplacing(c)| <= 4
    {
      ReplacingLength(c);
    }
  }

  lemma ReplacingLength(c: bv32)
    ensures 1 <= |EncodeReplacing(c)| <= 4
  {
  }

  lemma From32to16ByValue(flags: ConversionFlags)
    ensures ByValue(From32to16(flags), c => After32to16(flags, c))
  {
    hide EncodeUTF16, Fair;
    From32to16Fair(flags);
    forall c
      ensures OneValue(After32to16(flags, c))
    {
      After32to16Cases(flags, c);
    }
  }

  lemma After32to16Cases(flags: ConversionFlags, c: bv32)
    ensures OneValue(After32to16(flags, c))
    ensures Marked(d => After32to16(flags, d), c) <==> flags.StrictConversion? && AboveLegal(c)
    ensures Refused(d => After32to16(flags, d), c) <==> flags.StrictConversion? && IsSurrogate(c)
    ensures var o := After32to16(flags, c);
            && 1 <= o.need <= 2
            && (o.Emit? && o.bad ==> o.units == [] && o.need == 1)
            && (o.Emit? ==> o.need <= |o.units| + 1)
            && (o.Emit? && !o.bad ==> (o.need == 2 <==> !InBMP(c) && !AboveLegal(c)) && (o.need == 1 ==> |o.units| == 1))
  {
    hide HighPart, LowPart, UnitPart;
  }

  predicate RefusedValue(flags: ConversionFlags, c: bv32) {
    flags.StrictConversion? && IsSurrogate(c)
  }

  /** Value `i` is the last above 10FFFF, and in strict mode there are no surrogates. */
  ghost predicate LastAbove(flags: ConversionFlags, src: seq<bv32>, i: int) {
    && 0 <= i < |src| && AboveLegal(src[i])
    && (forall j :: 0 <= j < i ==> !RefusedValue(flags, src[j]))
    && (forall j :: i < j < |src| ==> !AboveLegal(src[j]) && !RefusedValue(flags, src[j]))
  }

  /** To UTF-8, some room loses a report exactly when a value above 10FFFF that is not the last value has only legal ones
      after it, and the calls get that far. */
  lemma UTF32toUTF8LosesExactly(flags: ConversionFlags, src: seq<bv32>)
    ensures Fair(From32to8(flags))
    ensures (exists room :: Loses(From32to8(flags), src, room))
            <==> exists i :: LastAbove(flags, src, i) && i + 1 < |src|
  {
    hide EncodeReplacing, Convert, Fair, Loses, LastMarked, LastAbove;
    var step, after := From32to8(flags), c => After32to8(flags, c);
    From32to8ByValue(flags);
    forall i
      ensures LastMarked(after, src, i) <==> LastAbove(flags, src, i)
    {
      LastMarked8(flags, src, i);
    }
    if room :| Loses(step, src, room) {
      var i := LosesOnlyWhen(step, after, src, room);
    }
    if i :| LastAbove(flags, src, i) && i + 1 < |src| {
      LastIsInside(flags, src, i);
      NoRoom8(flags, src, i, false);
      NoRoom8(flags, src, i, true);
      var room := LosesAfter(step, after, src, i, 0);
    }
  }

  lemma LastMarked8(flags: ConversionFlags, src: seq<bv32>, i: int)
    ensures LastMarked(c => After32to8(flags, c), src, i) <==> LastAbove(flags, src, i)
  {
    hide EncodeReplacing, AboveLegal, IsSurrogate;
    var after := c => After32to8(flags, c);
    forall c
      ensures Refused(after, c) <==> RefusedValue(flags, c)
      ensures Marked(after, c) <==> AboveLegal(c)
    {
      AboveIsNoSurrogate(c);
    }
  }

  lemma AboveIsNoSurrogate(c: bv32)
    ensures !(AboveLegal(c) && IsSurrogate(c))
  {
  }

  lemma LastIsInside(flags: ConversionFlags, src: seq<bv32>, i: int)
    requires LastAbove(flags, src, i)
    ensures 0 <= i < |src|
  {
  }

  lemma NoRoom8(flags: ConversionFlags, src: seq<bv32>, i: int, bad: bool)
    requires LastAbove(flags, src, i) && i + 1 < |src|
    ensures Fair(From32to8(flags)) && Convert(From32to8(flags), src[i + 1..], 0, bad).result.TargetExhausted?
  {
    hide EncodeReplacing, Convert, Fair;
    From32to8ByValue(flags);
    ReplacingLength(src[i + 1]);
    UnfoldValue(From32to8(flags), c => After32to8(flags, c), src[i + 1..], 0, bad);
  }

  /** The values from `k` on take more than one unit of UTF-16. */
  predicate MoreThanOneUnit(src: seq<bv32>, k: int) {
    0 <= k && (k + 1 < |src| || (k < |src| && !InBMP(src[k])))
  }

  /** To UTF-16, only strict calls mark values, and for those they write nothing, so the room they asked for is left over
      for the next value: some room loses a report exactly when that does not take up all that comes after. */
  lemma UTF32toUTF16LosesExactly(flags: ConversionFlags, src: seq<bv32>)
    ensures Fair(From32to16(flags))
    ensures (exists room :: Loses(From32to16(flags), src, room))
            <==> flags.StrictConversion? && exists i :: LastAbove(flags, src, i) && MoreThanOneUnit(src, i + 1)
  {
    hide After32to16, Convert, Fair, Loses, LastMarked, LastAbove, InBMP;
    var step, after := From32to16(flags), c => After32to16(flags, c);
    From32to16ByValue(flags);
    forall i
      ensures LastMarked(after, src, i) <==> flags.StrictConversion? && LastAbove(flags, src, i)
    {
      LastMarked16(flags, src, i);
    }
    if room :| Loses(step, src, room) {
      var i := LosesOnlyWhen(step, after, src, room);
      LastIsInside(flags, src, i);
      After32to16Cases(flags, src[i]);
      After32to16Cases(flags, src[i + 1]);
      MarkedIsMarked(after, src, i);
      assert MoreThanOneUnit(src, i + 1);
    }
    if flags.StrictConversion? {
      if i :| LastAbove(flags, src, i) && MoreThanOneUnit(src, i + 1) {
        LastIsInside(flags, src, i);
        OneLeft16(flags, src, i, false);
        OneLeft16(flags, src, i, true);
        forall j | 0 <= j <= i
          ensures after(src[j]).Emit? ==> after(src[j]).need <= |after(src[j]).units| + 1
        {
          After32to16Cases(flags, src[j]);
        }
        var room := LosesAfter(step, after, src, i, 1);
      }
    }
  }

  lemma MarkedIsMarked<T>(after: bv32 -> Outcome<T>, src: seq<bv32>, i: int)
    requires LastMarked(after, src, i)
    ensures 0 <= i < |src| && Marked(after, src[i])
    ensures i + 1 < |src| ==> Good(after, src[i + 1])
  {
  }

  lemma LastMarked16(flags: ConversionFlags, src: seq<bv32>, i: int)
    ensures LastMarked(c => After32to16(flags, c), src, i) <==> flags.StrictConversion? && LastAbove(flags, src, i)
  {
    hide After32to16, AboveLegal, IsSurrogate, Refused, Marked;
    var after := c => After32to16(flags, c);
    forall c
      ensures Refused(after, c) <==> RefusedValue(flags, c)
      ensures Marked(after, c) <==> flags.StrictConversion? && AboveLegal(c)
    {
      After32to16Cases(flags, c);
    }
  }

  lemma OneLeft16(flags: ConversionFlags, src: seq<bv32>, i: int, bad: bool)
    requires flags.StrictConversion? && LastAbove(flags, src, i)
    requires MoreThanOneUnit(src, i + 1)
    ensures Fair(From32to16(flags)) && Convert(From32to16(flags), src[i + 1..], 1, bad).result.TargetExhausted?
  {
    hide After32to16, Convert, Fair, AboveLegal, InBMP;
    From32to16ByValue(flags);
    var step, after, s := From32to16(flags), c => After32to16(flags, c), src[i + 1..];
    After32to16Cases(flags, s[0]);
    UnfoldValue(step, after, s, 1, bad);
    var o := after(s[0]);
    if o.need == 1 && |s| > 1 {
      After32to16Cases(flags, s[1]);
      UnfoldValue(step, after, s[1..], 0, bad || o.bad);
    }
  }

  // ---------- Two reports that are lost ----------

  /** With room for <110000, x> up to the second value only, and that value good, the report is lost. */
  lemma LostAfterFirst<T>(step: seq<bv32> -> Outcome<T>, after: bv32 -> Outcome<T>, src: seq<bv32>, room: nat)
    requires ByValue(step, after) && |src| == 2
    requires Marked(after, src[0]) && Good(after, src[1]) && after(src[0]).need <= room
    requires room - |after(src[0]).units| < after(src[1]).need
    ensures Loses(step, src, room)
  {
    hide Convert, Fair, Loses, Good, OneValue;
    UnfoldValue(step, after, src, room, false);
    UnfoldValue(step, after, src[1..], room - |after(src[0]).units|, true);
    LosesWhen(step, after, src, room);
  }

  /** To UTF-8: <110000, 41>, with room for the replacement only. */
  lemma UTF8ReportIsLost(flags: ConversionFlags)
    ensures Fair(From32to8(flags)) && Loses(From32to8(flags), [0x110000, 0x41], 3)
  {
    hide Convert, Fair, Loses, OneValue;
    From32to8ByValue(flags);
    Bytes110000And41(flags);
    LostAfterFirst(From32to8(flags), c => After32to8(flags, c), [0x110000, 0x41], 3);
  }

  lemma Bytes110000And41(flags: ConversionFlags)
    ensures var o := After32to8(flags, 0x110000); o.Emit? && o.bad && o.need == |o.units| == 3
    ensures var o := After32to8(flags, 0x41); o.Emit? && !o.bad && o.need == 1
  {
  }

  /** To UTF-16, strictly: <110000, 10000>, with room for one unit. */
  lemma UTF16ReportIsLost()
    ensures Fair(From32to16(StrictConversion)) && Loses(From32to16(StrictConversion), [0x110000, 0x10000], 1)
  {
    hide Convert, Fair, Loses, OneValue;
    From32to16ByValue(StrictConversion);
    After32to16Cases(StrictConversion, 0x110000);
    After32to16Cases(StrictConversion, 0x10000);
    LostAfterFirst(From32to16(StrictConversion), c => After32to16(StrictConversion, c), [0x110000, 0x10000], 1);
  }
}
