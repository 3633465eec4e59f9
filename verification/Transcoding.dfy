/** The shape shared by the six converters: take one unit of source at a time, write its encoding if it fits. */
module Transcoding {
  import opened Sequences

  datatype ConversionResult = ConversionOK | SourceExhausted | TargetExhausted | SourceIllegal

  /** What a converter does at the front of its source, before the target size is considered.
      - `Emit`: consume some units and write others; `need` is the room asked for. `bad` marks a value that is
        replaced and reported, without stopping.
      - `Stop`: return; `need` is the room asked for before the source is looked at. */
  datatype Outcome<T> =
    | Emit(consumed: nat, units: seq<T>, need: nat, bad: bool)
    | Stop(result: ConversionResult, need: nat)

  /** What one call of a converter leaves behind. */
  datatype Conversion<T> = Conversion(consumed: nat, written: seq<T>, result: ConversionResult)

  /** A step consumes at least one unit, no more than there are, and writes no more than it asked room for. */
  ghost predicate Fair<S(!new), T>(step: seq<S> -> Outcome<T>) {
    forall s :: s != [] && step(s).Emit? ==> 0 < step(s).consumed <= |s| && |step(s).units| <= step(s).need
  }

  /** A whole call, with `room` units of target left; `bad` tells whether a bad value has been replaced already. */
  ghost function Convert<S(!new), T>(step: seq<S> -> Outcome<T>, src: seq<S>, room: nat, bad: bool): (r: Conversion<T>)
    requires Fair(step)
    ensures r.consumed <= |src| && |r.written| <= room
    decreases |src|
  {
    if src == [] then
      Conversion(0, [], if bad then SourceIllegal else ConversionOK)
    else if room < step(src).need then
      Conversion(0, [], TargetExhausted)
    else
      match step(src)
      case Stop(result, _) => Conversion(0, [], result)
      case Emit(consumed, units, _, b) =>
        var rest := Convert(step, src[consumed..], room - |units|, bad || b);
        Conversion(consumed + rest.consumed, units + rest.written, rest.result)
  }

  /** The definition of `Convert`, one step at a time. */
  lemma {:induction false} Unfold<S(!new), T>(step: seq<S> -> Outcome<T>, src: seq<S>, room: nat, bad: bool)
    requires Fair(step)
    ensures src == [] ==> Convert(step, src, room, bad) == Conversion(0, [], if bad then SourceIllegal else ConversionOK)
    ensures src != [] && room < step(src).need ==> Convert(step, src, room, bad) == Conversion(0, [], TargetExhausted)
    ensures src != [] && step(src).need <= room && step(src).Stop? ==>
              Convert(step, src, room, bad) == Conversion(0, [], step(src).result)
    ensures src != [] && step(src).need <= room && step(src).Emit? ==>
              var o := step(src);
              && 0 < o.consumed <= |src| && |o.units| <= room
              && var rest := Convert(step, src[o.consumed..], room - |o.units|, bad || o.bad);
                 Convert(step, src, room, bad)
                 == Conversion(o.consumed + rest.consumed, o.units + rest.written, rest.result)
  {
  }

  /** The converters that ask for exactly what they write, and report every bad value by stopping at it. */
  ghost predicate Exact<S(!new), T>(step: seq<S> -> Outcome<T>) {
    && Fair(step)
    && forall s :: s != [] ==>
         match step(s)
         case Emit(_, units, need, bad) => need == |units| && !bad
         case Stop(result, need) => need == 0 && (result.SourceExhausted? || result.SourceIllegal?)
  }

  lemma StepOfExact<S(!new), T>(step: seq<S> -> Outcome<T>, s: seq<S>)
    requires Exact(step)
    ensures Fair(step)
    ensures s != [] && step(s).Emit? ==> 0 < step(s).consumed <= |s| && step(s).need == |step(s).units| && !step(s).bad
    ensures s != [] && step(s).Stop? ==>
              step(s).need == 0 && (step(s).result.SourceExhausted? || step(s).result.SourceIllegal?)
  {
  }

  /** Stopping after a call with `room` and going on with `more` comes to the same as one call. */
  ghost predicate Resumes<S(!new), T>(step: seq<S> -> Outcome<T>, src: seq<S>, room: nat, more: nat)
    requires Fair(step)
  {
    var first := Convert(step, src, room, false);
    var second := Convert(step, src[first.consumed..], more, false);
    Convert(step, src, |first.written| + more, false)
    == Conversion(first.consumed + second.consumed, first.written + second.written, second.result)
  }

  lemma ResumesHere<S(!new), T>(step: seq<S> -> Outcome<T>, src: seq<S>, room: nat, more: nat)
    requires Exact(step) && src != [] && room < step(src).need
    ensures Resumes(step, src, room, more)
  {
    hide Convert, Exact, Fair;
    StepOfExact(step, src);
    Unfold(step, src, room, false);
    EmptyEnds(src);
    EmptyEnds(Convert(step, src, more, false).written);
  }

  lemma ResumesLater<S(!new), T>(step: seq<S> -> Outcome<T>, src: seq<S>, room: nat, more: nat)
    requires Exact(step) && src != [] && step(src).Emit? && step(src).need <= room
    requires step(src).consumed <= |src| && |step(src).units| <= room
    requires Resumes(step, src[step(src).consumed..], room - |step(src).units|, more)
    ensures Resumes(step, src, room, more)
  {
    hide Convert, Exact, Fair;
    StepOfExact(step, src);
    var first, n, units := Convert(step, src, room, false), step(src).consumed, step(src).units;
    var rest := Convert(step, src[n..], room - |units|, false);
    Unfold(step, src, room, false);
    DropDrop(src, n, rest.consumed);
    Unfold(step, src, |first.written| + more, false);
    Associative(units, rest.written, Convert(step, src[first.consumed..], more, false).written);
  }

  /** A call that stopped for lack of room, followed by a call on the rest of the source with `more` room, is one
      call with the combined room. */
  lemma {:induction false} Resume<S(!new), T>(step: seq<S> -> Outcome<T>, src: seq<S>, room: nat, more: nat)
    requires Exact(step)
    requires Convert(step, src, room, false).result.TargetExhausted?
    ensures Resumes(step, src, room, more)
    decreases |src|
  {
    hide Convert, Exact, Fair, Resumes;
    StepOfExact(step, src);
    Unfold(step, src, room, false);
    if room < step(src).need {
      ResumesHere(step, src, room, more);
    } else {
      Resume(step, src[step(src).consumed..], room - |step(src).units|, more);
      ResumesLater(step, src, room, more);
    }
  }

  /** Repeated calls: each takes up where the one before stopped for lack of room. */
  ghost function Chunks<S(!new), T>(step: seq<S> -> Outcome<T>, src: seq<S>, rooms: seq<nat>): (r: Conversion<T>)
    requires Fair(step) && rooms != []
    ensures r.consumed <= |src|
    decreases |rooms|
  {
    var first := Convert(step, src, rooms[0], false);
    if first.result.TargetExhausted? && |rooms| > 1 then
      var rest := Chunks(step, src[first.consumed..], rooms[1..]);
      Conversion(first.consumed + rest.consumed, first.written + rest.written, rest.result)
    else
      first
  }

  /** The room of the single call: what the earlier pieces took up, and the last piece that was used. */
  ghost function RoomOfChunks<S(!new), T>(step: seq<S> -> Outcome<T>, src: seq<S>, rooms: seq<nat>): nat
    requires Fair(step) && rooms != []
    decreases |rooms|
  {
    var first := Convert(step, src, rooms[0], false);
    if first.result.TargetExhausted? && |rooms| > 1 then
      |first.written| + RoomOfChunks(step, src[first.consumed..], rooms[1..])
    else
      rooms[0]
  }

  /** However the target is cut into pieces, the result is that of a single call with that room; and if the last piece
      was not too small, it is the result of every call with that room or more. */
  lemma {:induction false} ChunksAreOneCall<S(!new), T>(step: seq<S> -> Outcome<T>, src: seq<S>, rooms: seq<nat>)
    requires Exact(step) && rooms != []
    ensures Convert(step, src, RoomOfChunks(step, src, rooms), false) == Chunks(step, src, rooms)
    ensures !Chunks(step, src, rooms).result.TargetExhausted? ==>
              forall large: nat :: RoomOfChunks(step, src, rooms) <= large ==>
                                     Convert(step, src, large, false) == Chunks(step, src, rooms)
    decreases |rooms|
  {
    hide Convert;
    var first, room := Convert(step, src, rooms[0], false), RoomOfChunks(step, src, rooms);
    if first.result.TargetExhausted? && |rooms| > 1 {
      ChunksAreOneCall(step, src[first.consumed..], rooms[1..]);
      Resume(step, src, rooms[0], RoomOfChunks(step, src[first.consumed..], rooms[1..]));
    }
    if !Chunks(step, src, rooms).result.TargetExhausted? {
      forall large: nat | room <= large
        ensures Convert(step, src, large, false) == Chunks(step, src, rooms)
      {
        MoreRoomFits(step, src, room, large, false);
        RoomDoesNotMatter(step, src, room, large, false);
      }
    }
  }

  /** Two calls that are not stopped by the size of the target agree. */
  lemma {:induction false} RoomDoesNotMatter<S(!new), T>(step: seq<S> -> Outcome<T>, src: seq<S>, room: nat, room': nat, bad: bool)
    requires Fair(step)
    requires !Convert(step, src, room, bad).result.TargetExhausted?
    requires !Convert(step, src, room', bad).result.TargetExhausted?
    requires forall s :: s != [] && step(s).Stop? ==> !step(s).result.TargetExhausted?
    ensures Convert(step, src, room, bad) == Convert(step, src, room', bad)
    decreases |src|
  {
    hide Convert;
    Unfold(step, src, room, bad);
    Unfold(step, src, room', bad);
    if src != [] && step(src).Emit? {
      var n, units := step(src).consumed, step(src).units;
      RoomDoesNotMatter(step, src[n..], room - |units|, room' - |units|, bad || step(src).bad);
    }
  }

  /** In `k` units of consumed source some bad value was replaced. */
  ghost predicate BadWithin<S(!new), T>(step: seq<S> -> Outcome<T>, src: seq<S>, k: nat)
    requires Fair(step)
    decreases |src|
  {
    && src != [] && step(src).Emit? && step(src).consumed <= k
    && (step(src).bad || BadWithin(step, src[step(src).consumed..], k - step(src).consumed))
  }

  lemma BadWithinStep<S(!new), T>(step: seq<S> -> Outcome<T>, src: seq<S>, k: nat)
    requires Fair(step)
    ensures src == [] || !step(src).Emit? || step(src).consumed > k ==> !BadWithin(step, src, k)
    ensures src != [] && step(src).Emit? && step(src).consumed <= k ==>
              (BadWithin(step, src, k) <==> step(src).bad || BadWithin(step, src[step(src).consumed..], k - step(src).consumed))
  {
  }

  /** For any converter: resuming after a full target gives the output of a single call with enough room. It gives
      the same final result exactly when the first call replaced no bad value or the second does not end in
      conversionOK, because the mark left by a replaced value is lost between the calls. */
  lemma {:induction false} ResumeWithBad<S(!new), T>(step: seq<S> -> Outcome<T>, src: seq<S>, room: nat, large: nat, bad: bool)
    requires Fair(step)
    requires forall s :: s != [] && step(s).Stop? ==> step(s).result.SourceExhausted? || step(s).result.SourceIllegal?
    requires Convert(step, src, room, bad).result.TargetExhausted?
    requires !Convert(step, src, large, bad).result.TargetExhausted?
    ensures var first := Convert(step, src, room, bad);
            var second := Convert(step, src[first.consumed..], large, false);
            var whole := Convert(step, src, large, bad);
            && whole.consumed == first.consumed + second.consumed
            && whole.written == first.written + second.written
            && (whole.result == second.result
                <==> !(second.result.ConversionOK? && (bad || BadWithin(step, src, first.consumed))))
    decreases |src|
  {
    hide Convert, BadWithin, Fair;
    Unfold(step, src, room, bad);
    Unfold(step, src, large, bad);
    var first := Convert(step, src, room, bad);
    BadWithinStep(step, src, first.consumed);
    if room < step(src).need {
      EmptyEnds(src);
      MarkOnlyChangesOK(step, src, large, false);
    } else {
      var n, units, bad' := step(src).consumed, step(src).units, bad || step(src).bad;
      var rest := Convert(step, src[n..], room - |units|, bad');
      ResumeWithBad(step, src[n..], room - |units|, large - |units|, bad');
      DropDrop(src, n, rest.consumed);
      SecondCallFits(step, src, room, large, bad);
      RoomDoesNotMatter(step, src[first.consumed..], large - |units|, large, false);
      Associative(units, rest.written, Convert(step, src[first.consumed..], large, false).written);
    }
  }

  /** The mark changes nothing but a final conversionOK. */
  lemma {:induction false} MarkOnlyChangesOK<S(!new), T>(step: seq<S> -> Outcome<T>, src: seq<S>, room: nat, bad: bool)
    requires Fair(step)
    requires forall s :: s != [] && step(s).Stop? ==> step(s).result.SourceExhausted? || step(s).result.SourceIllegal?
    ensures var plain, marked := Convert(step, src, room, bad), Convert(step, src, room, true);
            && plain.consumed == marked.consumed && plain.written == marked.written
            && marked.result == if plain.result.ConversionOK? then SourceIllegal else plain.result
    decreases |src|
  {
    hide Convert;
    Unfold(step, src, room, bad);
    Unfold(step, src, room, true);
    if src != [] && step(src).need <= room && step(src).Emit? {
      MarkOnlyChangesOK(step, src[step(src).consumed..], room - |step(src).units|, bad || step(src).bad);
    }
  }

  lemma {:induction false} MoreRoomFits<S(!new), T>(step: seq<S> -> Outcome<T>, src: seq<S>, room: nat, more: nat, bad: bool)
    requires Fair(step) && room <= more
    requires forall s :: s != [] && step(s).Stop? ==> step(s).result.SourceExhausted? || step(s).result.SourceIllegal?
    requires !Convert(step, src, room, bad).result.TargetExhausted?
    ensures !Convert(step, src, more, bad).result.TargetExhausted?
    decreases |src|
  {
    hide Convert;
    Unfold(step, src, room, bad);
    Unfold(step, src, more, bad);
    if src != [] && step(src).Emit? {
      MoreRoomFits(step, src[step(src).consumed..], room - |step(src).units|, more - |step(src).units|, bad || step(src).bad);
    }
  }

  lemma {:induction false} SecondCallFits<S(!new), T>(step: seq<S> -> Outcome<T>, src: seq<S>, room: nat, large: nat, bad: bool)
    requires Fair(step)
    requires forall s :: s != [] && step(s).Stop? ==> step(s).result.SourceExhausted? || step(s).result.SourceIllegal?
    requires !Convert(step, src, large, bad).result.TargetExhausted?
    requires Convert(step, src, room, bad).result.TargetExhausted?
    ensures var first := Convert(step, src, room, bad);
            |first.written| <= large
            && !Convert(step, src[first.consumed..], large - |first.written|, false).result.TargetExhausted?
            && forall more :: large - |first.written| <= more ==>
                 !Convert(step, src[first.consumed..], more, false).result.TargetExhausted?
    decreases |src|
  {
    hide Convert, Fair;
    Unfold(step, src, room, bad);
    Unfold(step, src, large, bad);
    var first := Convert(step, src, room, bad);
    if room < step(src).need {
      EmptyEnds(src);
      MarkOnlyChangesOK(step, src, large, false);
    } else {
      var n, units, bad' := step(src).consumed, step(src).units, bad || step(src).bad;
      SecondCallFits(step, src[n..], room - |units|, large - |units|, bad');
      DropDrop(src, n, Convert(step, src[n..], room - |units|, bad').consumed);
    }
    forall more | large - |first.written| <= more
      ensures !Convert(step, src[first.consumed..], more, false).result.TargetExhausted?
    {
      MoreRoomFits(step, src[first.consumed..], large - |first.written|, more, false);
    }
  }

  // ---------- Output and source belong together ----------

  /** The output of a call is what its consumed source gives on its own. */
  ghost predicate OutputIsOwn<S(!new), T>(step: seq<S> -> Outcome<T>, src: seq<S>, room: nat)
    requires Fair(step)
  {
    var r := Convert(step, src, room, false);
    Convert(step, src[..r.consumed], |r.written|, false) == Conversion(r.consumed, r.written, ConversionOK)
  }

  lemma OwnHere<S(!new), T>(step: seq<S> -> Outcome<T>, src: seq<S>, room: nat)
    requires Fair(step) && Convert(step, src, room, false).consumed == 0 == |Convert(step, src, room, false).written|
    ensures OutputIsOwn(step, src, room)
  {
    hide Convert, Fair;
    Unfold(step, [], 0, false);
  }

  /** A step that is the same on the consumed source alone. */
  lemma OwnLater<S(!new), T>(step: seq<S> -> Outcome<T>, src: seq<S>, room: nat)
    requires Exact(step) && src != [] && step(src).Emit? && step(src).need <= room
    requires step(src).consumed <= |src| && |step(src).units| <= room
    requires step(src[..Convert(step, src, room, false).consumed]) == step(src)
    requires OutputIsOwn(step, src[step(src).consumed..], room - |step(src).units|)
    ensures OutputIsOwn(step, src, room)
  {
    hide Convert, Exact, Fair;
    StepOfExact(step, src);
    var r, n := Convert(step, src, room, false), step(src).consumed;
    Unfold(step, src, room, false);
    TakeDrop(src, n, r.consumed - n);
    Unfold(step, src[..r.consumed], |r.written|, false);
  }

  /** At every return of a converter that is exact and stable. */
  lemma {:induction false} OutputIsOfConsumed<S(!new), T>(step: seq<S> -> Outcome<T>, src: seq<S>, room: nat)
    requires Exact(step) && PrefixStable(step)
    ensures OutputIsOwn(step, src, room)
    decreases |src|
  {
    hide Convert, Exact, Fair, PrefixStable, OutputIsOwn;
    StepOfExact(step, src);
    Unfold(step, src, room, false);
    if src != [] && step(src).need <= room && step(src).Emit? {
      var used := Convert(step, src, room, false).consumed;
      TwoParts(src, used);
      StableStep(step, src[..used], src[used..]);
      OutputIsOfConsumed(step, src[step(src).consumed..], room - |step(src).units|);
      OwnLater(step, src, room);
    } else {
      OwnHere(step, src, room);
    }
  }

  lemma StableStep<S(!new), T>(step: seq<S> -> Outcome<T>, s: seq<S>, t: seq<S>)
    requires PrefixStable(step) && s != [] && step(s + t).Emit? && step(s + t).consumed <= |s|
    ensures step(s) == step(s + t)
  {
  }

  /** The step at the front of `s` is the same with the source cut anywhere after what it consumes. */
  ghost predicate PrefixStable<S(!new), T>(step: seq<S> -> Outcome<T>) {
    forall s, t :: s != [] && step(s + t).Emit? && step(s + t).consumed <= |s| ==> step(s) == step(s + t)
  }

  // ---------- Encodings ----------

  ghost function Flat<S(!new), T>(encode: S -> seq<T>, values: seq<S>): seq<T> {
    if values == [] then [] else encode(values[0]) + Flat(encode, values[1..])
  }

  /** If the step turns the encoding of each value in one form into its encoding in another, then a call with
      enough room turns the whole text in the one form into the whole text in the other. */
  lemma {:induction false} ConvertEncoded<V(!new), S(!new), T>(step: seq<S> -> Outcome<T>, from: V -> seq<S>, to: V -> seq<T>,
                                                   values: seq<V>, room: nat)
    requires Fair(step)
    requires forall v :: v in values ==> from(v) != []
    requires forall v, rest :: v in values ==> step(from(v) + rest) == Emit(|from(v)|, to(v), |to(v)|, false)
    requires |Flat(to, values)| <= room
    ensures Convert(step, Flat(from, values), room, false)
         == Conversion(|Flat(from, values)|, Flat(to, values), ConversionOK)
    decreases |values|
  {
    hide Convert, Flat, Fair;
    NothingFlat(from);
    NothingFlat(to);
    Unfold(step, Flat(from, values), room, false);
    if values != [] {
      var v, rest := values[0], Flat(from, values[1..]);
      assert v in values;
      FlatFirst(from, values);
      FlatFirst(to, values);
      assert step(from(v) + rest) == Emit(|from(v)|, to(v), |to(v)|, false);
      ConvertEncoded(step, from, to, values[1..], room - |to(v)|);
    }
  }

  lemma NothingFlat<S(!new), T>(encode: S -> seq<T>)
    ensures Flat(encode, []) == []
  {
  }

  lemma FlatFirst<S(!new), T>(encode: S -> seq<T>, values: seq<S>)
    requires values != []
    ensures Flat(encode, values) == encode(values[0]) + Flat(encode, values[1..])
    ensures Flat(encode, values)[|encode(values[0])|..] == Flat(encode, values[1..])
  {
  }
}
