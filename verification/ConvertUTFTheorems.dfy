/** Properties of whole conversions: round trips, what is accepted, size bounds, and resuming. */
module ConvertUTFTheorems {
  import opened Sequences
  import opened Transcoding
  import opened UnicodeForms
  import opened ConvertUTFSteps

  // ---------- One character ----------

  lemma LengthFromLead(s: seq<bv8>)
    requires WellFormedUTF8Char(s)
    ensures s != [] && |s| == TrailingBytes(s[0]) + 1 && IsLegalUTF8(s)
  {
  }

  lemma Step8OnEncoded<T>(c: bv32, rest: seq<bv8>, encode: bv32 -> seq<T>)
    requires IsScalar(c)
    ensures EncodeUTF8(c) != []
    ensures Simple8(EncodeUTF8(c) + rest, encode) == Emit(|EncodeUTF8(c)|, encode(c), |encode(c)|, false)
  {
    hide EncodeUTF8, WellFormedUTF8Char, Decoded, PayloadUTF8, IsLegalUTF8, TrailingBytes;
    var front := EncodeUTF8(c);
    EncodeUTF8WellFormed(c);
    LengthFromLead(front);
    DecodedIsPayload(front);
    assert (front + rest)[..|front|] == front;
  }

  lemma Step16OnUnit<T>(flags: ConversionFlags, u: bv16, rest: seq<bv16>, encode: bv32 -> seq<T>)
    requires !HighSurrogate(u) && !LowSurrogate(u)
    ensures Step16(flags, [u] + rest, encode) == Emit(1, encode(Widen(u)), |encode(Widen(u))|, false)
  {
    hide HighSurrogate, LowSurrogate, Widen;
    assert ([u] + rest)[0] == u;
  }

  lemma Step16OnPair<T>(flags: ConversionFlags, high: bv16, low: bv16, rest: seq<bv16>, encode: bv32 -> seq<T>)
    requires HighSurrogate(high) && LowSurrogate(low)
    ensures var c := PairValue(high, low);
            Step16(flags, [high, low] + rest, encode) == Emit(2, encode(c), |encode(c)|, false)
  {
    PairSumIsPairValue(high, low);
    hide HighSurrogate, LowSurrogate, PairSum, PairValue;
    var s := [high, low] + rest;
    assert s[0] == high && s[1] == low;
  }

  lemma Step16OnEncodedUnit<T>(flags: ConversionFlags, c: bv32, rest: seq<bv16>, encode: bv32 -> seq<T>)
    requires IsScalar(c) && InBMP(c)
    ensures Step16(flags, EncodeUTF16(c) + rest, encode) == Emit(1, encode(c), |encode(c)|, false)
  {
    hide Step16, HighSurrogate, LowSurrogate, UnitPart, Widen, InBMP, IsScalar;
    EncodeUnit(c);
    Step16OnUnit(flags, UnitPart(c), rest, encode);
  }

  lemma Step16OnEncodedPair<T>(flags: ConversionFlags, c: bv32, rest: seq<bv16>, encode: bv32 -> seq<T>)
    requires IsScalar(c) && !InBMP(c)
    ensures Step16(flags, EncodeUTF16(c) + rest, encode) == Emit(2, encode(c), |encode(c)|, false)
  {
    hide Step16, HighPart, LowPart, PairValue, HighSurrogate, LowSurrogate, InBMP, IsScalar;
    EncodePair(c);
    Step16OnPair(flags, HighPart(c), LowPart(c), rest, encode);
  }

  lemma Step16OnEncoded<T>(flags: ConversionFlags, c: bv32, rest: seq<bv16>, encode: bv32 -> seq<T>)
    requires IsScalar(c)
    ensures EncodeUTF16(c) != []
    ensures Step16(flags, EncodeUTF16(c) + rest, encode) == Emit(|EncodeUTF16(c)|, encode(c), |encode(c)|, false)
  {
    hide Step16, HighPart, LowPart, UnitPart, InBMP, IsScalar;
    if InBMP(c) {
      Step16OnEncodedUnit(flags, c, rest, encode);
    } else {
      Step16OnEncodedPair(flags, c, rest, encode);
    }
  }

  lemma Step32OnEncoded(flags: ConversionFlags, c: bv32, rest: seq<bv32>)
    requires IsScalar(c)
    ensures Step32to8(flags, EncodeUTF32(c) + rest) == Emit(1, EncodeUTF8(c), |EncodeUTF8(c)|, false)
    ensures Step32to16(flags, EncodeUTF32(c) + rest) == Emit(1, EncodeUTF16(c), |EncodeUTF16(c)|, false)
  {
    hide EncodeUTF8, HighPart, LowPart;
  }

  lemma NoEmptyCode(c: bv32)
    ensures EncodeUTF8(c) != [] && EncodeUTF16(c) != [] && EncodeUTF32(c) != []
  {
  }

  lemma ExactIsFair<S(!new), T>(step: seq<S> -> Outcome<T>)
    requires Exact(step)
    ensures Fair(step)
  {
  }

  /** The step takes each scalar value from one encoding form to another, whatever follows it. */
  ghost predicate Carries<S(!new), T>(step: seq<S> -> Outcome<T>, from: bv32 -> seq<S>, to: bv32 -> seq<T>) {
    && Fair(step)
    && forall v, rest :: IsScalar(v) ==>
         from(v) != [] && step(from(v) + rest) == Emit(|from(v)|, to(v), |to(v)|, false)
  }

  lemma CarriesIf<S(!new), T>(step: seq<S> -> Outcome<T>, from: bv32 -> seq<S>, to: bv32 -> seq<T>)
    requires Fair(step)
    requires forall v :: IsScalar(v) ==> from(v) != []
    requires forall v, rest :: IsScalar(v) ==> step(from(v) + rest) == Emit(|from(v)|, to(v), |to(v)|, false)
    ensures Carries(step, from, to)
  {
  }

  /** Every text of scalar values is then converted whole. */
  lemma ScalarsConvert<S(!new), T>(step: seq<S> -> Outcome<T>, from: bv32 -> seq<S>, to: bv32 -> seq<T>, values: seq<bv32>,
                                   room: nat)
    requires Carries(step, from, to) && AllScalars(values) && |Flat(to, values)| <= room
    ensures Convert(step, Flat(from, values), room, false) == Conversion(|Flat(from, values)|, Flat(to, values), ConversionOK)
  {
    hide Convert, Fair, IsScalar;
    assert forall v: bv32, rest :: v in values ==> step(from(v) + rest) == Emit(|from(v)|, to(v), |to(v)|, false);
    forall v | v in values
      ensures from(v) != []
    {
      assert step(from(v) + []) == Emit(|from(v)|, to(v), |to(v)|, false);
    }
    ConvertEncoded(step, from, to, values, room);
  }

  /** All six converters, in either mode, do this between their forms. */
  lemma From16to8Carries(flags: ConversionFlags)
    ensures Carries(From16to8(flags), EncodeUTF16, EncodeUTF8)
  {
    hide EncodeUTF16, EncodeUTF8, Step16, Exact;
    From16to8Exact(flags);
    ExactIsFair(From16to8(flags));
    forall v | IsScalar(v)
      ensures EncodeUTF16(v) != []
    {
      NoEmptyCode(v);
    }
    forall v, rest | IsScalar(v)
      ensures From16to8(flags)(EncodeUTF16(v) + rest) == Emit(|EncodeUTF16(v)|, EncodeUTF8(v), |EncodeUTF8(v)|, false)
    {
      Step16OnEncoded(flags, v, rest, EncodeUTF8);
    }
    CarriesIf(From16to8(flags), EncodeUTF16, EncodeUTF8);
  }

  lemma From16to32Carries(flags: ConversionFlags)
    ensures Carries(From16to32(flags), EncodeUTF16, EncodeUTF32)
  {
    hide EncodeUTF16, EncodeUTF32, Step16, Exact;
    From16to32Exact(flags);
    ExactIsFair(From16to32(flags));
    forall v | IsScalar(v)
      ensures EncodeUTF16(v) != []
    {
      NoEmptyCode(v);
    }
    forall v, rest | IsScalar(v)
      ensures From16to32(flags)(EncodeUTF16(v) + rest) == Emit(|EncodeUTF16(v)|, EncodeUTF32(v), |EncodeUTF32(v)|, false)
    {
      Step16OnEncoded(flags, v, rest, EncodeUTF32);
    }
    CarriesIf(From16to32(flags), EncodeUTF16, EncodeUTF32);
  }

  lemma From8to16Carries(flags: ConversionFlags)
    ensures Carries(From8to16(flags), EncodeUTF8, EncodeUTF16)
  {
    hide EncodeUTF8, EncodeUTF16, Step8to16, Simple8, Exact;
    From8to16Exact(flags);
    ExactIsFair(From8to16(flags));
    forall v | IsScalar(v)
      ensures EncodeUTF8(v) != []
    {
      NoEmptyCode(v);
    }
    forall v, rest | IsScalar(v)
      ensures From8to16(flags)(EncodeUTF8(v) + rest) == Emit(|EncodeUTF8(v)|, EncodeUTF16(v), |EncodeUTF16(v)|, false)
    {
      FlagsDoNotMatter(flags, EncodeUTF8(v) + rest);
      Step8OnEncoded(v, rest, EncodeUTF16);
    }
    CarriesIf(From8to16(flags), EncodeUTF8, EncodeUTF16);
  }

  lemma From8to32Carries(flags: ConversionFlags)
    ensures Carries(From8to32(flags), EncodeUTF8, EncodeUTF32)
  {
    hide EncodeUTF8, EncodeUTF32, Step8to32, Simple8, Exact;
    From8to32Exact(flags);
    ExactIsFair(From8to32(flags));
    forall v | IsScalar(v)
      ensures EncodeUTF8(v) != []
    {
      NoEmptyCode(v);
    }
    forall v, rest | IsScalar(v)
      ensures From8to32(flags)(EncodeUTF8(v) + rest) == Emit(|EncodeUTF8(v)|, EncodeUTF32(v), |EncodeUTF32(v)|, false)
    {
      FlagsDoNotMatter(flags, EncodeUTF8(v) + rest);
      Step8OnEncoded(v, rest, EncodeUTF32);
    }
    CarriesIf(From8to32(flags), EncodeUTF8, EncodeUTF32);
  }

  lemma From32to8Carries(flags: ConversionFlags)
    ensures Carries(From32to8(flags), EncodeUTF32, EncodeUTF8)
  {
    hide EncodeUTF8, Step32to8;
    From32to8Fair(flags);
    forall v | IsScalar(v)
      ensures EncodeUTF32(v) != []
    {
      NoEmptyCode(v);
    }
    forall v, rest | IsScalar(v)
      ensures From32to8(flags)(EncodeUTF32(v) + rest) == Emit(|EncodeUTF32(v)|, EncodeUTF8(v), |EncodeUTF8(v)|, false)
    {
      Step32OnEncoded(flags, v, rest);
    }
    CarriesIf(From32to8(flags), EncodeUTF32, EncodeUTF8);
  }

  lemma From32to16Carries(flags: ConversionFlags)
    ensures Carries(From32to16(flags), EncodeUTF32, EncodeUTF16)
  {
    hide EncodeUTF16, Step32to16;
    From32to16Fair(flags);
    forall v | IsScalar(v)
      ensures EncodeUTF32(v) != []
    {
      NoEmptyCode(v);
    }
    forall v, rest | IsScalar(v)
      ensures From32to16(flags)(EncodeUTF32(v) + rest) == Emit(|EncodeUTF32(v)|, EncodeUTF16(v), |EncodeUTF16(v)|, false)
    {
      Step32OnEncoded(flags, v, rest);
    }
    CarriesIf(From32to16(flags), EncodeUTF32, EncodeUTF16);
  }

  lemma {:induction false} FlatUTF32(values: seq<bv32>)
    ensures Flat(EncodeUTF32, values) == values
  {
    if values != [] {
      FlatUTF32(values[1..]);
    }
  }

  lemma {:induction false} FlatUTF8WellFormed(values: seq<bv32>)
    requires AllScalars(values)
    ensures WellFormedUTF8(Flat(EncodeUTF8, values))
  {
    hide EncodeUTF8, WellFormedUTF8Char;
    if values != [] {
      var front, rest := EncodeUTF8(values[0]), Flat(EncodeUTF8, values[1..]);
      EncodeUTF8WellFormed(values[0]);
      FlatUTF8WellFormed(values[1..]);
      assert (front + rest)[..|front|] == front && (front + rest)[|front|..] == rest;
    }
  }

  lemma {:induction false} WellFormedUTF16IsFlat(s: seq<bv16>)
    requires WellFormedUTF16(s)
    ensures AllScalars(ScalarsUTF16(s)) && Flat(EncodeUTF16, ScalarsUTF16(s)) == s
  {
    hide UnitPart, Widen, HighPart, LowPart, PairValue, HighSurrogate, LowSurrogate, InBMP, IsScalar;
    if s != [] {
      if HighSurrogate(s[0]) {
        WellFormedUTF16IsFlat(s[2..]);
        PairIsEncoded(s[0], s[1]);
        FlatCons(PairValue(s[0], s[1]), ScalarsUTF16(s[2..]));
        assert [s[0], s[1]] + s[2..] == s;
      } else {
        DecodeUnit(s[0]);
        WellFormedUTF16IsFlat(s[1..]);
        FlatCons(Widen(s[0]), ScalarsUTF16(s[1..]));
        assert [s[0]] + s[1..] == s;
      }
    }
  }

  lemma FlatCons(c: bv32, values: seq<bv32>)
    ensures Flat(EncodeUTF16, [c] + values) == EncodeUTF16(c) + Flat(EncodeUTF16, values)
  {
    assert ([c] + values)[1..] == values;
  }

  lemma FlatConsUTF8(c: bv32, values: seq<bv32>)
    ensures Flat(EncodeUTF8, [c] + values) == EncodeUTF8(c) + Flat(EncodeUTF8, values)
  {
    assert ([c] + values)[1..] == values;
  }

  // ---------- Well-formed UTF-16 ----------

  ghost function UTF8Of(s: seq<bv16>): seq<bv8>
    requires WellFormedUTF16(s)
  {
    Flat(EncodeUTF8, ScalarsUTF16(s))
  }

  /** A call takes a whole well-formed text to its UTF-8. Three bytes for each unit are always room enough. */
  lemma UTF16toUTF8Whole(flags: ConversionFlags, s: seq<bv16>, room: nat)
    requires WellFormedUTF16(s) && 3 * |s| <= room
    ensures Fair(From16to8(flags))
    ensures Convert(From16to8(flags), s, room, false) == Conversion(|s|, UTF8Of(s), ConversionOK)
    ensures |UTF8Of(s)| <= 3 * |s| && WellFormedUTF8(UTF8Of(s))
  {
    hide Convert, Fair, EncodeUTF8, EncodeUTF16, ScalarsUTF16, WellFormedUTF16, WellFormedUTF8, AllScalars, Flat;
    var values := ScalarsUTF16(s);
    WellFormedUTF16IsFlat(s);
    FlatSizes(values);
    FlatUTF8WellFormed(values);
    From16to8Carries(flags);
    ScalarsConvert(From16to8(flags), EncodeUTF16, EncodeUTF8, values, room);
  }

  lemma UTF8ofUTF16Back(flags: ConversionFlags, s: seq<bv16>, room: nat)
    requires WellFormedUTF16(s) && |s| <= room
    ensures Fair(From8to16(flags))
    ensures Convert(From8to16(flags), UTF8Of(s), room, false) == Conversion(|UTF8Of(s)|, s, ConversionOK)
  {
    hide Convert, Fair, EncodeUTF8, EncodeUTF16, ScalarsUTF16, WellFormedUTF16, AllScalars, Flat;
    WellFormedUTF16IsFlat(s);
    From8to16Carries(flags);
    ScalarsConvert(From8to16(flags), EncodeUTF8, EncodeUTF16, ScalarsUTF16(s), room);
  }

  /** A well-formed UTF-16 text survives the trip through UTF-8, which is well formed in between. */
  lemma UTF16RoundTrip(flags: ConversionFlags, back: ConversionFlags, s: seq<bv16>, room: nat)
    requires WellFormedUTF16(s) && 3 * |s| <= room
    ensures Fair(From16to8(flags)) && Fair(From8to16(back))
    ensures var to8 := Convert(From16to8(flags), s, room, false);
            && to8.result.ConversionOK? && to8.consumed == |s| && WellFormedUTF8(to8.written)
            && Convert(From8to16(back), to8.written, room, false) == Conversion(|to8.written|, s, ConversionOK)
  {
    hide Convert, Fair, WellFormedUTF16, WellFormedUTF8, UTF8Of;
    UTF16toUTF8Whole(flags, s, room);
    UTF8ofUTF16Back(back, s, room);
  }

  lemma UTF16toUTF32Whole(flags: ConversionFlags, s: seq<bv16>, room: nat)
    requires WellFormedUTF16(s) && |s| <= room
    ensures Fair(From16to32(flags))
    ensures Convert(From16to32(flags), s, room, false) == Conversion(|s|, ScalarsUTF16(s), ConversionOK)
    ensures AllScalars(ScalarsUTF16(s))
  {
    hide Convert, Fair, EncodeUTF32, EncodeUTF16, ScalarsUTF16, WellFormedUTF16, AllScalars, Flat;
    var values := ScalarsUTF16(s);
    WellFormedUTF16IsFlat(s);
    FlatSizes(values);
    FlatUTF32(values);
    From16to32Carries(flags);
    ScalarsConvert(From16to32(flags), EncodeUTF16, EncodeUTF32, values, room);
  }

  /** Going through UTF-32 gives scalar values in between, and the same UTF-8. */
  lemma ThroughUTF32(flags: ConversionFlags, s: seq<bv16>, room: nat)
    requires WellFormedUTF16(s) && 3 * |s| <= room
    ensures Fair(From16to8(flags)) && Fair(From16to32(flags)) && Fair(From32to8(flags))
    ensures var to32 := Convert(From16to32(flags), s, room, false);
            var direct := Convert(From16to8(flags), s, room, false);
            && to32.result.ConversionOK? && to32.consumed == |s| && AllScalars(to32.written)
            && Convert(From32to8(flags), to32.written, room, false) == Conversion(|to32.written|, direct.written, ConversionOK)
  {
    hide Convert, Fair, EncodeUTF8, EncodeUTF32, ScalarsUTF16, WellFormedUTF16, WellFormedUTF8, AllScalars, Flat;
    UTF16toUTF32Whole(flags, s, room);
    UTF16toUTF8Whole(flags, s, room);
    FlatUTF32(ScalarsUTF16(s));
    From32to8Carries(flags);
    ScalarsConvert(From32to8(flags), EncodeUTF32, EncodeUTF8, ScalarsUTF16(s), room);
  }

  /** A UTF-16 unit needs at most three bytes of UTF-8. */
  lemma {:induction false} FlatSizes(values: seq<bv32>)
    ensures |values| <= |Flat(EncodeUTF16, values)|
    ensures |Flat(EncodeUTF8, values)| <= 3 * |Flat(EncodeUTF16, values)|
  {
    if values != [] {
      FlatSizes(values[1..]);
    }
  }

  /** A strict call accepts exactly the well-formed texts. */
  lemma {:induction false} StrictUTF16Accepts(s: seq<bv16>, room: nat)
    requires 3 * |s| <= room
    ensures Exact(From16to8(StrictConversion))
    ensures Convert(From16to8(StrictConversion), s, room, false).result.ConversionOK? <==> WellFormedUTF16(s)
  {
    From16to8Exact(StrictConversion);
    if WellFormedUTF16(s) {
      ExactIsFair(From16to8(StrictConversion));
      UTF16toUTF8Whole(StrictConversion, s, room);
    }
    if Convert(From16to8(StrictConversion), s, room, false).result.ConversionOK? {
      AcceptedUTF16(s, room);
    }
  }

  lemma {:induction false} AcceptedUTF16(s: seq<bv16>, room: nat)
    requires Exact(From16to8(StrictConversion))
    requires Convert(From16to8(StrictConversion), s, room, false).result.ConversionOK?
    ensures WellFormedUTF16(s)
    decreases |s|
  {
    hide Convert, Exact, Fair, EncodeUTF8, PairSum, HighSurrogate, LowSurrogate;
    var step := From16to8(StrictConversion);
    ExactIsFair(step);
    Unfold(step, s, room, false);
    if s != [] {
      AcceptedUTF16(s[step(s).consumed..], room - |step(s).units|);
    }
  }

  // ---------- UTF-8 ----------

  /** A text that splits into sequences that `isLegalUTF8` accepts. */
  predicate AcceptedUTF8(s: seq<bv8>) {
    s == []
    || (TrailingBytes(s[0]) < |s| && IsLegalUTF8(s[..TrailingBytes(s[0]) + 1]) && AcceptedUTF8(s[TrailingBytes(s[0]) + 1..]))
  }

  function DecodedText(s: seq<bv8>): seq<bv32>
    requires AcceptedUTF8(s)
  {
    if s == [] then
      []
    else
      [Decoded(s[..TrailingBytes(s[0]) + 1])] + DecodedText(s[TrailingBytes(s[0]) + 1..])
  }

  /** A call with enough room accepts exactly these texts, in either mode, and writes the UTF-16 of the decoded
      scalar values; it never writes more units than it consumes bytes. */
  lemma {:induction false} UTF8toUTF16Exactly(flags: ConversionFlags, s: seq<bv8>, room: nat)
    requires |s| <= room
    ensures Exact(From8to16(flags))
    ensures var r := Convert(From8to16(flags), s, room, false);
            && |r.written| <= r.consumed
            && (r.result.ConversionOK? <==> AcceptedUTF8(s))
            && (AcceptedUTF8(s) ==>
                  && AllScalars(DecodedText(s))
                  && r == Conversion(|s|, Flat(EncodeUTF16, DecodedText(s)), ConversionOK))
    decreases |s|
  {
    hide Convert, Exact, Fair, IsLegalUTF8, Decoded, EncodeUTF16, IsScalar, TrailingBytes, Step8to16;
    var step := From8to16(flags);
    From8to16Exact(flags);
    ExactIsFair(step);
    Unfold(step, s, room, false);
    FlagsDoNotMatter(flags, s);
    if s != [] && TrailingBytes(s[0]) < |s| && IsLegalUTF8(s[..TrailingBytes(s[0]) + 1]) {
      var length := TrailingBytes(s[0]) + 1;
      var c := Decoded(s[..length]);
      LegalDecodesToScalar(s[..length]);
      EncodedNoLonger(s[..length]);
      UTF8toUTF16Exactly(flags, s[length..], room - |EncodeUTF16(c)|);
      if AcceptedUTF8(s) {
        FlatCons(c, DecodedText(s[length..]));
      }
    }
  }

  lemma EncodedNoLonger(s: seq<bv8>)
    requires s != [] && |s| == TrailingBytes(s[0]) + 1 && IsLegalUTF8(s)
    ensures 0 < |EncodeUTF16(Decoded(s))| <= |s|
  {
    hide Decoded, HighPart, LowPart;
    LegalDecodesToScalar(s);
  }

  /** One accepted sequence more. */
  lemma AcceptedCons(front: seq<bv8>, rest: seq<bv8>)
    requires front != [] && |front| == TrailingBytes(front[0]) + 1 && IsLegalUTF8(front) && AcceptedUTF8(rest)
    ensures AcceptedUTF8(front + rest) && DecodedText(front + rest) == [Decoded(front)] + DecodedText(rest)
  {
    hide Decoded, IsLegalUTF8, TrailingBytes;
    assert (front + rest)[..|front|] == front && (front + rest)[|front|..] == rest;
  }

  lemma FirstCharacter(s: seq<bv8>) returns (n: nat)
    requires WellFormedUTF8(s) && s != []
    ensures 0 < n <= |s| && WellFormedUTF8Char(s[..n]) && WellFormedUTF8(s[n..])
  {
    hide WellFormedUTF8Char;
    n :| 0 < n <= |s| && WellFormedUTF8Char(s[..n]) && WellFormedUTF8(s[n..]);
  }

  lemma NoText()
    ensures AcceptedUTF8([]) && DecodedText([]) == [] && Flat(EncodeUTF8, []) == []
  {
  }

  lemma {:induction false} WellFormedUTF8IsFlat(s: seq<bv8>)
    requires WellFormedUTF8(s)
    ensures AcceptedUTF8(s)
    ensures AllScalars(DecodedText(s)) && Flat(EncodeUTF8, DecodedText(s)) == s
    decreases |s|
  {
    hide Decoded, PayloadUTF8, EncodeUTF8, IsScalar, IsLegalUTF8, WellFormedUTF8Char, TrailingBytes;
    hide AcceptedUTF8, DecodedText, WellFormedUTF8, Flat;
    NoText();
    if s != [] {
      var n := FirstCharacter(s);
      var front := s[..n];
      LengthFromLead(front);
      WellFormedUTF8IsFlat(s[n..]);
      DecodedIsPayload(front);
      WellFormedIsEncoded(front);
      TwoParts(s, n);
      AcceptedCons(front, s[n..]);
      FlatConsUTF8(Decoded(front), DecodedText(s[n..]));
    }
  }

  /** From UTF-8 to UTF-16 and back: an accepted text comes back unchanged exactly when it is well formed. */
  lemma UTF8RoundTrip(flags: ConversionFlags, back: ConversionFlags, s: seq<bv8>, room: nat)
    requires AcceptedUTF8(s) && 3 * |s| <= room
    ensures Exact(From8to16(flags)) && Exact(From16to8(back))
    ensures var there := Convert(From8to16(flags), s, room, false);
            var again := Convert(From16to8(back), there.written, room, false);
            && there.result.ConversionOK? && again.result.ConversionOK?
            && (again.written == s <==> WellFormedUTF8(s))
  {
    hide Convert, Exact, Fair, EncodeUTF8, EncodeUTF16, AcceptedUTF8, WellFormedUTF8, DecodedText;
    From16to8Exact(back);
    UTF8toUTF16Exactly(flags, s, room);
    var values := DecodedText(s);
    FlatSizes(values);
    From16to8Carries(back);
    ScalarsConvert(From16to8(back), EncodeUTF16, EncodeUTF8, values, room);
    FlatUTF8WellFormed(values);
    if WellFormedUTF8(s) {
      WellFormedUTF8IsFlat(s);
    }
  }

  /** Converting `s` to UTF-16 and back, with room enough, gives `s` again. */
  ghost predicate Returns(flags: ConversionFlags, back: ConversionFlags, s: seq<bv8>) {
    From8to16Exact(flags);
    From16to8Exact(back);
    var there := Convert(From8to16(flags), s, 3 * |s|, false);
    Convert(From16to8(back), there.written, 3 * |s|, false).written == s
  }

  /** <ED, 00, 80> is accepted and does not come back. */
  lemma IllFormedDoesNotReturn(flags: ConversionFlags, back: ConversionFlags)
    ensures AcceptedUTF8([0xED, 0x00, 0x80]) && !Returns(flags, back, [0xED, 0x00, 0x80])
  {
    hide Convert, Exact, Fair, AcceptedUTF8, WellFormedUTF8, From8to16, From16to8;
    OneIllFormed();
    UTF8RoundTrip(flags, back, [0xED, 0x00, 0x80], 9);
  }

  lemma OneIllFormed()
    ensures var s: seq<bv8> := [0xED, 0x00, 0x80]; AcceptedUTF8(s) && !WellFormedUTF8(s)
  {
    var s: seq<bv8> := [0xED, 0x00, 0x80];
    assert s[..3] == s && s[3..] == [];
    assert TrailingBytes(s[0]) == 2 && IsLegalUTF8(s);
    if WellFormedUTF8(s) {
      var n :| 0 < n <= |s| && WellFormedUTF8Char(s[..n]) && WellFormedUTF8(s[n..]);
      LengthFromLead(s[..n]);
    }
  }

  // ---------- Unpaired surrogates ----------

  /** The front unit is a surrogate that is not the first of a pair. */
  predicate Unpaired(s: seq<bv16>)
    requires s != []
  {
    LowSurrogate(s[0]) || (HighSurrogate(s[0]) && !(|s| > 1 && LowSurrogate(s[1])))
  }

  /** The three bytes that a surrogate is given are not accepted. */
  lemma SurrogateBytes(u: bv16)
    requires HighSurrogate(u) || LowSurrogate(u)
    ensures var bytes := EncodeUTF8(Widen(u));
            bytes != [] && |bytes| == TrailingBytes(bytes[0]) + 1 && !IsLegalUTF8(bytes)
  {
  }

  lemma RefusedCons(front: seq<bv8>, rest: seq<bv8>)
    requires front != [] && |front| == TrailingBytes(front[0]) + 1 && !IsLegalUTF8(front)
    ensures !AcceptedUTF8(front + rest)
  {
    hide IsLegalUTF8, TrailingBytes;
    assert (front + rest)[..|front|] == front;
  }

  lemma AcceptedRest(front: seq<bv8>, rest: seq<bv8>)
    requires front != [] && |front| == TrailingBytes(front[0]) + 1 && AcceptedUTF8(front + rest)
    ensures AcceptedUTF8(rest)
  {
    hide IsLegalUTF8, TrailingBytes;
    assert (front + rest)[|front|..] == rest;
  }

  lemma WellFormedCons(front: seq<bv8>, rest: seq<bv8>)
    requires WellFormedUTF8Char(front) && front != [] && WellFormedUTF8(rest)
    ensures WellFormedUTF8(front + rest)
  {
    hide WellFormedUTF8Char;
    assert (front + rest)[..|front|] == front && (front + rest)[|front|..] == rest;
  }

  /** A lenient step writes the bytes of the surrogate it finds unpaired, or of a scalar value. */
  lemma LenientStep(s: seq<bv16>) returns (c: bv32)
    requires s != [] && Step16(LenientConversion, s, EncodeUTF8).Emit?
    ensures var o := Step16(LenientConversion, s, EncodeUTF8);
            && 0 < o.consumed <= |s| && o.units == EncodeUTF8(c)
            && (Unpaired(s) ==> c == Widen(s[0]) && !WellFormedUTF16(s))
            && (!Unpaired(s) ==> IsScalar(c) && (WellFormedUTF16(s) <==> WellFormedUTF16(s[o.consumed..])))
  {
    hide EncodeUTF8, HighSurrogate, LowSurrogate, PairSum, PairValue, Widen, IsScalar;
    NotBoth(s[0]);
    if |s| > 1 && HighSurrogate(s[0]) && LowSurrogate(s[1]) {
      PairSumIsPairValue(s[0], s[1]);
      PairIsEncoded(s[0], s[1]);
      c := PairValue(s[0], s[1]);
    } else {
      c := Widen(s[0]);
      if !Unpaired(s) {
        DecodeUnit(s[0]);
      }
    }
  }

  lemma {:induction false} LenientOutput(s: seq<bv16>, room: nat)
    requires Exact(From16to8(LenientConversion))
    requires Convert(From16to8(LenientConversion), s, room, false).result.ConversionOK?
    ensures var written := Convert(From16to8(LenientConversion), s, room, false).written;
            (WellFormedUTF16(s) ==> WellFormedUTF8(written)) && (AcceptedUTF8(written) ==> WellFormedUTF16(s))
    decreases |s|
  {
    hide Convert, Exact, Fair, Step16, EncodeUTF8, AcceptedUTF8, WellFormedUTF8, WellFormedUTF8Char, WellFormedUTF16;
    hide IsScalar, IsLegalUTF8, TrailingBytes, HighSurrogate, LowSurrogate;
    var step := From16to8(LenientConversion);
    StepOfExact(step, s);
    Unfold(step, s, room, false);
    if s == [] {
      NoUnits();
    } else {
      var c := LenientStep(s);
      var rest := Convert(step, s[step(s).consumed..], room - |step(s).units|, false).written;
      LenientOutput(s[step(s).consumed..], room - |step(s).units|);
      if Unpaired(s) {
        SurrogateBytes(s[0]);
        RefusedCons(EncodeUTF8(c), rest);
      } else {
        EncodeUTF8WellFormed(c);
        LengthFromLead(EncodeUTF8(c));
        if WellFormedUTF8(rest) {
          WellFormedCons(EncodeUTF8(c), rest);
        }
        if AcceptedUTF8(EncodeUTF8(c) + rest) {
          AcceptedRest(EncodeUTF8(c), rest);
        }
      }
    }
  }

  lemma NoUnits()
    ensures WellFormedUTF16([]) && WellFormedUTF8([])
  {
  }

  /** A lenient call that converts its whole source writes well-formed UTF-8, and bytes that are accepted back, exactly when
      the source is well formed: the bytes of an unpaired surrogate are neither. */
  lemma LenientOutputExactly(s: seq<bv16>, room: nat, back: ConversionFlags, more: nat)
    ensures Exact(From16to8(LenientConversion)) && Exact(From8to16(back))
    ensures var r := Convert(From16to8(LenientConversion), s, room, false);
            r.result.ConversionOK? ==>
              && (WellFormedUTF8(r.written) <==> WellFormedUTF16(s))
              && (|r.written| <= more ==>
                    (Convert(From8to16(back), r.written, more, false).result.ConversionOK? <==> WellFormedUTF16(s)))
  {
    hide Convert, Exact, Fair, AcceptedUTF8, WellFormedUTF8, WellFormedUTF16, DecodedText;
    From16to8Exact(LenientConversion);
    From8to16Exact(back);
    ExactIsFair(From16to8(LenientConversion));
    ExactIsFair(From8to16(back));
    var r := Convert(From16to8(LenientConversion), s, room, false);
    if r.result.ConversionOK? {
      LenientOutput(s, room);
      if WellFormedUTF8(r.written) {
        WellFormedUTF8IsFlat(r.written);
      }
      if |r.written| <= more {
        UTF8toUTF16Exactly(back, r.written, more);
      }
    }
  }

  /** <D800, 41> is converted whole in lenient mode, to bytes that are not UTF-8. */
  lemma UnpairedIsWritten()
    ensures Fair(From16to8(LenientConversion))
    ensures var r := Convert(From16to8(LenientConversion), [0xD800, 0x41], 4, false);
            r.result.ConversionOK? && r.consumed == 2 && !WellFormedUTF8(r.written)
  {
    hide Exact, Fair, EncodeUTF8, Convert, WellFormedUTF8;
    var step, src: seq<bv16> := From16to8(LenientConversion), [0xD800, 0x41];
    From16to8Exact(LenientConversion);
    ExactIsFair(step);
    LoneThenLetter();
    assert src[1..] == [0x41] && [0x41 as bv16][1..] == [];
    Unfold(step, src, 4, false);
    Unfold(step, [0x41], 1, false);
    Unfold(step, [], 0, false);
    LenientOutputExactly(src, 4, StrictConversion, 4);
  }

  // ---------- Source and output belong together; resuming ----------

  /** Cutting the source after what a step consumes does not change the step. */
  lemma UTF8Stable(flags: ConversionFlags)
    ensures PrefixStable(From8to16(flags)) && PrefixStable(From8to32(flags))
  {
    hide Step8to16, Step8to32, IsLegalUTF8, Decoded, EncodeUTF16;
    forall s: seq<bv8>, t | s != []
      ensures Step8to16(flags, s + t).Emit? && Step8to16(flags, s + t).consumed <= |s| ==>
                Step8to16(flags, s) == Step8to16(flags, s + t)
      ensures Step8to32(flags, s + t).Emit? && Step8to32(flags, s + t).consumed <= |s| ==>
                Step8to32(flags, s) == Step8to32(flags, s + t)
    {
      FlagsDoNotMatter(flags, s);
      FlagsDoNotMatter(flags, s + t);
      var length := TrailingBytes(s[0]) + 1;
      assert length <= |s| ==> (s + t)[..length] == s[..length];
    }
  }

  /** In either mode, the output of a call from UTF-8 is that of the source it consumed, whatever stops it. */
  lemma UTF8OutputIsOwn(flags: ConversionFlags, src: seq<bv8>, room: nat)
    ensures Fair(From8to16(flags)) && OutputIsOwn(From8to16(flags), src, room)
    ensures Fair(From8to32(flags)) && OutputIsOwn(From8to32(flags), src, room)
  {
    hide Exact, Fair, PrefixStable, OutputIsOwn;
    UTF8Stable(flags);
    From8to16Exact(flags);
    From8to32Exact(flags);
    ExactIsFair(From8to16(flags));
    ExactIsFair(From8to32(flags));
    OutputIsOfConsumed(From8to16(flags), src, room);
    OutputIsOfConsumed(From8to32(flags), src, room);
  }

  /** A lenient call looks at the unit after an unpaired high surrogate, so the output alone does not tell how the
      consumed source would convert on its own. */
  lemma LenientUTF16NotStable()
    ensures !PrefixStable(From16to8(LenientConversion))
  {
    var s, t: seq<bv16> := [0xD800], [0x0041];
    assert (s + t)[0] == 0xD800 && (s + t)[1] == 0x0041;
    var step := From16to8(LenientConversion);
    assert step(s + t).Emit? && step(s + t).consumed == 1 && step(s).Stop?;
  }

  /** The last unit is a high surrogate. Consumed source ends so only after one without its low surrogate. */
  predicate EndsHigh(s: seq<bv16>) {
    s != [] && HighSurrogate(s[|s| - 1])
  }

  lemma NotBoth(u: bv16)
    ensures !(HighSurrogate(u) && LowSurrogate(u))
  {
  }

  lemma Step16Cut<T>(flags: ConversionFlags, s: seq<bv16>, t: seq<bv16>, encode: bv32 -> seq<T>)
    requires s != [] && !EndsHigh(s)
    requires Step16(flags, s + t, encode).Emit? && Step16(flags, s + t, encode).consumed <= |s|
    ensures Step16(flags, s, encode) == Step16(flags, s + t, encode)
  {
    hide PairSum, HighSurrogate, LowSurrogate, Widen;
    assert (s + t)[0] == s[0] && (|s| > 1 ==> (s + t)[1] == s[1]);
  }

  lemma Step16High<T>(flags: ConversionFlags, s: seq<bv16>, encode: bv32 -> seq<T>)
    requires EndsHigh(s)
    ensures var o := Step16(flags, s, encode);
            if o.Emit? then o.consumed < |s| && EndsHigh(s[o.consumed..]) else o.result != ConversionOK
  {
    hide PairSum, HighSurrogate, LowSurrogate, Widen;
    NotBoth(s[|s| - 1]);
  }

  lemma {:induction false} EndsHighFails<T>(step: seq<bv16> -> Outcome<T>, flags: ConversionFlags, encode: bv32 -> seq<T>,
                                            s: seq<bv16>, room: nat, bad: bool)
    requires Fair(step) && (forall u :: step(u) == Step16(flags, u, encode)) && EndsHigh(s)
    ensures !Convert(step, s, room, bad).result.ConversionOK?
    decreases |s|
  {
    hide Convert, Step16, EndsHigh, HighSurrogate;
    EndsHighNonEmpty(s);
    Unfold(step, s, room, bad);
    Step16High(flags, s, encode);
    var o := step(s);
    if o.need <= room && o.Emit? {
      EndsHighFails(step, flags, encode, s[o.consumed..], room - |o.units|, bad || o.bad);
    }
  }

  lemma EndsHighNonEmpty(s: seq<bv16>)
    requires EndsHigh(s)
    ensures s != []
  {
  }

  lemma EndsHighLater(src: seq<bv16>, n: nat, k: nat)
    requires n + k <= |src| && EndsHigh(src[n..][..k])
    ensures EndsHigh(src[..n + k])
  {
    hide HighSurrogate;
  }

  lemma {:induction false} OutputOfCut<T>(step: seq<bv16> -> Outcome<T>, flags: ConversionFlags, encode: bv32 -> seq<T>,
                                          src: seq<bv16>, room: nat)
    requires Exact(step) && (forall u :: step(u) == Step16(flags, u, encode))
    requires !EndsHigh(src[..Convert(step, src, room, false).consumed])
    ensures OutputIsOwn(step, src, room)
    decreases |src|
  {
    hide Convert, Step16, EndsHigh, Exact, Fair, OutputIsOwn;
    StepOfExact(step, src);
    Unfold(step, src, room, false);
    if src != [] && step(src).need <= room && step(src).Emit? {
      var n, used := step(src).consumed, Convert(step, src, room, false).consumed;
      if EndsHigh(src[n..][..used - n]) {
        EndsHighLater(src, n, used - n);
      }
      TwoParts(src, used);
      Step16Cut(flags, src[..used], src[used..], encode);
      OutputOfCut(step, flags, encode, src[n..], room - |step(src).units|);
      OwnLater(step, src, room);
    } else {
      OwnHere(step, src, room);
    }
  }

  /** For one call, the question is how the consumed source ends. */
  lemma OutputIsOwnUnlessHigh<T>(step: seq<bv16> -> Outcome<T>, flags: ConversionFlags, encode: bv32 -> seq<T>,
                                 src: seq<bv16>, room: nat)
    requires Exact(step) && (forall u :: step(u) == Step16(flags, u, encode))
    ensures OutputIsOwn(step, src, room) <==> !EndsHigh(src[..Convert(step, src, room, false).consumed])
  {
    hide Convert, EndsHigh, Step16;
    var r := Convert(step, src, room, false);
    if EndsHigh(src[..r.consumed]) {
      EndsHighFails(step, flags, encode, src[..r.consumed], |r.written|, false);
    } else {
      OutputOfCut(step, flags, encode, src, room);
    }
  }

  /** Unit `i` is a high surrogate, and the next unit is not its low surrogate. */
  predicate Lone(src: seq<bv16>, i: int) {
    0 <= i && i + 1 < |src| && HighSurrogate(src[i]) && !LowSurrogate(src[i + 1])
  }

  ghost predicate HasLone(src: seq<bv16>) {
    exists i :: Lone(src, i)
  }

  lemma LoneLater(src: seq<bv16>, n: nat)
    requires n <= |src| && HasLone(src[n..])
    ensures HasLone(src)
  {
    var i :| Lone(src[n..], i);
    assert Lone(src, n + i);
  }

  /** A step that ends in a high surrogate is a lenient one over a lone high surrogate. */
  lemma StepEndsHigh<T>(flags: ConversionFlags, src: seq<bv16>, encode: bv32 -> seq<T>)
    requires src != [] && Step16(flags, src, encode).Emit?
    ensures var n := Step16(flags, src, encode).consumed;
            0 < n <= |src| && (EndsHigh(src[..n]) ==> flags.LenientConversion? && Lone(src, 0))
  {
    hide PairSum, HighSurrogate, LowSurrogate, Widen;
    if |src| > 1 {
      NotBoth(src[1]);
    }
  }

  /** The consumed source ends in a high surrogate only in lenient mode, and only if there is a lone one. */
  lemma {:induction false} ConsumedEndsHigh<T>(step: seq<bv16> -> Outcome<T>, flags: ConversionFlags, encode: bv32 -> seq<T>,
                                               src: seq<bv16>, room: nat)
    requires Exact(step) && (forall u :: step(u) == Step16(flags, u, encode))
    requires EndsHigh(src[..Convert(step, src, room, false).consumed])
    ensures flags.LenientConversion? && HasLone(src)
    decreases |src|
  {
    hide Convert, Step16, HighSurrogate, Lone, HasLone;
    Unfold(step, src, room, false);
    if src != [] && step(src).need <= room && step(src).Emit? {
      var n := step(src).consumed;
      var rest := Convert(step, src[n..], room - |step(src).units|, false);
      TakeDrop(src, n, rest.consumed);
      if rest.consumed == 0 {
        assert src[..n + 0] == src[..n];
        StepEndsHigh(flags, src, encode);
        LoneIsThere(src, 0);
      } else {
        assert src[..n + rest.consumed][n..][rest.consumed - 1] == src[..n + rest.consumed][n + rest.consumed - 1];
        ConsumedEndsHigh(step, flags, encode, src[n..], room - |step(src).units|);
        LoneLater(src, n);
      }
    }
  }

  lemma LoneIsThere(src: seq<bv16>, i: int)
    requires Lone(src, i)
    ensures HasLone(src)
  {
  }

  /** In lenient mode the step at the front does not reach past a lone high surrogate further on. */
  lemma StepUpToLone<T>(src: seq<bv16>, i: int, encode: bv32 -> seq<T>)
    requires Lone(src, i)
    ensures var o := Step16(LenientConversion, src, encode);
            o.Emit? && 0 < o.consumed <= i + 1 && o.need == |o.units| && (o.consumed <= i ==> Lone(src[o.consumed..], i - o.consumed))
  {
    hide PairSum, HighSurrogate, LowSurrogate, Widen;
    NotBoth(src[i]);
  }

  /** Some room makes a lenient call stop right after a lone high surrogate. */
  lemma {:induction false} StopsAfterLone<T>(step: seq<bv16> -> Outcome<T>, encode: bv32 -> seq<T>, src: seq<bv16>, i: int)
    returns (room: nat)
    requires Exact(step) && (forall u :: step(u) == Step16(LenientConversion, u, encode)) && (forall c :: encode(c) != [])
    requires Lone(src, i)
    ensures Convert(step, src, room, false).consumed == i + 1
    decreases |src|
  {
    hide Convert, Step16, Lone;
    StepUpToLone(src, i, encode);
    LoneInside(src, i);
    var o := step(src);
    if o.consumed <= i {
      room := StopsAfterLone(step, encode, src[o.consumed..], i - o.consumed);
      room := room + |o.units|;
    } else {
      room := |o.units|;
      Unfold(step, src[o.consumed..], 0, false);
      StepNeedsRoom(src[o.consumed..], encode);
    }
    Unfold(step, src, room, false);
  }

  lemma LoneInside(src: seq<bv16>, i: int)
    requires Lone(src, i)
    ensures 0 <= i && i + 1 < |src|
  {
  }

  lemma StepNeedsRoom<T>(s: seq<bv16>, encode: bv32 -> seq<T>)
    requires s != [] && (forall c :: encode(c) != [])
    ensures var o := Step16(LenientConversion, s, encode); o.Emit? ==> o.need > 0
  {
    hide PairSum, HighSurrogate, LowSurrogate, Widen;
  }

  /** On the source alone: whatever room calls get, their output is what their consumed source gives on its own, exactly
      when the mode is strict or no high surrogate is followed by a unit that is not its low surrogate. */
  lemma OutputIsOwnExactly<T>(step: seq<bv16> -> Outcome<T>, flags: ConversionFlags, encode: bv32 -> seq<T>, src: seq<bv16>)
    requires Exact(step) && (forall u :: step(u) == Step16(flags, u, encode)) && (forall c :: encode(c) != [])
    ensures (forall room :: OutputIsOwn(step, src, room)) <==> flags.StrictConversion? || !HasLone(src)
  {
    hide Convert, Step16, EndsHigh, Lone, OutputIsOwn;
    if flags.StrictConversion? || !HasLone(src) {
      forall room
        ensures OutputIsOwn(step, src, room)
      {
        OutputIsOwnUnlessHigh(step, flags, encode, src, room);
        if EndsHigh(src[..Convert(step, src, room, false).consumed]) {
          ConsumedEndsHigh(step, flags, encode, src, room);
        }
      }
    } else {
      var i :| Lone(src, i);
      var room := StopsAfterLone(step, encode, src, i);
      OutputIsOwnUnlessHigh(step, flags, encode, src, room);
      LoneEndsHigh(src, i);
    }
  }

  lemma LoneEndsHigh(src: seq<bv16>, i: int)
    requires Lone(src, i)
    ensures i + 1 <= |src| && EndsHigh(src[..i + 1])
  {
    hide HighSurrogate, LowSurrogate;
  }

  lemma UTF16toUTF8OutputExactly(flags: ConversionFlags, src: seq<bv16>)
    ensures Fair(From16to8(flags))
    ensures (forall room :: OutputIsOwn(From16to8(flags), src, room)) <==> flags.StrictConversion? || !HasLone(src)
  {
    hide Exact, Step16, Fair, OutputIsOwn, EncodeUTF8, HasLone;
    From16to8Exact(flags);
    ExactIsFair(From16to8(flags));
    forall c
      ensures EncodeUTF8(c) != []
    {
      NoEmptyCode(c);
    }
    OutputIsOwnExactly(From16to8(flags), flags, EncodeUTF8, src);
  }

  lemma UTF16toUTF32OutputExactly(flags: ConversionFlags, src: seq<bv16>)
    ensures Fair(From16to32(flags))
    ensures (forall room :: OutputIsOwn(From16to32(flags), src, room)) <==> flags.StrictConversion? || !HasLone(src)
  {
    hide Exact, Step16, Fair, OutputIsOwn, HasLone;
    From16to32Exact(flags);
    ExactIsFair(From16to32(flags));
    OutputIsOwnExactly(From16to32(flags), flags, EncodeUTF32, src);
  }

  /** A strict call always has that property. */
  lemma StrictOutputIsOwn(src: seq<bv16>, room: nat)
    ensures Fair(From16to8(StrictConversion)) && OutputIsOwn(From16to8(StrictConversion), src, room)
    ensures Fair(From16to32(StrictConversion)) && OutputIsOwn(From16to32(StrictConversion), src, room)
  {
    hide Fair, OutputIsOwn, HasLone;
    UTF16toUTF8OutputExactly(StrictConversion, src);
    UTF16toUTF32OutputExactly(StrictConversion, src);
  }

  /** A lenient call on <D800, 41> with room for three bytes does not. */
  lemma LenientOutputIsNotOwn()
    ensures Fair(From16to8(LenientConversion))
    ensures !OutputIsOwn(From16to8(LenientConversion), [0xD800, 0x41], 3)
  {
    hide Exact, Fair, OutputIsOwn, EncodeUTF8, Convert;
    var step, src: seq<bv16> := From16to8(LenientConversion), [0xD800, 0x41];
    From16to8Exact(LenientConversion);
    ExactIsFair(step);
    LoneThenLetter();
    Unfold(step, src, 3, false);
    Unfold(step, src[1..], 0, false);
    assert src[1..] == [0x41] && src[..1] == [0xD800];
    OutputIsOwnUnlessHigh(step, LenientConversion, EncodeUTF8, src, 3);
  }

  lemma LoneThenLetter()
    ensures Step16(LenientConversion, [0xD800, 0x41], EncodeUTF8) == Emit(1, EncodeUTF8(0xD800), 3, false)
    ensures Step16(LenientConversion, [0x41], EncodeUTF8) == Emit(1, EncodeUTF8(0x41), 1, false)
    ensures |EncodeUTF8(0xD800)| == 3 && |EncodeUTF8(0x41)| == 1 && EndsHigh([0xD800])
  {
  }

  /** Resuming a UTF-32 conversion can lose the report of a bad value. One call on <110000, 41> reports
      sourceIllegal. */
  lemma UTF32OneCallReports()
    ensures Fair(From32to8(LenientConversion))
    ensures Convert(From32to8(LenientConversion), [0x110000, 0x41], 4, false).result.SourceIllegal?
  {
    hide EncodeUTF8, Convert, Fair;
    var step, src: seq<bv32> := From32to8(LenientConversion), [0x110000, 0x41];
    From32to8Fair(LenientConversion);
    BadThenGood();
    Unfold(step, src, 4, false);
    assert src[1..] == [0x41];
    Unfold(step, src[1..], 1, true);
    Unfold(step, [], 0, true);
  }

  lemma BadThenGood()
    ensures |EncodeUTF8(UNI_REPLACEMENT_CHAR)| == 3 && |EncodeUTF8(0x41)| == 1
    ensures Step32to8(LenientConversion, [0x110000, 0x41]) == Emit(1, EncodeUTF8(UNI_REPLACEMENT_CHAR), 3, true)
    ensures Step32to8(LenientConversion, [0x41]) == Emit(1, EncodeUTF8(0x41), 1, false)
  {
  }

  /** The same source, with a target that is full after the first value: the second call ends in conversionOK. */
  lemma UTF32TwoCallsDoNot()
    ensures Fair(From32to8(LenientConversion))
    ensures var first := Convert(From32to8(LenientConversion), [0x110000, 0x41], 3, false);
            first.result.TargetExhausted? && first.consumed == 1
    ensures Convert(From32to8(LenientConversion), [0x41], 1, false).result.ConversionOK?
  {
    hide EncodeUTF8, Convert, Fair;
    var step, src: seq<bv32> := From32to8(LenientConversion), [0x110000, 0x41];
    From32to8Fair(LenientConversion);
    BadThenGood();
    Unfold(step, src, 3, false);
    assert src[1..] == [0x41];
    Unfold(step, src[1..], 0, true);
    Unfold(step, src[1..], 1, false);
    Unfold(step, [], 0, false);
  }
}
