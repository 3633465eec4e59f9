/** When a conversion with room enough ends in sourceExhausted, and what is written for values that no form can hold. */
module ConvertUTFResults {
  import opened ConvertUTFSteps
  import opened ConvertUTFTheorems
  import opened Sequences
  import opened Transcoding
  import opened UnicodeForms

  // ---------- UTF-16 ----------

  /** A lenient step stops only at a high surrogate with nothing after it. */
  lemma LenientStepExhausted<T>(s: seq<bv16>, encode: bv32 -> seq<T>)
    requires s != []
    ensures var o := Step16(LenientConversion, s, encode);
            if o.Stop? then o.result.SourceExhausted? && EndsHigh(s)
            else 0 < o.consumed <= |s| && (EndsHigh(s) <==> EndsHigh(s[o.consumed..]))
  {
    hide PairSum, HighSurrogate, LowSurrogate, Widen;
    NotBoth(s[|s| - 1]);
  }

  lemma {:induction false} LenientExhausted<T>(step: seq<bv16> -> Outcome<T>, encode: bv32 -> seq<T>, s: seq<bv16>, room: nat)
    requires Exact(step) && (forall u :: step(u) == Step16(LenientConversion, u, encode))
    requires forall c :: |encode(c)| <= 4
    requires 4 * |s| <= room
    ensures Fair(step)
    ensures Convert(step, s, room, false).result == if EndsHigh(s) then SourceExhausted else ConversionOK
    decreases |s|
  {
    hide Convert, Step16, EndsHigh, Exact, Fair;
    StepOfExact(step, s);
    Unfold(step, s, room, false);
    if s == [] {
      NothingEndsHigh();
    } else {
      var o := step(s);
      LenientStepExhausted(s, encode);
      StepUnits(LenientConversion, s, encode);
      if o.Emit? {
        LenientExhausted(step, encode, s[o.consumed..], room - |o.units|);
      }
    }
  }

  lemma NothingEndsHigh()
    ensures !EndsHigh([])
  {
  }

  lemma StepUnits<T>(flags: ConversionFlags, s: seq<bv16>, encode: bv32 -> seq<T>)
    requires s != [] && forall c :: |encode(c)| <= 4
    ensures var o := Step16(flags, s, encode); o.Emit? ==> |o.units| <= 4
  {
    hide PairSum, HighSurrogate, LowSurrogate, Widen;
  }

  /** A well-formed text and a high surrogate. */
  predicate CutShort(s: seq<bv16>) {
    EndsHigh(s) && WellFormedUTF16(s[..|s| - 1])
  }

  lemma PastOne(s: seq<bv16>)
    requires s != [] && !HighSurrogate(s[0]) && !LowSurrogate(s[0])
    ensures CutShort(s) <==> CutShort(s[1..])
    ensures WellFormedUTF16(s) <==> WellFormedUTF16(s[1..])
  {
    hide HighSurrogate, LowSurrogate;
    if |s| > 1 {
      assert s[..|s| - 1][1..] == s[1..][..|s| - 2];
    }
  }

  lemma PastPair(s: seq<bv16>)
    requires |s| > 1 && HighSurrogate(s[0]) && LowSurrogate(s[1])
    ensures CutShort(s) <==> CutShort(s[2..])
    ensures WellFormedUTF16(s) <==> WellFormedUTF16(s[2..])
  {
    hide HighSurrogate, LowSurrogate;
    NotBoth(s[0]);
    NotBoth(s[1]);
    if |s| > 2 {
      assert s[..|s| - 1][2..] == s[2..][..|s| - 3];
    }
  }

  lemma PastNothing(s: seq<bv16>)
    requires s != [] && (LowSurrogate(s[0]) || (|s| > 1 && HighSurrogate(s[0]) && !LowSurrogate(s[1])))
    ensures !CutShort(s) && !WellFormedUTF16(s)
  {
    hide HighSurrogate, LowSurrogate;
    NotBoth(s[0]);
  }

  /** A strict step that goes on changes nothing about it. */
  lemma StrictStepExhausted<T>(s: seq<bv16>, encode: bv32 -> seq<T>)
    requires s != []
    ensures var o := Step16(StrictConversion, s, encode);
            if o.Stop? then
              if o.result.SourceExhausted? then CutShort(s) && !WellFormedUTF16(s)
              else o.result.SourceIllegal? && !CutShort(s) && !WellFormedUTF16(s)
            else
              && 0 < o.consumed <= |s|
              && (CutShort(s) <==> CutShort(s[o.consumed..])) && (WellFormedUTF16(s) <==> WellFormedUTF16(s[o.consumed..]))
  {
    hide PairSum, HighSurrogate, LowSurrogate, Widen, CutShort, WellFormedUTF16;
    if |s| == 1 && HighSurrogate(s[0]) {
      LoneHigh(s);
    } else if |s| > 1 && HighSurrogate(s[0]) && LowSurrogate(s[1]) {
      PastPair(s);
    } else if HighSurrogate(s[0]) || LowSurrogate(s[0]) {
      PastNothing(s);
    } else {
      PastOne(s);
    }
  }

  lemma LoneHigh(s: seq<bv16>)
    requires |s| == 1 && HighSurrogate(s[0])
    ensures CutShort(s) && !WellFormedUTF16(s)
  {
    hide HighSurrogate, LowSurrogate;
    NotBoth(s[0]);
  }

  lemma {:induction false} StrictResult<T>(step: seq<bv16> -> Outcome<T>, encode: bv32 -> seq<T>, s: seq<bv16>, room: nat)
    requires Exact(step) && (forall u :: step(u) == Step16(StrictConversion, u, encode))
    requires forall c :: |encode(c)| <= 4
    requires 4 * |s| <= room
    ensures Fair(step)
    ensures Convert(step, s, room, false).result
         == if WellFormedUTF16(s) then ConversionOK else if CutShort(s) then SourceExhausted else SourceIllegal
    decreases |s|
  {
    hide Convert, Step16, CutShort, WellFormedUTF16, Exact, Fair;
    StepOfExact(step, s);
    Unfold(step, s, room, false);
    if s == [] {
      NothingCutShort();
    } else {
      var o := step(s);
      StrictStepExhausted(s, encode);
      StepUnits(StrictConversion, s, encode);
      if o.Emit? {
        StrictResult(step, encode, s[o.consumed..], room - |o.units|);
      }
    }
  }

  lemma NothingCutShort()
    ensures WellFormedUTF16([]) && !CutShort([])
  {
  }

  lemma EncodedShort(c: bv32)
    ensures |EncodeUTF8(c)| <= 4 && |EncodeUTF16(c)| <= 4 && |EncodeUTF32(c)| <= 4
  {
    hide HighPart, LowPart, UnitPart;
  }

  lemma AllEncodedShort()
    ensures forall c: bv32 :: |EncodeUTF8(c)| <= 4
    ensures forall c: bv32 :: |EncodeUTF16(c)| <= 4
    ensures forall c: bv32 :: |EncodeUTF32(c)| <= 4
  {
    hide EncodeUTF8, EncodeUTF16, EncodeUTF32;
    forall c: bv32
      ensures |EncodeUTF8(c)| <= 4 && |EncodeUTF16(c)| <= 4 && |EncodeUTF32(c)| <= 4
    {
      EncodedShort(c);
    }
  }

  lemma Steps16(flags: ConversionFlags)
    ensures forall u :: From16to8(flags)(u) == Step16(flags, u, EncodeUTF8)
    ensures forall u :: From16to32(flags)(u) == Step16(flags, u, EncodeUTF32)
  {
    hide Step16;
  }

  lemma HighSurrogateIs(u: bv16)
    ensures HighSurrogate(u) <==> 0xD800 <= u <= 0xDBFF
  {
  }

  /** How a conversion from UTF-16 with room enough ends: a lenient one in sourceExhausted exactly if the last unit is a high
      surrogate; a strict one in conversionOK for a well-formed source, in sourceExhausted for one that is well formed up to
      a high surrogate at its end, and otherwise in sourceIllegal. */
  ghost predicate EndsAsDocumented(flags: ConversionFlags, s: seq<bv16>, result: ConversionResult) {
    var high := s != [] && 0xD800 <= s[|s| - 1] <= 0xDBFF;
    if flags.LenientConversion? then result == if high then SourceExhausted else ConversionOK
    else if WellFormedUTF16(s) then result == ConversionOK
    else if high && WellFormedUTF16(s[..|s| - 1]) then result == SourceExhausted
    else result == SourceIllegal
  }

  lemma EndsAs(flags: ConversionFlags, s: seq<bv16>, result: ConversionResult)
    requires flags.LenientConversion? ==> result == if EndsHigh(s) then SourceExhausted else ConversionOK
    requires flags.StrictConversion? ==>
               result == if WellFormedUTF16(s) then ConversionOK else if CutShort(s) then SourceExhausted else SourceIllegal
    ensures EndsAsDocumented(flags, s, result)
  {
    hide WellFormedUTF16, HighSurrogate;
    if s != [] {
      HighSurrogateIs(s[|s| - 1]);
    }
  }

  lemma UTF16toUTF8Result(flags: ConversionFlags, s: seq<bv16>, room: nat)
    requires 4 * |s| <= room
    ensures Fair(From16to8(flags)) && EndsAsDocumented(flags, s, Convert(From16to8(flags), s, room, false).result)
  {
    hide Convert, Step16, From16to8, WellFormedUTF16, CutShort, EndsHigh, EndsAsDocumented, EncodeUTF8, Exact, Fair;
    From16to8Exact(flags);
    AllEncodedShort();
    Steps16(flags);
    if flags.StrictConversion? {
      StrictResult(From16to8(flags), EncodeUTF8, s, room);
    } else {
      LenientExhausted(From16to8(flags), EncodeUTF8, s, room);
    }
    EndsAs(flags, s, Convert(From16to8(flags), s, room, false).result);
  }

  lemma UTF16toUTF32Result(flags: ConversionFlags, s: seq<bv16>, room: nat)
    requires 4 * |s| <= room
    ensures Fair(From16to32(flags)) && EndsAsDocumented(flags, s, Convert(From16to32(flags), s, room, false).result)
  {
    hide Convert, Step16, From16to32, WellFormedUTF16, CutShort, EndsHigh, EndsAsDocumented, EncodeUTF32, Exact, Fair;
    From16to32Exact(flags);
    AllEncodedShort();
    Steps16(flags);
    if flags.StrictConversion? {
      StrictResult(From16to32(flags), EncodeUTF32, s, room);
    } else {
      LenientExhausted(From16to32(flags), EncodeUTF32, s, room);
    }
    EndsAs(flags, s, Convert(From16to32(flags), s, room, false).result);
  }

  // ---------- UTF-8 ----------

  /** The number of bytes that a first byte announces. */
  function Announced(b: bv8): nat {
    if b < 0xC0 then 1 else if b < 0xE0 then 2 else if b < 0xF0 then 3 else if b < 0xF8 then 4 else if b < 0xFC then 5 else 6
  }

  /** `k` bytes that are accepted, and then fewer than the next one announces. */
  ghost predicate Truncated(s: seq<bv8>, k: nat) {
    k < |s| && AcceptedUTF8(s[..k]) && |s| - k < Announced(s[k])
  }

  lemma {:induction false} SimpleResult<T>(step: seq<bv8> -> Outcome<T>, encode: bv32 -> seq<T>, s: seq<bv8>, room: nat)
    requires Exact(step) && (forall u :: step(u) == Simple8(u, encode))
    requires forall c :: |encode(c)| <= 4
    requires 4 * |s| <= room
    ensures Fair(step)
    ensures Convert(step, s, room, false).result.SourceExhausted? <==> exists k: nat :: Truncated(s, k)
    decreases |s|
  {
    hide Convert, Truncated, Exact, Fair, IsLegalUTF8, Decoded;
    StepOfExact(step, s);
    Unfold(step, s, room, false);
    if s == [] {
      NothingTruncated();
    } else {
      var o := step(s);
      TruncatedHere(s);
      if o.Emit? {
        SimpleResult(step, encode, s[o.consumed..], room - |o.units|);
        TruncatedLater(s, o.consumed);
      } else if |s| > TrailingBytes(s[0]) {
        NotTruncated(s);
      }
    }
  }

  lemma NothingTruncated()
    ensures forall k: nat :: !Truncated([], k)
  {
  }

  lemma TruncatedHere(s: seq<bv8>)
    requires s != []
    ensures Truncated(s, 0) <==> |s| <= TrailingBytes(s[0])
  {
    assert s[..0] == [];
  }

  lemma LongEnough(s: seq<bv8>, k: nat, n: nat)
    requires s != [] && Truncated(s, k) && n == TrailingBytes(s[0]) + 1 <= |s|
    ensures n <= k < |s| && IsLegalUTF8(s[..n]) && AcceptedUTF8(s[n..k])
  {
    hide IsLegalUTF8;
    if k == 0 {
      TruncatedHere(s);
    }
    assert k > 0 ==> s[..k][..n] == s[..n] && s[..k][n..] == s[n..k];
  }

  lemma TruncatedPast(s: seq<bv8>, n: nat, k: nat)
    requires s != [] && n == TrailingBytes(s[0]) + 1 <= |s| && Truncated(s, k)
    ensures n <= k && Truncated(s[n..], k - n)
  {
    hide IsLegalUTF8, TrailingBytes, AcceptedUTF8, Announced;
    LongEnough(s, k, n);
    assert s[n..][..k - n] == s[n..k] && s[n..][k - n] == s[k];
  }

  lemma TruncatedBefore(s: seq<bv8>, n: nat, k: nat)
    requires s != [] && n == TrailingBytes(s[0]) + 1 <= |s| && IsLegalUTF8(s[..n]) && Truncated(s[n..], k)
    ensures Truncated(s, n + k)
  {
    hide IsLegalUTF8, TrailingBytes, AcceptedUTF8, Announced, DecodedText;
    AcceptedCons(s[..n], s[n..][..k]);
    TwoParts(s, n);
    TakeOfConcat(s[..n], s[n..], n + k);
  }

  /** Past an accepted sequence. */
  lemma TruncatedLater(s: seq<bv8>, n: nat)
    requires s != [] && n == TrailingBytes(s[0]) + 1 <= |s| && IsLegalUTF8(s[..n])
    ensures (exists k: nat :: Truncated(s, k)) <==> exists k: nat :: Truncated(s[n..], k)
  {
    hide IsLegalUTF8, TrailingBytes, Truncated;
    if k: nat :| Truncated(s, k) {
      TruncatedPast(s, n, k);
    }
    if k: nat :| Truncated(s[n..], k) {
      TruncatedBefore(s, n, k);
    }
  }

  /** A sequence that is not accepted ends the conversion in sourceIllegal, wherever the source ends. */
  lemma NotTruncated(s: seq<bv8>)
    requires s != [] && TrailingBytes(s[0]) < |s| && !IsLegalUTF8(s[..TrailingBytes(s[0]) + 1])
    ensures forall k: nat :: !Truncated(s, k)
  {
    hide IsLegalUTF8, TrailingBytes, Truncated;
    forall k: nat
      ensures !Truncated(s, k)
    {
      if Truncated(s, k) {
        LongEnough(s, k, TrailingBytes(s[0]) + 1);
      }
    }
  }

  lemma Steps8(flags: ConversionFlags)
    ensures forall u :: From8to16(flags)(u) == Simple8(u, EncodeUTF16)
    ensures forall u :: From8to32(flags)(u) == Simple8(u, EncodeUTF32)
  {
    hide Step8to16, Step8to32, Simple8;
    forall u: seq<bv8>
      ensures From8to16(flags)(u) == Simple8(u, EncodeUTF16) && From8to32(flags)(u) == Simple8(u, EncodeUTF32)
    {
      FlagsDoNotMatter(flags, u);
    }
  }

  /** After accepted sequences the source breaks off inside one. */
  ghost predicate BreaksOff(s: seq<bv8>) {
    exists k: nat :: Truncated(s, k)
  }

  /** With room enough, a conversion from UTF-8, in either mode, ends in sourceExhausted exactly for a source that breaks off
      inside a sequence, after sequences that are accepted. */
  lemma UTF8toUTF16Exhausted(flags: ConversionFlags, s: seq<bv8>, room: nat)
    requires 4 * |s| <= room
    ensures Fair(From8to16(flags))
    ensures Convert(From8to16(flags), s, room, false).result.SourceExhausted? <==> BreaksOff(s)
  {
    hide Convert, Simple8, From8to16, Truncated, EncodeUTF16, Exact, Fair;
    From8to16Exact(flags);
    AllEncodedShort();
    Steps8(flags);
    SimpleResult(From8to16(flags), EncodeUTF16, s, room);
  }

  lemma UTF8toUTF32Exhausted(flags: ConversionFlags, s: seq<bv8>, room: nat)
    requires 4 * |s| <= room
    ensures Fair(From8to32(flags))
    ensures Convert(From8to32(flags), s, room, false).result.SourceExhausted? <==> BreaksOff(s)
  {
    hide Convert, Simple8, From8to32, Truncated, EncodeUTF32, Exact, Fair;
    From8to32Exact(flags);
    AllEncodedShort();
    Steps8(flags);
    SimpleResult(From8to32(flags), EncodeUTF32, s, room);
  }

  // ---------- UTF-32 ----------

  predicate Beyond(c: bv32) {
    c > 0x10FFFF
  }

  predicate Surrogate(c: bv32) {
    0xD800 <= c <= 0xDFFF
  }

  /** What UTF-8 is written for: U+FFFD for values above 10FFFF. */
  function Legal(c: bv32): bv32 {
    if Beyond(c) then 0xFFFD else c
  }

  function Legalized(s: seq<bv32>): seq<bv32> {
    if s == [] then [] else [Legal(s[0])] + Legalized(s[1..])
  }

  /** What a lenient call writes UTF-16 for: U+FFFD for surrogates, too. */
  function Scalar(c: bv32): bv32 {
    if Beyond(c) || Surrogate(c) then 0xFFFD else c
  }

  function Scalarized(s: seq<bv32>): seq<bv32> {
    if s == [] then [] else [Scalar(s[0])] + Scalarized(s[1..])
  }

  /** What a strict one writes it for: the values up to 10FFFF. */
  function Within(s: seq<bv32>): seq<bv32> {
    if s == [] then [] else (if Beyond(s[0]) then [] else [s[0]]) + Within(s[1..])
  }

  predicate SomeBeyond(s: seq<bv32>) {
    s != [] && (Beyond(s[0]) || SomeBeyond(s[1..]))
  }

  /** The number of values before the first surrogate. */
  function BeforeSurrogate(s: seq<bv32>): (k: nat)
    ensures k <= |s|
  {
    if s == [] || Surrogate(s[0]) then 0 else 1 + BeforeSurrogate(s[1..])
  }

  lemma ReplacementUnit()
    ensures EncodeUTF16(0xFFFD) == [0xFFFD] && EncodeUTF8(0xFFFD) == [0xEF, 0xBF, 0xBD]
  {
  }

  lemma StepTo8(c: bv32)
    ensures var o := After32to8(LenientConversion, c);
            && o.Emit? && o.consumed == 1 && o.need == |o.units| <= 4
            && o.units == EncodeUTF8(Legal(c)) && (o.bad <==> Beyond(c))
    ensures After32to8(StrictConversion, c)
         == if Surrogate(c) then Stop(SourceIllegal, 0) else After32to8(LenientConversion, c)
  {
    hide Lead1, Lead2, Lead3, Lead4, Trail0, Trail6, Trail12;
  }

  lemma StepTo16(c: bv32)
    ensures var o := After32to16(LenientConversion, c);
            && o.Emit? && o.consumed == 1 && |o.units| <= o.need <= 2 && !o.bad && o.units == EncodeUTF16(Scalar(c))
    ensures var o := After32to16(StrictConversion, c);
            if Surrogate(c) then o == Stop(SourceIllegal, 1)
            else && o.Emit? && o.consumed == 1 && |o.units| <= o.need <= 2 && (o.bad <==> Beyond(c))
                 && o.units == if Beyond(c) then [] else EncodeUTF16(c)
  {
    ReplacementUnit();
    hide HighPart, LowPart, UnitPart;
  }

  /** A lenient conversion from UTF-32 to UTF-8 with room enough takes the whole source, writes EF BF BD for each value above
      10FFFF, and ends in sourceIllegal exactly if there was one. */
  lemma {:induction false} UTF32toUTF8Lenient(s: seq<bv32>, room: nat, bad: bool)
    requires 4 * |s| <= room
    ensures Fair(From32to8(LenientConversion))
    ensures Convert(From32to8(LenientConversion), s, room, bad)
         == Conversion(|s|, Flat(EncodeUTF8, Legalized(s)), if bad || SomeBeyond(s) then SourceIllegal else ConversionOK)
  {
    hide Convert, EncodeUTF8, After32to8, Fair, Legal, Beyond;
    From32to8Fair(LenientConversion);
    Unfold(From32to8(LenientConversion), s, room, bad);
    if s != [] {
      StepTo8(s[0]);
      UTF32toUTF8Lenient(s[1..], room - |After32to8(LenientConversion, s[0]).units|, bad || Beyond(s[0]));
      FlatConsUTF8(Legal(s[0]), Legalized(s[1..]));
    }
  }

  /** To UTF-16 it writes FFFD for surrogates and for values above 10FFFF, and always ends in conversionOK. */
  lemma {:induction false} UTF32toUTF16Lenient(s: seq<bv32>, room: nat)
    requires 2 * |s| <= room
    ensures Fair(From32to16(LenientConversion))
    ensures Convert(From32to16(LenientConversion), s, room, false)
         == Conversion(|s|, Flat(EncodeUTF16, Scalarized(s)), ConversionOK)
  {
    hide Convert, EncodeUTF16, After32to16, Fair, Scalar;
    From32to16Fair(LenientConversion);
    Unfold(From32to16(LenientConversion), s, room, false);
    if s != [] {
      StepTo16(s[0]);
      UTF32toUTF16Lenient(s[1..], room - |After32to16(LenientConversion, s[0]).units|);
      FlatCons(Scalar(s[0]), Scalarized(s[1..]));
    }
  }

  lemma BeforeFirst(s: seq<bv32>)
    requires s != []
    ensures Surrogate(s[0]) ==> s[..BeforeSurrogate(s)] == []
    ensures !Surrogate(s[0]) ==>
              && BeforeSurrogate(s) == 1 + BeforeSurrogate(s[1..])
              && s[..BeforeSurrogate(s)] == [s[0]] + s[1..][..BeforeSurrogate(s[1..])]
    ensures BeforeSurrogate(s) < |s| <==> Surrogate(s[0]) || BeforeSurrogate(s[1..]) < |s[1..]|
  {
    hide Surrogate;
    TakeOneMore(s, BeforeSurrogate(s[1..]));
  }

  lemma TakeOneMore(s: seq<bv32>, k: nat)
    requires k < |s|
    ensures s[..1 + k] == [s[0]] + s[1..][..k] && s[..0] == []
  {
  }

  lemma FirstOfBoth(c: bv32, rest: seq<bv32>)
    ensures Legalized([c] + rest) == [Legal(c)] + Legalized(rest)
    ensures Within([c] + rest) == (if Beyond(c) then [] else [c]) + Within(rest)
    ensures SomeBeyond([c] + rest) <==> Beyond(c) || SomeBeyond(rest)
  {
    hide Legal, Beyond;
    assert ([c] + rest)[1..] == rest;
  }

  /** A strict conversion with room enough takes what comes before the first surrogate, and ends in sourceIllegal if there is
      one, or a value above 10FFFF before it. To UTF-8 it writes what a lenient one does. */
  ghost predicate TakesUpToSurrogate<T>(s: seq<bv32>, bad: bool, r: Conversion<T>, written: seq<T>) {
    var k := BeforeSurrogate(s);
    r == Conversion(k, written, if bad || k < |s| || SomeBeyond(s[..k]) then SourceIllegal else ConversionOK)
  }

  lemma NothingWritten()
    ensures Flat(EncodeUTF8, Legalized([])) == [] && Flat(EncodeUTF16, Within([])) == []
  {
  }

  lemma {:induction false} UTF32toUTF8Strict(s: seq<bv32>, room: nat, bad: bool)
    requires 4 * |s| <= room
    ensures Fair(From32to8(StrictConversion))
    ensures TakesUpToSurrogate(s, bad, Convert(From32to8(StrictConversion), s, room, bad),
                               Flat(EncodeUTF8, Legalized(s[..BeforeSurrogate(s)])))
  {
    hide Convert, EncodeUTF8, After32to8, Fair, Legal, Beyond, Surrogate, Flat;
    From32to8Fair(StrictConversion);
    Unfold(From32to8(StrictConversion), s, room, bad);
    NothingWritten();
    if s != [] {
      BeforeFirst(s);
      StepTo8(s[0]);
      if !Surrogate(s[0]) {
        var rest := s[1..][..BeforeSurrogate(s[1..])];
        UTF32toUTF8Strict(s[1..], room - |After32to8(StrictConversion, s[0]).units|, bad || Beyond(s[0]));
        FirstOfBoth(s[0], rest);
        FlatConsUTF8(Legal(s[0]), Legalized(rest));
      }
    }
  }

  /** To UTF-16 it writes nothing for values above 10FFFF. */
  lemma {:induction false} UTF32toUTF16Strict(s: seq<bv32>, room: nat, bad: bool)
    requires 2 * |s| <= room
    ensures Fair(From32to16(StrictConversion))
    ensures TakesUpToSurrogate(s, bad, Convert(From32to16(StrictConversion), s, room, bad),
                               Flat(EncodeUTF16, Within(s[..BeforeSurrogate(s)])))
  {
    hide Convert, EncodeUTF16, After32to16, Fair, Beyond, Surrogate, Flat;
    From32to16Fair(StrictConversion);
    Unfold(From32to16(StrictConversion), s, room, bad);
    NothingWritten();
    if s != [] {
      BeforeFirst(s);
      StepTo16(s[0]);
      if !Surrogate(s[0]) {
        var rest := s[1..][..BeforeSurrogate(s[1..])];
        UTF32toUTF16Strict(s[1..], room - |After32to16(StrictConversion, s[0]).units|, bad || Beyond(s[0]));
        FirstOfBoth(s[0], rest);
        FlatCons(s[0], Within(rest));
        EmptyEnds(Within(rest));
        EmptyEnds(Flat(EncodeUTF16, Within(rest)));
      }
    }
  }

  /** When the target is full, the converter to UTF-16 notices that first, and the one to UTF-8 a surrogate. */
  lemma FullTargetTo16(c: bv32)
    requires Surrogate(c)
    ensures Fair(From32to16(StrictConversion))
    ensures Convert(From32to16(StrictConversion), [c], 0, false).result == TargetExhausted
  {
    hide Convert, After32to16, Fair, Surrogate;
    From32to16Fair(StrictConversion);
    Unfold(From32to16(StrictConversion), [c], 0, false);
    StepTo16(c);
  }

  lemma FullTargetTo8(c: bv32)
    requires Surrogate(c)
    ensures Fair(From32to8(StrictConversion))
    ensures Convert(From32to8(StrictConversion), [c], 0, false).result == SourceIllegal
  {
    hide Convert, After32to8, Fair, Surrogate;
    From32to8Fair(StrictConversion);
    Unfold(From32to8(StrictConversion), [c], 0, false);
    StepTo8(c);
  }
}
