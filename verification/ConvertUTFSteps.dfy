/** What each of the six converters does at the front of its source. */
module ConvertUTFSteps {
  import opened Transcoding
  import opened UnicodeForms

  datatype ConversionFlags = StrictConversion | LenientConversion

  const UNI_REPLACEMENT_CHAR: bv32 := 0xFFFD
  const UNI_MAX_LEGAL_UTF32: bv32 := 0x10FFFF

  predicate AboveLegal(c: bv32) {
    UNI_MAX_LEGAL_UTF32 < c
  }

  // ---------- UTF-8 as source ----------

  /** `trailingBytesForUTF8`. */
  function TrailingBytes(b: bv8): nat {
    if b < 0xC0 then 0 else if b < 0xE0 then 1 else if b < 0xF0 then 2 else if b < 0xF8 then 3 else if b < 0xFC then 4 else 5
  }

  /** `isLegalUTF8`: the bytes are checked from the last to the first, as the switch falls through. */
  predicate IsLegalUTF8(s: seq<bv8>) {
    && 1 <= |s| <= 4
    && (|s| == 4 ==> Continuation(s[3]))
    && (|s| >= 3 ==> Continuation(s[2]))
    && (|s| >= 2 ==> s[1] <= 0xBF && LegalSecond(s[0], s[1]))
    && !(0x80 <= s[0] < 0xC2)
    && s[0] <= 0xF4
  }

  /** The inner switch on the first byte. */
  predicate LegalSecond(first: bv8, a: bv8) {
    if first == 0xE0 then a >= 0xA0
    else if first == 0xED then a <= 0x9F
    else if first == 0xF0 then a >= 0x90
    else if first == 0xF4 then a <= 0x8F
    else a >= 0x80
  }

  /** The sequences accepted in addition to Table 3-7: the arms for ED and F4 check only an upper bound. */
  predicate LegalButIllFormed(s: seq<bv8>) {
    || (|s| == 3 && s[0] == 0xED && s[1] < 0x80 && Continuation(s[2]))
    || (|s| == 4 && s[0] == 0xF4 && s[1] < 0x80 && Continuation(s[2]) && Continuation(s[3]))
  }

  /** `isLegalUTF8` accepts Table 3-7 and `LegalButIllFormed`, and nothing else. */
  lemma LegalExactly(s: seq<bv8>)
    requires s != [] && |s| == TrailingBytes(s[0]) + 1
    ensures IsLegalUTF8(s) <==> WellFormedUTF8Char(s) || LegalButIllFormed(s)
  {
  }

  /** Accepted sequences that Table 3-7 excludes, one for each of the two lead bytes. */
  lemma IllFormedAccepted()
    ensures var s := [0xED as bv8, 0x00, 0x80];
            IsLegalUTF8(s) && !WellFormedUTF8Char(s) && Decoded(s) == 0xB000
    ensures var s := [0xF4 as bv8, 0x00, 0x80, 0x80];
            IsLegalUTF8(s) && !WellFormedUTF8Char(s) && Decoded(s) == 0x80000
  {
  }

  // The fall-through switch: `ch += *source++` and `ch <<= 6` in turn.
  function AddByte(ch: bv32, b: bv8): bv32 { ch + b as bv32 }
  function Shift6(ch: bv32): bv32 { ch << 6 }

  function Sum2(b0: bv8, b1: bv8): bv32 {
    AddByte(Shift6(AddByte(0, b0)), b1)
  }

  function Sum3(b0: bv8, b1: bv8, b2: bv8): bv32 {
    AddByte(Shift6(Sum2(b0, b1)), b2)
  }

  function Sum4(b0: bv8, b1: bv8, b2: bv8, b3: bv8): bv32 {
    AddByte(Shift6(Sum3(b0, b1, b2)), b3)
  }

  /** `offsetsFromUTF8`. */
  function OffsetsFromUTF8(n: nat): bv32
    requires n < 6
  {
    if n == 0 then 0x00000000 else if n == 1 then 0x00003080 else if n == 2 then 0x000E2080
    else if n == 3 then 0x03C82080 else if n == 4 then 0xFA082080 else 0x82082080
  }

  function LessOffset(sum: bv32, n: nat): bv32
    requires n < 6
  {
    sum - OffsetsFromUTF8(n)
  }

  /** The sum less the offset. Lengths five and six are not legal. */
  function Decoded(s: seq<bv8>): bv32 {
    match |s|
    case 1 => LessOffset(AddByte(0, s[0]), 0)
    case 2 => LessOffset(Sum2(s[0], s[1]), 1)
    case 3 => LessOffset(Sum3(s[0], s[1], s[2]), 2)
    case 4 => LessOffset(Sum4(s[0], s[1], s[2], s[3]), 3)
    case _ => 0
  }

  lemma Sum1IsByte(b0: bv8)
    ensures LessOffset(AddByte(0, b0), 0) == b0 as bv32
  {
  }

  lemma Sum2IsJoin(b0: bv8, b1: bv8)
    requires 0xC0 <= b0 <= 0xDF && Continuation(b1)
    ensures LessOffset(Sum2(b0, b1), 1) == Join2(b0, b1)
  {
  }

  lemma Sum3IsJoin(b0: bv8, b1: bv8, b2: bv8)
    requires 0xE0 <= b0 <= 0xEF && Continuation(b1) && Continuation(b2)
    ensures LessOffset(Sum3(b0, b1, b2), 2) == Join3(b0, b1, b2)
  {
  }

  lemma Sum4IsJoin(b0: bv8, b1: bv8, b2: bv8, b3: bv8)
    requires 0xF0 <= b0 <= 0xF7 && Continuation(b1) && Continuation(b2) && Continuation(b3)
    ensures LessOffset(Sum4(b0, b1, b2, b3), 3) == Join4(b0, b1, b2, b3)
  {
  }

  lemma Sum3IllFormed(b1: bv8, b2: bv8)
    requires b1 < 0x80 && Continuation(b2)
    ensures 0xB000 <= LessOffset(Sum3(0xED, b1, b2), 2) <= 0xCFFF
  {
  }

  lemma Sum4IllFormed(b1: bv8, b2: bv8, b3: bv8)
    requires b1 < 0x80 && Continuation(b2) && Continuation(b3)
    ensures 0x80000 <= LessOffset(Sum4(0xF4, b1, b2, b3), 3) <= 0xFFFFF
  {
  }

  /** The arithmetic with offsets recovers the payload of a well-formed sequence. */
  lemma DecodedIsPayload(s: seq<bv8>)
    requires WellFormedUTF8Char(s)
    ensures 1 <= |s| <= 4 && Decoded(s) == PayloadUTF8(s)
  {
    hide AddByte, Shift6, LessOffset, Sum2, Sum3, Sum4, Join2, Join3, Join4;
    if |s| == 1 {
      Sum1IsByte(s[0]);
    } else if |s| == 2 {
      Sum2IsJoin(s[0], s[1]);
    } else if |s| == 3 {
      Sum3IsJoin(s[0], s[1], s[2]);
    } else if |s| == 4 {
      Sum4IsJoin(s[0], s[1], s[2], s[3]);
    }
  }

  /** Every accepted sequence, well formed or not, decodes to a scalar value: the arms for surrogates and for values
      above 10FFFF are never taken. */
  lemma LegalDecodesToScalar(s: seq<bv8>)
    requires s != [] && |s| == TrailingBytes(s[0]) + 1 && IsLegalUTF8(s)
    ensures IsScalar(Decoded(s))
    ensures !AboveLegal(Decoded(s)) && !IsSurrogate(Decoded(s))
    ensures |s| < 4 ==> InBMP(Decoded(s))
  {
    hide AddByte, Shift6, LessOffset, Sum2, Sum3, Sum4, Join2, Join3, Join4;
    LegalExactly(s);
    if WellFormedUTF8Char(s) {
      DecodedIsPayload(s);
      WellFormedIsEncoded(s);
      EncodedLength(PayloadUTF8(s));
    } else if |s| == 3 {
      Sum3IllFormed(s[1], s[2]);
    } else {
      Sum4IllFormed(s[1], s[2], s[3]);
    }
  }

  lemma EncodedLength(c: bv32)
    ensures |EncodeUTF8(c)| == if c < 0x80 then 1 else if c < 0x800 then 2 else if c < 0x10000 then 3 else 4
  {
  }

  /** `ConvertUTF8toUTF16`, once `ch` has been decoded from `length` bytes. */
  function After8to16(flags: ConversionFlags, length: nat, ch: bv32): Outcome<bv16> {
    if InBMP(ch) then
      if IsSurrogate(ch) then
        if flags.StrictConversion? then Stop(SourceIllegal, 1) else Emit(length, [0xFFFD], 1, false)
      else
        Emit(length, EncodeUTF16(ch), 1, false)
    else if AboveLegal(ch) then
      if flags.StrictConversion? then Stop(SourceIllegal, 1) else Emit(length, [0xFFFD], 1, false)
    else
      Emit(length, EncodeUTF16(ch), 2, false)
  }

  /** `ConvertUTF8toUTF32`, once `ch` has been decoded from `length` bytes. */
  function After8to32(flags: ConversionFlags, length: nat, ch: bv32): Outcome<bv32> {
    if !AboveLegal(ch) then
      if IsSurrogate(ch) then
        if flags.StrictConversion? then Stop(SourceIllegal, 1) else Emit(length, [UNI_REPLACEMENT_CHAR], 1, false)
      else
        Emit(length, [ch], 1, false)
    else
      Emit(length, [UNI_REPLACEMENT_CHAR], 1, true)
  }

  /** A converter from UTF-8, at the front of `s`; `after` is what it does with a decoded value. */
  function Step8<T>(s: seq<bv8>, after: (nat, bv32) -> Outcome<T>): Outcome<T> {
    if s == [] then
      Stop(ConversionOK, 0)
    else
      var length := TrailingBytes(s[0]) + 1;
      if |s| < length then
        Stop(SourceExhausted, 0)
      else if !IsLegalUTF8(s[..length]) then
        Stop(SourceIllegal, 0)
      else
        after(length, Decoded(s[..length]))
  }

  function Step8to16(flags: ConversionFlags, s: seq<bv8>): Outcome<bv16> {
    Step8(s, (length: nat, ch: bv32) => After8to16(flags, length, ch))
  }

  function Step8to32(flags: ConversionFlags, s: seq<bv8>): Outcome<bv32> {
    Step8(s, (length: nat, ch: bv32) => After8to32(flags, length, ch))
  }

  /** What both UTF-8 converters do, without the arms that are never taken. */
  function Simple8<T>(s: seq<bv8>, encode: bv32 -> seq<T>): Outcome<T> {
    if s == [] then
      Stop(ConversionOK, 0)
    else
      var length := TrailingBytes(s[0]) + 1;
      if |s| < length then
        Stop(SourceExhausted, 0)
      else if !IsLegalUTF8(s[..length]) then
        Stop(SourceIllegal, 0)
      else
        var units := encode(Decoded(s[..length]));
        Emit(length, units, |units|, false)
  }

  /** Strict and lenient decoding of UTF-8 agree on every byte input. */
  lemma FlagsDoNotMatter(flags: ConversionFlags, s: seq<bv8>)
    ensures Step8to16(flags, s) == Simple8(s, EncodeUTF16)
    ensures Step8to32(flags, s) == Simple8(s, EncodeUTF32)
  {
    hide Decoded, IsLegalUTF8, InBMP, AboveLegal, IsScalar, IsSurrogate, UnitPart, HighPart, LowPart;
    if s != [] && TrailingBytes(s[0]) < |s| {
      var front := s[..TrailingBytes(s[0]) + 1];
      if IsLegalUTF8(front) {
        LegalDecodesToScalar(front);
      }
    }
  }

  // ---------- UTF-16 as source ----------

  /** The value that the surrogate arithmetic of the source gives. */
  function PairSum(high: bv16, low: bv16): bv32 {
    ((high as bv32 - 0xD800) << 10) + (low as bv32 - 0xDC00) + 0x10000
  }

  lemma PairSumIsPairValue(high: bv16, low: bv16)
    requires HighSurrogate(high) && LowSurrogate(low)
    ensures PairSum(high, low) == PairValue(high, low)
  {
  }

  /** A value and the number of units it takes, or the reason for stopping. */
  datatype Decoding = Value(length: nat, ch: bv32) | Refused(result: ConversionResult)

  /** The first half of both converters from UTF-16. */
  function Decode16(flags: ConversionFlags, s: seq<bv16>): Decoding
    requires s != []
  {
    if HighSurrogate(s[0]) then
      if |s| == 1 then
        Refused(SourceExhausted)
      else if LowSurrogate(s[1]) then
        Value(2, PairSum(s[0], s[1]))
      else if flags.StrictConversion? then
        Refused(SourceIllegal)
      else
        Value(1, Widen(s[0]))
    else if flags.StrictConversion? && LowSurrogate(s[0]) then
      Refused(SourceIllegal)
    else
      Value(1, Widen(s[0]))
  }

  /** `ConvertUTF16toUTF8` and `ConvertUTF16toUTF32`, at the front of `s`. */
  function Step16<T>(flags: ConversionFlags, s: seq<bv16>, encode: bv32 -> seq<T>): Outcome<T> {
    if s == [] then
      Stop(ConversionOK, 0)
    else
      match Decode16(flags, s)
      case Refused(result) => Stop(result, 0)
      case Value(length, ch) => Emit(length, encode(ch), |encode(ch)|, false)
  }

  /** No UTF-16 source gives a value above 10FFFF, so the replacement arm of `ConvertUTF16toUTF8` is never taken. */
  lemma Decode16IsLegal(flags: ConversionFlags, s: seq<bv16>)
    requires s != [] && Decode16(flags, s).Value?
    ensures !AboveLegal(Decode16(flags, s).ch)
  {
    hide HighSurrogate, LowSurrogate, PairSum, Widen, AboveLegal;
    WidenIsLegal(s[0]);
    if |s| > 1 && HighSurrogate(s[0]) && LowSurrogate(s[1]) {
      PairIsLegal(s[0], s[1]);
    }
  }

  lemma WidenIsLegal(u: bv16)
    ensures !AboveLegal(Widen(u))
  {
  }

  lemma PairIsLegal(high: bv16, low: bv16)
    requires HighSurrogate(high) && LowSurrogate(low)
    ensures !AboveLegal(PairSum(high, low))
  {
  }

  // ---------- UTF-32 as source ----------

  /** `ConvertUTF32toUTF16`, at the front of `s`. A strict call does not stop at a value above 10FFFF: it writes
      nothing for it and goes on. */
  function Step32to16(flags: ConversionFlags, s: seq<bv32>): Outcome<bv16> {
    if s == [] then Stop(ConversionOK, 0) else After32to16(flags, s[0])
  }

  function After32to16(flags: ConversionFlags, ch: bv32): Outcome<bv16> {
    if InBMP(ch) then
      if IsSurrogate(ch) then
        if flags.StrictConversion? then Stop(SourceIllegal, 1) else Emit(1, [0xFFFD], 1, false)
      else
        Emit(1, EncodeUTF16(ch), 1, false)
    else if AboveLegal(ch) then
      if flags.StrictConversion? then Emit(1, [], 1, true) else Emit(1, [0xFFFD], 1, false)
    else
      Emit(1, EncodeUTF16(ch), 2, false)
  }

  /** `ConvertUTF32toUTF8`, at the front of `s`. A value above 10FFFF is replaced, marked, and passed by. */
  function Step32to8(flags: ConversionFlags, s: seq<bv32>): Outcome<bv8> {
    if s == [] then Stop(ConversionOK, 0) else After32to8(flags, s[0])
  }

  function After32to8(flags: ConversionFlags, ch: bv32): Outcome<bv8> {
    if flags.StrictConversion? && IsSurrogate(ch) then
      Stop(SourceIllegal, 0)
    else
      Emit(1, EncodeReplacing(ch), |EncodeReplacing(ch)|, AboveLegal(ch))
  }

  /** The bytes written for any 32-bit value. */
  function EncodeReplacing(c: bv32): seq<bv8> {
    if AboveLegal(c) then EncodeUTF8(UNI_REPLACEMENT_CHAR) else EncodeUTF8(c)
  }

  // ---------- The steps as function values ----------

  function From8to16(flags: ConversionFlags): seq<bv8> -> Outcome<bv16> {
    s => Step8to16(flags, s)
  }

  function From8to32(flags: ConversionFlags): seq<bv8> -> Outcome<bv32> {
    s => Step8to32(flags, s)
  }

  function From16to8(flags: ConversionFlags): seq<bv16> -> Outcome<bv8> {
    s => Step16(flags, s, EncodeUTF8)
  }

  function From16to32(flags: ConversionFlags): seq<bv16> -> Outcome<bv32> {
    s => Step16(flags, s, EncodeUTF32)
  }

  function From32to16(flags: ConversionFlags): seq<bv32> -> Outcome<bv16> {
    s => Step32to16(flags, s)
  }

  function From32to8(flags: ConversionFlags): seq<bv32> -> Outcome<bv8> {
    s => Step32to8(flags, s)
  }

  /** The converters from UTF-8 and UTF-16 are exact: the theorems on resuming apply to them. */
  lemma From8to16Exact(flags: ConversionFlags)
    ensures Exact(From8to16(flags))
  {
    hide Step8to16, Simple8;
    forall s: seq<bv8> | s != []
      ensures ExactStep(s, Step8to16(flags, s))
    {
      FlagsDoNotMatter(flags, s);
      Simple8Exact(s, EncodeUTF16);
    }
  }

  lemma From8to32Exact(flags: ConversionFlags)
    ensures Exact(From8to32(flags))
  {
    hide Step8to32, Simple8;
    forall s: seq<bv8> | s != []
      ensures ExactStep(s, Step8to32(flags, s))
    {
      FlagsDoNotMatter(flags, s);
      Simple8Exact(s, EncodeUTF32);
    }
  }

  ghost predicate ExactStep<S, T>(s: seq<S>, o: Outcome<T>) {
    match o
    case Emit(consumed, units, need, bad) => 0 < consumed <= |s| && need == |units| && !bad
    case Stop(result, need) => need == 0 && (result.SourceExhausted? || result.SourceIllegal?)
  }

  lemma Simple8Exact<T>(s: seq<bv8>, encode: bv32 -> seq<T>)
    requires s != []
    ensures ExactStep(s, Simple8(s, encode))
  {
    hide IsLegalUTF8, Decoded;
  }

  lemma Step16Exact<T>(flags: ConversionFlags, s: seq<bv16>, encode: bv32 -> seq<T>)
    requires s != []
    ensures ExactStep(s, Step16(flags, s, encode))
  {
    hide PairSum;
  }

  lemma From16to8Exact(flags: ConversionFlags)
    ensures Exact(From16to8(flags))
  {
    hide Step16;
    forall s: seq<bv16> | s != [] ensures ExactStep(s, Step16(flags, s, EncodeUTF8)) {
      Step16Exact(flags, s, EncodeUTF8);
    }
  }

  lemma From16to32Exact(flags: ConversionFlags)
    ensures Exact(From16to32(flags))
  {
    hide Step16;
    forall s: seq<bv16> | s != [] ensures ExactStep(s, Step16(flags, s, EncodeUTF32)) {
      Step16Exact(flags, s, EncodeUTF32);
    }
  }

  /** The converters from UTF-32 are only fair. */
  lemma From32to16Fair(flags: ConversionFlags)
    ensures Fair(From32to16(flags))
  {
    hide HighPart, LowPart;
  }

  lemma From32to8Fair(flags: ConversionFlags)
    ensures Fair(From32to8(flags))
  {
    hide EncodeUTF8;
    EncodedLength(UNI_REPLACEMENT_CHAR);
  }
}
