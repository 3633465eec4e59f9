/** The three Unicode encoding forms, as the standards define them: section 3.9 of the Unicode Standard (Tables 3-5,
    3-6 and 3-7), section 3 of RFC 3629, and section 2 of RFC 2781. */
module UnicodeForms {
  import opened Transcoding

  predicate IsSurrogate(c: bv32) {
    0xD800 <= c <= 0xDFFF
  }

  /** A Unicode scalar value. */
  predicate IsScalar(c: bv32) {
    c <= 0x10FFFF && !IsSurrogate(c)
  }

  ghost predicate AllScalars(values: seq<bv32>) {
    forall i :: 0 <= i < |values| ==> IsScalar(values[i])
  }

  // ---------- UTF-8 ----------

  // The bytes of Table 3-6: leading bytes of one to four byte sequences, and the trailing bytes carrying
  // the six bits from a given position up.
  function Lead1(c: bv32): bv8 { (c & 0x7F) as bv8 }
  function Lead2(c: bv32): bv8 { (0xC0 | ((c >> 6) & 0x1F)) as bv8 }
  function Lead3(c: bv32): bv8 { (0xE0 | ((c >> 12) & 0x0F)) as bv8 }
  function Lead4(c: bv32): bv8 { (0xF0 | ((c >> 18) & 0x07)) as bv8 }
  function Trail0(c: bv32): bv8 { (0x80 | (c & 0x3F)) as bv8 }
  function Trail6(c: bv32): bv8 { (0x80 | ((c >> 6) & 0x3F)) as bv8 }
  function Trail12(c: bv32): bv8 { (0x80 | ((c >> 12) & 0x3F)) as bv8 }

  /** Table 3-6, for any value below 2^21. */
  function EncodeUTF8(c: bv32): seq<bv8> {
    if c < 0x80 then
      [Lead1(c)]
    else if c < 0x800 then
      [Lead2(c), Trail0(c)]
    else if c < 0x10000 then
      [Lead3(c), Trail6(c), Trail0(c)]
    else
      [Lead4(c), Trail12(c), Trail6(c), Trail0(c)]
  }

  predicate Continuation(b: bv8) {
    0x80 <= b <= 0xBF
  }

  /** Table 3-7: the well-formed UTF-8 byte sequences of one character. */
  predicate WellFormedUTF8Char(s: seq<bv8>) {
    match |s|
    case 1 =>
      s[0] <= 0x7F
    case 2 =>
      0xC2 <= s[0] <= 0xDF && Continuation(s[1])
    case 3 =>
      SecondOf3(s[0], s[1]) && Continuation(s[2])
    case 4 =>
      SecondOf4(s[0], s[1]) && Continuation(s[2]) && Continuation(s[3])
    case _ =>
      false
  }

  /** A text is well formed when it splits into well-formed characters. */
  ghost predicate WellFormedUTF8(s: seq<bv8>) {
    s == [] || exists n :: 0 < n <= |s| && WellFormedUTF8Char(s[..n]) && WellFormedUTF8(s[n..])
  }

  // The payload bits of the bytes of Table 3-6, put together.
  function Join2(b0: bv8, b1: bv8): bv32 {
    ((b0 as bv32 & 0x1F) << 6) | (b1 as bv32 & 0x3F)
  }

  function Join3(b0: bv8, b1: bv8, b2: bv8): bv32 {
    ((b0 as bv32 & 0x0F) << 12) | ((b1 as bv32 & 0x3F) << 6) | (b2 as bv32 & 0x3F)
  }

  function Join4(b0: bv8, b1: bv8, b2: bv8, b3: bv8): bv32 {
    ((b0 as bv32 & 0x07) << 18) | ((b1 as bv32 & 0x3F) << 12) | ((b2 as bv32 & 0x3F) << 6) | (b3 as bv32 & 0x3F)
  }

  /** The scalar value that a well-formed sequence carries. */
  function PayloadUTF8(s: seq<bv8>): bv32
    requires 1 <= |s| <= 4
  {
    match |s|
    case 1 => s[0] as bv32
    case 2 => Join2(s[0], s[1])
    case 3 => Join3(s[0], s[1], s[2])
    case _ => Join4(s[0], s[1], s[2], s[3])
  }

  predicate SecondOf3(b0: bv8, b1: bv8) {
    || (b0 == 0xE0 && 0xA0 <= b1 <= 0xBF)
    || (0xE1 <= b0 <= 0xEC && Continuation(b1))
    || (b0 == 0xED && 0x80 <= b1 <= 0x9F)
    || (0xEE <= b0 <= 0xEF && Continuation(b1))
  }

  predicate SecondOf4(b0: bv8, b1: bv8) {
    || (b0 == 0xF0 && 0x90 <= b1 <= 0xBF)
    || (0xF1 <= b0 <= 0xF3 && Continuation(b1))
    || (b0 == 0xF4 && 0x80 <= b1 <= 0x8F)
  }

  lemma Encode2(c: bv32)
    requires 0x80 <= c < 0x800
    ensures 0xC2 <= Lead2(c) <= 0xDF && Continuation(Trail0(c)) && Join2(Lead2(c), Trail0(c)) == c
  {
  }

  lemma Encode3(c: bv32)
    requires 0x800 <= c < 0x10000 && !IsSurrogate(c)
    ensures SecondOf3(Lead3(c), Trail6(c)) && Continuation(Trail0(c)) && Join3(Lead3(c), Trail6(c), Trail0(c)) == c
  {
  }

  lemma Encode4(c: bv32)
    requires 0x10000 <= c <= 0x10FFFF
    ensures SecondOf4(Lead4(c), Trail12(c)) && Continuation(Trail6(c)) && Continuation(Trail0(c))
    ensures Join4(Lead4(c), Trail12(c), Trail6(c), Trail0(c)) == c
  {
  }

  /** Encoding a scalar value gives a well-formed sequence with that payload. */
  lemma EncodeUTF8WellFormed(c: bv32)
    requires IsScalar(c)
    ensures 1 <= |EncodeUTF8(c)| <= 4
    ensures WellFormedUTF8Char(EncodeUTF8(c))
    ensures PayloadUTF8(EncodeUTF8(c)) == c
  {
    hide Lead1, Lead2, Lead3, Lead4, Trail0, Trail6, Trail12, Join2, Join3, Join4;
    if 0x10000 <= c {
      Encode4(c);
    } else if 0x800 <= c {
      Encode3(c);
    } else if 0x80 <= c {
      Encode2(c);
    } else {
      Encode1(c);
    }
  }

  lemma Encode1(c: bv32)
    requires c < 0x80
    ensures Lead1(c) <= 0x7F && Lead1(c) as bv32 == c
  {
  }

  lemma Decode1(b0: bv8)
    requires b0 <= 0x7F
    ensures b0 as bv32 < 0x80 && Lead1(b0 as bv32) == b0
  {
  }

  lemma Decode2(b0: bv8, b1: bv8)
    requires 0xC2 <= b0 <= 0xDF && Continuation(b1)
    ensures var c := Join2(b0, b1); 0x80 <= c < 0x800 && Lead2(c) == b0 && Trail0(c) == b1
  {
  }

  lemma Decode3(b0: bv8, b1: bv8, b2: bv8)
    requires SecondOf3(b0, b1) && Continuation(b2)
    ensures var c := Join3(b0, b1, b2);
            0x800 <= c < 0x10000 && !IsSurrogate(c) && Lead3(c) == b0 && Trail6(c) == b1 && Trail0(c) == b2
  {
  }

  lemma Decode4(b0: bv8, b1: bv8, b2: bv8, b3: bv8)
    requires SecondOf4(b0, b1) && Continuation(b2) && Continuation(b3)
    ensures var c := Join4(b0, b1, b2, b3);
            0x10000 <= c <= 0x10FFFF && Lead4(c) == b0 && Trail12(c) == b1 && Trail6(c) == b2 && Trail0(c) == b3
  {
  }

  /** Every well-formed sequence is the encoding of the scalar value it carries. */
  lemma WellFormedIsEncoded(s: seq<bv8>)
    requires WellFormedUTF8Char(s)
    ensures 1 <= |s| <= 4
    ensures IsScalar(PayloadUTF8(s))
    ensures EncodeUTF8(PayloadUTF8(s)) == s
  {
    hide Lead1, Lead2, Lead3, Lead4, Trail0, Trail6, Trail12, Join2, Join3, Join4;
    if |s| == 1 {
      Decode1(s[0]);
    } else if |s| == 2 {
      Decode2(s[0], s[1]);
    } else if |s| == 3 {
      Decode3(s[0], s[1], s[2]);
    } else {
      Decode4(s[0], s[1], s[2], s[3]);
    }
  }

  function EncodeUTF32(c: bv32): seq<bv32> {
    [c]
  }

  // ---------- UTF-16 ----------

  predicate HighSurrogate(u: bv16) {
    0xD800 <= u <= 0xDBFF
  }

  predicate LowSurrogate(u: bv16) {
    0xDC00 <= u <= 0xDFFF
  }

  /** The value fits in one UTF-16 unit. */
  predicate InBMP(c: bv32) {
    c < 0x10000
  }

  function Widen(u: bv16): bv32 { u as bv32 }
  function UnitPart(c: bv32): bv16 { (c & 0xFFFF) as bv16 }
  function HighPart(c: bv32): bv16 { (0xD800 | (((c - 0x10000) >> 10) & 0x3FF)) as bv16 }
  function LowPart(c: bv32): bv16 { (0xDC00 | (c & 0x3FF)) as bv16 }

  /** Table 3-5, for any value up to 10FFFF. */
  function EncodeUTF16(c: bv32): seq<bv16> {
    if InBMP(c) then [UnitPart(c)] else [HighPart(c), LowPart(c)]
  }

  function PairValue(high: bv16, low: bv16): bv32 {
    0x10000 + (((high as bv32 & 0x3FF) << 10) | (low as bv32 & 0x3FF))
  }

  /** A text is well formed when every surrogate is part of a pair. */
  predicate WellFormedUTF16(s: seq<bv16>) {
    s == []
    || (!HighSurrogate(s[0]) && !LowSurrogate(s[0]) && WellFormedUTF16(s[1..]))
    || (|s| > 1 && HighSurrogate(s[0]) && LowSurrogate(s[1]) && WellFormedUTF16(s[2..]))
  }

  /** The examples of section 7 of RFC 3629 and section 5 of RFC 2781, beyond ASCII. */
  lemma Examples()
    ensures EncodeUTF8(0x2262) == [0xE2, 0x89, 0xA2] && EncodeUTF8(0x0391) == [0xCE, 0x91]
    ensures EncodeUTF8(0xD55C) == [0xED, 0x95, 0x9C] && EncodeUTF8(0x233B4) == [0xF0, 0xA3, 0x8E, 0xB4]
    ensures EncodeUTF16(0x12345) == [0xD808, 0xDF45] && EncodeUTF16(0x2262) == [0x2262]
  {
  }

  /** The scalar values of a well-formed UTF-16 text. */
  function ScalarsUTF16(s: seq<bv16>): seq<bv32>
    requires WellFormedUTF16(s)
  {
    if s == [] then
      []
    else if HighSurrogate(s[0]) then
      [PairValue(s[0], s[1])] + ScalarsUTF16(s[2..])
    else
      [Widen(s[0])] + ScalarsUTF16(s[1..])
  }

  lemma EncodePair(c: bv32)
    requires IsScalar(c) && !InBMP(c)
    ensures HighSurrogate(HighPart(c)) && LowSurrogate(LowPart(c)) && PairValue(HighPart(c), LowPart(c)) == c
  {
  }

  lemma EncodeUnit(c: bv32)
    requires IsScalar(c) && InBMP(c)
    ensures Widen(UnitPart(c)) == c
    ensures !HighSurrogate(UnitPart(c)) && !LowSurrogate(UnitPart(c))
  {
  }

  lemma DecodeUnit(u: bv16)
    requires !HighSurrogate(u) && !LowSurrogate(u)
    ensures IsScalar(Widen(u)) && InBMP(Widen(u)) && UnitPart(Widen(u)) == u
  {
  }

  lemma PairIsEncoded(high: bv16, low: bv16)
    requires HighSurrogate(high) && LowSurrogate(low)
    ensures IsScalar(PairValue(high, low)) && !InBMP(PairValue(high, low))
    ensures HighPart(PairValue(high, low)) == high && LowPart(PairValue(high, low)) == low
  {
  }
}
