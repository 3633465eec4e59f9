/** The string helpers built on the strict converter from UTF-8 to UTF-16. */
module StringConversion {
  import opened Transcoding
  import opened UnicodeForms
  import opened ConvertUTFSteps
  import opened ConversionLoop
  import opened ConvertUTF
  import opened ConvertUTFTheorems

  /** The characters of a C string: those before the first NUL. */
  function CString(s: seq<bv8>): (r: seq<bv8>)
    requires 0 in s
    ensures |r| < |s| && r == s[..|r|] && 0 !in r && s[|r|] == 0
  {
    if s[0] == 0 then [] else [s[0]] + CString(s[1..])
  }

  /** `UTF8ToUTF16`. The vector has room for one unit for each byte; the end pointer handed to the converter lies at
      twice the vector's capacity, and still nothing is written outside. */
  method UTF8ToUTF16(input: seq<bv8>, capacity: nat) returns (out: seq<bv16>)
    requires 0 in input && |CString(input)| <= capacity
    ensures out == if AcceptedUTF8(CString(input)) then Flat(EncodeUTF16, DecodedText(CString(input))) + [0] else []
  {
    hide *;
    ghost var text := CString(input);
    var sourceLength := Strlen(input);
    var source := new bv8[sourceLength](i requires 0 <= i < sourceLength && sourceLength <= |input| => input[i]);
    var buffer := new bv16[sourceLength](_ => 0);
    assert source[0..sourceLength] == text;
    ghost var zeros: seq<bv16> := seq(|text|, _ => 0);
    assert buffer[..] == zeros;
    WholeIsLegal(text, capacity, buffer[..]);
    var result, sourceNext, targetNext :=
      ConvertUTF8toUTF16(source, 0, sourceLength, buffer, 0, capacity * 2, StrictConversion);
    WholeResult(text, capacity, buffer[..], sourceNext, targetNext, result);
    if result == ConversionOK {
      // Resize to the converted units and a NUL.
      if targetNext < sourceLength {
        out := buffer[..targetNext + 1];
      } else {
        out := buffer[..] + [0];
      }
    } else {
      out := [];
    }
  }

  method Strlen(input: seq<bv8>) returns (length: nat)
    requires 0 in input
    ensures length == |CString(input)|
    ensures length < |input| && input[..length] == CString(input)
  {
    ghost var text := CString(input);
    assert forall k :: 0 <= k < |text| ==> input[k] == text[k] && text[k] in text;
    length := 0;
    while input[length] != 0
      invariant length <= |text|
      decreases |text| - length
    {
      length := length + 1;
    }
  }

  /** No output is longer than its source, so the call is within bounds, wherever its end pointer lies. */
  lemma WholeIsLegal(text: seq<bv8>, capacity: nat, buffer: seq<bv16>)
    requires |text| <= capacity && buffer == seq(|text|, _ => 0)
    ensures Legal(Call(From8to16(StrictConversion), text, buffer, 0, capacity * 2))
  {
    hide Convert, From8to16, Fair, Exact, AcceptedUTF8;
    UTF8toUTF16Exactly(StrictConversion, text, capacity * 2);
    ExactIsFair(From8to16(StrictConversion));
  }

  lemma WholeResult(text: seq<bv8>, capacity: nat, buffer: seq<bv16>, sourceNext: nat, targetNext: nat,
                    result: ConversionResult)
    requires |text| <= capacity
    requires Finished(Call(From8to16(StrictConversion), text, seq(|text|, _ => 0), 0, capacity * 2), buffer, sourceNext, targetNext, result)
    ensures result.ConversionOK? <==> AcceptedUTF8(text)
    ensures |buffer| == |text| && targetNext <= |text|
    ensures result.ConversionOK? ==> buffer[..targetNext] == Flat(EncodeUTF16, DecodedText(text))
    ensures targetNext < |text| ==> buffer[targetNext] == 0
  {
    hide Convert, From8to16, Fair, Exact, AcceptedUTF8, Flat, DecodedText, Holds;
    UTF8toUTF16Exactly(StrictConversion, text, capacity * 2);
    StoredInZeros(buffer, |text|, Convert(From8to16(StrictConversion), text, capacity * 2, false).written);
  }

  lemma StoredInZeros(buffer: seq<bv16>, n: nat, written: seq<bv16>)
    requires Holds(buffer, seq(n, _ => 0), 0, written)
    ensures |buffer| == n && |written| <= n && buffer[..|written|] == written
    ensures |written| < n ==> buffer[|written|] == 0
  {
  }

  /** The length of the accepted sequence at the front of `s`, or 0. */
  function FirstAccepted(s: seq<bv8>): nat
    requires s != []
  {
    var length := TrailingBytes(s[0]) + 1;
    if length <= |s| && IsLegalUTF8(s[..length]) then length else 0
  }

  /** What the converter does with the first `k` bytes: nothing until the sequence is complete, then all of it, or
      nothing for ever. */
  lemma PrefixConverts(s: seq<bv8>, k: nat)
    requires 0 < k <= |s|
    ensures Fair(From8to16(StrictConversion))
    ensures var length := TrailingBytes(s[0]) + 1;
            var r := Convert(From8to16(StrictConversion), s[..k], 4, false);
            && (k < length || (length <= |s| && !IsLegalUTF8(s[..length])) ==>
                  !r.result.ConversionOK? && r.consumed == 0 && r.written == [])
            && (k == length && IsLegalUTF8(s[..length]) ==>
                  r == Conversion(k, EncodeUTF16(Decoded(s[..length])), ConversionOK))
  {
    From8to16Exact(StrictConversion);
    ExactIsFair(From8to16(StrictConversion));
    hide Convert, Fair, Exact, IsLegalUTF8, TrailingBytes, Decoded, EncodeUTF16, From8to16;
    var step, length := From8to16(StrictConversion), TrailingBytes(s[0]) + 1;
    FrontStep(s, k);
    if length == k && IsLegalUTF8(s[..length]) {
      EncodedAtMostTwo(Decoded(s[..length]));
      OnlyStep(step, s[..k]);
    } else {
      Unfold(step, s[..k], 4, false);
    }
  }

  /** A step that takes all of the source is the whole conversion. */
  lemma OnlyStep(step: seq<bv8> -> Outcome<bv16>, s: seq<bv8>)
    requires Fair(step) && s != []
    requires var o := step(s); o.Emit? && o.consumed == |s| && !o.bad
    ensures step(s).need <= 4 ==> Convert(step, s, 4, false) == Conversion(|s|, step(s).units, ConversionOK)
  {
    hide Convert, Fair;
    Unfold(step, s, 4, false);
    if step(s).need <= 4 {
      assert s[|s|..] == [];
      Unfold(step, [], 4 - |step(s).units|, false);
    }
  }

  lemma FrontStep(s: seq<bv8>, k: nat)
    requires 0 < k <= |s|
    ensures var length := TrailingBytes(s[0]) + 1;
            From8to16(StrictConversion)(s[..k])
            == if k < length then Stop(SourceExhausted, 0)
               else if !IsLegalUTF8(s[..length]) then Stop(SourceIllegal, 0)
               else var units := EncodeUTF16(Decoded(s[..length])); Emit(length, units, |units|, false)
  {
    hide IsLegalUTF8, TrailingBytes, Decoded, EncodeUTF16, Step8to16;
    FlagsDoNotMatter(StrictConversion, s[..k]);
    if TrailingBytes(s[0]) < k {
      assert s[..k][..TrailingBytes(s[0]) + 1] == s[..TrailingBytes(s[0]) + 1];
    }
  }

  lemma EncodedAtMostTwo(c: bv32)
    ensures 1 <= |EncodeUTF16(c)| <= 2
  {
  }

  /** `UTF8ToUTF16Char`: the source grows by a byte at a time until one character converts. The result is the length of
      the first accepted sequence, or 0; the converter's end pointer lies two units past the two-unit buffer. */
  method UTF8ToUTF16Char(input: array<bv8>, inLength: nat, out: array<bv16>) returns (length: nat)
    requires 1 <= inLength <= input.Length && out.Length == 2
    modifies out
    ensures length == FirstAccepted(input[..inLength])
    ensures var units := if length == 0 then [] else EncodeUTF16(Decoded(input[..length]));
            |units| <= 2 && out[..] == units + seq(2 - |units|, _ => 0)
  {
    hide Convert, Fair, Legal, IsLegalUTF8, TrailingBytes, Decoded, EncodeUTF16, From8to16;
    ghost var text := input[..inLength];
    var sourceEnd, targetNext := 1, 0;
    out[0], out[1] := 0, 0;
    while true
      invariant 1 <= sourceEnd <= inLength && targetNext == 0 && out[..] == [0, 0]
      invariant TrailingBytes(text[0]) + 1 < sourceEnd ==> !IsLegalUTF8(text[..TrailingBytes(text[0]) + 1])
      decreases inLength - sourceEnd
    {
      assert input[0..sourceEnd] == text[..sourceEnd];
      PrefixConverts(text, sourceEnd);
      ghost var lead := TrailingBytes(text[0]) + 1;
      if lead == sourceEnd && IsLegalUTF8(text[..lead]) {
        EncodedAtMostTwo(Decoded(text[..lead]));
      }
      CallIsLegal(text[..sourceEnd], out[..]);
      var result, sourceNext;
      result, sourceNext, targetNext := ConvertUTF8toUTF16(input, 0, sourceEnd, out, targetNext, 4, StrictConversion);
      if result == ConversionOK {
        return sourceNext;
      }
      sourceEnd := sourceEnd + 1;
      if sourceEnd > inLength {
        break;
      }
    }
    return 0;
  }

  lemma CallIsLegal(src: seq<bv8>, before: seq<bv16>)
    requires Fair(From8to16(StrictConversion)) && |before| == 2
    requires |Convert(From8to16(StrictConversion), src, 4, false).written| <= 2
    ensures Legal(Call(From8to16(StrictConversion), src, before, 0, 4))
  {
  }
}
