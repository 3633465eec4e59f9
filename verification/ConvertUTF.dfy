/** The converters, over arrays. Pointers are indices; `targetEnd` is where the caller says the target ends, and the
    precondition is that the output really fits in the array. */
module ConvertUTF {
  import opened Sequences
  import opened Transcoding
  import opened UnicodeForms
  import opened ConvertUTFSteps
  import opened ConversionLoop

  // ---------- Storing ----------

  /** `*target++ = u`, for each unit in turn. */
  method Store<T>(target: array<T>, start: nat, units: seq<T>) returns (t: nat)
    requires start + |units| <= target.Length
    modifies target
    ensures t == start + |units|
    ensures target[..] == old(target[..])[..start] + units + old(target[..])[t..]
  {
    t := start;
    for i := 0 to |units|
      invariant t == start + i
      invariant forall k :: 0 <= k < target.Length ==>
                              target[k] == if start <= k < t then units[k - start] else old(target[k])
    {
      target[t] := units[i];
      t := t + 1;
    }
    ThreeParts(old(target[..])[..start], units, old(target[..])[t..], target[..]);
  }

  /** The second half of an iteration: check the room that the outcome needs, and store its units. `stopped` stands
      for a break, after which the caller backs up its source pointer. */
  ghost predicate Stored<T>(o: Outcome<T>, before: seq<T>, after: seq<T>, t: nat, targetEnd: nat,
                            stopped: bool, result: ConversionResult, tNext: nat)
    requires t <= targetEnd
  {
    if targetEnd - t < o.need then
      stopped && result == TargetExhausted && tNext == t && after == before
    else
      match o
      case Stop(r, _) => stopped && result == r && tNext == t && after == before
      case Emit(_, units, _, _) =>
        !stopped && tNext == t + |units| <= |before| && after == before[..t] + units + before[tNext..]
  }

  /** The array has room for what the outcome stores. */
  ghost predicate Fits<T>(o: Outcome<T>, target: array<T>, t: nat, targetEnd: nat) {
    t <= targetEnd && (o.Emit? && o.need <= targetEnd - t ==> t + |o.units| <= target.Length)
  }

  // The two halves of `ch - halfBase`, as the source adds them to the surrogate ranges and narrows them.
  function HighSum(ch: bv32): bv16 { ((((ch - 0x10000) >> 10) + 0xD800) & 0xFFFF) as bv16 }
  function LowSum(ch: bv32): bv16 { ((((ch - 0x10000) & 0x3FF) + 0xDC00) & 0xFFFF) as bv16 }

  lemma SurrogateSums(ch: bv32)
    requires !InBMP(ch) && !AboveLegal(ch)
    ensures HighSum(ch) == HighPart(ch) && LowSum(ch) == LowPart(ch)
  {
  }

  // ---------- From UTF-8 ----------

  /** The fall-through switch that adds up the bytes, and the subtraction after it; shared by the two converters. The
      cases for five and six bytes are not reached, as `isLegalUTF8` refuses those lengths. */
  method ReadUTF8(source: array<bv8>, start: nat, extraBytesToRead: nat) returns (ch: bv32)
    requires extraBytesToRead <= 3 && start + extraBytesToRead < source.Length
    ensures ch == Decoded(source[start..start + extraBytesToRead + 1])
  {
    hide AddByte, Shift6, LessOffset;
    var s := start;
    ghost var bytes := source[start..start + extraBytesToRead + 1];
    ch := 0;
    if extraBytesToRead >= 3 {
      ch := AddByte(ch, source[s]);
      s := s + 1;
      ch := Shift6(ch);
    }
    if extraBytesToRead >= 2 {
      ch := AddByte(ch, source[s]);
      s := s + 1;
      ch := Shift6(ch);
    }
    if extraBytesToRead >= 1 {
      ch := AddByte(ch, source[s]);
      s := s + 1;
      ch := Shift6(ch);
    }
    ch := AddByte(ch, source[s]);
    ch := LessOffset(ch, extraBytesToRead);
  }

  method Write8to16(ch: bv32, ghost length: nat, target: array<bv16>, t: nat, targetEnd: nat, flags: ConversionFlags)
    returns (stopped: bool, result: ConversionResult, tNext: nat)
    requires Fits(After8to16(flags, length, ch), target, t, targetEnd)
    modifies target
    ensures Stored(After8to16(flags, length, ch), old(target[..]), target[..], t, targetEnd, stopped, result, tNext)
    ensures !stopped ==> result == ConversionOK
  {
    hide InBMP, AboveLegal, IsSurrogate, UnitPart, HighPart, LowPart, HighSum, LowSum;
    if t >= targetEnd {
      return true, TargetExhausted, t;
    }
    tNext := t;
    if InBMP(ch) {
      if IsSurrogate(ch) {
        if flags.StrictConversion? {
          return true, SourceIllegal, t;
        } else {
          tNext := Store(target, tNext, [0xFFFD]);
        }
      } else {
        tNext := Store(target, tNext, [UnitPart(ch)]);
      }
    } else if AboveLegal(ch) {
      if flags.StrictConversion? {
        return true, SourceIllegal, t;
      } else {
        tNext := Store(target, tNext, [0xFFFD]);
      }
    } else {
      if tNext + 1 >= targetEnd {
        return true, TargetExhausted, t;
      }
      SurrogateSums(ch);
      tNext := Store(target, tNext, [HighSum(ch), LowSum(ch)]);
    }
    return false, ConversionOK, tNext;
  }

  /** The step of a converter from UTF-8 at index `i`, without slices of slices. */
  lemma Step8At<T>(src: seq<bv8>, i: nat, after: (nat, bv32) -> Outcome<T>)
    requires i < |src|
    ensures var length := TrailingBytes(src[i]) + 1;
            Step8(src[i..], after)
            == if |src| - i < length then Stop(SourceExhausted, 0)
               else if !IsLegalUTF8(src[i..i + length]) then Stop(SourceIllegal, 0)
               else after(length, Decoded(src[i..i + length]))
  {
    hide IsLegalUTF8, Decoded, TrailingBytes;
    var length := TrailingBytes(src[i]) + 1;
    if length <= |src| - i {
      assert src[i..][..length] == src[i..i + length];
    }
  }

  lemma Step8to16At(flags: ConversionFlags, src: seq<bv8>, i: nat)
    requires i < |src|
    ensures var length := TrailingBytes(src[i]) + 1;
            From8to16(flags)(src[i..])
            == if |src| - i < length then Stop(SourceExhausted, 0)
               else if !IsLegalUTF8(src[i..i + length]) then Stop(SourceIllegal, 0)
               else After8to16(flags, length, Decoded(src[i..i + length]))
    ensures forall length, ch :: var o := After8to16(flags, length, ch); o.Emit? ==> o.consumed == length && !o.bad
  {
    hide IsLegalUTF8, Decoded, TrailingBytes, InBMP, AboveLegal, IsSurrogate, EncodeUTF16, Step8;
    Step8At(src, i, (length: nat, ch: bv32) => After8to16(flags, length, ch));
  }

  lemma Slice<T>(a: array<T>, lo: nat, hi: nat, i: nat, n: nat)
    requires lo <= hi <= a.Length && i + n <= hi - lo
    ensures a[lo..hi][i..i + n] == a[lo + i..lo + i + n]
    ensures lo + i + n == hi ==> a[lo..hi][i..] == a[lo + i..hi]
  {
    var s := a[lo..hi];
    assert forall k :: 0 <= k < hi - lo ==> s[k] == a[lo + k];
    var u, v := s[i..i + n], a[lo + i..lo + i + n];
    assert |u| == |v| && forall k :: 0 <= k < n ==> u[k] == s[i + k] == v[k];
    assert u == v;
    assert lo + i + n == hi ==> s[i..] == u;
  }

  lemma LegalLength(s: seq<bv8>)
    requires IsLegalUTF8(s)
    ensures 1 <= |s| <= 4
  {
  }

  method ConvertUTF8toUTF16(source: array<bv8>, sourceStart: nat, sourceEnd: nat,
                            target: array<bv16>, targetStart: nat, targetEnd: nat, flags: ConversionFlags)
    returns (result: ConversionResult, sourceNext: nat, targetNext: nat)
    requires sourceStart <= sourceEnd <= source.Length
    requires Legal(Call(From8to16(flags), source[sourceStart..sourceEnd], target[..], targetStart, targetEnd))
    modifies target
    ensures sourceStart <= sourceNext
    ensures Finished(Call(From8to16(flags), source[sourceStart..sourceEnd], old(target[..]), targetStart, targetEnd),
                     target[..], sourceNext - sourceStart, targetNext, result)
  {
    hide Legal, Going, Finished, Decoded, IsLegalUTF8, TrailingBytes, After8to16, From8to16;
    ghost var src := source[sourceStart..sourceEnd];
    ghost var call := Call(From8to16(flags), src, target[..], targetStart, targetEnd);
    GoingAtStart(call);
    var s: nat, t: nat := sourceStart, targetStart;
    result := ConversionOK;
    while s < sourceEnd
      invariant sourceStart <= s <= sourceEnd
      invariant result == ConversionOK && Going(call, target[..], s - sourceStart, t, false)
    {
      ghost var was, i := target[..], s - sourceStart;
      Step8to16At(flags, src, i);
      GoingStep(call, was, i, t, false);
      var extraBytesToRead := TrailingBytes(source[s]);
      if s + extraBytesToRead >= sourceEnd {
        result := SourceExhausted;
        break;
      }
      Slice(source, sourceStart, sourceEnd, i, extraBytesToRead + 1);
      if !IsLegalUTF8(source[s..s + extraBytesToRead + 1]) {
        result := SourceIllegal;
        break;
      }
      LegalLength(source[s..s + extraBytesToRead + 1]);
      var ch := ReadUTF8(source, s, extraBytesToRead);
      s := s + (extraBytesToRead + 1);
      var stopped, tNext;
      stopped, result, tNext := Write8to16(ch, extraBytesToRead + 1, target, t, targetEnd, flags);
      if stopped {
        s := s - (extraBytesToRead + 1);
        break;
      }
      GoingOn(call, was, i, t, false, target[..]);
      t := tNext;
    }
    if s == sourceEnd {
      GoingAtEnd(call, target[..], t, false);
    }
    sourceNext, targetNext := s, t;
  }

  method Write8to32(ch: bv32, ghost length: nat, target: array<bv32>, t: nat, targetEnd: nat, flags: ConversionFlags,
                    soFar: ConversionResult)
    returns (stopped: bool, result: ConversionResult, tNext: nat)
    requires Fits(After8to32(flags, length, ch), target, t, targetEnd)
    modifies target
    ensures var o := After8to32(flags, length, ch);
            && Stored(o, old(target[..]), target[..], t, targetEnd, stopped, result, tNext)
            && (!stopped ==> result == if o.bad then SourceIllegal else soFar)
  {
    hide AboveLegal, IsSurrogate;
    if t >= targetEnd {
      return true, TargetExhausted, t;
    }
    result, tNext := soFar, t;
    if !AboveLegal(ch) {
      if IsSurrogate(ch) {
        if flags.StrictConversion? {
          return true, SourceIllegal, t;
        } else {
          tNext := Store(target, tNext, [UNI_REPLACEMENT_CHAR]);
        }
      } else {
        tNext := Store(target, tNext, [ch]);
      }
    } else {
      result := SourceIllegal;
      tNext := Store(target, tNext, [UNI_REPLACEMENT_CHAR]);
    }
    return false, result, tNext;
  }

  lemma Step8to32At(flags: ConversionFlags, src: seq<bv8>, i: nat)
    requires i < |src|
    ensures var length := TrailingBytes(src[i]) + 1;
            From8to32(flags)(src[i..])
            == if |src| - i < length then Stop(SourceExhausted, 0)
               else if !IsLegalUTF8(src[i..i + length]) then Stop(SourceIllegal, 0)
               else After8to32(flags, length, Decoded(src[i..i + length]))
    ensures forall length, ch :: var o := After8to32(flags, length, ch); o.Emit? ==> o.consumed == length
  {
    hide IsLegalUTF8, Decoded, TrailingBytes, AboveLegal, IsSurrogate, Step8;
    Step8At(src, i, (length: nat, ch: bv32) => After8to32(flags, length, ch));
  }

  method ConvertUTF8toUTF32(source: array<bv8>, sourceStart: nat, sourceEnd: nat,
                            target: array<bv32>, targetStart: nat, targetEnd: nat, flags: ConversionFlags)
    returns (result: ConversionResult, sourceNext: nat, targetNext: nat)
    requires sourceStart <= sourceEnd <= source.Length
    requires Legal(Call(From8to32(flags), source[sourceStart..sourceEnd], target[..], targetStart, targetEnd))
    modifies target
    ensures sourceStart <= sourceNext
    ensures Finished(Call(From8to32(flags), source[sourceStart..sourceEnd], old(target[..]), targetStart, targetEnd),
                     target[..], sourceNext - sourceStart, targetNext, result)
  {
    hide Legal, Going, Finished, Decoded, IsLegalUTF8, TrailingBytes, After8to32, From8to32;
    ghost var src := source[sourceStart..sourceEnd];
    ghost var call := Call(From8to32(flags), src, target[..], targetStart, targetEnd);
    ghost var bad := false;
    GoingAtStart(call);
    var s: nat, t: nat := sourceStart, targetStart;
    result := ConversionOK;
    while s < sourceEnd
      invariant sourceStart <= s <= sourceEnd
      invariant result == (if bad then SourceIllegal else ConversionOK) && Going(call, target[..], s - sourceStart, t, bad)
    {
      ghost var was, i := target[..], s - sourceStart;
      Step8to32At(flags, src, i);
      GoingStep(call, was, i, t, bad);
      var extraBytesToRead := TrailingBytes(source[s]);
      if s + extraBytesToRead >= sourceEnd {
        result := SourceExhausted;
        break;
      }
      Slice(source, sourceStart, sourceEnd, i, extraBytesToRead + 1);
      if !IsLegalUTF8(source[s..s + extraBytesToRead + 1]) {
        result := SourceIllegal;
        break;
      }
      LegalLength(source[s..s + extraBytesToRead + 1]);
      var ch := ReadUTF8(source, s, extraBytesToRead);
      s := s + (extraBytesToRead + 1);
      var stopped, tNext;
      stopped, result, tNext := Write8to32(ch, extraBytesToRead + 1, target, t, targetEnd, flags, result);
      if stopped {
        s := s - (extraBytesToRead + 1);
        break;
      }
      GoingOn(call, was, i, t, bad, target[..]);
      t, bad := tNext, bad || After8to32(flags, extraBytesToRead + 1, ch).bad;
    }
    if s == sourceEnd {
      GoingAtEnd(call, target[..], t, bad);
    }
    sourceNext, targetNext := s, t;
  }

  // ---------- To UTF-8 ----------

  // The byte operations of the fall-through switch: mark and mask the low six bits, shift them out, and mark the
  // first byte.
  function MarkByte(ch: bv32): bv8 { (((ch | 0x80) & 0xBF) & 0xFF) as bv8 }
  function Down6(ch: bv32): bv32 { ch >> 6 }

  /** `ch | firstByteMark[n]`, narrowed. */
  function FirstByte(ch: bv32, n: nat): bv8 {
    ((ch | (if n == 4 then 0xF0 else if n == 3 then 0xE0 else if n == 2 then 0xC0 else 0x00)) & 0xFF) as bv8
  }

  function BytesToWrite(ch: bv32): nat {
    if ch < 0x80 then 1 else if ch < 0x800 then 2 else if ch < 0x10000 then 3 else 4
  }

  lemma SwitchWrites(ch: bv32)
    requires !AboveLegal(ch)
    ensures MarkByte(ch) == Trail0(ch) && MarkByte(Down6(ch)) == Trail6(ch) && MarkByte(Down6(Down6(ch))) == Trail12(ch)
    ensures BytesToWrite(ch) == 1 ==> FirstByte(ch, 1) == Lead1(ch)
    ensures BytesToWrite(ch) == 2 ==> FirstByte(Down6(ch), 2) == Lead2(ch)
    ensures BytesToWrite(ch) == 3 ==> FirstByte(Down6(Down6(ch)), 3) == Lead3(ch)
    ensures BytesToWrite(ch) == 4 ==> FirstByte(Down6(Down6(Down6(ch))), 4) == Lead4(ch)
  {
  }

  lemma EncodedBytes(ch: bv32)
    ensures 1 <= BytesToWrite(ch) <= 4
    ensures EncodeUTF8(ch)
         == match BytesToWrite(ch)
            case 1 => [Lead1(ch)]
            case 2 => [Lead2(ch), Trail0(ch)]
            case 3 => [Lead3(ch), Trail6(ch), Trail0(ch)]
            case _ => [Lead4(ch), Trail12(ch), Trail6(ch), Trail0(ch)]
  {
  }

  /** The end of both converters to UTF-8: choose the length, check the room, and write the bytes from the last to
      the first. */
  method WriteUTF8(value: bv32, target: array<bv8>, t: nat, targetEnd: nat) returns (stopped: bool, tNext: nat)
    requires t <= targetEnd
    requires t + |EncodeReplacing(value)| <= targetEnd ==> t + |EncodeReplacing(value)| <= target.Length
    modifies target
    ensures stopped <==> targetEnd < t + |EncodeReplacing(value)|
    ensures stopped ==> tNext == t && target[..] == old(target[..])
    ensures !stopped ==>
              && tNext == t + |EncodeReplacing(value)|
              && target[..] == old(target[..])[..t] + EncodeReplacing(value) + old(target[..])[tNext..]
  {
    ReplacementIsLegal();
    hide MarkByte, Down6, FirstByte, BytesToWrite, AboveLegal, EncodeUTF8, Lead1, Lead2, Lead3, Lead4, Trail0, Trail6, Trail12;
    var ch := value;
    if AboveLegal(ch) {
      ch := UNI_REPLACEMENT_CHAR;
    }
    var n := BytesToWrite(ch);
    EncodedBytes(ch);
    var u := t + n;
    if u > targetEnd {
      return true, t;
    }
    MarkBytes(ch, n, target, u);
    return false, u;
  }

  /** The switch that writes a character from its last byte to its first; each case falls through to the next. */
  method MarkBytes(value: bv32, n: nat, target: array<bv8>, end: nat)
    requires !AboveLegal(value) && n == BytesToWrite(value) == |EncodeUTF8(value)| && n <= end <= target.Length
    modifies target
    ensures target[..] == old(target[..])[..end - n] + EncodeUTF8(value) + old(target[..])[end..]
  {
    hide MarkByte, Down6, FirstByte, BytesToWrite, AboveLegal, EncodeUTF8, Lead1, Lead2, Lead3, Lead4, Trail0, Trail6, Trail12;
    EncodedBytes(value);
    SwitchWrites(value);
    var ch, u := value, end;
    if n == 4 {
      u := u - 1;
      target[u] := MarkByte(ch);
      ch := Down6(ch);
    }
    if n >= 3 {
      u := u - 1;
      target[u] := MarkByte(ch);
      ch := Down6(ch);
    }
    if n >= 2 {
      u := u - 1;
      target[u] := MarkByte(ch);
      ch := Down6(ch);
    }
    u := u - 1;
    target[u] := FirstByte(ch, n);
    ThreeParts(old(target[..])[..end - n], EncodeUTF8(value), old(target[..])[end..], target[..]);
  }

  lemma ReplacementIsLegal()
    ensures !AboveLegal(UNI_REPLACEMENT_CHAR)
  {
  }

  // ---------- From UTF-16 ----------

  /** The first half of both converters from UTF-16: read a unit, and the second of a pair. `next` is where the source
      pointer ends up. */
  method ReadUTF16(source: array<bv16>, start: nat, sourceEnd: nat, flags: ConversionFlags)
    returns (result: ConversionResult, ch: bv32, next: nat)
    requires start < sourceEnd <= source.Length
    ensures result == ConversionOK ==> start < next
    ensures match Decode16(flags, source[start..sourceEnd])
            case Refused(r) => result == r && r != ConversionOK && next == start
            case Value(length, value) => result == ConversionOK && ch == value && next == start + length <= sourceEnd
  {
    hide HighSurrogate, LowSurrogate, PairSum, Widen;
    result := ConversionOK;
    var s := start;
    ch := Widen(source[s]);
    s := s + 1;
    if HighSurrogate(source[start]) {
      if s < sourceEnd {
        if LowSurrogate(source[s]) {
          ch := PairSum(source[start], source[s]);
          s := s + 1;
        } else if flags.StrictConversion? {
          return SourceIllegal, ch, s - 1;
        }
      } else {
        return SourceExhausted, ch, s - 1;
      }
    } else if flags.StrictConversion? {
      if LowSurrogate(source[start]) {
        return SourceIllegal, ch, s - 1;
      }
    }
    return ConversionOK, ch, s;
  }

  lemma Step16At<T>(flags: ConversionFlags, s: seq<bv16>, encode: bv32 -> seq<T>)
    requires s != []
    ensures Step16(flags, s, encode)
         == match Decode16(flags, s)
            case Refused(r) => Stop(r, 0)
            case Value(length, ch) => Emit(length, encode(ch), |encode(ch)|, false)
    ensures Decode16(flags, s).Value? ==> !AboveLegal(Decode16(flags, s).ch)
  {
    hide AboveLegal, Decode16;
    if Decode16(flags, s).Value? {
      Decode16IsLegal(flags, s);
    }
  }

  method ConvertUTF16toUTF8(source: array<bv16>, sourceStart: nat, sourceEnd: nat,
                            target: array<bv8>, targetStart: nat, targetEnd: nat, flags: ConversionFlags)
    returns (result: ConversionResult, sourceNext: nat, targetNext: nat)
    requires sourceStart <= sourceEnd <= source.Length
    requires Legal(Call(From16to8(flags), source[sourceStart..sourceEnd], target[..], targetStart, targetEnd))
    modifies target
    ensures sourceStart <= sourceNext
    ensures Finished(Call(From16to8(flags), source[sourceStart..sourceEnd], old(target[..]), targetStart, targetEnd),
                     target[..], sourceNext - sourceStart, targetNext, result)
  {
    hide Legal, Going, Finished, Decode16, EncodeUTF8, AboveLegal, Step16;
    ghost var src := source[sourceStart..sourceEnd];
    ghost var call := Call(From16to8(flags), src, target[..], targetStart, targetEnd);
    GoingAtStart(call);
    var s: nat, t: nat := sourceStart, targetStart;
    result := ConversionOK;
    while s < sourceEnd
      invariant sourceStart <= s <= sourceEnd
      invariant result == ConversionOK && Going(call, target[..], s - sourceStart, t, false)
    {
      ghost var was, i := target[..], s - sourceStart;
      Step16At(flags, src[i..], EncodeUTF8);
      GoingStep(call, was, i, t, false);
      Slice(source, sourceStart, sourceEnd, i, sourceEnd - s);
      var oldSource := s;
      var ch;
      result, ch, s := ReadUTF16(source, s, sourceEnd, flags);
      if result != ConversionOK {
        break;
      }
      var stopped, tNext := WriteUTF8(ch, target, t, targetEnd);
      if stopped {
        s := oldSource;
        result := TargetExhausted;
        break;
      }
      GoingOn(call, was, i, t, false, target[..]);
      t := tNext;
    }
    if s == sourceEnd {
      GoingAtEnd(call, target[..], t, false);
    }
    sourceNext, targetNext := s, t;
  }

  method ConvertUTF16toUTF32(source: array<bv16>, sourceStart: nat, sourceEnd: nat,
                             target: array<bv32>, targetStart: nat, targetEnd: nat, flags: ConversionFlags)
    returns (result: ConversionResult, sourceNext: nat, targetNext: nat)
    requires sourceStart <= sourceEnd <= source.Length
    requires Legal(Call(From16to32(flags), source[sourceStart..sourceEnd], target[..], targetStart, targetEnd))
    modifies target
    ensures sourceStart <= sourceNext
    ensures Finished(Call(From16to32(flags), source[sourceStart..sourceEnd], old(target[..]), targetStart, targetEnd),
                     target[..], sourceNext - sourceStart, targetNext, result)
  {
    hide Legal, Going, Finished, Decode16, AboveLegal, Step16;
    ghost var src := source[sourceStart..sourceEnd];
    ghost var call := Call(From16to32(flags), src, target[..], targetStart, targetEnd);
    GoingAtStart(call);
    var s: nat, t: nat := sourceStart, targetStart;
    result := ConversionOK;
    while s < sourceEnd
      invariant sourceStart <= s <= sourceEnd
      invariant result == ConversionOK && Going(call, target[..], s - sourceStart, t, false)
    {
      ghost var was, i := target[..], s - sourceStart;
      Step16At(flags, src[i..], EncodeUTF32);
      GoingStep(call, was, i, t, false);
      Slice(source, sourceStart, sourceEnd, i, sourceEnd - s);
      var oldSource := s;
      var ch;
      result, ch, s := ReadUTF16(source, s, sourceEnd, flags);
      if result != ConversionOK {
        break;
      }
      if t >= targetEnd {
        s := oldSource;
        result := TargetExhausted;
        break;
      }
      var tNext := Store(target, t, [ch]);
      GoingOn(call, was, i, t, false, target[..]);
      t := tNext;
    }
    if s == sourceEnd {
      GoingAtEnd(call, target[..], t, false);
    }
    sourceNext, targetNext := s, t;
  }

  // ---------- From UTF-32 ----------

  method ConvertUTF32toUTF8(source: array<bv32>, sourceStart: nat, sourceEnd: nat,
                            target: array<bv8>, targetStart: nat, targetEnd: nat, flags: ConversionFlags)
    returns (result: ConversionResult, sourceNext: nat, targetNext: nat)
    requires sourceStart <= sourceEnd <= source.Length
    requires Legal(Call(From32to8(flags), source[sourceStart..sourceEnd], target[..], targetStart, targetEnd))
    modifies target
    ensures sourceStart <= sourceNext
    ensures Finished(Call(From32to8(flags), source[sourceStart..sourceEnd], old(target[..]), targetStart, targetEnd),
                     target[..], sourceNext - sourceStart, targetNext, result)
  {
    hide Legal, Going, Finished, EncodeReplacing, AboveLegal, IsSurrogate;
    ghost var src := source[sourceStart..sourceEnd];
    ghost var call := Call(From32to8(flags), src, target[..], targetStart, targetEnd);
    ghost var bad := false;
    GoingAtStart(call);
    var s: nat, t: nat := sourceStart, targetStart;
    result := ConversionOK;
    while s < sourceEnd
      invariant sourceStart <= s <= sourceEnd
      invariant result == (if bad then SourceIllegal else ConversionOK) && Going(call, target[..], s - sourceStart, t, bad)
    {
      ghost var was, i := target[..], s - sourceStart;
      GoingStep(call, was, i, t, bad);
      assert src[i..][0] == source[s];
      var ch := source[s];
      s := s + 1;
      if flags.StrictConversion? && IsSurrogate(ch) {
        s := s - 1;
        result := SourceIllegal;
        break;
      }
      if AboveLegal(ch) {
        result := SourceIllegal;
      }
      var stopped, tNext := WriteUTF8(ch, target, t, targetEnd);
      if stopped {
        s := s - 1;
        result := TargetExhausted;
        break;
      }
      GoingOn(call, was, i, t, bad, target[..]);
      t, bad := tNext, bad || AboveLegal(ch);
    }
    if s == sourceEnd {
      GoingAtEnd(call, target[..], t, bad);
    }
    sourceNext, targetNext := s, t;
  }

  /** An iteration of `ConvertUTF32toUTF16`. The room is checked before the source is looked at; the source pointer,
      advanced in the meantime, is back where it was at every break. */
  method Write32to16(ch: bv32, target: array<bv16>, t: nat, targetEnd: nat, flags: ConversionFlags, soFar: ConversionResult)
    returns (stopped: bool, result: ConversionResult, tNext: nat)
    requires Fits(After32to16(flags, ch), target, t, targetEnd)
    modifies target
    ensures var o := After32to16(flags, ch);
            && Stored(o, old(target[..]), target[..], t, targetEnd, stopped, result, tNext)
            && (!stopped ==> o.consumed == 1 && result == if o.bad then SourceIllegal else soFar)
  {
    hide AboveLegal, IsSurrogate, InBMP, UnitPart, HighPart, LowPart, HighSum, LowSum;
    if t >= targetEnd {
      return true, TargetExhausted, t;
    }
    result, tNext := soFar, t;
    if InBMP(ch) {
      if IsSurrogate(ch) {
        if flags.StrictConversion? {
          return true, SourceIllegal, t;
        } else {
          tNext := Store(target, tNext, [0xFFFD]);
        }
      } else {
        tNext := Store(target, tNext, [UnitPart(ch)]);
      }
    } else if AboveLegal(ch) {
      if flags.StrictConversion? {
        result := SourceIllegal;
      } else {
        tNext := Store(target, tNext, [0xFFFD]);
      }
    } else {
      if tNext + 1 >= targetEnd {
        return true, TargetExhausted, t;
      }
      SurrogateSums(ch);
      tNext := Store(target, tNext, [HighSum(ch), LowSum(ch)]);
    }
    return false, result, tNext;
  }

  method ConvertUTF32toUTF16(source: array<bv32>, sourceStart: nat, sourceEnd: nat,
                             target: array<bv16>, targetStart: nat, targetEnd: nat, flags: ConversionFlags)
    returns (result: ConversionResult, sourceNext: nat, targetNext: nat)
    requires sourceStart <= sourceEnd <= source.Length
    requires Legal(Call(From32to16(flags), source[sourceStart..sourceEnd], target[..], targetStart, targetEnd))
    modifies target
    ensures sourceStart <= sourceNext
    ensures Finished(Call(From32to16(flags), source[sourceStart..sourceEnd], old(target[..]), targetStart, targetEnd),
                     target[..], sourceNext - sourceStart, targetNext, result)
  {
    hide Legal, Going, Finished, After32to16;
    ghost var src := source[sourceStart..sourceEnd];
    ghost var call := Call(From32to16(flags), src, target[..], targetStart, targetEnd);
    ghost var bad := false;
    GoingAtStart(call);
    var s: nat, t: nat := sourceStart, targetStart;
    result := ConversionOK;
    while s < sourceEnd
      invariant sourceStart <= s <= sourceEnd
      invariant result == (if bad then SourceIllegal else ConversionOK) && Going(call, target[..], s - sourceStart, t, bad)
    {
      ghost var was, i := target[..], s - sourceStart;
      GoingStep(call, was, i, t, bad);
      assert src[i..][0] == source[s];
      var stopped, tNext;
      stopped, result, tNext := Write32to16(source[s], target, t, targetEnd, flags, result);
      if stopped {
        break;
      }
      s := s + 1;
      GoingOn(call, was, i, t, bad, target[..]);
      t, bad := tNext, bad || call.step(src[i..]).bad;
    }
    if s == sourceEnd {
      GoingAtEnd(call, target[..], t, bad);
    }
    sourceNext, targetNext := s, t;
  }
}
