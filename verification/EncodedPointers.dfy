/** Encoded pointers in call frame information (section 11.5 of the LSB Core Specification 4.0): what the printer writes,
    what the parser finds, and exactly when the one undoes the other. */
module EncodedPointers {
  import opened Addresses
  import opened Arithmetic
  import opened FixedWidth
  import opened Leb128
  import opened Sequences

  const DW_EH_PE_omit: Byte := 0xFF
  const DW_EH_PE_aligned: Byte := 0x50

  /** The low nibble: how the value is stored. `Machine` is DW_EH_PE_absptr used as a format. */
  datatype Format = Machine | ULEB128 | UData2 | UData4 | UData8 | SLEB128 | SData2 | SData4 | SData8 | NoFormat
  {
    predicate Fixed() {
      !ULEB128? && !SLEB128? && !NoFormat?
    }
  }

  function FormatOf(encoding: Byte): Format {
    match encoding % 0x10
    case 0x0 => Machine
    case 0x1 => ULEB128
    case 0x2 => UData2
    case 0x3 => UData4
    case 0x4 => UData8
    case 0x9 => SLEB128
    case 0xA => SData2
    case 0xB => SData4
    case 0xC => SData8
    case _ => NoFormat
  }

  /** Bits 4 to 6: what the value is relative to. Bit 7, DW_EH_PE_indirect, changes nothing on either side. */
  datatype Base = Absolute | PCRel | TextRel | DataRel | FuncRel | AlignedTo | NoBase

  function BaseOf(encoding: Byte): Base {
    match encoding / 0x10 % 8
    case 0 => Absolute
    case 1 => PCRel
    case 2 => TextRel
    case 3 => DataRel
    case 4 => FuncRel
    case 5 => AlignedTo
    case _ => NoBase
  }

  /** An encoding both sides have a base and a format for. */
  predicate Supported(encoding: Byte) {
    BaseOf(encoding) != NoBase && BaseOf(encoding) != AlignedTo && FormatOf(encoding) != NoFormat
  }

  /** Byte order, address size, and the base addresses of the section and for each kind of relative pointer. */
  datatype Target = Target(endian: Endianness, addressSize: nat, section: Address, text: Address, data: Address,
                           fde: Address)
  {
    predicate Plausible() {
      addressSize == 4 || addressSize == 8
    }

    /** What is left of an address on this target. */
    function Truncate(a: Address): Address {
      if addressSize == 4 then a % 0x1_0000_0000 else a
    }

    /** The base of a pointer `position` bytes into the section. */
    function BaseAddress(encoding: Byte, position: Address): Address
      requires Supported(encoding)
    {
      match BaseOf(encoding)
      case Absolute => 0
      case PCRel => Add(section, position)
      case TextRel => text
      case DataRel => data
      case FuncRel => fde
    }

    /** The bytes a fixed-width format takes. */
    function Width(f: Format): nat
      requires f.Fixed()
    {
      match f
      case Machine => addressSize
      case UData2 | SData2 => 2
      case UData4 | SData4 => 4
      case UData8 | SData8 => 8
    }
  }

  // ---------- The printer ----------

  /** A uint64 passed as a `long long`. */
  function AsSigned(a: Address): int {
    if a < 0x8000_0000_0000_0000 then a else a - ADDRESS_SPACE
  }

  function FormatBytes(t: Target, f: Format, d: Address): seq<Byte>
    requires f != NoFormat
  {
    if f.ULEB128? then EncodeUnsigned(d)
    else if f.SLEB128? then EncodeSigned(AsSigned(d))
    else Write(t.endian, d, t.Width(f))
  }

  /** What stands for `address` at `position` in the section. */
  function PointerBytes(t: Target, address: Address, encoding: Byte, position: Address): seq<Byte>
    requires Supported(encoding)
  {
    FormatBytes(t, FormatOf(encoding), Sub(address, t.BaseAddress(encoding, position)))
  }

  // ---------- The parser ----------

  /** `(x ^ bit) - bit` in a uint64, where `bit` is the top bit of the form `x` was read from. */
  function SignExtend(x: nat, bit: nat): Address
    requires x < 2 * bit < ADDRESS_SPACE
  {
    Sub(if x < bit then x + bit else x - bit, bit)
  }

  /** `s` has the form of one value in format `f`. */
  ghost predicate Shaped(t: Target, f: Format, s: seq<Byte>) {
    if f.Fixed() then |s| == t.Width(f) else !f.NoFormat? && Number(s)
  }

  /** The value in format `f` that `s` holds. */
  ghost function Decoded(t: Target, f: Format, s: seq<Byte>): Address
    requires t.Plausible() && Shaped(t, f, s)
  {
    Widths();
    if f.ULEB128? then Value(s) % ADDRESS_SPACE
    else if f.SLEB128? then SignedValue(s) % ADDRESS_SPACE
    else if f.SData2? then SignExtend(Read(t.endian, s), 0x8000)
    else if f.SData4? then SignExtend(Read(t.endian, s), 0x8000_0000)
    else Read(t.endian, s)
  }

  /** A value in format `f` takes the `len` bytes of `buffer` at `pos`. */
  ghost predicate ValueAt(t: Target, f: Format, buffer: seq<Byte>, pos: nat, len: nat) {
    pos + len <= |buffer| && Shaped(t, f, buffer[pos..pos + len])
  }

  /** All the bytes of a value in format `f` are there; a LEB128 number has at most ten. */
  ghost predicate Present(t: Target, f: Format, buffer: seq<Byte>, pos: nat) {
    if f.Fixed() then pos + t.Width(f) <= |buffer| else !f.NoFormat? && Readable(buffer, pos)
  }

  /** The pointer at `pos`, which is `position` bytes into its section. */
  ghost function PointerAt(t: Target, buffer: seq<Byte>, pos: nat, len: nat, encoding: Byte, position: Address): Address
    requires t.Plausible() && Supported(encoding) && ValueAt(t, FormatOf(encoding), buffer, pos, len)
  {
    t.Truncate(Add(t.BaseAddress(encoding, position), Decoded(t, FormatOf(encoding), buffer[pos..pos + len])))
  }

  // ---------- Formats ----------

  /** The offsets that a format can hold: on a 4-byte target only their low 32 bits matter. */
  predicate Fits(t: Target, f: Format, d: Address) {
    var x, all := t.Truncate(d), if t.addressSize == 4 then 0x1_0000_0000 else ADDRESS_SPACE;
    match f
    case NoFormat => false
    case UData2 => x < 0x1_0000
    case UData4 => x < 0x1_0000_0000
    case SData2 => x < 0x8000 || all - 0x8000 <= x
    case SData4 => x < 0x8000_0000 || all - 0x8000_0000 <= x
    case _ => true
  }

  lemma LowBits(d: nat)
    ensures d % 0x1_0000 == d % 0x1_0000_0000 % 0x1_0000
  {
    var h, l := d / 0x1_0000_0000, d % 0x1_0000_0000;
    assert l == 0x1_0000 * (l / 0x1_0000) + l % 0x1_0000;
    ModuloIs(d, 0x1_0000, 0x1_0000 * h + l / 0x1_0000, l % 0x1_0000);
  }

  /** Dropping the bits above a 2-byte or 4-byte form loses nothing exactly when the form can hold the number. */
  lemma Unsigned2Fits(t: Target, d: Address)
    requires t.Plausible()
    ensures t.Truncate(d % 0x1_0000) == t.Truncate(d) <==> Fits(t, UData2, d)
  {
    LowBits(d);
  }

  lemma Unsigned4Fits(t: Target, d: Address)
    requires t.Plausible()
    ensures t.Truncate(d % 0x1_0000_0000) == t.Truncate(d) <==> Fits(t, UData4, d)
  {
  }

  /** The same on signed forms, whose value is the low bits with the top one subtracted twice when it is set. */
  lemma Signed2Fits(t: Target, d: Address)
    requires t.Plausible()
    ensures t.Truncate(SignExtend(d % 0x1_0000, 0x8000)) == t.Truncate(d) <==> Fits(t, SData2, d)
  {
    LowBits(d);
    SignExtendIs(d % 0x1_0000, 0x8000);
    hide SignExtend;
    if t.addressSize == 4 {
      var x := d % 0x1_0000;
      Low32(if x < 0x8000 then x else x - 0x1_0000);
      Signed2(d % 0x1_0000_0000, 0x1_0000_0000);
    } else {
      Signed2(d, ADDRESS_SPACE);
    }
  }

  lemma Signed2(y: nat, all: int)
    requires y < all && (all == 0x1_0000_0000 || all == ADDRESS_SPACE)
    ensures var x := y % 0x1_0000;
            (if x < 0x8000 then x else x - 0x1_0000 + all) == y <==> y < 0x8000 || all - 0x8000 <= y
  {
    var k, x := y / 0x1_0000, y % 0x1_0000;
    assert y == 0x1_0000 * k + x;
  }

  /** The low half of a small number taken modulo 2^64. */
  lemma Low32(x: int)
    requires -0x8000 <= x < 0x8000
    ensures (if x < 0 then x + ADDRESS_SPACE else x) % 0x1_0000_0000 == if x < 0 then x + 0x1_0000_0000 else x
  {
    if x < 0 {
      ModuloIs(x + ADDRESS_SPACE, 0x1_0000_0000, 0xFFFF_FFFF, x + 0x1_0000_0000);
    }
  }

  lemma Signed4Fits(t: Target, d: Address)
    requires t.Plausible()
    ensures t.Truncate(SignExtend(d % 0x1_0000_0000, 0x8000_0000)) == t.Truncate(d) <==> Fits(t, SData4, d)
  {
    SignExtendIs(d % 0x1_0000_0000, 0x8000_0000);
  }

  lemma SignExtendIs(x: nat, bit: nat)
    requires x < 2 * bit < ADDRESS_SPACE
    ensures SignExtend(x, bit) == if x < bit then x else x - 2 * bit + ADDRESS_SPACE
  {
  }

  lemma SignedModulo(d: Address)
    ensures AsSigned(d) % ADDRESS_SPACE == d
    ensures -0x8000_0000_0000_0000 <= AsSigned(d) < 0x8000_0000_0000_0000
  {
  }

  /** What a fixed-width format does to an offset. */
  lemma FixedDecodes(t: Target, f: Format, d: Address)
    requires t.Plausible() && f.Fixed()
    ensures Decoded(t, f, FormatBytes(t, f, d)) == match f
      case UData2 => d % 0x1_0000
      case UData4 => d % 0x1_0000_0000
      case SData2 => SignExtend(d % 0x1_0000, 0x8000)
      case SData4 => SignExtend(d % 0x1_0000_0000, 0x8000_0000)
      case _ => if f.Machine? then t.Truncate(d) else d
  {
    hide Read, Write, SignExtend, Pow256;
    Widths();
    ReadWritten(t.endian, d, t.Width(f));
  }

  /** Every format: the bytes written have its form, and give the offset back, as far as the target can tell, exactly
      when the format can hold it. */
  lemma CodeDecodes(t: Target, f: Format, d: Address)
    requires t.Plausible() && f != NoFormat
    ensures Shaped(t, f, FormatBytes(t, f, d))
    ensures t.Truncate(Decoded(t, f, FormatBytes(t, f, d))) == t.Truncate(d) <==> Fits(t, f, d)
  {
    hide Read, Write, SignExtend, Value, SignedValue, Number, EncodeUnsigned, EncodeSigned;
    if f.ULEB128? {
      EncodeUnsignedValue(d);
    } else if f.SLEB128? {
      SignedModulo(d);
      EncodeSignedValue(AsSigned(d));
    } else {
      FixedDecodes(t, f, d);
      Unsigned2Fits(t, d);
      Unsigned4Fits(t, d);
      Signed2Fits(t, d);
      Signed4Fits(t, d);
    }
  }

  /** The bytes of a value show where it ends. */
  lemma ValueIsUnique(t: Target, f: Format, buffer: seq<Byte>, pos: nat, j: nat, k: nat)
    requires ValueAt(t, f, buffer, pos, j) && ValueAt(t, f, buffer, pos, k)
    ensures j == k
  {
    hide Number;
    if !f.Fixed() {
      NumberIsUnique(buffer, pos, j, k);
    }
  }

  lemma CodeIsPresent(t: Target, f: Format, d: Address, before: seq<Byte>, after: seq<Byte>)
    requires f != NoFormat
    ensures Present(t, f, before + FormatBytes(t, f, d) + after, |before|)
  {
    hide Write, Value, SignedValue, Number, EncodeUnsigned, EncodeSigned, Readable;
    if f.ULEB128? {
      UnsignedRoundTrip(d, before, after, 0);
    } else if f.SLEB128? {
      SignedModulo(d);
      SignedRoundTrip(AsSigned(d), before, after, 0);
    }
  }

  // ---------- Round trip ----------

  /** Adding the base back to an offset that is right in the low bits gives an address that is. */
  lemma BaseCancels(t: Target, address: Address, base: Address, offset: Address)
    requires t.Plausible()
    ensures t.Truncate(Add(base, offset)) == t.Truncate(address)
            <==> t.Truncate(offset) == t.Truncate(Sub(address, base))
  {
    if t.addressSize == 4 {
      LowSum(base, offset);
      LowDifference(address, base);
      hide Add, Sub;
    }
  }

  lemma LowSum(a: Address, b: Address)
    ensures var s := a % 0x1_0000_0000 + b % 0x1_0000_0000;
            Add(a, b) % 0x1_0000_0000 == if s < 0x1_0000_0000 then s else s - 0x1_0000_0000
  {
    var h, s := a / 0x1_0000_0000 + b / 0x1_0000_0000, a % 0x1_0000_0000 + b % 0x1_0000_0000;
    assert a + b == 0x1_0000_0000 * h + s;
    LowIs(Add(a, b), if a + b < ADDRESS_SPACE then h else h - 0x1_0000_0000, s);
  }

  lemma LowDifference(a: Address, b: Address)
    ensures var d := a % 0x1_0000_0000 - b % 0x1_0000_0000;
            Sub(a, b) % 0x1_0000_0000 == if 0 <= d then d else d + 0x1_0000_0000
  {
    var h, d := a / 0x1_0000_0000 - b / 0x1_0000_0000, a % 0x1_0000_0000 - b % 0x1_0000_0000;
    assert a - b == 0x1_0000_0000 * h + d;
    LowIs(Sub(a, b), if b <= a then h else h + 0x1_0000_0000, d);
  }

  lemma LowIs(x: int, h: int, s: int)
    requires x == 0x1_0000_0000 * h + s && -0x1_0000_0000 < s < 0x2_0000_0000
    ensures x % 0x1_0000_0000 == if s < 0 then s + 0x1_0000_0000 else if s < 0x1_0000_0000 then s else s - 0x1_0000_0000
  {
    if s < 0 {
      ModuloIs(x, 0x1_0000_0000, h - 1, s + 0x1_0000_0000);
    } else if s < 0x1_0000_0000 {
      ModuloIs(x, 0x1_0000_0000, h, s);
    } else {
      ModuloIs(x, 0x1_0000_0000, h + 1, s - 0x1_0000_0000);
    }
  }

  /** Every supported encoding, indirect or not, on every target, in any surroundings: the parser finds the whole value
      that the printer wrote and nothing more, and the pointer it makes of it is the address, truncated to the address
      size, exactly when the format can hold the distance of the address from its base. */
  lemma PointerRoundTrip(t: Target, address: Address, encoding: Byte, position: Address, before: seq<Byte>,
                         after: seq<Byte>, len: nat)
    requires t.Plausible() && Supported(encoding)
    ensures var f, code := FormatOf(encoding), PointerBytes(t, address, encoding, position);
            var buffer := before + code + after;
            && Present(t, f, buffer, |before|)
            && ValueAt(t, f, buffer, |before|, |code|)
            && (ValueAt(t, f, buffer, |before|, len) ==>
                  && len == |code|
                  && (PointerAt(t, buffer, |before|, len, encoding, position) == t.Truncate(address)
                      <==> Fits(t, f, Sub(address, t.BaseAddress(encoding, position)))))
  {
    hide FormatOf, Target.BaseAddress, Target.Truncate, Fits, Decoded, FormatBytes, Shaped, Present;
    var f, base := FormatOf(encoding), t.BaseAddress(encoding, position);
    var d := Sub(address, base);
    var code := FormatBytes(t, f, d);
    var buffer := before + code + after;
    SliceOfMiddle(before, code, after);
    CodeIsPresent(t, f, d, before, after);
    CodeDecodes(t, f, d);
    BaseCancels(t, address, base, Decoded(t, f, code));
    if ValueAt(t, f, buffer, |before|, len) {
      ValueIsUnique(t, f, buffer, |before|, len, |code|);
    }
  }

  // ---------- Aligned pointers ----------

  /** A pointer `skip` bytes after `position` in a section loaded at `base` has an aligned address. */
  predicate AlignedAfter(size: nat, base: int, position: nat, skip: int)
    requires size > 0
  {
    Multiple(base + position + skip, size)
  }

  /** `pad` is the least number of bytes to skip. */
  ghost predicate Padding(size: nat, base: int, position: nat, pad: nat)
    requires size > 0
  {
    AlignedAfter(size, base, position, pad) && forall k :: 0 <= k < pad ==> !AlignedAfter(size, base, position, k)
  }

  lemma AlignedApart(size: nat, base: int, position: nat, j: nat, k: nat)
    requires size > 0
    requires AlignedAfter(size, base, position, j) && AlignedAfter(size, base, position, k) && j < size && k < size
    ensures j == k
  {
    hide Multiple;
    if j <= k {
      MultiplesApart(base + position + j, base + position + k, size);
    } else {
      MultiplesApart(base + position + k, base + position + j, size);
    }
  }

  function PaddingLength(size: nat, base: int, position: nat): nat
    requires size > 0
  {
    Rest(-(base + position), size)
  }

  lemma PaddingLengthAligns(size: nat, base: int, position: nat)
    requires size > 0
    ensures PaddingLength(size, base, position) < size
    ensures AlignedAfter(size, base, position, PaddingLength(size, base, position))
  {
    hide Multiple, Rest;
    RoundedUp(base + position, size);
  }

  /** There is always such a number, and it is less than an address size: the length of an aligned pointer lies between
      one address size and two less one. */
  lemma PaddingExactly(size: nat, base: int, position: nat, pad: nat)
    requires size > 0
    ensures PaddingLength(size, base, position) < size
    ensures Padding(size, base, position, PaddingLength(size, base, position))
    ensures Padding(size, base, position, pad) <==> pad < size && AlignedAfter(size, base, position, pad)
    ensures Padding(size, base, position, pad) <==> pad == PaddingLength(size, base, position)
  {
    hide AlignedAfter, PaddingLength;
    var k := PaddingLength(size, base, position);
    PaddingLengthAligns(size, base, position);
    forall i: nat, j: nat | i < size && j < size && AlignedAfter(size, base, position, i) && AlignedAfter(size, base, position, j)
      ensures i == j
    {
      AlignedApart(size, base, position, i, j);
    }
  }

  /** The printer pads as if the section were loaded at an aligned address; the parser uses the real one. They skip the
      same bytes exactly when that address is aligned. */
  lemma PaddingAgrees(size: nat, base: int, position: nat, printed: nat, parsed: nat)
    requires size > 0
    requires Padding(size, 0, position, printed) && Padding(size, base, position, parsed)
    ensures printed == parsed <==> Multiple(base, size)
  {
    hide Padding, PaddingLength, AlignedAfter, Multiple;
    PaddingExactly(size, 0, position, printed);
    PaddingExactly(size, base, position, parsed);
    Rebase(size, base, position, parsed);
    if Multiple(base, size) {
      AlignedApart(size, 0, position, printed, parsed);
    }
  }

  lemma Rebase(size: nat, base: int, position: nat, k: nat)
    requires size > 0
    requires AlignedAfter(size, base, position, k)
    ensures Multiple(base, size) <==> AlignedAfter(size, 0, position, k)
  {
    hide Multiple;
    if Multiple(base, size) {
      MultiplesAdd(base + position + k, base, size);
    }
    if Multiple(position + k, size) {
      MultiplesAdd(base + position + k, position + k, size);
    }
  }

  /** What stands for `address` as an aligned pointer, in any format the printer takes. */
  function AlignedBytes(t: Target, f: Format, address: Address, pad: nat): seq<Byte>
    requires f != NoFormat
  {
    seq(pad, _ => 0) + FormatBytes(t, f, address)
  }

  /** When the section is loaded at an aligned address, skipping the padding and reading an address gives back what was
      printed. */
  lemma AlignedRoundTrip(t: Target, address: Address, position: Address, pad: nat, before: seq<Byte>, after: seq<Byte>,
                         skipped: nat)
    requires t.Plausible() && Multiple(t.section, t.addressSize)
    requires Padding(t.addressSize, 0, position, pad) && Padding(t.addressSize, t.section, position, skipped)
    ensures var code := AlignedBytes(t, Machine, address, pad);
            var buffer, start := before + code + after, |before| + skipped;
            && start + t.addressSize == |before| + |code| <= |buffer|
            && Read(t.endian, buffer[start..start + t.addressSize]) == t.Truncate(address)
  {
    hide Read, Write, Pow256, Padding;
    PaddingAgrees(t.addressSize, t.section, position, pad, skipped);
    var zeros: seq<Byte>, number := seq(pad, _ => 0), Write(t.endian, address, t.addressSize);
    Regroup(before, zeros, number, after);
    SliceOfMiddle(before + zeros, number, after);
    Widths();
    ReadWritten(t.endian, address, t.addressSize);
  }

  /** Address 7 as an aligned 4-byte pointer at the start of a section loaded at address 2: the printer adds no padding,
      the parser skips two bytes and reads something else. */
  lemma UnalignedSectionMisreads()
    ensures var t := Target(Little, 4, 2, 0, 0, 0);
            var code := AlignedBytes(t, Machine, 7, 0);
            && Padding(4, 0, 0, 0) && Padding(4, 2, 0, 2)
            && code == [7, 0, 0, 0]
            && Read(t.endian, (code + [1, 1])[2..6]) == 0x0101_0000
  {
    PaddingExactly(4, 0, 0, 0);
    PaddingExactly(4, 2, 0, 2);
    hide Padding, PaddingLength, Read, Write;
    SevenWritten();
    assert seq(0, _ => 0) + Write(Little, 7, 4) == Write(Little, 7, 4);
    assert ([7, 0, 0, 0] + [1, 1])[2..6] == [0, 0, 1, 1];
    ReadFour([0, 0, 1, 1]);
  }

  lemma SevenWritten()
    ensures Write(Little, 7, 4) == [7, 0, 0, 0]
  {
    assert Write(Little, 0, 1) == [0];
    assert Write(Little, 0, 2) == [0] + Write(Little, 0, 1);
    assert Write(Little, 0, 3) == [0] + Write(Little, 0, 2);
    assert Write(Little, 7, 4) == [7] + Write(Little, 0, 3);
  }

  lemma Regroup<T>(a: seq<T>, b: seq<T>, c: seq<T>, d: seq<T>)
    ensures a + (b + c) + d == a + b + c + d
  {
  }

  // ---------- Initial lengths ----------

  /** The initial length of an entry, in the 32-bit or the 64-bit DWARF format. */
  function InitialLengthBytes(e: Endianness, length: Address, dwarf64: bool): seq<Byte> {
    if dwarf64 then Write(e, 0xFFFF_FFFF, 4) + Write(e, length, 8) else Write(e, length, 4)
  }

  /** The length at the front of `s`, its own size, and the offset size it announces. */
  function InitialLength(e: Endianness, s: seq<Byte>): (nat, nat, nat)
    requires |s| >= 12
  {
    if Read(e, s[..4]) == 0xFFFF_FFFF then (Read(e, s[4..12]), 12, 8) else (Read(e, s[..4]), 4, 4)
  }

  /** A length written in the 64-bit format always comes back; one written in the 32-bit format does exactly when it is
      below the escape value. */
  lemma InitialLengthRoundTrip(e: Endianness, length: Address, dwarf64: bool, after: seq<Byte>)
    requires |after| >= 12
    ensures var code := InitialLengthBytes(e, length, dwarf64);
            InitialLength(e, code + after) == (length, |code|, if dwarf64 then 8 else 4)
            <==> dwarf64 || length < 0xFFFF_FFFF
  {
    hide Read, Write, Pow256;
    var code := InitialLengthBytes(e, length, dwarf64);
    var s := code + after;
    Widths();
    if dwarf64 {
      ReadWritten(e, 0xFFFF_FFFF, 4);
      ReadWritten(e, length, 8);
      assert s[..4] == Write(e, 0xFFFF_FFFF, 4) && s[4..12] == Write(e, length, 8);
    } else {
      ReadWritten(e, length, 4);
      assert s[..4] == code;
    }
  }
}
