/** The reader of target values (dwarf2reader::ByteReader). A `const char*` is an index into a sequence of bytes. */
module ByteReader {
  import opened Addresses
  import opened Arithmetic
  import opened EncodedPointers
  import opened EncodingBytes
  import opened FixedWidth
  import opened Leb128

  class ByteReader {
    const endian: Endianness
    var addressSize: nat
    var offsetSize: nat
    var sectionBase: Address
    var bufferBase: nat
    var textBase: Address
    var dataBase: Address
    var functionBase: Address
    var haveSectionBase: bool
    var haveTextBase: bool
    var haveDataBase: bool
    var haveFunctionBase: bool

    constructor (endian: Endianness)
      ensures this.endian == endian && addressSize == 0 && offsetSize == 0
      ensures !haveSectionBase && !haveTextBase && !haveDataBase && !haveFunctionBase
    {
      this.endian := endian;
      addressSize, offsetSize := 0, 0;
      haveSectionBase, haveTextBase, haveDataBase, haveFunctionBase := false, false, false, false;
    }

    function Target(): Target
      reads this
    {
      EncodedPointers.Target(endian, addressSize, sectionBase, textBase, dataBase, functionBase)
    }

    /** `buffer - buffer_base_` as a uint64. */
    function Position(pos: nat): Address
      reads this
    {
      (pos - bufferBase) % ADDRESS_SPACE
    }

    method SetAddressSize(size: nat)
      requires size == 4 || size == 8
      modifies `addressSize
      ensures addressSize == size && Target().Plausible()
    {
      addressSize := size;
    }

    method SetCFIDataBase(sectionBase: Address, bufferBase: nat)
      modifies `sectionBase, `bufferBase, `haveSectionBase
      ensures this.sectionBase == sectionBase && this.bufferBase == bufferBase && haveSectionBase
    {
      this.sectionBase, this.bufferBase, haveSectionBase := sectionBase, bufferBase, true;
    }

    method SetTextBase(textBase: Address)
      modifies `textBase, `haveTextBase
      ensures this.textBase == textBase && haveTextBase
    {
      this.textBase, haveTextBase := textBase, true;
    }

    method SetDataBase(dataBase: Address)
      modifies `dataBase, `haveDataBase
      ensures this.dataBase == dataBase && haveDataBase
    {
      this.dataBase, haveDataBase := dataBase, true;
    }

    method SetFunctionBase(functionBase: Address)
      modifies `functionBase, `haveFunctionBase
      ensures this.functionBase == functionBase && haveFunctionBase
    {
      this.functionBase, haveFunctionBase := functionBase, true;
    }

    method ClearFunctionBase()
      modifies `haveFunctionBase
      ensures !haveFunctionBase
    {
      haveFunctionBase := false;
    }

    /** ReadTwoBytes, ReadFourBytes and ReadEightBytes. */
    function ReadFixed(buffer: seq<Byte>, pos: nat, n: nat): (x: Address)
      requires n == 2 || n == 4 || n == 8
      requires pos + n <= |buffer|
      ensures x == Read(endian, buffer[pos..pos + n])
      ensures n == 2 ==> x < 0x1_0000
      ensures n == 4 ==> x < 0x1_0000_0000
    {
      ReadBytesReads(endian, buffer[pos..pos + n]);
      Widths();
      ReadBytes(endian, buffer[pos..pos + n])
    }

    /** The length at `pos`; the reader remembers the offset size it announces. The 64-bit length has to be there only
        when the 32-bit one is the escape value. */
    method ReadInitialLength(buffer: seq<Byte>, pos: nat) returns (length: Address, len: nat)
      requires pos + 4 <= |buffer|
      requires Read(endian, buffer[pos..pos + 4]) == 0xFFFF_FFFF ==> pos + 12 <= |buffer|
      modifies `offsetSize
      ensures pos + len <= |buffer|
      ensures forall more :: |more| >= 12 ==>
                               InitialLength(endian, buffer[pos..pos + len] + more) == (length, len, offsetSize)
      ensures if Read(endian, buffer[pos..pos + 4]) == 0xFFFF_FFFF
              then len == 12 && offsetSize == 8 && length == Read(endian, buffer[pos + 4..pos + 12])
              else len == 4 && offsetSize == 4 && length == Read(endian, buffer[pos..pos + 4])
    {
      hide Read, ReadFixed;
      length := ReadFixed(buffer, pos, 4);
      if length == 0xFFFF_FFFF {
        offsetSize := 8;
        len := 12;
        length := ReadFixed(buffer, pos + 4, 8);
      } else {
        offsetSize := 4;
        len := 4;
      }
      forall more | |more| >= 12
        ensures InitialLength(endian, buffer[pos..pos + len] + more) == (length, len, offsetSize)
      {
        var s := buffer[pos..pos + len] + more;
        assert s[..4] == buffer[pos..pos + 4];
        assert len == 12 ==> s[4..12] == buffer[pos + 4..pos + 4 + 8];
      }
    }

    /** The base that bits 4 to 6 ask for has been set. */
    predicate UsableEncoding(encoding: Byte): (usable: bool)
      reads this
      ensures var bits := encoding / 0x10 % 8;
              usable <==> || bits == 0 || (bits == 1 && haveSectionBase) || (bits == 2 && haveTextBase)
                          || (bits == 3 && haveDataBase) || (bits == 4 && haveFunctionBase)
    {
      match BaseOf(encoding)
      case Absolute => true
      case PCRel => haveSectionBase
      case TextRel => haveTextBase
      case DataRel => haveDataBase
      case FuncRel => haveFunctionBase
      case _ => false
    }

    /** The value in format `f` at `pos`, before any base is added. */
    method ReadOffset(buffer: seq<Byte>, pos: nat, f: Format) returns (offset: Address, len: nat)
      requires Target().Plausible() && f != NoFormat && Present(Target(), f, buffer, pos)
      ensures ValueAt(Target(), f, buffer, pos, len)
      ensures offset == Decoded(Target(), f, buffer[pos..pos + len])
    {
      hide Read, ReadBytes, ReadFixed, Readable, Number, Value, SignedValue, SignExtend;
      match f {
        case Machine => offset, len := ReadFixed(buffer, pos, addressSize), addressSize;
        case ULEB128 => offset, len := ReadUnsigned(buffer, pos);
        case UData2 => offset, len := ReadFixed(buffer, pos, 2), 2;
        case UData4 => offset, len := ReadFixed(buffer, pos, 4), 4;
        case UData8 => offset, len := ReadFixed(buffer, pos, 8), 8;
        case SLEB128 => offset, len := ReadSigned(buffer, pos);
        case SData2 => offset, len := SignExtend(ReadFixed(buffer, pos, 2), 0x8000), 2;
        case SData4 => offset, len := SignExtend(ReadFixed(buffer, pos, 4), 0x8000_0000), 4;
        case SData8 => offset, len := ReadFixed(buffer, pos, 8), 8;
      }
    }

    /** The bytes of an aligned pointer are there, and its distance from the section's start is nowhere near 2^64. */
    ghost predicate AlignedPresent(buffer: seq<Byte>, pos: nat)
      reads this
      requires Target().Plausible()
    {
      && bufferBase <= pos && pos - bufferBase + 0x10 <= ADDRESS_SPACE
      && pos + PaddingLength(addressSize, sectionBase, pos - bufferBase) + addressSize <= |buffer|
    }

    /** An aligned pointer starts at the first position at or after `pos` whose loaded address is a multiple of the
        address size, and its length counts the bytes skipped. */
    method ReadAlignedPointer(buffer: seq<Byte>, pos: nat) returns (pointer: Address, len: nat)
      requires Target().Plausible() && haveSectionBase && AlignedPresent(buffer, pos)
      ensures addressSize <= len < 2 * addressSize && pos + len <= |buffer|
      ensures Padding(addressSize, sectionBase, pos - bufferBase, len - addressSize)
      ensures pointer == Read(endian, buffer[pos + len - addressSize..pos + len])
    {
      hide Padding, PaddingLength, RoundUp, Read, Rest;
      var skew := Rest(sectionBase, addressSize);
      var offset: Address := skew + (pos - bufferBase);
      var aligned := RoundUp(offset, addressSize);
      var alignedBuffer := bufferBase + (aligned - skew);
      SkipIsPadding(addressSize, sectionBase, pos - bufferBase);
      len := alignedBuffer - pos + addressSize;
      PaddingExactly(addressSize, sectionBase, pos - bufferBase, len - addressSize);
      pointer := ReadFixed(buffer, alignedBuffer, addressSize);
    }

    /** Encodings with a format and a usable base give the pointer at `pos` and the whole length of its value; an aligned
        pointer has no base added. */
    method ReadEncodedPointer(buffer: seq<Byte>, pos: nat, encoding: Byte) returns (pointer: Address, len: nat)
      requires Target().Plausible() && encoding != DW_EH_PE_omit
      requires encoding == DW_EH_PE_aligned ==> haveSectionBase && AlignedPresent(buffer, pos)
      requires encoding != DW_EH_PE_aligned ==>
                 UsableEncoding(encoding) && FormatOf(encoding) != NoFormat && Present(Target(), FormatOf(encoding), buffer, pos)
      ensures encoding != DW_EH_PE_aligned ==>
                && ValueAt(Target(), FormatOf(encoding), buffer, pos, len)
                && pointer == PointerAt(Target(), buffer, pos, len, encoding, Position(pos))
                && StandsFor(Target(), encoding, buffer[pos..pos + len], (pos - bufferBase) % ADDRESS_SPACE, pointer)
      ensures encoding == DW_EH_PE_aligned ==>
                && addressSize <= len < 2 * addressSize && pos + len <= |buffer|
                && Padding(addressSize, sectionBase, pos - bufferBase, len - addressSize)
                && pointer == Read(endian, buffer[pos + len - addressSize..pos + len])
    {
      hide Present, Padding, ValueAt, Decoded, Read, FormatOf, StandsFor;
      if encoding == DW_EH_PE_aligned {
        pointer, len := ReadAlignedPointer(buffer, pos);
        return;
      }
      var offset;
      offset, len := ReadOffset(buffer, pos, FormatOf(encoding));
      var base: Address;
      match BaseOf(encoding) {
        case Absolute => base := 0;
        case PCRel => base := Add(sectionBase, Position(pos));
        case TextRel => base := textBase;
        case DataRel => base := dataBase;
        case FuncRel => base := functionBase;
      }
      pointer := Add(base, offset);
      if addressSize == 4 {
        pointer := pointer % 0x1_0000_0000;
      }
      PointerStandsFor(Target(), buffer, pos, len, encoding, Position(pos));
    }
  }

  /** `(offset + size - 1) & -size` for a power of two. */
  function RoundUp(offset: Address, size: nat): Address
    requires size > 0
  {
    var x := (offset + size - 1) % ADDRESS_SPACE;
    x - Rest(x, size)
  }

  /** Rounding up in terms of the aligned address before the section skips the least number of bytes. */
  lemma SkipIsPadding(size: nat, base: Address, position: nat)
    requires 0 < size <= 8
    requires position + 0x10 <= ADDRESS_SPACE
    ensures Rest(base, size) + position < ADDRESS_SPACE
    ensures var pad := RoundUp(Rest(base, size) + position, size) - Rest(base, size) - position;
            0 <= pad < size && Padding(size, base, position, pad)
  {
    hide Padding, PaddingLength, Multiple, RoundUp, Rest;
    RoundedDown(base, size);
    var skew := Rest(base, size);
    var x := skew + position + size - 1;
    RoundedDown(x, size);
    RoundUpIs(skew + position, size);
    SkipBetween(size, base, position, skew, Rest(x, size));
  }

  lemma SkipBetween(size: nat, base: Address, position: nat, skew: nat, rest: nat)
    requires skew < size && rest < size && Multiple(base - skew, size)
    requires Multiple(skew + position + size - 1 - rest, size)
    ensures size - 1 - rest >= 0 && Padding(size, base, position, size - 1 - rest)
  {
    hide Padding, PaddingLength, Multiple;
    MultiplesAdd(base - skew, skew + position + size - 1 - rest, size);
    PaddingExactly(size, base, position, size - 1 - rest);
  }

  lemma RoundUpIs(offset: Address, size: nat)
    requires size > 0 && offset + size - 1 < ADDRESS_SPACE
    ensures var x := offset + size - 1;
            RoundUp(offset, size) == x - Rest(x, size)
  {
    hide Rest;
  }

  predicate ValidEncoding(encoding: Byte) {
    if encoding == DW_EH_PE_omit || encoding == DW_EH_PE_aligned then true
    else if encoding % 8 > 4 then false
    else encoding / 0x10 % 8 <= 4
  }

  /** An encoding that is accepted and has no format. */
  lemma LowNibbleEightIsAccepted()
    ensures ValidEncoding(0x08) && BaseOf(0x08) == Absolute && FormatOf(0x08) == NoFormat
  {
  }

  /** `ValidEncoding` accepts what the reader supports and, because its test of the low nibble leaves out bit 3, also low
      nibble 8, which has no format: the reader aborts on it. */
  lemma ValidEncodingExactly(encoding: Byte)
    ensures ValidEncoding(encoding) <==>
              || encoding == DW_EH_PE_omit || encoding == DW_EH_PE_aligned || Supported(encoding)
              || (encoding / 0x10 % 8 <= 4 && encoding % 0x10 == 8)
    ensures encoding % 0x10 == 8 ==> FormatOf(encoding) == NoFormat
  {
    var nibble := encoding % 0x10;
    assert encoding % 8 == nibble % 8;
  }
}
