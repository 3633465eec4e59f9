/** The printer: test_assembler::Section's appends and CFISection::EncodedPointer. */
module CFISection {
  import opened Addresses
  import opened Arithmetic
  import opened EncodedPointers
  import opened EncodingBytes
  import opened FixedWidth
  import opened Leb128
  import opened Sequences

  datatype EncodedPointerBases = EncodedPointerBases(cfi: Address, text: Address, data: Address)

  /** `x >> 8 * i`. */
  function ShiftRight(x: nat, i: nat): nat {
    if i == 0 then x else ShiftRight(x, i - 1) / 0x100
  }

  class CFISection {
    const endian: Endianness
    const addressSize: nat
    var contents: seq<Byte>
    var encodedPointerBases: EncodedPointerBases
    var fdeStartAddress: Address

    constructor (endian: Endianness, addressSize: nat)
      ensures this.endian == endian && this.addressSize == addressSize && contents == [] && fdeStartAddress == 0
    {
      this.endian, this.addressSize := endian, addressSize;
      contents, fdeStartAddress := [], 0;
    }

    /** What the parser has to know to read this section. */
    function Target(bases: EncodedPointerBases): Target
      reads this
    {
      EncodedPointers.Target(endian, addressSize, bases.cfi, bases.text, bases.data, fdeStartAddress)
    }

    /** `InsertEndian`: low byte first, or high byte first by shifting right less and less. */
    method Append(size: nat, number: Address)
      modifies `contents
      ensures contents == old(contents) + Write(endian, number, size)
    {
      if endian.Little? {
        AppendLittle(size, number);
      } else {
        AppendBig(size, number);
      }
    }

    method AppendLittle(size: nat, number: Address)
      modifies `contents
      ensures contents == old(contents) + Write(Little, number, size)
    {
      ghost var start := contents;
      var i, x: nat := 0, number;
      while i < size
        invariant i <= size
        invariant contents + Write(Little, x, size - i) == start + Write(Little, number, size)
      {
        Associative(contents, [x % 0x100], Write(Little, x / 0x100, size - i - 1));
        contents := contents + [x % 0x100];
        x := x / 0x100;
        i := i + 1;
      }
    }

    method AppendBig(size: nat, number: Address)
      modifies `contents
      ensures contents == old(contents) + Write(Big, number, size)
    {
      hide ShiftRight, Write;
      ghost var start := contents;
      var i := size;
      NothingWritten(ShiftRight(number, size));
      while i > 0
        invariant 0 <= i <= size && contents == start + Write(Big, ShiftRight(number, i), size - i)
      {
        i := i - 1;
        WriteDigit(number, i, size - i - 1);
        Associative(start, Write(Big, ShiftRight(number, i + 1), size - i - 1), [ShiftRight(number, i) % 0x100]);
        contents := contents + [ShiftRight(number, i) % 0x100];
      }
      WholeNumber(number);
    }

    method ULEB128(number: Address)
      modifies `contents
      ensures contents == old(contents) + EncodeUnsigned(number)
    {
      ghost var start := contents;
      var value := number;
      while value > 0x7F
        invariant value >= 0 && contents + EncodeUnsigned(value) == start + EncodeUnsigned(number)
      {
        Associative(contents, [value % 0x80 + 0x80], EncodeUnsigned(value / 0x80));
        contents := contents + [value % 0x80 + 0x80];
        value := value / 0x80;
      }
      contents := contents + [value];
    }

    /** The argument is a `long long`; its right shift keeps the sign. */
    method LEB128(number: int)
      requires -0x8000_0000_0000_0000 <= number < 0x8000_0000_0000_0000
      modifies `contents
      ensures contents == old(contents) + EncodeSigned(number)
    {
      ghost var start := contents;
      var value := number;
      while value < -0x40 || 0x3F < value
        invariant contents + EncodeSigned(value) == start + EncodeSigned(number)
        decreases if value < 0 then -value else value
      {
        Associative(contents, [value % 0x80 + 0x80], EncodeSigned(value / 0x80));
        contents := contents + [value % 0x80 + 0x80];
        value := value / 0x80;
      }
      contents := contents + [value % 0x80];
    }

    method Align(alignment: nat)
      requires alignment > 0
      modifies `contents
      ensures exists pad: nat :: Padding(alignment, 0, old(|contents|), pad) && contents == old(contents) + seq(pad, _ => 0)
    {
      var x := |contents| + alignment - 1;
      var newSize := x - Rest(x, alignment);
      SkipsToAligned(|contents|, alignment);
      contents := contents + seq(newSize - |contents|, _ => 0);
    }

    /** The indirect bit is ignored. An omitted pointer takes no bytes; an aligned one is absolute and padded. */
    method EncodedPointer(address: Address, encoding: Byte, bases: EncodedPointerBases)
      requires Target(bases).Plausible() && |contents| < ADDRESS_SPACE
      requires encoding == DW_EH_PE_omit || (BaseOf(encoding) != NoBase && FormatOf(encoding) != NoFormat)
      modifies `contents
      ensures encoding == DW_EH_PE_omit ==> contents == old(contents)
      ensures Supported(encoding) ==>
                contents == old(contents) + PointerBytes(Target(bases), address, encoding, old(|contents|))
      ensures encoding != DW_EH_PE_omit && BaseOf(encoding) == AlignedTo ==>
                exists pad: nat :: Padding(addressSize, 0, old(|contents|), pad)
                                   && contents == old(contents) + AlignedBytes(Target(bases), FormatOf(encoding), address, pad)
                                   && Prints(Target(bases), encoding, contents[old(|contents|) + pad..], old(|contents|), address)
      ensures old(contents) <= contents
      ensures encoding / 0x10 % 8 <= 4 ==>
                Prints(Target(bases), encoding, contents[old(|contents|)..], old(|contents|), address)
    {
      hide FormatOf, Padding, Write, EncodeUnsigned, EncodeSigned, Prints;
      if encoding == DW_EH_PE_omit {
        assert BaseOf(encoding) == NoBase;
        return;
      }
      var base: Address;
      match BaseOf(encoding) {
        case Absolute => base := 0;
        case PCRel => base := Add(bases.cfi, |contents|);
        case TextRel => base := bases.text;
        case DataRel => base := bases.data;
        case FuncRel => base := fdeStartAddress;
        case AlignedTo => base := 0;
      }
      var relative := Sub(address, base);
      ghost var start := contents;
      ghost var pad: nat := 0;
      if BaseOf(encoding) == AlignedTo {
        Align(addressSize);
        pad :| Padding(addressSize, 0, |start|, pad) && contents == start + seq(pad, _ => 0);
      }
      ghost var padded := contents;
      AppendValue(FormatOf(encoding), relative, bases);
      EndsWith(padded, FormatBytes(Target(bases), FormatOf(encoding), relative));
      if BaseOf(encoding) == AlignedTo {
        Associative(start, seq(pad, _ => 0), FormatBytes(Target(bases), FormatOf(encoding), relative));
        AlignedPrints(Target(bases), address, encoding, |start|);
      } else {
        PointerPrints(Target(bases), address, encoding, |start|);
      }
    }

    method AppendValue(f: Format, d: Address, bases: EncodedPointerBases)
      requires f != NoFormat
      modifies `contents
      ensures contents == old(contents) + FormatBytes(Target(bases), f, d)
    {
      hide Write, EncodeUnsigned, EncodeSigned;
      match f {
        case Machine => Append(addressSize, d);
        case ULEB128 => ULEB128(d);
        case SLEB128 => LEB128(AsSigned(d));
        case UData2 | SData2 => Append(2, d);
        case UData4 | SData4 => Append(4, d);
        case UData8 | SData8 => Append(8, d);
      }
    }
  }

  lemma EndsWith<T>(s: seq<T>, code: seq<T>)
    ensures (s + code)[|s|..] == code
  {
  }

  lemma SkipsToAligned(size: nat, alignment: nat)
    requires alignment > 0
    ensures var x := size + alignment - 1;
            0 <= x - Rest(x, alignment) - size && Padding(alignment, 0, size, x - Rest(x, alignment) - size)
  {
    hide Padding, PaddingLength, Multiple, Rest;
    var x := size + alignment - 1;
    RoundedDown(x, alignment);
    PaddingExactly(alignment, 0, size, x - Rest(x, alignment) - size);
  }

  lemma NothingWritten(x: nat)
    ensures Write(Big, x, 0) == []
  {
  }

  /** One byte more of a number written high byte first. */
  lemma WriteDigit(x: nat, i: nat, n: nat)
    ensures Write(Big, ShiftRight(x, i), n + 1) == Write(Big, ShiftRight(x, i + 1), n) + [ShiftRight(x, i) % 0x100]
  {
  }

  lemma WholeNumber(x: nat)
    ensures ShiftRight(x, 0) == x
  {
  }
}
