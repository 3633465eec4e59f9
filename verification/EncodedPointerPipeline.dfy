/** Printing an encoded pointer into a section and reading it from there. */
module EncodedPointerPipeline {
  import opened Addresses
  import opened Arithmetic
  import opened ByteReader
  import opened CFISection
  import opened EncodedPointers
  import opened EncodingBytes
  import opened FixedWidth
  import opened Leb128

  /** A reader for the section, with the bases it was printed with. */
  method ReaderFor(section: CFISection, bases: EncodedPointerBases) returns (reader: ByteReader)
    requires section.Target(bases).Plausible()
    ensures fresh(reader) && reader.Target() == section.Target(bases) && reader.bufferBase == 0
    ensures reader.haveSectionBase && reader.haveTextBase && reader.haveDataBase && reader.haveFunctionBase
  {
    reader := new ByteReader(section.endian);
    reader.SetAddressSize(section.addressSize);
    reader.SetCFIDataBase(bases.cfi, 0);
    reader.SetTextBase(bases.text);
    reader.SetDataBase(bases.data);
    reader.SetFunctionBase(section.fdeStartAddress);
  }

  lemma AtTheEnd(s: seq<Byte>, code: seq<Byte>)
    ensures s + code + [] == s + code
  {
  }

  /** Whatever the section holds, the reader takes exactly what was appended, and returns the address, truncated to the
      address size, exactly when the format holds its distance from the base. */
  method PrintThenRead(section: CFISection, address: Address, encoding: Byte, bases: EncodedPointerBases)
    returns (pointer: Address, len: nat)
    requires section.Target(bases).Plausible() && |section.contents| < ADDRESS_SPACE && Supported(encoding)
    modifies section
    ensures old(section.contents) <= section.contents && len == |section.contents| - old(|section.contents|)
    ensures var t := section.Target(bases);
            pointer == t.Truncate(address)
            <==> Fits(t, FormatOf(encoding), Sub(address, t.BaseAddress(encoding, old(|section.contents|))))
  {
    hide FormatOf, Fits, PointerBytes, Present, ValueAt, PointerAt, Target.BaseAddress, Target.Truncate, Prints, StandsFor;
    ghost var before, t := section.contents, section.Target(bases);
    var position: Address := |section.contents|;
    section.EncodedPointer(address, encoding, bases);
    ghost var code := PointerBytes(t, address, encoding, position);
    AtTheEnd(before, code);
    PointerRoundTrip(t, address, encoding, position, before, [], |code|);
    NotAligned(encoding);
    var reader := ReaderFor(section, bases);
    pointer, len := reader.ReadEncodedPointer(section.contents, position, encoding);
    PointerRoundTrip(t, address, encoding, position, before, [], len);
  }

  lemma NotAligned(encoding: Byte)
    requires Supported(encoding)
    ensures encoding != DW_EH_PE_aligned && encoding != DW_EH_PE_omit
  {
  }

  /** An aligned pointer, with whatever follows it in the section; the bytes that the reader takes have to be there. It
      takes just what was printed exactly when the section is loaded at an aligned address, and then returns the address. */
  method PrintThenReadAligned(section: CFISection, address: Address, bases: EncodedPointerBases, more: seq<Byte>)
    returns (pointer: Address, len: nat)
    requires section.Target(bases).Plausible() && |section.contents| + 0x10 <= ADDRESS_SPACE
    requires PaddingLength(section.addressSize, bases.cfi, |section.contents|)
          <= PaddingLength(section.addressSize, 0, |section.contents|) + |more|
    modifies section
    ensures old(section.contents) <= section.contents
    ensures len == |section.contents| - old(|section.contents|) <==> Multiple(bases.cfi, section.addressSize)
    ensures Multiple(bases.cfi, section.addressSize) ==> pointer == section.Target(bases).Truncate(address)
  {
    hide Padding, Read, Write, Target.Truncate, PaddingLength, Multiple, Prints;
    ghost var before, t := section.contents, section.Target(bases);
    var position: Address := |section.contents|;
    AlignedEncoding();
    section.EncodedPointer(address, DW_EH_PE_aligned, bases);
    ghost var pad: nat :| Padding(t.addressSize, 0, position, pad)
                          && section.contents == before + AlignedBytes(t, Machine, address, pad);
    PaddingExactly(t.addressSize, 0, position, pad);
    var reader := ReaderFor(section, bases);
    pointer, len := reader.ReadAlignedPointer(section.contents + more, position);
    PaddingAgrees(t.addressSize, t.section, position, pad, len - t.addressSize);
    if Multiple(bases.cfi, section.addressSize) {
      AlignedRoundTrip(t, address, position, pad, before, more, len - t.addressSize);
    }
  }

  lemma AlignedEncoding()
    ensures FormatOf(DW_EH_PE_aligned) == Machine && BaseOf(DW_EH_PE_aligned) == AlignedTo
    ensures DW_EH_PE_aligned != DW_EH_PE_omit
  {
  }
}
