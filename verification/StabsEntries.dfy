/** The entries of a .stab section and the iterator that decodes them. */
module StabsEntries {
  import opened Addresses
  import opened ByteCursor
  import opened FixedWidth
  import opened Leb128
  import opened Sequences

  const N_UNDF: Byte := 0x00
  const N_FUN: Byte := 0x24
  const N_SLINE: Byte := 0x44
  const N_SO: Byte := 0x64
  const N_SOL: Byte := 0x84

  /** `descriptor` is a signed 16-bit field. */
  datatype Entry = Entry(nameOffset: Address, kind: Byte, other: Byte, descriptor: int, value: Address)

  /** How the section stores its entries. */
  datatype Layout = Layout(bigEndian: bool, valueSize: nat)
  {
    predicate Plausible() {
      valueSize == 4 || valueSize == 8
    }

    function Size(): nat {
      8 + valueSize
    }

    function Order(): Endianness {
      if bigEndian then Big else Little
    }

    /** The entry stored in `s`. */
    function Decode(s: seq<Byte>): Entry
      requires Plausible() && |s| == Size()
    {
      var e := Order();
      Widths();
      Entry(Read(e, s[..4]), s[4], s[5], INT16.Wrap(Read(e, s[6..8])), Read(e, s[8..]))
    }

    /** All the whole entries of `s`; what is left over at the end is ignored. */
    function Entries(s: seq<Byte>): seq<Entry>
      requires Plausible()
    {
      if |s| < Size() then [] else [Decode(s[..Size()])] + Entries(s[Size()..])
    }

    lemma {:induction false} EntriesCount(s: seq<Byte>)
      requires Plausible()
      ensures |Entries(s)| == |s| / Size()
    {
      hide Layout.Decode;
      if |s| >= Size() {
        EntriesCount(s[Size()..]);
        assert (|s| - Size()) / Size() == |s| / Size() - 1 by {
          if valueSize == 4 {
          } else {
          }
        }
      }
    }

    /** The bytes of an entry. */
    function Encode(x: Entry): (s: seq<Byte>)
      requires Plausible()
      ensures |s| == Size()
    {
      var e := Order();
      Write(e, x.nameOffset, 4) + [x.kind] + [x.other] + Write(e, x.descriptor % 0x1_0000, 2) + Write(e, x.value, valueSize)
    }

    /** The fields of an entry fit their places. */
    predicate Storable(x: Entry) {
      && x.nameOffset < 0x1_0000_0000 && -0x8000 <= x.descriptor < 0x8000
      && (valueSize == 4 ==> x.value < 0x1_0000_0000)
    }

    /** Every entry that can be stored is decoded as it was. */
    lemma DecodeEncoded(x: Entry)
      requires Plausible() && Storable(x)
      ensures Decode(Encode(x)) == x
    {
      hide Read, Write, Pow256;
      var e := Order();
      var s := Encode(x);
      Widths();
      assert s[..4] == Write(e, x.nameOffset, 4) && s[4] == x.kind && s[5] == x.other;
      assert s[6..8] == Write(e, x.descriptor % 0x1_0000, 2) && s[8..] == Write(e, x.value, valueSize);
      ReadWritten(e, x.nameOffset, 4);
      ReadWritten(e, x.descriptor % 0x1_0000, 2);
      ReadWritten(e, x.value, valueSize);
    }
  }

  /** Each field of an entry, byte by byte: the offset of the name, the type, a byte that is not used, the descriptor as a
      signed number, and the value. */
  lemma DecodeByteByByte(layout: Layout, s: seq<Byte>)
    requires layout.Plausible() && |s| == layout.Size()
    ensures var e := layout.Decode(s);
            && e.kind == s[4] && e.other == s[5]
            && (!layout.bigEndian ==>
                  && e.nameOffset == Lowest(s[0], s[1], s[2], s[3])
                  && e.descriptor == Lowest(s[6], s[7], 0, 0) - (if s[7] >= 0x80 then 0x1_0000 else 0)
                  && e.value == if layout.valueSize == 4 then Lowest(s[8], s[9], s[10], s[11])
                                else Lowest(s[8], s[9], s[10], s[11])
                                     + 0x1_0000_0000 * Lowest(s[12], s[13], s[14], s[15]))
            && (layout.bigEndian ==>
                  && e.nameOffset == Lowest(s[3], s[2], s[1], s[0])
                  && e.descriptor == Lowest(s[7], s[6], 0, 0) - (if s[6] >= 0x80 then 0x1_0000 else 0)
                  && e.value == if layout.valueSize == 4 then Lowest(s[11], s[10], s[9], s[8])
                                else Lowest(s[15], s[14], s[13], s[12])
                                     + 0x1_0000_0000 * Lowest(s[11], s[10], s[9], s[8]))
  {
    hide Read, Lowest, IntType.Wrap;
    var name, value := s[..4], s[8..];
    ReadFour(name);
    SignedTwo(s[6..8]);
    assert name[0] == s[0] && name[1] == s[1] && name[2] == s[2] && name[3] == s[3];
    assert value[0] == s[8] && value[1] == s[9] && value[2] == s[10] && value[3] == s[11];
    if layout.valueSize == 4 {
      ReadFour(value);
    } else {
      ReadEightLittle(value);
      ReadEightBig(value);
    }
  }

  lemma SignedTwo(s: seq<Byte>)
    requires |s| == 2
    ensures INT16.Wrap(Read(Little, s)) == Lowest(s[0], s[1], 0, 0) - (if s[1] >= 0x80 then 0x1_0000 else 0)
    ensures INT16.Wrap(Read(Big, s)) == Lowest(s[1], s[0], 0, 0) - (if s[0] >= 0x80 then 0x1_0000 else 0)
  {
    hide Read, IntType.Wrap, Pow256;
    ReadTwo(s);
    WrapSixteen(Lowest(s[0], s[1], 0, 0));
    WrapSixteen(Lowest(s[1], s[0], 0, 0));
  }

  lemma WrapSixteen(x: nat)
    requires x < 0x1_0000
    ensures INT16.Wrap(x) == if x >= 0x8000 then x - 0x1_0000 else x
  {
    hide Pow256;
    Widths();
    var m := Pow256(2);
    assert x % m == x;
  }

  class EntryIterator {
    const layout: Layout
    const cursor: ByteCursor
    var entry: Entry
    var atEnd: bool
    var index: nat

    ghost predicate Valid()
      reads this, cursor
    {
      && layout.Plausible() && cursor.Valid() && cursor.bigEndian == layout.bigEndian && atEnd == !cursor.complete
    }

    /** The current entry and all after it. */
    ghost function Rest(): seq<Entry>
      reads this, cursor
      requires Valid()
    {
      if atEnd then [] else [entry] + layout.Entries(cursor.buffer[cursor.here..])
    }

    constructor (buffer: seq<Byte>, layout: Layout)
      requires layout.Plausible()
      ensures Valid() && fresh(cursor) && Rest() == layout.Entries(buffer) && index == 0 && this.layout == layout
    {
      this.layout := layout;
      cursor := new ByteCursor(buffer, layout.bigEndian);
      index := 0;
      new;
      assert buffer[0..] == buffer;
      Fetch();
    }

    method Fetch()
      requires layout.Plausible() && cursor.Valid() && cursor.bigEndian == layout.bigEndian && cursor.complete
      modifies `entry, `atEnd, cursor`here, cursor`complete
      ensures Valid() && Rest() == layout.Entries(old(cursor.buffer[cursor.here..]))
    {
      hide IntType.Wrap, FixedWidth.Read, Pow256, Meaning, Layout.Decode, Layout.Entries;
      ghost var start := cursor.here;
      Widths();
      OneByte();
      var nameOffset := cursor.Read(4, false, SIZE_T);
      var kind := cursor.Read(1, false, UINT8);
      var other := cursor.Read(1, false, UINT8);
      var descriptor := cursor.Read(2, false, INT16);
      var value := cursor.Read(layout.valueSize, false, UINT64);
      if cursor.complete {
        FieldsDecode(layout, cursor.buffer, start, nameOffset, kind, other, descriptor, value);
      }
      EntriesAt(layout, cursor.buffer, start);
      entry := Entry(nameOffset, kind, other, descriptor, value);
      atEnd := !cursor.complete;
    }

    /** `++iterator`. */
    method Advance()
      requires Valid() && !atEnd
      modifies this, cursor`here, cursor`complete
      ensures Valid() && Rest() == old(Rest())[1..] && index == old(index) + 1
    {
      Fetch();
      index := index + 1;
    }
  }

  lemma OneByte()
    ensures Pow256(1) == 0x100
  {
  }

  lemma FieldsDecode(layout: Layout, buffer: seq<Byte>, start: nat, nameOffset: int, kind: int, other: int,
                     descriptor: int, value: int)
    requires layout.Plausible() && start + layout.Size() <= |buffer|
    requires nameOffset == Meaning(SIZE_T, 4, false, Read(layout.Order(), buffer[start..start + 4]))
    requires kind == Meaning(UINT8, 1, false, Read(layout.Order(), buffer[start + 4..start + 5]))
    requires other == Meaning(UINT8, 1, false, Read(layout.Order(), buffer[start + 5..start + 6]))
    requires descriptor == Meaning(INT16, 2, false, Read(layout.Order(), buffer[start + 6..start + 8]))
    requires value == Meaning(UINT64, layout.valueSize, false, Read(layout.Order(), buffer[start + 8..start + layout.Size()]))
    ensures nameOffset >= 0 && 0 <= kind < 0x100 && 0 <= other < 0x100 && 0 <= value < ADDRESS_SPACE
    ensures layout.Decode(buffer[start..start + layout.Size()]) == Entry(nameOffset, kind, other, descriptor, value)
  {
    hide Read, IntType.Wrap, Meaning, Pow256;
    var e, d := layout.Order(), buffer[start..start + layout.Size()];
    SubSlice(buffer, start, layout.Size(), 0, 4);
    SubSlice(buffer, start, layout.Size(), 6, 8);
    SubSlice(buffer, start, layout.Size(), 8, layout.Size());
    ReadOne(e, buffer, start + 4);
    ReadOne(e, buffer, start + 5);
    OneByte();
    Widths();
    UnsignedRead(SIZE_T, 4, Read(e, d[..4]));
    UnsignedRead(UINT8, 1, d[4]);
    UnsignedRead(UINT8, 1, d[5]);
    UnsignedRead(UINT64, layout.valueSize, Read(e, d[8..]));
    PlainMeaning(INT16, 2, Read(e, d[6..8]));
  }

  lemma PlainMeaning(t: IntType, size: nat, x: nat)
    ensures Meaning(t, size, false, x) == t.Wrap(x)
  {
  }

  lemma ReadOne(e: Endianness, buffer: seq<Byte>, i: nat)
    requires i < |buffer|
    ensures Read(e, buffer[i..i + 1]) == buffer[i]
  {
    ReadNothing(e);
    ReadDigit(e, buffer[i], []);
    assert buffer[i..i + 1] == [buffer[i]] == [buffer[i]] + [] == [] + [buffer[i]];
  }

  lemma EntriesAt(layout: Layout, buffer: seq<Byte>, start: nat)
    requires layout.Plausible() && start <= |buffer|
    ensures layout.Entries(buffer[start..]) ==
              if start + layout.Size() > |buffer| then []
              else [layout.Decode(buffer[start..start + layout.Size()])] + layout.Entries(buffer[start + layout.Size()..])
  {
    hide Layout.Decode;
    if start + layout.Size() <= |buffer| {
      assert buffer[start..][..layout.Size()] == buffer[start..start + layout.Size()];
      assert buffer[start..][layout.Size()..] == buffer[start + layout.Size()..];
    }
  }
}
