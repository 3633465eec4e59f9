/** What each pointer encoding stands for, told from the bits of its byte (section 11.5 of the LSB Core Specification
    4.0), and that parser and printer agree with it. */
module EncodingBytes {
  import opened Addresses
  import opened Arithmetic
  import opened EncodedPointers
  import opened FixedWidth
  import opened Leb128

  /** `s` has the length that the low nibble asks for: an address, 2, 4 or 8 bytes, or one LEB128 number. */
  ghost predicate Takes(t: Target, encoding: Byte, s: seq<Byte>) {
    match encoding % 0x10
    case 0x0 => |s| == t.addressSize
    case 0x1 => Number(s)
    case 0x2 => |s| == 2
    case 0x3 => |s| == 4
    case 0x4 => |s| == 8
    case 0x9 => Number(s)
    case 0xA => |s| == 2
    case 0xB => |s| == 4
    case 0xC => |s| == 8
    case _ => false
  }

  /** The number that `s` holds: with bit 3 set in the encoding it is a signed one. */
  ghost function Stored(t: Target, encoding: Byte, s: seq<Byte>): int
    requires Takes(t, encoding, s)
  {
    match encoding % 0x10
    case 0x1 => Value(s)
    case 0x9 => SignedValue(s)
    case 0xA => var x := Read(t.endian, s); if x < 0x8000 then x else x - 0x1_0000
    case 0xB => var x := Read(t.endian, s); if x < 0x8000_0000 then x else x - 0x1_0000_0000
    case 0xC => var x := Read(t.endian, s); if x < 0x8000_0000_0000_0000 then x else x - 0x1_0000_0000_0000_0000
    case _ => Read(t.endian, s)
  }

  /** What bits 4 to 6 say that the number is relative to. */
  function RelativeTo(t: Target, encoding: Byte, position: Address): int {
    match encoding / 0x10 % 8
    case 0 => 0
    case 1 => t.section + position
    case 2 => t.text
    case 3 => t.data
    case 4 => t.fde
    case _ => 0
  }

  /** The pointer that `s` stands for, `position` bytes into its section: a sum modulo the size of the address space. */
  ghost predicate StandsFor(t: Target, encoding: Byte, s: seq<Byte>, position: Address, pointer: Address) {
    && Takes(t, encoding, s)
    && pointer == (RelativeTo(t, encoding, position) + Stored(t, encoding, s))
                  % (if t.addressSize == 4 then 0x1_0000_0000 else 0x1_0000_0000_0000_0000)
  }

  /** Adding words that equal two numbers modulo 2^64. */
  lemma SumModulo(a: Address, x: int, b: Address, y: int)
    requires a == x % ADDRESS_SPACE && b == y % ADDRESS_SPACE
    ensures Add(a, b) == (x + y) % ADDRESS_SPACE
  {
    var p, q := x / ADDRESS_SPACE, y / ADDRESS_SPACE;
    ModuloIs(x + y, ADDRESS_SPACE, if a + b < ADDRESS_SPACE then p + q else p + q + 1, Add(a, b));
  }

  lemma LowHalf(x: int)
    ensures x % ADDRESS_SPACE % 0x1_0000_0000 == x % 0x1_0000_0000
  {
    var q, r := x / ADDRESS_SPACE, x % ADDRESS_SPACE;
    ModuloIs(x, 0x1_0000_0000, 0x1_0000_0000 * q + r / 0x1_0000_0000, r % 0x1_0000_0000);
  }

  lemma SmallModulo(x: nat)
    requires x < ADDRESS_SPACE
    ensures x % ADDRESS_SPACE == x && (x - ADDRESS_SPACE) % ADDRESS_SPACE == x
  {
  }

  lemma NegativeModulo(x: int)
    requires -ADDRESS_SPACE <= x < 0
    ensures x % ADDRESS_SPACE == x + ADDRESS_SPACE
  {
  }

  /** What the parser decodes is the number stored, modulo 2^64. */
  lemma StoredIs(t: Target, encoding: Byte, s: seq<Byte>)
    requires t.Plausible() && Supported(encoding) && Shaped(t, FormatOf(encoding), s)
    ensures Takes(t, encoding, s)
    ensures Decoded(t, FormatOf(encoding), s) == Stored(t, encoding, s) % ADDRESS_SPACE
  {
    hide Read, Value, SignedValue, Number, Pow256;
    Widths();
    if !FormatOf(encoding).Fixed() {
      return;
    }
    var x: nat := Read(t.endian, s);
    SmallModulo(x);
    if FormatOf(encoding) == SData2 {
      NegativeModulo(x - 0x1_0000);
    } else if FormatOf(encoding) == SData4 {
      NegativeModulo(x - 0x1_0000_0000);
    }
  }

  lemma RelativeIs(t: Target, encoding: Byte, position: Address)
    requires Supported(encoding)
    ensures t.BaseAddress(encoding, position) == RelativeTo(t, encoding, position) % ADDRESS_SPACE
  {
  }

  /** The pointer that the parser finds is what the bytes stand for. */
  lemma PointerStandsFor(t: Target, buffer: seq<Byte>, pos: nat, len: nat, encoding: Byte, position: Address)
    requires t.Plausible() && Supported(encoding) && ValueAt(t, FormatOf(encoding), buffer, pos, len)
    ensures StandsFor(t, encoding, buffer[pos..pos + len], position, PointerAt(t, buffer, pos, len, encoding, position))
  {
    hide Supported, FormatOf, Target.BaseAddress, Decoded, Takes, Stored, RelativeTo, Add;
    var s := buffer[pos..pos + len];
    StoredIs(t, encoding, s);
    RelativeIs(t, encoding, position);
    SumModulo(t.BaseAddress(encoding, position), RelativeTo(t, encoding, position),
              Decoded(t, FormatOf(encoding), s), Stored(t, encoding, s));
    LowHalf(RelativeTo(t, encoding, position) + Stored(t, encoding, s));
  }

  /** `code` is one number of the form that the encoding asks for, which leads from the base to the address: exactly, or
      modulo what as many bytes can hold. */
  ghost predicate Prints(t: Target, encoding: Byte, code: seq<Byte>, position: Address, address: Address) {
    && Takes(t, encoding, code)
    && var sum := RelativeTo(t, encoding, position) + Stored(t, encoding, code) - address;
       match encoding % 0x10
       case 0x1 => sum % 0x1_0000_0000_0000_0000 == 0 && Stored(t, encoding, code) < 0x1_0000_0000_0000_0000
       case 0x9 => sum % 0x1_0000_0000_0000_0000 == 0
                   && -0x8000_0000_0000_0000 <= Stored(t, encoding, code) < 0x8000_0000_0000_0000
       case _ => if |code| == 2 then sum % 0x1_0000 == 0
                 else if |code| == 4 then sum % 0x1_0000_0000 == 0
                 else sum % 0x1_0000_0000_0000_0000 == 0
  }

  /** The stored number is the distance modulo `m`, so the sum of base and number is the address modulo `m`. */
  lemma SumIsMultiple(relative: int, base: Address, address: Address, stored: int, m: int)
    requires m == 0x1_0000 || m == 0x1_0000_0000 || m == ADDRESS_SPACE
    requires base == relative % ADDRESS_SPACE && stored % m == Sub(address, base) % m
    ensures (relative + stored - address) % m == 0
  {
    var d := Sub(address, base);
    var q, i, j := relative / ADDRESS_SPACE, stored / m, d / m;
    var k := q + if base <= address then 0 else 1;
    assert relative - address + d == ADDRESS_SPACE * k;
    assert stored - d == m * (i - j);
    ModuloIs(relative + stored - address, m, (if m == 0x1_0000 then 0x1_0000_0000_0000 * k
                                              else if m == 0x1_0000_0000 then 0x1_0000_0000 * k else k) + (i - j), 0);
  }

  /** What a fixed-width number of the low bytes of `d` stands for. */
  lemma FixedStored(t: Target, encoding: Byte, d: Address)
    requires t.Plausible() && FormatOf(encoding).Fixed()
    ensures var code := FormatBytes(t, FormatOf(encoding), d);
            && Takes(t, encoding, code)
            && (|code| == 2 ==> Stored(t, encoding, code) % 0x1_0000 == d % 0x1_0000)
            && (|code| == 4 ==> Stored(t, encoding, code) % 0x1_0000_0000 == d % 0x1_0000_0000)
            && (|code| == 8 ==> Stored(t, encoding, code) % ADDRESS_SPACE == d)
            && (|code| == 2 || |code| == 4 || |code| == 8)
  {
    hide Read, Write, Pow256;
    Widths();
    var n := t.Width(FormatOf(encoding));
    ReadWritten(t.endian, d, n);
    assert |FormatBytes(t, FormatOf(encoding), d)| == n;
    SignedModuloOf(d % 0x1_0000, 0x1_0000);
    SignedModuloOf(d % 0x1_0000_0000, 0x1_0000_0000);
    SignedModuloOf(d, ADDRESS_SPACE);
  }

  lemma SignedModuloOf(x: nat, m: nat)
    requires x < m
    ensures x % m == x && (x - m) % m == x
  {
    ModuloIs(x, m, 0, x);
    ModuloIs(x - m, m, -1, x);
  }

  lemma DistancePrints(t: Target, address: Address, encoding: Byte, position: Address, base: Address)
    requires t.Plausible() && FormatOf(encoding) != NoFormat && base == RelativeTo(t, encoding, position) % ADDRESS_SPACE
    ensures Prints(t, encoding, FormatBytes(t, FormatOf(encoding), Sub(address, base)), position, address)
  {
    hide RelativeTo, Read, Write, Value, SignedValue, Number, EncodeUnsigned, EncodeSigned;
    var d := Sub(address, base);
    var f := FormatOf(encoding);
    var code := FormatBytes(t, f, d);
    if f.ULEB128? {
      EncodeUnsignedValue(d);
      SumIsMultiple(RelativeTo(t, encoding, position), base, address, d, ADDRESS_SPACE);
    } else if f.SLEB128? {
      SignedModulo(d);
      EncodeSignedValue(AsSigned(d));
      SumIsMultiple(RelativeTo(t, encoding, position), base, address, AsSigned(d), ADDRESS_SPACE);
    } else {
      FixedStored(t, encoding, d);
      SumIsMultiple(RelativeTo(t, encoding, position), base, address, Stored(t, encoding, code),
                    if |code| == 2 then 0x1_0000 else if |code| == 4 then 0x1_0000_0000 else ADDRESS_SPACE);
    }
  }

  /** What the printer appends leads from the base to the address. */
  lemma PointerPrints(t: Target, address: Address, encoding: Byte, position: Address)
    requires t.Plausible() && Supported(encoding)
    ensures Prints(t, encoding, PointerBytes(t, address, encoding, position), position, address)
  {
    hide RelativeTo, Target.BaseAddress, FormatBytes, Prints;
    RelativeIs(t, encoding, position);
    DistancePrints(t, address, encoding, position, t.BaseAddress(encoding, position));
  }

  /** So does, after the padding, an aligned pointer, which has no base. */
  lemma AlignedPrints(t: Target, address: Address, encoding: Byte, position: Address)
    requires t.Plausible() && BaseOf(encoding) == AlignedTo && FormatOf(encoding) != NoFormat
    ensures Prints(t, encoding, FormatBytes(t, FormatOf(encoding), address), position, address)
  {
    hide FormatBytes, Prints;
    DistancePrints(t, address, encoding, position, 0);
  }

  // ---------- One pointer ----------

  /** Encoding 1B, relative to its own place and signed in four bytes, at the start of a section loaded at 0x1000: bytes
      10 00 01 00 stand for 0x11010, and F0 FF FF FF for 0xFF0. */
  lemma RelativeToItsPlace(pointer: Address)
    ensures var t := Target(Little, 8, 0x1000, 0x2000, 0x3000, 0x4000);
            && (StandsFor(t, 0x1B, [0x10, 0, 1, 0], 0, pointer) <==> pointer == 0x11010)
            && (StandsFor(t, 0x1B, [0xF0, 0xFF, 0xFF, 0xFF], 0, pointer) <==> pointer == 0xFF0)
  {
    hide Read;
    ReadFour([0x10, 0, 1, 0]);
    ReadFour([0xF0, 0xFF, 0xFF, 0xFF]);
  }

  lemma PrintedRelativeToItsPlace()
    ensures PointerBytes(Target(Little, 8, 0x1000, 0x2000, 0x3000, 0x4000), 0x11010, 0x1B, 0) == [0x10, 0, 1, 0]
  {
    hide Write;
    WriteFour(0x10010);
  }
}
