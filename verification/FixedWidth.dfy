/** Fixed-width numbers in either byte order: how `test_assembler::Section` appends them and how `ByteReader` reads
    them back. */
module FixedWidth {
  import opened Addresses
  import opened Arithmetic
  import opened Leb128
  import opened Sequences

  datatype Endianness = Little | Big

  // ---------- Fixed-width numbers ----------

  function Pow256(n: nat): (p: nat)
    ensures p > 0
  {
    if n == 0 then 1 else 0x100 * Pow256(n - 1)
  }

  /** The low `n` bytes of `x`. */
  function Write(e: Endianness, x: nat, n: nat): (r: seq<Byte>)
    ensures |r| == n
  {
    if n == 0 then
      []
    else if e.Little? then
      [x % 0x100] + Write(e, x / 0x100, n - 1)
    else
      Write(e, x / 0x100, n - 1) + [x % 0x100]
  }

  /** The number whose bytes are `s`. */
  function Read(e: Endianness, s: seq<Byte>): (x: nat)
    ensures x < Pow256(|s|)
  {
    if s == [] then
      0
    else if e.Little? then
      s[0] + 0x100 * Read(e, s[1..])
    else
      s[|s| - 1] + 0x100 * Read(e, s[..|s| - 1])
  }

  /** Taking a number modulo `0x100 * p` a byte at a time. */
  lemma ByteModulo(x: nat, p: nat)
    requires p > 0
    ensures x % (0x100 * p) == x % 0x100 + 0x100 * (x / 0x100 % p)
  {
    var y := x / 0x100;
    assert y == p * (y / p) + y % p;
    assert 0x100 * (p * (y / p)) == 0x100 * p * (y / p);
    ModuloIs(x, 0x100 * p, y / p, x % 0x100 + 0x100 * (y % p));
  }

  /** The digits of a number that has `low` as its lowest byte. */
  lemma ReadDigit(e: Endianness, low: Byte, rest: seq<Byte>)
    ensures e.Little? ==> Read(e, [low] + rest) == low + 0x100 * Read(e, rest)
    ensures e.Big? ==> Read(e, rest + [low]) == low + 0x100 * Read(e, rest)
  {
    hide Pow256;
    assert ([low] + rest)[1..] == rest;
    assert (rest + [low])[..|rest|] == rest;
  }

  lemma {:induction false} ReadWritten(e: Endianness, x: nat, n: nat)
    ensures Read(e, Write(e, x, n)) == x % Pow256(n)
  {
    hide Read;
    if n == 0 {
      ReadNothing(e);
    } else {
      ReadWritten(e, x / 0x100, n - 1);
      ReadDigit(e, x % 0x100, Write(e, x / 0x100, n - 1));
      ByteModulo(x, Pow256(n - 1));
    }
  }

  lemma ReadNothing(e: Endianness)
    ensures Read(e, []) == 0
  {
  }

  lemma Widths()
    ensures Pow256(2) == 0x1_0000 && Pow256(4) == 0x1_0000_0000 && Pow256(8) == ADDRESS_SPACE
  {
    assert Pow256(3) == 0x100 * Pow256(2);
    assert Pow256(5) == 0x100 * Pow256(4);
    assert Pow256(6) == 0x100 * Pow256(5);
    assert Pow256(7) == 0x100 * Pow256(6);
  }

  /** The number of four bytes, the lowest first. */
  function Lowest(a: nat, b: nat, c: nat, d: nat): nat {
    a + 0x100 * b + 0x1_0000 * c + 0x100_0000 * d
  }

  lemma ReadLowest(s: seq<Byte>)
    requires s != []
    ensures Read(Little, s) == s[0] + 0x100 * Read(Little, s[1..])
    ensures Read(Big, s) == s[|s| - 1] + 0x100 * Read(Big, s[..|s| - 1])
  {
  }

  /** What two, four and eight bytes stand for. */
  lemma ReadTwo(s: seq<Byte>)
    requires |s| == 2
    ensures Read(Little, s) == Lowest(s[0], s[1], 0, 0) && Read(Big, s) == Lowest(s[1], s[0], 0, 0)
  {
    hide Read;
    ReadLowest(s);
    ReadLowest(s[1..]);
    ReadLowest(s[..1]);
    ReadNothing(Little);
    ReadNothing(Big);
    assert s[1..][1..] == s[..1][..0] == [];
  }

  lemma ReadFour(s: seq<Byte>)
    requires |s| == 4
    ensures Read(Little, s) == Lowest(s[0], s[1], s[2], s[3]) && Read(Big, s) == Lowest(s[3], s[2], s[1], s[0])
  {
    hide Read;
    ReadLowest(s);
    ReadLowest(s[1..]);
    ReadLowest(s[..3]);
    ReadTwo(s[2..]);
    ReadTwo(s[..2]);
    DropDrop(s, 1, 1);
    assert s[..3][..2] == s[..2];
  }

  lemma ReadEightLittle(s: seq<Byte>)
    requires |s| == 8
    ensures Read(Little, s) == Lowest(s[0], s[1], s[2], s[3]) + 0x1_0000_0000 * Lowest(s[4], s[5], s[6], s[7])
  {
    hide Read;
    var t := s[4..];
    ReadLowest(s);
    ReadLowest(s[1..]);
    ReadLowest(s[2..]);
    ReadLowest(s[3..]);
    DropDrop(s, 1, 1);
    DropDrop(s, 2, 1);
    DropDrop(s, 3, 1);
    ReadFour(t);
    assert t[0] == s[4] && t[1] == s[5] && t[2] == s[6] && t[3] == s[7];
  }

  lemma ReadEightBig(s: seq<Byte>)
    requires |s| == 8
    ensures Read(Big, s) == Lowest(s[7], s[6], s[5], s[4]) + 0x1_0000_0000 * Lowest(s[3], s[2], s[1], s[0])
  {
    hide Read;
    var t := s[..4];
    ReadLowest(s);
    ReadLowest(s[..7]);
    ReadLowest(s[..6]);
    ReadLowest(s[..5]);
    TakeTake(s, 7, 6);
    TakeTake(s, 6, 5);
    TakeTake(s, 5, 4);
    ReadFour(t);
    assert t[0] == s[0] && t[1] == s[1] && t[2] == s[2] && t[3] == s[3];
  }

  lemma WriteFour(x: nat)
    ensures Write(Little, x, 4) == [x % 0x100, x / 0x100 % 0x100, x / 0x1_0000 % 0x100, x / 0x100_0000 % 0x100]
  {
    assert Write(Little, x / 0x1_0000_0000, 0) == [];
    assert Write(Little, x / 0x100_0000, 1) == [x / 0x100_0000 % 0x100];
    assert Write(Little, x / 0x1_0000, 2) == [x / 0x1_0000 % 0x100] + Write(Little, x / 0x100_0000, 1);
    assert Write(Little, x / 0x100, 3) == [x / 0x100 % 0x100] + Write(Little, x / 0x1_0000, 2);
    assert Write(Little, x, 4) == [x % 0x100] + Write(Little, x / 0x100, 3);
  }

  // ---------- Reading with shifts ----------

  /** The bytes of `s`, each shifted to its own place and or-ed in turn: `s[0] | s[1] << 8 | s[2] << 16 | ...`. */
  function OrBytes(s: seq<Byte>): nat {
    if s == [] then 0 else BitOr(OrBytes(s[..|s| - 1]), Pow2(8 * (|s| - 1)) * s[|s| - 1])
  }

  function Reversed(s: seq<Byte>): (r: seq<Byte>)
    ensures |r| == |s|
  {
    if s == [] then [] else [s[|s| - 1]] + Reversed(s[..|s| - 1])
  }

  /** ReadTwoBytes, ReadFourBytes and ReadEightBytes, for as many bytes as `s` has. */
  function ReadBytes(e: Endianness, s: seq<Byte>): nat {
    OrBytes(if e.Little? then s else Reversed(s))
  }

  lemma {:induction false} Pow256IsPow2(n: nat)
    ensures Pow256(n) == Pow2(8 * n)
  {
    if n != 0 {
      Pow256IsPow2(n - 1);
      Pow2Small();
      Pow2Sum(8, 8 * (n - 1));
    }
  }

  lemma {:induction false} ReadSnoc(s: seq<Byte>, b: Byte)
    ensures Read(Little, s + [b]) == Read(Little, s) + Pow256(|s|) * b
  {
    if s == [] {
      assert ([] + [b])[1..] == [];
    } else {
      assert (s + [b])[1..] == s[1..] + [b];
      ReadSnoc(s[1..], b);
      assert 0x100 * (Pow256(|s| - 1) * b) == 0x100 * Pow256(|s| - 1) * b;
    }
  }

  /** No two of the shifted bytes meet, so or-ing them adds them. */
  lemma {:induction false} OrBytesAdds(s: seq<Byte>)
    ensures OrBytes(s) == Read(Little, s)
  {
    hide BitOr;
    if s != [] {
      var n := |s| - 1;
      OrBytesAdds(s[..n]);
      assert s == s[..n] + [s[n]];
      ReadSnoc(s[..n], s[n]);
      Pow256IsPow2(n);
      OrIsSum(OrBytes(s[..n]), s[n], 8 * n);
    }
  }

  lemma {:induction false} ReadReversed(s: seq<Byte>)
    ensures Read(Little, Reversed(s)) == Read(Big, s)
  {
    if s != [] {
      ReadReversed(s[..|s| - 1]);
      ReadDigit(Little, s[|s| - 1], Reversed(s[..|s| - 1]));
    }
  }

  /** The readers' shifts and ors give the number the bytes stand for, in both byte orders. */
  lemma ReadBytesReads(e: Endianness, s: seq<Byte>)
    ensures ReadBytes(e, s) == Read(e, s)
  {
    OrBytesAdds(if e.Little? then s else Reversed(s));
    ReadReversed(s);
  }
}
