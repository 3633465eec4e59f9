/** MD5 streaming (section 3 of RFC 1321): a context fed in pieces against padding and processing the whole message. */
module MD5 {
  import opened Addresses
  import opened Arithmetic
  import opened FixedWidth
  import opened Leb128
  import opened MD5Transform
  import opened Sequences
  import opened Words

  const WORD_SPACE: int := 0x1_0000_0000

  // ---------- RFC 1321 ----------

  const INITIAL := State(0x6745_2301, 0xEFCD_AB89, 0x98BA_DCFE, 0x1032_5476)

  function Word32(s: seq<Byte>): Word
    requires |s| == 4
  {
    Widths();
    Read(Little, s)
  }

  /** The sixteen words of a block, low-order byte first. */
  function BlockWords(block: seq<Byte>): (x: seq<Word>)
    requires |block| == 64
    ensures |x| == 16
  {
    seq(16, i requires 0 <= i < 16 => Word32(block[4 * i..4 * i + 4]))
  }

  /** The state after the whole 64-byte blocks of `s`, in order. */
  function Blocks(start: State, s: seq<Byte>): State
    decreases |s|
  {
    hide Compress, BlockWords;
    if |s| < 64 then start else Blocks(Compress(start, BlockWords(s[..64])), s[64..])
  }

  /** Sections 3.1 and 3.2: a one bit, zero bits up to 448 modulo 512, and the length in bits modulo 2^64. */
  function Padded(m: seq<Byte>): seq<Byte> {
    m + [0x80] + Zeros(PadCount(|m|)) + LengthField(|m|)
  }

  function PadCount(n: nat): nat {
    (55 - n) % 64
  }

  function LengthField(n: nat): (s: seq<Byte>)
    ensures |s| == 8
  {
    Write(Little, 8 * n % ADDRESS_SPACE, 8)
  }

  function Zeros(n: nat): (s: seq<Byte>)
    ensures |s| == n
  {
    seq(n, _ => 0)
  }

  /** The words A, B, C and D, low-order byte first. */
  function Output(s: State): seq<Byte> {
    Write(Little, s.a, 4) + Write(Little, s.b, 4) + Write(Little, s.c, 4) + Write(Little, s.d, 4)
  }

  /** The digest's bytes give A, B, C and D back, four at a time, the low-order byte first. */
  lemma OutputRead(s: State)
    ensures |Output(s)| == 16
    ensures Word32(Output(s)[0..4]) == s.a && Word32(Output(s)[4..8]) == s.b
    ensures Word32(Output(s)[8..12]) == s.c && Word32(Output(s)[12..16]) == s.d
  {
    hide Read, Write, Pow256;
    Widths();
    var a, b, c, d := Write(Little, s.a, 4), Write(Little, s.b, 4), Write(Little, s.c, 4), Write(Little, s.d, 4);
    Quarters(a, b, c, d);
    ReadWritten(Little, s.a, 4);
    ReadWritten(Little, s.b, 4);
    ReadWritten(Little, s.c, 4);
    ReadWritten(Little, s.d, 4);
  }

  lemma Quarters(a: seq<Byte>, b: seq<Byte>, c: seq<Byte>, d: seq<Byte>)
    requires |a| == 4 && |b| == 4 && |c| == 4 && |d| == 4
    ensures (a + b + c + d)[0..4] == a && (a + b + c + d)[4..8] == b
    ensures (a + b + c + d)[8..12] == c && (a + b + c + d)[12..16] == d
  {
  }

  /** Section 3.3: the bytes of the initial state are 01 23 45 67 89 AB CD EF FE DC BA 98 76 54 32 10. */
  lemma InitialBytes(i: nat)
    requires i < 8
    ensures Output(INITIAL)[i] == 1 + 0x22 * i && Output(INITIAL)[8 + i] == 0xFF - Output(INITIAL)[i]
  {
    hide Write;
    InitialWords();
  }

  lemma InitialWords()
    ensures Output(INITIAL)
         == [0x01, 0x23, 0x45, 0x67] + [0x89, 0xAB, 0xCD, 0xEF] + [0xFE, 0xDC, 0xBA, 0x98] + [0x76, 0x54, 0x32, 0x10]
  {
    hide Write;
    WriteFour(0x6745_2301);
    WriteFour(0xEFCD_AB89);
    WriteFour(0x98BA_DCFE);
    WriteFour(0x1032_5476);
  }

  function Digest(m: seq<Byte>): seq<Byte> {
    Output(Blocks(INITIAL, Padded(m)))
  }

  // ---------- Blocks ----------

  lemma {:induction false} BlocksConcat(start: State, a: seq<Byte>, b: seq<Byte>)
    requires |a| % 64 == 0
    ensures Blocks(start, a + b) == Blocks(Blocks(start, a), b)
    decreases |a|
  {
    hide Compress, BlockWords;
    if a == [] {
      assert a + b == b;
    } else {
      assert (a + b)[..64] == a[..64] && (a + b)[64..] == a[64..] + b;
      BlocksConcat(Compress(start, BlockWords(a[..64])), a[64..], b);
    }
  }

  lemma OneBlock(start: State, block: seq<Byte>)
    requires |block| == 64
    ensures Blocks(start, block) == Compress(start, BlockWords(block))
  {
    hide Compress, BlockWords;
    assert block[..64] == block && block[64..] == [];
  }

  /** One more block. */
  lemma BlocksSnoc(start: State, a: seq<Byte>, block: seq<Byte>)
    requires |a| % 64 == 0 && |block| == 64
    ensures Blocks(start, a + block) == Compress(Blocks(start, a), BlockWords(block))
  {
    BlocksConcat(start, a, block);
    OneBlock(Blocks(start, a), block);
  }

  lemma BlocksResidue(start: State, a: seq<Byte>, rest: seq<Byte>)
    requires |a| % 64 == 0 && |rest| < 64
    ensures Blocks(start, a + rest) == Blocks(start, a)
  {
    BlocksConcat(start, a, rest);
  }

  /** The bytes after the whole blocks. */
  function Tail(m: seq<Byte>): (r: seq<Byte>)
    ensures |r| == |m| % 64
  {
    m[|m| - |m| % 64..]
  }

  lemma SumModulo(a: nat, b: nat)
    requires a % 64 == 0 && b < 64
    ensures (a + b) % 64 == b
  {
  }

  /** A message is some whole blocks and its tail. */
  lemma WholeAndTail(whole: seq<Byte>, rest: seq<Byte>)
    requires |whole| % 64 == 0 && |rest| < 64
    ensures Tail(whole + rest) == rest
    ensures Blocks(INITIAL, whole + rest) == Blocks(INITIAL, whole)
  {
    hide Blocks;
    BlocksResidue(INITIAL, whole, rest);
    SumModulo(|whole|, |rest|);
  }

  function Whole(m: seq<Byte>): (r: seq<Byte>)
    ensures |r| % 64 == 0 && r + Tail(m) == m
  {
    m[..|m| - |m| % 64]
  }

  // ---------- The bit count ----------

  /** Adding the bits of `len` bytes to a count held in two words. */
  function AddBits(low: Word, high: Word, len: nat): (Word, Word) {
    // (u32) len << 3, and its sum with the low word
    var sum := Plus(low, 8 * (len % WORD_SPACE) % WORD_SPACE);
    // a sum that wrapped is below its terms
    var carried := if sum < low then Plus(high, 1) else high;
    (sum, Plus(carried, len / 0x2000_0000 % WORD_SPACE))
  }

  lemma AddBitsAdds(low: Word, high: Word, len: nat)
    ensures var (l, h) := AddBits(low, high, len);
            l + WORD_SPACE * h == (low + WORD_SPACE * high + 8 * len) % ADDRESS_SPACE
  {
    var q, r := len / 0x2000_0000, len % 0x2000_0000;
    var x := 8 * (len % WORD_SPACE) % WORD_SPACE;
    ShiftedLength(len);
    var (l, h) := AddBits(low, high, len);
    var carry := if low + x < WORD_SPACE then 0 else 1;
    assert l == low + x - WORD_SPACE * carry;
    TwoPlus(high, carry, q);
    HighWord(l, h, high + carry + q);
  }

  lemma ShiftedLength(len: nat)
    ensures 8 * (len % WORD_SPACE) % WORD_SPACE == 8 * (len % 0x2000_0000)
  {
    var q, r := len / 0x2000_0000, len % 0x2000_0000;
    assert q == 8 * (q / 8) + q % 8;
    ModuloIs(len, WORD_SPACE, q / 8, 0x2000_0000 * (q % 8) + r);
    ModuloIs(8 * (0x2000_0000 * (q % 8) + r), WORD_SPACE, q % 8, 8 * r);
  }

  lemma TwoPlus(high: Word, carry: int, q: nat)
    requires carry == 0 || carry == 1
    ensures Plus(if carry == 1 then Plus(high, 1) else high, q % WORD_SPACE) == (high + carry + q) % WORD_SPACE
  {
  }

  lemma HighWord(l: Word, h: Word, n: nat)
    requires h == n % WORD_SPACE
    ensures (l + WORD_SPACE * n) % ADDRESS_SPACE == l + WORD_SPACE * h
  {
  }

  /** Three shifts of the low word give the number of bytes waiting in the buffer. */
  lemma WaitingBytes(low: Word, high: Word, n: nat)
    requires low + WORD_SPACE * high == 8 * n % ADDRESS_SPACE
    ensures low / 8 % 64 == n % 64
  {
    var q := n / 0x2000_0000_0000_0000;
    var r := n % 0x2000_0000_0000_0000;
    assert 8 * n == ADDRESS_SPACE * q + 8 * r;
    ModuloIs(8 * n, ADDRESS_SPACE, q, 8 * r);
    var z := low / 8;
    assert z == r - 0x2000_0000 * high;
    ModuloIs(n, 64, 0x80_0000_0000_0000 * q + 0x80_0000 * high + z / 64, z % 64);
  }

  // ---------- The last blocks ----------

  lemma LengthBytes(low: Word, high: Word)
    ensures Write(Little, low + WORD_SPACE * high, 8) == Write(Little, low, 4) + Write(Little, high, 4)
  {
    WriteSplit(low, high, 4);
  }

  /** Four bytes of the low word, then the high word. */
  lemma {:induction false} WriteSplit(low: nat, high: nat, n: nat)
    requires low < Pow256(n)
    ensures Write(Little, Combined(low, high, n), n + 4) == Write(Little, low, n) + Write(Little, high, 4)
  {
    hide Write;
    if n == 0 {
      assert Combined(low, high, 0) == high;
      WriteNothing(low);
      assert [] + Write(Little, high, 4) == Write(Little, high, 4);
    } else {
      WriteSplit(low / 0x100, high, n - 1);
      LowDigit(low, high, n);
      hide Pow256, Combined;
      WriteLittle(low, n - 1);
      WriteLittle(Combined(low, high, n), n + 3);
      Associative([low % 0x100], Write(Little, low / 0x100, n - 1), Write(Little, high, 4));
    }
  }

  function Combined(low: nat, high: nat, n: nat): nat {
    low + Pow256(n) * high
  }

  lemma LowDigit(low: nat, high: nat, n: nat)
    requires n > 0
    ensures Combined(low, high, n) % 0x100 == low % 0x100
    ensures Combined(low, high, n) / 0x100 == Combined(low / 0x100, high, n - 1)
  {
    var y := Pow256(n - 1) * high;
    assert Pow256(n) * high == 0x100 * y;
    hide Pow256;
    LowByte(low, y);
  }

  lemma WriteNothing(x: nat)
    ensures Write(Little, x, 0) == []
  {
  }

  lemma WriteLittle(x: nat, n: nat)
    ensures Write(Little, x, n + 1) == [x % 0x100] + Write(Little, x / 0x100, n)
  {
  }

  lemma LowByte(x: nat, y: nat)
    ensures (x + 0x100 * y) % 0x100 == x % 0x100 && (x + 0x100 * y) / 0x100 == x / 0x100 + y
  {
  }

  lemma PadLength(whole: nat, rest: nat)
    requires whole % 64 == 0 && rest < 64
    ensures PadCount(whole + rest) == if rest < 56 then 55 - rest else 63 - rest + 56
  {
  }

  lemma Regroup(a: seq<Byte>, b: seq<Byte>, c: seq<Byte>, d: seq<Byte>, e: seq<Byte>)
    ensures a + b + c + d + e == a + (b + c + d + e)
  {
  }

  lemma ZerosSplit(j: nat, k: nat)
    ensures Zeros(j + k) == Zeros(j) + Zeros(k)
  {
  }

  /** With room for the length, the residue is padded to one block. */
  lemma OneLastBlock(whole: seq<Byte>, rest: seq<Byte>)
    requires |whole| % 64 == 0 && |rest| < 56
    ensures var m := whole + rest;
            var last := rest + [0x80] + Zeros(55 - |rest|) + LengthField(|m|);
            |last| == 64 && Blocks(INITIAL, Padded(m)) == Compress(Blocks(INITIAL, whole), BlockWords(last))
  {
    hide Blocks, Compress, BlockWords, LengthField, Zeros, PadCount;
    var length := LengthField(|whole + rest|);
    PadLength(|whole|, |rest|);
    Regroup(whole, rest, [0x80], Zeros(55 - |rest|), length);
    BlocksSnoc(INITIAL, whole, rest + [0x80] + Zeros(55 - |rest|) + length);
  }

  /** Without it, the length goes into a block of its own. */
  lemma TwoLastBlocks(whole: seq<Byte>, rest: seq<Byte>)
    requires |whole| % 64 == 0 && 56 <= |rest| < 64
    ensures var m := whole + rest;
            var first, last := rest + [0x80] + Zeros(63 - |rest|), Zeros(56) + LengthField(|m|);
            && |first| == 64 == |last|
            && Blocks(INITIAL, Padded(m))
               == Compress(Compress(Blocks(INITIAL, whole), BlockWords(first)), BlockWords(last))
  {
    hide Blocks, Compress, BlockWords, LengthField, Zeros, Padded;
    PaddedTwice(whole, rest);
    TwoBlocks(whole, rest + [0x80] + Zeros(63 - |rest|), Zeros(56) + LengthField(|whole + rest|));
  }

  lemma PaddedTwice(whole: seq<Byte>, rest: seq<Byte>)
    requires |whole| % 64 == 0 && 56 <= |rest| < 64
    ensures Padded(whole + rest)
            == whole + (rest + [0x80] + Zeros(63 - |rest|)) + (Zeros(56) + LengthField(|whole + rest|))
  {
    hide LengthField, Zeros, PadCount;
    PadLength(|whole|, |rest|);
    ZerosSplit(63 - |rest|, 56);
    PaddedSplit(whole, rest, LengthField(|whole + rest|));
  }

  lemma TwoBlocks(whole: seq<Byte>, first: seq<Byte>, last: seq<Byte>)
    requires |whole| % 64 == 0 && |first| == 64 == |last|
    ensures Blocks(INITIAL, whole + first + last)
            == Compress(Compress(Blocks(INITIAL, whole), BlockWords(first)), BlockWords(last))
  {
    hide Blocks, Compress, BlockWords;
    BlocksSnoc(INITIAL, whole, first);
    BlocksSnoc(INITIAL, whole + first, last);
  }

  lemma PaddedSplit(whole: seq<Byte>, rest: seq<Byte>, length: seq<Byte>)
    requires |rest| < 64
    ensures whole + rest + [0x80] + (Zeros(63 - |rest|) + Zeros(56)) + length
            == whole + (rest + [0x80] + Zeros(63 - |rest|)) + (Zeros(56) + length)
  {
    hide Zeros;
  }

  // ---------- The context ----------

  /** `memcpy`. */
  method Copy(a: array<Byte>, at: nat, s: seq<Byte>)
    requires at + |s| <= a.Length
    modifies a
    ensures a[..] == old(a[..at]) + s + old(a[at + |s|..])
    ensures a[..at + |s|] == old(a[..at]) + s
    ensures at == 0 ==> a[..|s|] == s
    ensures at + |s| == a.Length ==> a[..] == old(a[..at]) + s
    ensures at == 0 && |s| == a.Length ==> a[..] == s
  {
    forall i | 0 <= i < |s| {
      a[at + i] := s[i];
    }
    ThreeParts(old(a[..at]), s, old(a[at + |s|..]), a[..]);
  }

  lemma NothingGiven()
    ensures Blocks(INITIAL, []) == INITIAL && Tail([]) == []
  {
  }

  class MD5Context {
    var buf: State
    var bits0: Word
    var bits1: Word
    const input: array<Byte>
    /** Everything the context was given. */
    ghost var message: seq<Byte>

    /** The state of the whole blocks, the bytes after them, and the bit count modulo 2^64. */
    ghost predicate Valid()
      reads this, input
    {
      && input.Length == 64
      && buf == Blocks(INITIAL, message)
      && input[..|Tail(message)|] == Tail(message)
      && bits0 + WORD_SPACE * bits1 == 8 * |message| % ADDRESS_SPACE
    }

    /** `MD5Init`. */
    constructor ()
      ensures Valid() && message == [] && fresh(input)
      ensures |Output(buf)| == 16
      ensures forall i :: 0 <= i < 8 ==> Output(buf)[i] == 1 + 0x22 * i && Output(buf)[8 + i] == 0xFF - Output(buf)[i]
    {
      hide Output, Blocks, Tail;
      buf := INITIAL;
      bits0, bits1 := 0, 0;
      input := new Byte[64](_ => 0);
      message := [];
      new;
      NothingGiven();
      OutputRead(INITIAL);
      forall i | 0 <= i < 8
        ensures Output(INITIAL)[i] == 1 + 0x22 * i && Output(INITIAL)[8 + i] == 0xFF - Output(INITIAL)[i]
      {
        InitialBytes(i);
      }
    }

    /** `MD5Update`. */
    method Update(data: seq<Byte>)
      requires Valid()
      modifies this, input
      ensures Valid() && message == old(message) + data
    {
      hide Blocks, Compress, BlockWords, Tail;
      var t := bits0;
      WaitingBytes(bits0, bits1, |message|);
      CountBytes(bits0, bits1, |message|, |data|);
      bits0 := Plus(t, 8 * (|data| % WORD_SPACE) % WORD_SPACE);
      if bits0 < t {
        bits1 := Plus(bits1, 1);
      }
      bits1 := Plus(bits1, |data| / 0x2000_0000 % WORD_SPACE);
      t := t / 8 % 64;
      Absorb(t, data);
    }

    /** The bytes of `data`: filling up the waiting block, then whole blocks, then the rest. */
    method Absorb(t: nat, data: seq<Byte>)
      requires input.Length == 64 && t == |Tail(message)|
      requires buf == Blocks(INITIAL, message) && input[..t] == Tail(message)
      modifies `buf, `message, input
      ensures message == old(message) + data
      ensures buf == Blocks(INITIAL, message) && input[..|Tail(message)|] == Tail(message)
    {
      hide Blocks, Compress, BlockWords, Tail, Whole;
      ghost var whole, rest := Whole(message), Tail(message);
      WholeAndTail(whole, rest);
      var k := 0;
      if t != 0 {
        var room := 64 - t;
        if |data| < room {
          Copy(input, t, data);
          Associative(whole, rest, data);
          WholeAndTail(whole, rest + data);
          message := message + data;
          return;
        }
        Copy(input, t, data[..room]);
        Associative(whole, rest, data[..room]);
        TakeMore(message, data, 0, room);
        BlocksSnoc(INITIAL, whole, input[..]);
        buf := Transform(buf, BlockWords(input[..]));
        k := room;
      } else {
        assert (message + data)[..|message|] == message;
      }
      AbsorbBlocks(k, data);
    }

    method AbsorbBlocks(first: nat, data: seq<Byte>)
      requires input.Length == 64 && first <= |data| && (|message| + first) % 64 == 0
      requires buf == Blocks(INITIAL, (message + data)[..|message| + first])
      modifies `buf, `message, input
      ensures message == old(message) + data
      ensures buf == Blocks(INITIAL, message) && input[..|Tail(message)|] == Tail(message)
    {
      hide Blocks, Compress, BlockWords, Tail;
      ghost var n, total := |message|, message + data;
      var k := first;
      while |data| - k >= 64
        invariant k <= |data| && (n + k) % 64 == 0 && message == old(message)
        invariant buf == Blocks(INITIAL, total[..n + k])
      {
        Copy(input, 0, data[k..k + 64]);
        TakeMore(message, data, k, 64);
        BlocksSnoc(INITIAL, total[..n + k], input[..]);
        buf := Transform(buf, BlockWords(input[..]));
        k := k + 64;
      }
      Copy(input, 0, data[k..]);
      TakeMore(message, data, k, |data| - k);
      WholeAndTail(total[..n + k], data[k..]);
      message := total;
    }

    /** `MD5Final`. The context is cleared. */
    method Final() returns (digest: seq<Byte>)
      requires Valid()
      modifies this, input
      ensures digest == Digest(old(message))
      ensures buf == State(0, 0, 0, 0) && bits0 == 0 && bits1 == 0 && input[..] == Zeros(64)
    {
      hide Blocks, Compress, BlockWords, Write, Padded, Tail, Whole, Zeros, Output, LengthField;
      ghost var m, whole, rest := message, Whole(message), Tail(message);
      WholeAndTail(whole, rest);
      WaitingBytes(bits0, bits1, |m|);
      var count := bits0 / 8 % 64;
      assert count == |rest|;
      input[count] := 0x80;
      var p := count + 1;
      assert input[..p] == rest + [0x80];
      count := 64 - 1 - count;
      if count < 8 {
        Copy(input, p, Zeros(count));
        TwoLastBlocks(whole, rest);
        buf := Transform(buf, BlockWords(input[..]));
        Copy(input, 0, Zeros(56));
      } else {
        Copy(input, p, Zeros(count - 8));
        OneLastBlock(whole, rest);
      }
      AppendLength(|m|);
      buf := Transform(buf, BlockWords(input[..]));
      assert buf == Blocks(INITIAL, Padded(m));
      digest := Output(buf);
      buf, bits0, bits1 := State(0, 0, 0, 0), 0, 0;
      Copy(input, 0, Zeros(64));
    }

    /** The two words of the bit count, in the last eight bytes. */
    method AppendLength(ghost n: nat)
      requires input.Length == 64 && bits0 + WORD_SPACE * bits1 == 8 * n % ADDRESS_SPACE
      modifies input
      ensures input[..] == old(input[..56]) + LengthField(n)
    {
      hide Write;
      LengthBytes(bits0, bits1);
      Copy(input, 56, Write(Little, bits0, 4));
      Copy(input, 60, Write(Little, bits1, 4));
    }
  }

  /** The next `count` bytes of the whole message. */
  lemma TakeMore(m: seq<Byte>, data: seq<Byte>, k: nat, count: nat)
    requires k + count <= |data|
    ensures (m + data)[..|m| + k + count] == (m + data)[..|m| + k] + data[k..k + count]
    ensures k == 0 ==> (m + data)[..|m|] == m
    ensures k + count == |data| ==> m + data == (m + data)[..|m| + k] + data[k..]
  {
  }

  lemma CountBytes(low: Word, high: Word, n: nat, len: nat)
    requires low + WORD_SPACE * high == 8 * n % ADDRESS_SPACE
    ensures var (l, h) := AddBits(low, high, len); l + WORD_SPACE * h == 8 * (n + len) % ADDRESS_SPACE
  {
    hide AddBits;
    AddBitsAdds(low, high, len);
    var q := 8 * n / ADDRESS_SPACE;
    var sum := low + WORD_SPACE * high + 8 * len;
    ModuloIs(8 * (n + len), ADDRESS_SPACE, q + sum / ADDRESS_SPACE, sum % ADDRESS_SPACE);
  }

  function Concatenation(chunks: seq<seq<Byte>>): seq<Byte> {
    if chunks == [] then [] else Concatenation(chunks[..|chunks| - 1]) + chunks[|chunks| - 1]
  }

  /** However a message is cut into updates, the digest is that of the message. */
  method DigestOfChunks(chunks: seq<seq<Byte>>) returns (digest: seq<Byte>)
    ensures digest == Digest(Concatenation(chunks))
  {
    hide Digest;
    var context := new MD5Context();
    for i := 0 to |chunks|
      invariant context.Valid() && fresh(context) && fresh(context.input)
      invariant context.message == Concatenation(chunks[..i])
    {
      context.Update(chunks[i]);
      assert chunks[..i + 1][..i] == chunks[..i];
    }
    assert chunks[..|chunks|] == chunks;
    digest := context.Final();
  }
}
