/** LEB128 numbers (section 7.6 of DWARF 4): the writers' and readers' loops over 64-bit values. */
module Leb128 {
  import opened Addresses

  type Byte = b: int | 0 <= b < 0x100

  // ---------- Bit operations on integers ----------

  /** The bitwise or of two non-negative integers. */
  function BitOr(a: nat, b: nat): nat {
    if a == 0 then b
    else if b == 0 then a
    else (if a % 2 == 1 || b % 2 == 1 then 1 else 0) + 2 * BitOr(a / 2, b / 2)
  }

  function Pow2(k: nat): (p: nat)
    ensures p > 0
  {
    if k == 0 then 1 else 2 * Pow2(k - 1)
  }

  /** `x << shift` in a uint64. */
  function ShiftLeft(x: Byte, shift: nat): Address {
    x * Pow2(shift) % ADDRESS_SPACE
  }

  /** Bits that do not meet add up: `|` is addition when one side lies below bit `k` and the other starts there. */
  lemma {:induction false} OrIsSum(a: nat, c: nat, k: nat)
    requires a < Pow2(k)
    ensures BitOr(a, Pow2(k) * c) == a + Pow2(k) * c
  {
    if k != 0 && a != 0 && c != 0 {
      var b := Pow2(k - 1) * c;
      Doubled(Pow2(k - 1), c);
      assert Pow2(k) * c == 2 * b;
      OrIsSum(a / 2, c, k - 1);
      Positive(Pow2(k - 1), c);
    }
  }

  lemma Doubled(x: int, c: int)
    ensures 2 * x * c == 2 * (x * c)
  {
  }

  lemma Positive(x: int, c: int)
    requires 0 < x && 0 < c
    ensures 0 < x * c
  {
  }

  lemma {:induction false} Pow2Sum(j: nat, k: nat)
    ensures Pow2(j + k) == Pow2(j) * Pow2(k)
  {
    if j != 0 {
      Pow2Sum(j - 1, k);
      Doubled(Pow2(j - 1), Pow2(k));
    }
  }

  lemma Pow2Small()
    ensures Pow2(1) == 2 && Pow2(6) == 0x40 && Pow2(7) == 0x80 && Pow2(8) == 0x100
  {
    assert Pow2(0) == 1;
    assert Pow2(1) == 2;
    assert Pow2(2) == 4;
    assert Pow2(3) == 8;
    assert Pow2(4) == 0x10;
    assert Pow2(5) == 0x20;
    assert Pow2(6) == 0x40;
  }

  lemma Pow2Group(k: nat)
    ensures Pow2(7 + k) == 0x80 * Pow2(k)
  {
    hide Pow2;
    Pow2Small();
    Pow2Sum(7, k);
  }

  // ---------- The encodings ----------

  /** `ULEB128`: groups of seven bits, the lowest first, all but the last with the top bit set. */
  function EncodeUnsigned(n: nat): (r: seq<Byte>)
    ensures r != []
  {
    if n <= 0x7F then [n] else [n % 0x80 + 0x80] + EncodeUnsigned(n / 0x80)
  }

  /** `LEB128`. The arithmetic shift of the source is division rounding down, as Dafny's is here. */
  function EncodeSigned(n: int): (r: seq<Byte>)
    ensures r != []
    decreases if n < 0 then -n else n
  {
    if -0x40 <= n <= 0x3F then [n % 0x80] else [n % 0x80 + 0x80] + EncodeSigned(n / 0x80)
  }

  /** The examples of section 7.6 of DWARF 4. */
  lemma UnsignedExamples()
    ensures EncodeUnsigned(2) == [0x02] && EncodeUnsigned(127) == [0x7F] && EncodeUnsigned(128) == [0x80, 0x01]
    ensures EncodeUnsigned(129) == [0x81, 0x01] && EncodeUnsigned(130) == [0x82, 0x01] && EncodeUnsigned(12857) == [0xB9, 0x64]
  {
  }

  lemma SignedExamples()
    ensures EncodeSigned(2) == [0x02] && EncodeSigned(-2) == [0x7E]
    ensures EncodeSigned(127) == [0xFF, 0x00] && EncodeSigned(-127) == [0x81, 0x7F]
    ensures EncodeSigned(128) == [0x80, 0x01] && EncodeSigned(-128) == [0x80, 0x7F]
    ensures EncodeSigned(129) == [0x81, 0x01] && EncodeSigned(-129) == [0xFF, 0x7E]
  {
  }

  // ---------- The value of a list of groups ----------

  /** More bytes follow. */
  predicate More(b: Byte) {
    b >= 0x80
  }

  /** Bit 6: the sign, in the last byte. */
  predicate SignBit(b: Byte) {
    b % 0x80 >= 0x40
  }

  function Value(s: seq<Byte>): nat {
    if s == [] then 0 else s[0] % 0x80 + 0x80 * Value(s[1..])
  }

  /** The value with the last group taken as a signed number. */
  function SignedValue(s: seq<Byte>): int
    requires s != []
  {
    Value(s) - if SignBit(s[|s| - 1]) then Pow2(7 * |s|) else 0
  }

  /** `s` is one number: all bytes but the last are marked. */
  ghost predicate Number(s: seq<Byte>) {
    s != [] && !More(s[|s| - 1]) && forall i :: 0 <= i < |s| - 1 ==> More(s[i])
  }

  lemma {:induction false} EncodeUnsignedValue(n: nat)
    ensures Number(EncodeUnsigned(n)) && Value(EncodeUnsigned(n)) == n
  {
    hide Number, Value;
    if n <= 0x7F {
      OneGroup(n);
    } else {
      EncodeUnsignedValue(n / 0x80);
      GroupOf(n);
      MoreGroups(n % 0x80 + 0x80, EncodeUnsigned(n / 0x80));
    }
  }

  lemma GroupOf(n: int)
    ensures (n % 0x80 + 0x80) % 0x80 == n % 0x80 && n == n % 0x80 + 0x80 * (n / 0x80)
  {
  }

  lemma {:induction false} EncodeSignedValue(n: int)
    ensures Number(EncodeSigned(n)) && SignedValue(EncodeSigned(n)) == n
    decreases if n < 0 then -n else n
  {
    hide Number, SignedValue;
    if -0x40 <= n <= 0x3F {
      OneGroup(n % 0x80);
    } else {
      EncodeSignedValue(n / 0x80);
      GroupOf(n);
      MoreGroups(n % 0x80 + 0x80, EncodeSigned(n / 0x80));
    }
  }

  lemma OneGroup(b: Byte)
    requires !More(b)
    ensures Number([b]) && Value([b]) == b && SignedValue([b]) == if SignBit(b) then b - 0x80 else b
  {
    Pow2Small();
    assert [b][1..] == [] && Value([b]) == b;
    assert Pow2(7 * |[b]|) == Pow2(7);
  }

  lemma MoreGroups(b: Byte, rest: seq<Byte>)
    requires More(b) && Number(rest)
    ensures Number([b] + rest) && Value([b] + rest) == b % 0x80 + 0x80 * Value(rest)
    ensures SignedValue([b] + rest) == b % 0x80 + 0x80 * SignedValue(rest)
  {
    var s := [b] + rest;
    assert s[1..] == rest && s[|s| - 1] == rest[|rest| - 1];
    Pow2Group(7 * |rest|);
    assert 7 * |s| == 7 + 7 * |rest|;
  }

  // ---------- Ten bytes suffice ----------

  lemma {:induction false} EncodeUnsignedLength(n: nat, k: nat)
    requires 0 < k && n < Pow2(7 * k)
    ensures |EncodeUnsigned(n)| <= k
  {
    hide Pow2;
    Pow2Small();
    if n > 0x7F {
      assert k == 1 ==> 7 * k == 7;
      Pow2Group(7 * (k - 1));
      EncodeUnsignedLength(n / 0x80, k - 1);
    }
  }

  lemma {:induction false} EncodeSignedLength(n: int, k: nat)
    requires 0 < k && 0 - Pow2(7 * k - 1) <= n < Pow2(7 * k - 1)
    ensures |EncodeSigned(n)| <= k
    decreases k
  {
    hide Pow2;
    Pow2Small();
    if !(-0x40 <= n <= 0x3F) {
      assert k == 1 ==> 7 * k - 1 == 6;
      Pow2Group(7 * (k - 1) - 1);
      EncodeSignedLength(n / 0x80, k - 1);
    }
  }

  lemma Pow64()
    ensures Pow2(64) == ADDRESS_SPACE && Pow2(63) == 0x8000_0000_0000_0000 && Pow2(70) == 0x40 * ADDRESS_SPACE
  {
    hide Pow2;
    Pow2Small();
    Pow2Sum(8, 8);
    Pow2Sum(16, 16);
    Pow2Sum(32, 32);
    Pow2Sum(1, 63);
    Pow2Sum(6, 64);
  }

  // ---------- Reading ----------

  /** A number of `len` bytes starts at `pos`. */
  ghost predicate NumberAt(buffer: seq<Byte>, pos: nat, len: nat) {
    pos + len <= |buffer| && Number(buffer[pos..pos + len])
  }

  /** A number of at most ten bytes starts at `pos`: the source shifts a 64-bit value by at most 63. */
  ghost predicate Readable(buffer: seq<Byte>, pos: nat) {
    exists k :: 0 < k <= 10 && NumberAt(buffer, pos, k)
  }

  lemma {:induction false} ValueBound(s: seq<Byte>)
    ensures Value(s) < Pow2(7 * |s|)
  {
    if s != [] {
      ValueBound(s[1..]);
      Pow2Group(7 * (|s| - 1));
    }
  }

  lemma {:induction false} ValueSnoc(s: seq<Byte>, b: Byte)
    ensures Value(s + [b]) == Value(s) + b % 0x80 * Pow2(7 * |s|)
  {
    if s != [] {
      assert (s + [b])[1..] == s[1..] + [b];
      ValueSnoc(s[1..], b);
      Pow2Group(7 * (|s| - 1));
      Factor(b % 0x80, Pow2(7 * (|s| - 1)));
    } else {
      assert (s + [b])[1..] == [];
    }
  }

  lemma Factor(x: int, y: int)
    ensures 0x80 * (x * y) == x * (0x80 * y)
  {
  }

  /** One turn of the readers' loop: or-ing in the next group adds it, modulo 2^64. */
  lemma GroupAdds(s: seq<Byte>, k: nat)
    requires k < |s| && k <= 9
    ensures Value(s[..k]) < ADDRESS_SPACE
    ensures BitOr(Value(s[..k]), ShiftLeft(s[k] % 0x80, 7 * k)) == Value(s[..k + 1]) % ADDRESS_SPACE
  {
    hide BitOr, ShiftLeft, Value, Pow2;
    var low, x := Value(s[..k]), s[k] % 0x80;
    ValueBound(s[..k]);
    ValueSnoc(s[..k], s[k]);
    assert s[..k] + [s[k]] == s[..k + 1];
    if k == 9 {
      TopGroupAdds(low, x);
    } else {
      LowGroupAdds(low, x, k);
    }
  }

  lemma LowGroupAdds(low: nat, x: int, k: nat)
    requires k < 9 && low < Pow2(7 * k) && 0 <= x < 0x80
    ensures low < ADDRESS_SPACE
    ensures BitOr(low, ShiftLeft(x, 7 * k)) == (low + x * Pow2(7 * k)) % ADDRESS_SPACE
  {
    hide BitOr, Pow2;
    SmallGroup(x, k);
    OrIsSum(low, x, 7 * k);
    assert Pow2(7 * k) * x == x * Pow2(7 * k);
  }

  lemma TopGroupAdds(low: nat, x: int)
    requires low < Pow2(63) && 0 <= x < 0x80
    ensures low < ADDRESS_SPACE
    ensures BitOr(low, ShiftLeft(x, 63)) == (low + x * Pow2(63)) % ADDRESS_SPACE
  {
    hide BitOr, Pow2;
    Pow64();
    TopGroup(x);
    OrIsSum(low, x % 2, 63);
    TopSum(low, x);
  }

  lemma TopSum(low: int, x: int)
    requires 0 <= low < 0x8000_0000_0000_0000 && 0 <= x < 0x80
    ensures (low + x * 0x8000_0000_0000_0000) % ADDRESS_SPACE == low + 0x8000_0000_0000_0000 * (x % 2)
  {
  }

  /** Of the tenth group only the lowest bit is inside 64 bits. */
  lemma TopGroup(x: int)
    requires 0 <= x < 0x80
    ensures x * 0x8000_0000_0000_0000 % ADDRESS_SPACE == 0x8000_0000_0000_0000 * (x % 2)
  {
  }

  /** The first nine groups stay inside 63 bits. */
  lemma SmallGroup(x: int, k: nat)
    requires 0 <= x < 0x80 && k < 9
    ensures x * Pow2(7 * k) % ADDRESS_SPACE == x * Pow2(7 * k)
    ensures Pow2(7 * k) <= Pow2(56) && x * Pow2(7 * k) + Pow2(7 * k) <= 0x8000_0000_0000_0000
  {
    hide Pow2;
    Pow64();
    Pow2Group(56);
    Pow2Grows(7 * k, 56);
    Product(x, Pow2(7 * k), Pow2(56));
  }

  lemma {:induction false} Pow2Grows(j: nat, k: nat)
    requires j <= k
    ensures Pow2(j) <= Pow2(k)
  {
    if j < k {
      Pow2Grows(j, k - 1);
    }
  }

  lemma Product(x: int, p: int, q: int)
    requires 0 <= x < 0x80 && 0 < p <= q
    ensures 0 <= x * p && x * p + p <= 0x80 * q
  {
  }

  /** `ReadUnsignedLEB128`. */
  method ReadUnsigned(buffer: seq<Byte>, pos: nat) returns (result: Address, len: nat)
    requires Readable(buffer, pos)
    ensures 0 < len <= 10 && NumberAt(buffer, pos, len)
    ensures result == Value(buffer[pos..pos + len]) % ADDRESS_SPACE
  {
    hide Value, ShiftLeft, BitOr;
    ghost var k :| 0 < k <= 10 && NumberAt(buffer, pos, k);
    ghost var s := buffer[pos..pos + k];
    NoGroups(s);
    result, len := 0, 0;
    var shift := 0;
    while true
      invariant len < k && shift == 7 * len && result == Value(s[..len]) % ADDRESS_SPACE
      decreases k - len
    {
      GroupAdds(s, len);
      var byte := buffer[pos + len];
      assert byte == s[len];
      len := len + 1;
      result := BitOr(result, ShiftLeft(byte % 0x80, shift));
      shift := shift + 7;
      if !More(byte) {
        break;
      }
    }
    assert buffer[pos..pos + len] == s[..len];
  }

  lemma NoGroups(s: seq<Byte>)
    ensures Value(s[..0]) == 0
  {
  }

  /** `ReadSignedLEB128`, its int64 result as the uint64 with the same bits. */
  method ReadSigned(buffer: seq<Byte>, pos: nat) returns (result: Address, len: nat)
    requires Readable(buffer, pos)
    ensures 0 < len <= 10 && NumberAt(buffer, pos, len)
    ensures result == SignedValue(buffer[pos..pos + len]) % ADDRESS_SPACE
  {
    hide Value, ShiftLeft, BitOr, SignedValue;
    ghost var k :| 0 < k <= 10 && NumberAt(buffer, pos, k);
    ghost var s := buffer[pos..pos + k];
    NoGroups(s);
    result, len := 0, 0;
    var shift := 0;
    var byte;
    while true
      invariant len < k && shift == 7 * len && result == Value(s[..len]) % ADDRESS_SPACE
      decreases k - len
    {
      GroupAdds(s, len);
      byte := buffer[pos + len];
      assert byte == s[len];
      len := len + 1;
      result := BitOr(result, ShiftLeft(byte % 0x80, shift));
      shift := shift + 7;
      if !More(byte) {
        break;
      }
    }
    assert buffer[pos..pos + len] == s[..len];
    SignExtends(s[..len]);
    if shift < 64 && SignBit(byte) {
      // -(1 << shift)
      result := BitOr(result, Sub(0, ShiftLeft(1, shift)));
    }
  }

  /** The readers' sign extension gives the signed value; at ten bytes nothing is left to extend. */
  lemma SignExtends(s: seq<Byte>)
    requires 0 < |s| <= 10
    ensures var result, sign := Value(s) % ADDRESS_SPACE, SignBit(s[|s| - 1]);
            && (sign && 7 * |s| < 64 ==>
                  BitOr(result, Sub(0, ShiftLeft(1, 7 * |s|))) == SignedValue(s) % ADDRESS_SPACE)
            && (!(sign && 7 * |s| < 64) ==> result == SignedValue(s) % ADDRESS_SPACE)
  {
    hide BitOr, ShiftLeft, Value;
    Pow64();
    ValueBound(s);
    if 7 * |s| < 64 {
      Pow2Grows(7 * |s|, 63);
      OrSign(Value(s), 7 * |s|);
    } else {
      assert |s| == 10;
      MultipleVanishes(Value(s));
    }
  }

  lemma MultipleVanishes(x: nat)
    ensures (x - Pow2(70)) % ADDRESS_SPACE == x % ADDRESS_SPACE
  {
    Pow64();
  }

  lemma OrSign(v: nat, k: nat)
    requires k < 64 && v < Pow2(k) <= Pow2(63)
    ensures v < ADDRESS_SPACE && (v - Pow2(k)) % ADDRESS_SPACE == v - Pow2(k) + ADDRESS_SPACE
    ensures BitOr(v, Sub(0, ShiftLeft(1, k))) == v - Pow2(k) + ADDRESS_SPACE
  {
    hide BitOr, Pow2;
    Pow64();
    Pow2Sum(k, 64 - k);
    assert ShiftLeft(1, k) == Pow2(k);
    hide ShiftLeft;
    TopBits(Pow2(k), Pow2(64 - k));
    OrIsSum(v, Pow2(64 - k) - 1, k);
  }

  lemma TopBits(p: nat, q: nat)
    ensures p * (q - 1) == p * q - p
  {
  }

  // ---------- Round trips ----------

  /** The length of the number at the front of `s`. */
  function NumberLength(s: seq<Byte>): nat {
    if s == [] then 0 else if More(s[0]) then 1 + NumberLength(s[1..]) else 1
  }

  lemma {:induction false} NumberHasLength(s: seq<Byte>, k: nat)
    requires k <= |s| && Number(s[..k])
    ensures k == NumberLength(s)
  {
    if k > 1 {
      assert s[1..][..k - 1] == s[..k][1..];
      NumberHasLength(s[1..], k - 1);
    }
  }

  /** No number is a proper prefix of another. */
  lemma NumberIsUnique(buffer: seq<Byte>, pos: nat, j: nat, k: nat)
    requires NumberAt(buffer, pos, j) && NumberAt(buffer, pos, k)
    ensures j == k
  {
    hide Number;
    var s := buffer[pos..];
    assert s[..j] == buffer[pos..pos + j] && s[..k] == buffer[pos..pos + k];
    NumberHasLength(s, j);
    NumberHasLength(s, k);
  }

  /** Every unsigned 64-bit value: whatever follows its encoding, the reader takes exactly the encoding and returns
      the value. */
  lemma UnsignedRoundTrip(n: Address, before: seq<Byte>, after: seq<Byte>, len: nat)
    ensures var buffer := before + EncodeUnsigned(n) + after;
            && Readable(buffer, |before|)
            && (NumberAt(buffer, |before|, len) ==>
                  len == |EncodeUnsigned(n)| && Value(buffer[|before|..|before| + len]) % ADDRESS_SPACE == n)
  {
    hide Number, Value;
    var code := EncodeUnsigned(n);
    var buffer := before + code + after;
    EncodeUnsignedValue(n);
    Pow64();
    EncodeUnsignedLength(n, 10);
    assert buffer[|before|..|before| + |code|] == code;
    assert NumberAt(buffer, |before|, |code|);
    if NumberAt(buffer, |before|, len) {
      NumberIsUnique(buffer, |before|, len, |code|);
    }
  }

  /** Every signed 64-bit value. */
  lemma SignedRoundTrip(n: int, before: seq<Byte>, after: seq<Byte>, len: nat)
    requires -0x8000_0000_0000_0000 <= n < 0x8000_0000_0000_0000
    ensures var buffer := before + EncodeSigned(n) + after;
            && Readable(buffer, |before|)
            && (NumberAt(buffer, |before|, len) ==>
                  len == |EncodeSigned(n)| && len > 0 && SignedValue(buffer[|before|..|before| + len]) == n)
  {
    hide Number, SignedValue;
    var code := EncodeSigned(n);
    var buffer := before + code + after;
    EncodeSignedValue(n);
    Pow64();
    Pow2Grows(63, 69);
    EncodeSignedLength(n, 10);
    assert buffer[|before|..|before| + |code|] == code;
    assert NumberAt(buffer, |before|, |code|);
    if NumberAt(buffer, |before|, len) {
      NumberIsUnique(buffer, |before|, len, |code|);
    }
  }
}
