/** A cursor over a byte buffer that remembers whether it ever ran off the end. */
module ByteCursor {
  import opened Arithmetic
  import opened FixedWidth
  import opened Leb128

  /** A C++ integer type; conversions to it wrap around. */
  datatype IntType = IntType(bytes: nat, signed: bool)
  {
    /** The value of this type that equals `x` modulo its size. */
    function Wrap(x: int): int {
      var m := Pow256(bytes);
      if signed && 2 * (x % m) >= m then x % m - m else x % m
    }
  }

  const SIZE_T := IntType(8, false)
  const UINT8 := IntType(1, false)
  const INT16 := IntType(2, true)
  const UINT64 := IntType(8, false)

  /** What `Read` is for: `x` was stored in `size` bytes, in two's complement when the reader asks for a signed number
      of a wider type. */
  function Meaning(t: IntType, size: nat, isSigned: bool, x: nat): int {
    if isSigned && size < t.bytes && 2 * x >= Pow256(size) then t.Wrap(x - Pow256(size)) else t.Wrap(x)
  }

  /** Wrapping before shifting in a byte makes no difference once the result is wrapped. */
  lemma WrapShifted(t: IntType, x: nat, b: Byte)
    ensures t.Wrap(0x100 * t.Wrap(x) + b) == t.Wrap(0x100 * x + b)
  {
    hide Pow256;
    var m := Pow256(t.bytes);
    var y := t.Wrap(x);
    var k := if y == x % m then -(x / m) else -(x / m) - 1;
    assert x == m * (x / m) + x % m;
    assert m * k == if y == x % m then -(m * (x / m)) else -(m * (x / m)) - m;
    assert y == x + m * k;
    Scaled(m, k);
    AddMultiple(0x100 * x + b, m, 0x100 * k);
  }

  lemma Scaled(m: int, k: int)
    ensures m * (0x100 * k) == 0x100 * (m * k)
  {
  }

  class ByteCursor {
    const buffer: seq<Byte>
    var bigEndian: bool
    var here: nat
    var complete: bool

    ghost predicate Valid()
      reads this
    {
      here <= |buffer| && (!complete ==> here == |buffer|)
    }

    constructor (buffer: seq<Byte>, bigEndian: bool)
      ensures Valid() && here == 0 && complete && this.buffer == buffer && this.bigEndian == bigEndian
    {
      this.buffer, this.bigEndian := buffer, bigEndian;
      here, complete := 0, true;
    }

    function Order(): Endianness
      reads this
    {
      if bigEndian then Big else Little
    }

    /** When there are too few bytes left, the cursor moves to the end and is incomplete for good. */
    method CheckAvailable(size: nat) returns (ok: bool)
      requires Valid()
      modifies `here, `complete
      ensures Valid() && ok == (old(here) + size <= |buffer|)
      ensures here == if ok then old(here) else |buffer|
      ensures complete == (old(complete) && ok)
    {
      ok := |buffer| - here >= size;
      if !ok {
        here, complete := |buffer|, false;
      }
    }

    /** The number stored in the next `size` bytes, or a dummy. After a failed read every read of at least one byte
        fails. */
    method Read(size: nat, isSigned: bool, t: IntType) returns (result: int)
      requires Valid() && (isSigned ==> size > 0)
      modifies `here, `complete
      ensures Valid() && complete == (old(complete) && old(here) + size <= |buffer|)
      ensures here == if old(here) + size <= |buffer| then old(here) + size else |buffer|
      ensures old(here) + size <= |buffer| ==>
                result == Meaning(t, size, isSigned, FixedWidth.Read(Order(), buffer[old(here)..old(here) + size]))
      ensures !(old(here) + size <= |buffer|) ==> result == t.Wrap(0xDEAD_BEEF)
      ensures !t.signed ==> 0 <= result < Pow256(t.bytes)
    {
      hide IntType.Wrap, Meaning, FixedWidth.Read, Pow256;
      UnsignedRange(t);
      var ok := CheckAvailable(size);
      if ok {
        var v;
        if bigEndian {
          v := AccumulateBig(size, t);
        } else {
          v := AccumulateLittle(size, t);
        }
        ghost var x := FixedWidth.Read(Order(), buffer[here..here + size]);
        if isSigned && size < t.bytes {
          var signBit := Pow256(size - 1) * 0x80;
          MeaningSigned(t, size, x);
          // (v ^ signBit) - signBit
          v := t.Wrap((if v < signBit then v + signBit else v - signBit) - signBit);
        } else {
          MeaningUnsigned(t, size, isSigned, x);
        }
        here := here + size;
        result := v;
      } else {
        result := t.Wrap(0xDEAD_BEEF);
      }
    }

    method AccumulateBig(size: nat, t: IntType) returns (v: int)
      requires here + size <= |buffer|
      ensures v == t.Wrap(FixedWidth.Read(Big, buffer[here..here + size]))
    {
      hide IntType.Wrap, Pow256;
      ghost var s := buffer[here..here + size];
      v := 0;
      WrapZero(t);
      for i := 0 to size
        invariant v == t.Wrap(FixedWidth.Read(Big, s[..i]))
      {
        ReadLast(s, i);
        WrapShifted(t, FixedWidth.Read(Big, s[..i]), s[i]);
        v := t.Wrap(0x100 * v + buffer[here + i]);
      }
      assert s[..size] == s;
    }

    method AccumulateLittle(size: nat, t: IntType) returns (v: int)
      requires here + size <= |buffer|
      ensures v == t.Wrap(FixedWidth.Read(Little, buffer[here..here + size]))
    {
      hide IntType.Wrap, Pow256;
      ghost var s := buffer[here..here + size];
      v := 0;
      WrapZero(t);
      for i := size downto 0
        invariant v == t.Wrap(FixedWidth.Read(Little, s[i..]))
      {
        ReadFirst(s, i);
        WrapShifted(t, FixedWidth.Read(Little, s[i + 1..]), s[i]);
        v := t.Wrap(0x100 * v + buffer[here + i]);
      }
    }
  }

  lemma WrapZero(t: IntType)
    ensures t.Wrap(0) == 0 && FixedWidth.Read(Big, []) == 0 == FixedWidth.Read(Little, [])
  {
    AddMultiple(0, Pow256(t.bytes), 0);
  }

  lemma ReadLast(s: seq<Byte>, i: nat)
    requires i < |s|
    ensures FixedWidth.Read(Big, s[..i + 1]) == 0x100 * FixedWidth.Read(Big, s[..i]) + s[i]
  {
    assert s[..i + 1] == s[..i] + [s[i]];
    ReadDigit(Big, s[i], s[..i]);
  }

  lemma ReadFirst(s: seq<Byte>, i: nat)
    requires i < |s|
    ensures FixedWidth.Read(Little, s[i..]) == 0x100 * FixedWidth.Read(Little, s[i + 1..]) + s[i]
  {
    assert s[i..] == [s[i]] + s[i + 1..];
    ReadDigit(Little, s[i], s[i + 1..]);
  }

  lemma UnsignedRange(t: IntType)
    ensures !t.signed ==> forall y :: 0 <= t.Wrap(y) < Pow256(t.bytes)
  {
  }

  /** An unsigned number read into a type at least as wide is itself. */
  lemma UnsignedRead(t: IntType, size: nat, x: nat)
    requires !t.signed && size <= t.bytes && x < Pow256(size)
    ensures Meaning(t, size, false, x) == x < Pow256(t.bytes)
  {
    PowGrows(size, t.bytes);
    hide Pow256;
    ModuloIs(x, Pow256(t.bytes), 0, x);
  }

  /** A number stored in fewer bytes than its type has is not wrapped. */
  lemma {:induction false} Narrow(t: IntType, size: nat, x: nat)
    requires size < t.bytes && x < Pow256(size)
    ensures t.Wrap(x) == x
    ensures Pow256(size) * 0x100 <= Pow256(t.bytes)
  {
    PowGrows(size + 1, t.bytes);
    hide Pow256;
    ModuloIs(x, Pow256(t.bytes), 0, x);
  }

  lemma {:induction false} PowGrows(j: nat, k: nat)
    requires j <= k
    ensures Pow256(j) <= Pow256(k)
  {
    if j < k {
      PowGrows(j, k - 1);
    }
  }

  lemma MeaningSigned(t: IntType, size: nat, x: nat)
    requires 0 < size < t.bytes && x < Pow256(size)
    ensures var v, bit := t.Wrap(x), Pow256(size - 1) * 0x80;
            Meaning(t, size, true, x) == t.Wrap((if v < bit then v + bit else v - bit) - bit)
  {
    Narrow(t, size, x);
    assert Pow256(size) == 2 * (Pow256(size - 1) * 0x80);
  }

  lemma MeaningUnsigned(t: IntType, size: nat, isSigned: bool, x: nat)
    requires !(isSigned && size < t.bytes)
    ensures Meaning(t, size, isSigned, x) == t.Wrap(x)
  {
  }

  /** A signed number of fewer bytes than its type keeps its value. */
  lemma SignedRead(t: IntType, size: nat, n: int)
    requires t.signed && 0 < size < t.bytes
    requires -(Pow256(size - 1) * 0x80) <= n < Pow256(size - 1) * 0x80
    ensures Meaning(t, size, true, if n < 0 then n + Pow256(size) else n) == n
  {
    var m := Pow256(t.bytes);
    assert Pow256(size) == 2 * (Pow256(size - 1) * 0x80);
    Narrow(t, size, 0);
    hide Pow256;
    if n < 0 {
      ModuloIs(n, m, -1, n + m);
    } else {
      ModuloIs(n, m, 0, n);
    }
  }
}
