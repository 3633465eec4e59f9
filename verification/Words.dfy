/** 32-bit words: arithmetic modulo 2^32 and the bitwise operations. */
module Words {
  import opened Leb128

  type Word = x: int | 0 <= x < 0x1_0000_0000

  lemma Width()
    ensures Pow2(32) == 0x1_0000_0000
  {
    hide Pow2;
    Pow2Small();
    Pow2Sum(8, 8);
    Pow2Sum(16, 16);
  }

  function Plus(x: Word, y: Word): Word {
    if x + y < 0x1_0000_0000 then x + y else x + y - 0x1_0000_0000
  }

  // ---------- Bit by bit ----------

  /** `x` has at most `n` bits. */
  predicate Fits(n: nat, x: int) {
    0 <= x < Pow2(n)
  }

  function AndBits(n: nat, x: nat, y: nat): (r: nat)
    requires Fits(n, x) && Fits(n, y)
    ensures Fits(n, r)
  {
    if n == 0 then 0 else (if x % 2 == 1 && y % 2 == 1 then 1 else 0) + 2 * AndBits(n - 1, x / 2, y / 2)
  }

  function OrBits(n: nat, x: nat, y: nat): (r: nat)
    requires Fits(n, x) && Fits(n, y)
    ensures Fits(n, r)
  {
    if n == 0 then 0 else (if x % 2 == 1 || y % 2 == 1 then 1 else 0) + 2 * OrBits(n - 1, x / 2, y / 2)
  }

  function XorBits(n: nat, x: nat, y: nat): (r: nat)
    requires Fits(n, x) && Fits(n, y)
    ensures Fits(n, r)
  {
    if n == 0 then 0 else (if x % 2 != y % 2 then 1 else 0) + 2 * XorBits(n - 1, x / 2, y / 2)
  }

  function NotBits(n: nat, x: nat): (r: nat)
    requires Fits(n, x)
    ensures Fits(n, r)
  {
    if n == 0 then 0 else (1 - x % 2) + 2 * NotBits(n - 1, x / 2)
  }

  function And(x: Word, y: Word): Word {
    Width();
    AndBits(32, x, y)
  }

  function Or(x: Word, y: Word): Word {
    Width();
    OrBits(32, x, y)
  }

  function Xor(x: Word, y: Word): Word {
    Width();
    XorBits(32, x, y)
  }

  function Not(x: Word): Word {
    Width();
    NotBits(32, x)
  }

  function ShiftLeft(x: Word, s: nat): Word {
    if s == 0 then x else ShiftLeft(x, s - 1) * 2 % 0x1_0000_0000
  }

  function ShiftRight(x: Word, s: nat): Word {
    if s == 0 then x else ShiftRight(x, s - 1) / 2
  }

  /** The circular shift. */
  function Rotate(x: Word, s: nat): Word
    requires s < 32
  {
    Or(ShiftLeft(x, s), ShiftRight(x, 32 - s))
  }

  lemma Halves(n: nat, x: nat, y: nat)
    requires n > 0 && Fits(n, x) && Fits(n, y)
    ensures Fits(n - 1, x / 2) && Fits(n - 1, y / 2)
    ensures AndBits(n, x, y) / 2 == AndBits(n - 1, x / 2, y / 2)
    ensures AndBits(n, x, y) % 2 == if x % 2 == 1 && y % 2 == 1 then 1 else 0
    ensures OrBits(n, x, y) / 2 == OrBits(n - 1, x / 2, y / 2)
    ensures OrBits(n, x, y) % 2 == if x % 2 == 1 || y % 2 == 1 then 1 else 0
    ensures XorBits(n, x, y) / 2 == XorBits(n - 1, x / 2, y / 2)
    ensures XorBits(n, x, y) % 2 == if x % 2 != y % 2 then 1 else 0
    ensures NotBits(n, x) / 2 == NotBits(n - 1, x / 2) && NotBits(n, x) % 2 == 1 - x % 2
  {
  }

  /** The lowest bits of the two sides of ChooseBits. */
  lemma ChooseLowest(n: nat, x: nat, y: nat, z: nat)
    requires n > 0 && Fits(n, x) && Fits(n, y) && Fits(n, z)
    ensures XorBits(n, z, AndBits(n, x, XorBits(n, y, z))) % 2
            == OrBits(n, AndBits(n, x, y), AndBits(n, NotBits(n, x), z)) % 2
  {
    hide Fits, AndBits, OrBits, XorBits, NotBits;
    Halves(n, x, y);
    Halves(n, y, z);
    Halves(n, x, XorBits(n, y, z));
    Halves(n, z, AndBits(n, x, XorBits(n, y, z)));
    Halves(n, NotBits(n, x), z);
    Halves(n, AndBits(n, x, y), AndBits(n, NotBits(n, x), z));
  }

  /** Choosing between the bits of `y` and `z` by those of `x`, two ways. */
  lemma {:induction false} ChooseBits(n: nat, x: nat, y: nat, z: nat)
    requires Fits(n, x) && Fits(n, y) && Fits(n, z)
    ensures XorBits(n, z, AndBits(n, x, XorBits(n, y, z)))
            == OrBits(n, AndBits(n, x, y), AndBits(n, NotBits(n, x), z))
  {
    if n == 0 {
      NoBits(z, AndBits(n, x, XorBits(n, y, z)));
      NoBits(AndBits(n, x, y), AndBits(n, NotBits(n, x), z));
    } else {
      ChooseLowest(n, x, y, z);
      Halves(n, y, z);
      Halves(n, x, y);
      ChooseBits(n - 1, x / 2, y / 2, z / 2);
      hide Fits, AndBits, OrBits, XorBits, NotBits;
      Halves(n, x, XorBits(n, y, z));
      Halves(n, z, AndBits(n, x, XorBits(n, y, z)));
      Halves(n, NotBits(n, x), z);
      Halves(n, AndBits(n, x, y), AndBits(n, NotBits(n, x), z));
      SameHalves(XorBits(n, z, AndBits(n, x, XorBits(n, y, z))), OrBits(n, AndBits(n, x, y), AndBits(n, NotBits(n, x), z)));
    }
  }

  lemma NoBits(x: nat, y: nat)
    requires Fits(0, x) && Fits(0, y)
    ensures OrBits(0, x, y) == 0 == XorBits(0, x, y)
  {
  }

  lemma SameHalves(x: int, y: int)
    requires x / 2 == y / 2 && x % 2 == y % 2
    ensures x == y
  {
  }

  lemma {:induction false} AndCommutes(n: nat, x: nat, y: nat)
    requires Fits(n, x) && Fits(n, y)
    ensures AndBits(n, x, y) == AndBits(n, y, x)
  {
    if n > 0 {
      AndCommutes(n - 1, x / 2, y / 2);
    }
  }
}
