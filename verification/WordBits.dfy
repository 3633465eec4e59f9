/** The operations of `Words`, which are defined bit by bit on integers, are those of 32-bit vectors. */
module WordBits {
  import opened Leb128
  import opened Words

  function Half(x: bv32): bv32 {
    x >> 1
  }

  predicate Odd(x: bv32) {
    x & 1 == 1
  }

  /** The number in the lowest `n` bits of `x`. */
  function LowBits(n: nat, x: bv32): (r: nat)
    ensures Words.Fits(n, r)
  {
    if n == 0 then 0 else (if Odd(x) then 1 else 0) + 2 * LowBits(n - 1, Half(x))
  }

  /** The number that a vector stands for. */
  function Numeral(x: bv32): Word {
    Width();
    LowBits(32, x)
  }

  // ---------- Bit by bit ----------

  lemma LowestNone(x: bv32)
    ensures LowBits(0, x) == 0
  {
  }

  lemma NothingToCombine()
    ensures Words.Fits(0, 0) && AndBits(0, 0, 0) == OrBits(0, 0, 0) == XorBits(0, 0, 0) == 0
  {
  }

  lemma LowestHalves(n: nat, x: bv32)
    requires n > 0
    ensures LowBits(n, x) / 2 == LowBits(n - 1, Half(x)) && (LowBits(n, x) % 2 == 1 <==> Odd(x))
  {
    hide Half, Odd;
  }

  function AndVector(x: bv32, y: bv32): bv32 {
    x & y
  }

  lemma AndHalves(x: bv32, y: bv32)
    ensures Half(AndVector(x, y)) == AndVector(Half(x), Half(y)) && (Odd(AndVector(x, y)) <==> Odd(x) && Odd(y))
  {
  }

  lemma {:induction false} AndLowest(n: nat, x: bv32, y: bv32)
    ensures AndBits(n, LowBits(n, x), LowBits(n, y)) == LowBits(n, AndVector(x, y))
  {
    hide Half, Odd, AndVector, AndBits, LowBits, Words.Fits;
    LowestNone(x);
    LowestNone(y);
    LowestNone(AndVector(x, y));
    if n == 0 {
      NothingToCombine();
    } else {
      LowestHalves(n, x);
      LowestHalves(n, y);
      LowestHalves(n, AndVector(x, y));
      AndHalves(x, y);
      Halves(n, LowBits(n, x), LowBits(n, y));
      AndLowest(n - 1, Half(x), Half(y));
      SameHalves(AndBits(n, LowBits(n, x), LowBits(n, y)), LowBits(n, AndVector(x, y)));
    }
  }

  lemma AndIs(x: bv32, y: bv32)
    ensures And(Numeral(x), Numeral(y)) == Numeral(x & y)
  {
    hide AndBits, LowBits, Words.Fits, Pow2;
    AndLowest(32, x, y);
  }

  function OrVector(x: bv32, y: bv32): bv32 {
    x | y
  }

  lemma OrHalves(x: bv32, y: bv32)
    ensures Half(OrVector(x, y)) == OrVector(Half(x), Half(y)) && (Odd(OrVector(x, y)) <==> Odd(x) || Odd(y))
  {
  }

  lemma {:induction false} OrLowest(n: nat, x: bv32, y: bv32)
    ensures OrBits(n, LowBits(n, x), LowBits(n, y)) == LowBits(n, OrVector(x, y))
  {
    hide Half, Odd, OrVector, OrBits, LowBits, Words.Fits;
    LowestNone(x);
    LowestNone(y);
    LowestNone(OrVector(x, y));
    if n == 0 {
      NothingToCombine();
    } else {
      LowestHalves(n, x);
      LowestHalves(n, y);
      LowestHalves(n, OrVector(x, y));
      OrHalves(x, y);
      Halves(n, LowBits(n, x), LowBits(n, y));
      OrLowest(n - 1, Half(x), Half(y));
      SameHalves(OrBits(n, LowBits(n, x), LowBits(n, y)), LowBits(n, OrVector(x, y)));
    }
  }

  lemma OrIs(x: bv32, y: bv32)
    ensures Or(Numeral(x), Numeral(y)) == Numeral(x | y)
  {
    hide OrBits, LowBits, Words.Fits, Pow2;
    OrLowest(32, x, y);
  }

  function XorVector(x: bv32, y: bv32): bv32 {
    x ^ y
  }

  lemma XorHalves(x: bv32, y: bv32)
    ensures Half(XorVector(x, y)) == XorVector(Half(x), Half(y)) && (Odd(XorVector(x, y)) <==> Odd(x) != Odd(y))
  {
  }

  lemma {:induction false} XorLowest(n: nat, x: bv32, y: bv32)
    ensures XorBits(n, LowBits(n, x), LowBits(n, y)) == LowBits(n, XorVector(x, y))
  {
    hide Half, Odd, XorVector, XorBits, LowBits, Words.Fits;
    LowestNone(x);
    LowestNone(y);
    LowestNone(XorVector(x, y));
    if n == 0 {
      NothingToCombine();
    } else {
      LowestHalves(n, x);
      LowestHalves(n, y);
      LowestHalves(n, XorVector(x, y));
      XorHalves(x, y);
      Halves(n, LowBits(n, x), LowBits(n, y));
      XorLowest(n - 1, Half(x), Half(y));
      SameHalves(XorBits(n, LowBits(n, x), LowBits(n, y)), LowBits(n, XorVector(x, y)));
    }
  }

  lemma XorIs(x: bv32, y: bv32)
    ensures Xor(Numeral(x), Numeral(y)) == Numeral(x ^ y)
  {
    hide XorBits, LowBits, Words.Fits, Pow2;
    XorLowest(32, x, y);
  }

  // ---------- A number from its bytes ----------

  function Half8(x: bv8): bv8 {
    x >> 1
  }

  lemma Half8Is(x: bv8)
    ensures x as int == (if x & 1 == 1 then 1 else 0) + 2 * (Half8(x) as int)
  {
    assert x as int == (x & 1) as int + 2 * ((x >> 1) as int);
  }

  /** The lowest byte, and what is above it. */
  function FirstByte(x: bv32): bv8 {
    (x & 0xFF) as bv8
  }

  function Above(x: bv32): bv32 {
    x >> 8
  }

  lemma ByteHalves(x: bv32, y: bv8)
    requires x == y as bv32
    ensures Half(x) == Half8(y) as bv32 && (Odd(x) <==> y & 1 == 1)
  {
  }

  lemma {:induction false} LowestOfByte(n: nat, x: bv32, y: bv8)
    requires x == y as bv32 && Words.Fits(n, y as int)
    ensures LowBits(n, x) == y as int
  {
    hide Half, Half8, Odd;
    if n != 0 {
      Half8Is(y);
      ByteHalves(x, y);
      LowestOfByte(n - 1, Half(x), Half8(y));
    }
  }

  /** The four lowest bits. */
  function Nibble(x: bv32): nat {
    (if Odd(x) then 1 else 0) + (if Odd(Half(x)) then 2 else 0)
    + (if Odd(Half(Half(x))) then 4 else 0) + (if Odd(Half(Half(Half(x)))) then 8 else 0)
  }

  function Sixteenth(x: bv32): bv32 {
    Half(Half(Half(Half(x))))
  }

  lemma LowestStep(n: nat, x: bv32)
    ensures LowBits(n + 1, x) == (if Odd(x) then 1 else 0) + 2 * LowBits(n, Half(x))
  {
  }

  lemma LowestFour(n: nat, x: bv32)
    ensures LowBits(n + 4, x) == Nibble(x) + 0x10 * LowBits(n, Sixteenth(x))
  {
    hide LowBits, Half, Odd;
    LowestStep(n + 3, x);
    LowestStep(n + 2, Half(x));
    LowestStep(n + 1, Half(Half(x)));
    LowestStep(n, Half(Half(Half(x))));
  }

  lemma LowestEight(n: nat, x: bv32)
    ensures LowBits(n + 8, x) == Nibble(x) + 0x10 * Nibble(Sixteenth(x)) + 0x100 * LowBits(n, Above(x))
  {
    hide LowBits, Nibble;
    LowestFour(n + 4, x);
    LowestFour(n, Sixteenth(x));
    assert Sixteenth(Sixteenth(x)) == Above(x);
  }

  lemma NibbleOfByte(x: bv32, y: bv32)
    requires y == FirstByte(x) as bv32
    ensures Nibble(x) == Nibble(y) && Nibble(Sixteenth(x)) == Nibble(Sixteenth(y)) && Above(y) == 0
  {
  }

  lemma LowestByte(n: nat, x: bv32)
    ensures LowBits(n + 8, x) == FirstByte(x) as int + 0x100 * LowBits(n, Above(x))
  {
    hide LowBits, Nibble, Sixteenth, FirstByte, Above, Pow2;
    var y := FirstByte(x) as bv32;
    LowestEight(n, x);
    LowestEight(0, y);
    LowestNone(Above(y));
    NibbleOfByte(x, y);
    Pow2Small();
    LowestOfByte(8, y, FirstByte(x));
  }

  /** The number that a vector stands for, byte by byte. */
  function Bytes(x: bv32): int {
    ((x & 0xFF) as bv8) as int + 0x100 * ((((x >> 8) & 0xFF) as bv8) as int)
    + 0x1_0000 * ((((x >> 16) & 0xFF) as bv8) as int) + 0x100_0000 * ((((x >> 24) & 0xFF) as bv8) as int)
  }

  lemma LowestBytes(n: nat, x: bv32)
    ensures LowBits(n + 32, x)
         == FirstByte(x) as int + 0x100 * (FirstByte(Above(x)) as int) + 0x1_0000 * (FirstByte(Above(Above(x))) as int)
            + 0x100_0000 * (FirstByte(Above(Above(Above(x)))) as int) + 0x1_0000_0000 * LowBits(n, Above(Above(Above(Above(x)))))
  {
    hide LowBits, FirstByte, Above;
    LowestByte(n + 24, x);
    LowestByte(n + 16, Above(x));
    LowestByte(n + 8, Above(Above(x)));
    LowestByte(n, Above(Above(Above(x))));
  }

  lemma FourBytes(x: bv32)
    ensures FirstByte(x) == (x & 0xFF) as bv8
    ensures FirstByte(Above(x)) == ((x >> 8) & 0xFF) as bv8
    ensures FirstByte(Above(Above(x))) == ((x >> 16) & 0xFF) as bv8
    ensures FirstByte(Above(Above(Above(x)))) == ((x >> 24) & 0xFF) as bv8
    ensures Above(Above(Above(Above(x)))) == 0
  {
  }

  lemma NumeralIs(x: bv32)
    ensures Numeral(x) == Bytes(x)
  {
    hide LowBits, FirstByte, Above;
    LowestBytes(0, x);
    FourBytes(x);
    LowestNone(0);
  }

  /** There is no digit number 32. */
  lemma NumeralIsAll(x: bv32)
    ensures LowBits(33, x) == LowBits(32, x)
  {
    hide FirstByte, Above, LowBits;
    LowestBytes(0, x);
    LowestBytes(1, x);
    FourBytes(x);
    LowestNone(0);
    LowestOfNothing();
  }

  lemma LowestOfNothing()
    ensures LowBits(1, 0) == 0
  {
  }

  // ---------- Complement, sum and rotation ----------

  lemma {:induction false} NotIsXor(n: nat, x: nat)
    requires Words.Fits(n, x)
    ensures Words.Fits(n, Pow2(n) - 1) && NotBits(n, x) == XorBits(n, x, Pow2(n) - 1)
  {
    if n != 0 {
      NotIsXor(n - 1, x / 2);
      assert (Pow2(n) - 1) / 2 == Pow2(n - 1) - 1 && (Pow2(n) - 1) % 2 == 1;
    }
  }

  lemma NotIs(x: bv32)
    ensures Not(Numeral(x)) == Numeral(x ^ 0xFFFF_FFFF)
  {
    hide NotBits, XorBits, Numeral;
    Width();
    NotIsXor(32, Numeral(x));
    NumeralIs(0xFFFF_FFFF);
    XorIs(x, 0xFFFF_FFFF);
  }

  predicate Top(n: nat, x: bv32) {
    if n == 0 then Odd(x) else Top(n - 1, Half(x))
  }

  lemma {:induction false} LowestTop(n: nat, x: bv32)
    ensures LowBits(n + 1, x) == LowBits(n, x) + if Top(n, x) then Pow2(n) else 0
  {
    hide Half, Odd;
    if n != 0 {
      LowestTop(n - 1, Half(x));
    }
  }

  lemma {:induction false} LowestOnes(n: nat)
    requires n <= 32
    ensures LowBits(n, 0xFFFF_FFFF) == Pow2(n) - 1
    decreases 32 - n
  {
    hide LowBits;
    if n == 32 {
      Width();
      NumeralIs(0xFFFF_FFFF);
    } else {
      LowestOnes(n + 1);
      LowestTop(n, 0xFFFF_FFFF);
    }
  }

  lemma {:induction false} AndWithOnes(n: nat, x: nat)
    requires Words.Fits(n, x)
    ensures Words.Fits(n, Pow2(n) - 1) && AndBits(n, x, Pow2(n) - 1) == x
  {
    if n != 0 {
      AndWithOnes(n - 1, x / 2);
    }
  }

  function Double(x: bv32): bv32 {
    x << 1
  }

  lemma DoubleHalves(x: bv32)
    ensures !Odd(Double(x)) && Half(Double(x)) == AndVector(x, Half(0xFFFF_FFFF))
  {
  }

  lemma LowestDouble(n: nat, x: bv32)
    requires n < 32
    ensures LowBits(n + 1, Double(x)) == 2 * LowBits(n, x)
  {
    hide LowBits, Half, Odd, Double, AndBits, AndVector;
    DoubleHalves(x);
    LowestHalves(n + 1, Double(x));
    LowestHalves(n + 1, 0xFFFF_FFFF);
    LowestOnes(n + 1);
    AndLowest(n, x, Half(0xFFFF_FFFF));
    AndWithOnes(n, LowBits(n, x));
  }

  lemma DoubleIs(x: bv32)
    ensures Numeral(Double(x)) == 2 * Numeral(x) % 0x1_0000_0000
  {
    hide LowBits, Double, Pow2;
    Width();
    Doubling(31);
    LowestDouble(31, x);
    LowestTop(31, x);
  }

  lemma Doubling(n: nat)
    ensures Pow2(n + 1) == 2 * Pow2(n)
  {
  }

  // Shifts by less than a byte, and by bytes.

  function UpSteps(x: bv32, k: nat): bv32 {
    match k
    case 0 => x
    case 1 => x << 1
    case 2 => x << 2
    case 3 => x << 3
    case 4 => x << 4
    case 5 => x << 5
    case 6 => x << 6
    case 7 => x << 7
    case _ => 0
  }

  function UpBytes(x: bv32, k: nat): bv32 {
    match k
    case 0 => x
    case 1 => x << 8
    case 2 => x << 16
    case 3 => x << 24
    case _ => 0
  }

  function DownSteps(x: bv32, k: nat): bv32 {
    match k
    case 0 => x
    case 1 => x >> 1
    case 2 => x >> 2
    case 3 => x >> 3
    case 4 => x >> 4
    case 5 => x >> 5
    case 6 => x >> 6
    case 7 => x >> 7
    case _ => 0
  }

  function DownBytes(x: bv32, k: nat): bv32 {
    match k
    case 0 => x
    case 1 => x >> 8
    case 2 => x >> 16
    case 3 => x >> 24
    case _ => 0
  }

  function Up(x: bv32, k: nat): bv32 {
    UpSteps(UpBytes(x, k / 8), k % 8)
  }

  function Down(x: bv32, k: nat): bv32 {
    DownSteps(DownBytes(x, k / 8), k % 8)
  }

  lemma UpFirstSteps(x: bv32, k: nat)
    requires 0 < k < 4
    ensures UpSteps(x, k) == Double(UpSteps(x, k - 1))
  {
    if k == 1 {
    } else if k == 2 {
    } else {
    }
  }

  lemma UpNextSteps(x: bv32, k: nat)
    requires k == 4 || k == 5
    ensures UpSteps(x, k) == Double(UpSteps(x, k - 1))
  {
    if k == 4 {
    } else {
    }
  }

  lemma UpLastSteps(x: bv32, k: nat)
    requires k == 6 || k == 7
    ensures UpSteps(x, k) == Double(UpSteps(x, k - 1))
  {
    if k == 6 {
    } else {
    }
  }

  lemma UpStep(x: bv32, k: nat)
    requires 0 < k < 8
    ensures UpSteps(x, k) == Double(UpSteps(x, k - 1))
  {
    hide UpSteps, Double;
    if k < 4 {
      UpFirstSteps(x, k);
    } else if k < 6 {
      UpNextSteps(x, k);
    } else {
      UpLastSteps(x, k);
    }
  }

  lemma UpFirstByte(x: bv32)
    ensures UpBytes(x, 1) == Double(UpSteps(UpBytes(x, 0), 7))
  {
  }

  lemma UpNextByte(x: bv32)
    ensures UpBytes(x, 2) == Double(UpSteps(UpBytes(x, 1), 7))
  {
  }

  lemma UpLastByte(x: bv32)
    ensures UpBytes(x, 3) == Double(UpSteps(UpBytes(x, 2), 7))
  {
  }

  lemma UpNone(x: bv32)
    ensures UpSteps(x, 0) == x == Up(x, 0)
  {
  }

  lemma UpMore(x: bv32, k: nat)
    requires 0 < k < 32
    ensures Up(x, k) == Double(Up(x, k - 1))
  {
    hide UpBytes, UpSteps, Double;
    if k % 8 == 0 {
      UpNone(UpBytes(x, k / 8));
      UpFirstByte(x);
      UpNextByte(x);
      UpLastByte(x);
    } else {
      UpStep(UpBytes(x, k / 8), k % 8);
    }
  }

  lemma DownFirstSteps(x: bv32, k: nat)
    requires 0 < k < 4
    ensures DownSteps(x, k) == Half(DownSteps(x, k - 1))
  {
    if k == 1 {
    } else if k == 2 {
    } else {
    }
  }

  lemma DownNextSteps(x: bv32, k: nat)
    requires k == 4 || k == 5
    ensures DownSteps(x, k) == Half(DownSteps(x, k - 1))
  {
    if k == 4 {
    } else {
    }
  }

  lemma DownLastSteps(x: bv32, k: nat)
    requires k == 6 || k == 7
    ensures DownSteps(x, k) == Half(DownSteps(x, k - 1))
  {
    if k == 6 {
    } else {
    }
  }

  lemma DownStep(x: bv32, k: nat)
    requires 0 < k < 8
    ensures DownSteps(x, k) == Half(DownSteps(x, k - 1))
  {
    hide DownSteps, Half;
    if k < 4 {
      DownFirstSteps(x, k);
    } else if k < 6 {
      DownNextSteps(x, k);
    } else {
      DownLastSteps(x, k);
    }
  }

  lemma DownFirstByte(x: bv32)
    ensures DownBytes(x, 1) == Half(DownSteps(DownBytes(x, 0), 7))
  {
  }

  lemma DownNextByte(x: bv32)
    ensures DownBytes(x, 2) == Half(DownSteps(DownBytes(x, 1), 7))
  {
  }

  lemma DownLastByte(x: bv32)
    ensures DownBytes(x, 3) == Half(DownSteps(DownBytes(x, 2), 7))
  {
  }

  lemma DownNone(x: bv32)
    ensures DownSteps(x, 0) == x == Down(x, 0)
  {
  }

  lemma DownMore(x: bv32, k: nat)
    requires 0 < k < 32
    ensures Down(x, k) == Half(Down(x, k - 1))
  {
    hide DownBytes, DownSteps, Half;
    if k % 8 == 0 {
      DownNone(DownBytes(x, k / 8));
      DownFirstByte(x);
      DownNextByte(x);
      DownLastByte(x);
    } else {
      DownStep(DownBytes(x, k / 8), k % 8);
    }
  }

  lemma HalfIs(x: bv32)
    ensures Numeral(Half(x)) == Numeral(x) / 2
  {
    hide LowBits, Half;
    NumeralIsAll(x);
    LowestHalves(33, x);
  }

  lemma {:induction false} UpIs(x: bv32, k: nat)
    requires k < 32
    ensures Words.ShiftLeft(Numeral(x), k) == Numeral(Up(x, k))
  {
    hide Numeral, Double, Up;
    if k == 0 {
      UpNone(x);
    } else {
      UpIs(x, k - 1);
      UpMore(x, k);
      DoubleIs(Up(x, k - 1));
    }
  }

  lemma {:induction false} DownIs(x: bv32, k: nat)
    requires k < 32
    ensures Words.ShiftRight(Numeral(x), k) == Numeral(Down(x, k))
  {
    hide Numeral, Half, Down;
    if k == 0 {
      DownNone(x);
    } else {
      DownIs(x, k - 1);
      DownMore(x, k);
      HalfIs(Down(x, k - 1));
    }
  }

  /** The rotations of MD5. */
  function Rotated(x: bv32, s: nat): bv32 {
    match s
    case 4 => (x << 4) | (x >> 28)
    case 5 => (x << 5) | (x >> 27)
    case 6 => (x << 6) | (x >> 26)
    case 7 => (x << 7) | (x >> 25)
    case 9 => (x << 9) | (x >> 23)
    case 10 => (x << 10) | (x >> 22)
    case 11 => (x << 11) | (x >> 21)
    case 12 => (x << 12) | (x >> 20)
    case 14 => (x << 14) | (x >> 18)
    case 15 => (x << 15) | (x >> 17)
    case 16 => (x << 16) | (x >> 16)
    case 17 => (x << 17) | (x >> 15)
    case 20 => (x << 20) | (x >> 12)
    case 21 => (x << 21) | (x >> 11)
    case 22 => (x << 22) | (x >> 10)
    case 23 => (x << 23) | (x >> 9)
    case _ => 0
  }

  predicate IsRotation(s: nat) {
    s in {4, 5, 6, 7, 9, 10, 11, 12, 14, 15, 16, 17, 20, 21, 22, 23}
  }

  lemma RotatedIs(x: bv32, s: nat)
    requires IsRotation(s)
    ensures Rotate(Numeral(x), s) == Numeral(Rotated(x, s))
  {
    hide Numeral, Words.ShiftLeft, Words.ShiftRight, Or;
    UpIs(x, s);
    DownIs(x, 32 - s);
    OrIs(Up(x, s), Down(x, 32 - s));
    RotatedUpDown(x, s);
  }

  lemma Rotated1(x: bv32, s: nat)
    requires s in {7, 12, 17, 22}
    ensures Rotated(x, s) == Up(x, s) | Down(x, 32 - s)
  {
    if s == 7 {
    } else if s == 12 {
    } else if s == 17 {
    } else {
    }
  }

  lemma Rotated2(x: bv32, s: nat)
    requires s in {5, 9, 14, 20}
    ensures Rotated(x, s) == Up(x, s) | Down(x, 32 - s)
  {
    if s == 5 {
    } else if s == 9 {
    } else if s == 14 {
    } else {
    }
  }

  lemma Rotated3(x: bv32, s: nat)
    requires s in {4, 11, 16, 23}
    ensures Rotated(x, s) == Up(x, s) | Down(x, 32 - s)
  {
    if s == 4 {
    } else if s == 11 {
    } else if s == 16 {
    } else {
    }
  }

  lemma Rotated4(x: bv32, s: nat)
    requires s in {6, 10, 15, 21}
    ensures Rotated(x, s) == Up(x, s) | Down(x, 32 - s)
  {
    if s == 6 {
    } else if s == 10 {
    } else if s == 15 {
    } else {
    }
  }

  lemma RotatedUpDown(x: bv32, s: nat)
    requires IsRotation(s)
    ensures Rotated(x, s) == Up(x, s) | Down(x, 32 - s)
  {
    hide Rotated, Up, Down;
    if s in {7, 12, 17, 22} {
      Rotated1(x, s);
    } else if s in {5, 9, 14, 20} {
      Rotated2(x, s);
    } else if s in {4, 11, 16, 23} {
      Rotated3(x, s);
    } else {
      Rotated4(x, s);
    }
  }
}
