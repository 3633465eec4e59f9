/** The MD5 block function: the 64 unrolled steps of the source against the algorithm of section 3.4 of RFC 1321. */
module MD5Transform {
  import opened Leb128
  import opened Words

  /** The four words of the digest state. */
  datatype State = State(a: Word, b: Word, c: Word, d: Word)

  // ---------- RFC 1321 ----------

  function F(x: Word, y: Word, z: Word): Word {
    Or(And(x, y), And(Not(x), z))
  }

  function G(x: Word, y: Word, z: Word): Word {
    Or(And(x, z), And(y, Not(z)))
  }

  function H(x: Word, y: Word, z: Word): Word {
    Xor(Xor(x, y), z)
  }

  function I(x: Word, y: Word, z: Word): Word {
    Xor(y, Or(x, Not(z)))
  }

  function Auxiliary(round: nat, x: Word, y: Word, z: Word): Word {
    match round
    case 0 => F(x, y, z)
    case 1 => G(x, y, z)
    case 2 => H(x, y, z)
    case _ => I(x, y, z)
  }

  /** The word of the block that step `k` of a round uses. */
  function Index(round: nat, k: nat): (r: nat)
    ensures r < 16
  {
    match round
    case 0 => k % 16
    case 1 => (5 * k + 1) % 16
    case 2 => (3 * k + 5) % 16
    case _ => 7 * k % 16
  }

  function Shift(round: nat, k: nat): (s: nat)
    ensures s < 32
  {
    match round
    case 0 => Pick(k % 4, 7, 12, 17, 22)
    case 1 => Pick(k % 4, 5, 9, 14, 20)
    case 2 => Pick(k % 4, 4, 11, 16, 23)
    case _ => Pick(k % 4, 6, 10, 15, 21)
  }

  function Pick(k: nat, s0: nat, s1: nat, s2: nat, s3: nat): nat {
    if k == 0 then s0 else if k == 1 then s1 else if k == 2 then s2 else s3
  }

  /** The table of sines, sixteen rows a round. */
  function T(round: nat, k: nat): Word {
    match round
    case 0 => T1(k)
    case 1 => T2(k)
    case 2 => T3(k)
    case _ => T4(k)
  }

  function T1(i: nat): Word {
    match i
    case 0 => 0xD76A_A478
    case 1 => 0xE8C7_B756
    case 2 => 0x2420_70DB
    case 3 => 0xC1BD_CEEE
    case 4 => 0xF57C_0FAF
    case 5 => 0x4787_C62A
    case 6 => 0xA830_4613
    case 7 => 0xFD46_9501
    case 8 => 0x6980_98D8
    case 9 => 0x8B44_F7AF
    case 10 => 0xFFFF_5BB1
    case 11 => 0x895C_D7BE
    case 12 => 0x6B90_1122
    case 13 => 0xFD98_7193
    case 14 => 0xA679_438E
    case _ => 0x49B4_0821
  }

  function T2(i: nat): Word {
    match i
    case 0 => 0xF61E_2562
    case 1 => 0xC040_B340
    case 2 => 0x265E_5A51
    case 3 => 0xE9B6_C7AA
    case 4 => 0xD62F_105D
    case 5 => 0x0244_1453
    case 6 => 0xD8A1_E681
    case 7 => 0xE7D3_FBC8
    case 8 => 0x21E1_CDE6
    case 9 => 0xC337_07D6
    case 10 => 0xF4D5_0D87
    case 11 => 0x455A_14ED
    case 12 => 0xA9E3_E905
    case 13 => 0xFCEF_A3F8
    case 14 => 0x676F_02D9
    case _ => 0x8D2A_4C8A
  }

  function T3(i: nat): Word {
    match i
    case 0 => 0xFFFA_3942
    case 1 => 0x8771_F681
    case 2 => 0x6D9D_6122
    case 3 => 0xFDE5_380C
    case 4 => 0xA4BE_EA44
    case 5 => 0x4BDE_CFA9
    case 6 => 0xF6BB_4B60
    case 7 => 0xBEBF_BC70
    case 8 => 0x289B_7EC6
    case 9 => 0xEAA1_27FA
    case 10 => 0xD4EF_3085
    case 11 => 0x0488_1D05
    case 12 => 0xD9D4_D039
    case 13 => 0xE6DB_99E5
    case 14 => 0x1FA2_7CF8
    case _ => 0xC4AC_5665
  }

  function T4(i: nat): Word {
    match i
    case 0 => 0xF429_2244
    case 1 => 0x432A_FF97
    case 2 => 0xAB94_23A7
    case 3 => 0xFC93_A039
    case 4 => 0x655B_59C3
    case 5 => 0x8F0C_CC92
    case 6 => 0xFFEF_F47D
    case 7 => 0x8584_5DD1
    case 8 => 0x6FA8_7E4F
    case 9 => 0xFE2C_E6E0
    case 10 => 0xA301_4314
    case 11 => 0x4E08_11A1
    case 12 => 0xF753_7E82
    case 13 => 0xBD3A_F235
    case 14 => 0x2AD7_D2BB
    case _ => 0xEB86_D391
  }

  /** Step `k` of a round: the operation [ABCD k s i], after which the words trade places for the next one. */
  function Operation(round: nat, k: nat, s: State, x: seq<Word>): State
    requires |x| == 16
  {
    var sum := Plus(Plus(Plus(s.a, Auxiliary(round, s.b, s.c, s.d)), x[Index(round, k)]), T(round, k));
    var a := Plus(s.b, Rotate(sum, Shift(round, k)));
    State(s.d, a, s.b, s.c)
  }

  /** The first `n` steps of a round. */
  function Operations(round: nat, n: nat, s: State, x: seq<Word>): State
    requires |x| == 16
  {
    if n == 0 then s else Operation(round, n - 1, Operations(round, n - 1, s, x), x)
  }

  /** The whole block function. */
  function Compress(s: State, x: seq<Word>): State
    requires |x| == 16
  {
    var r := Operations(3, 16, Operations(2, 16, Operations(1, 16, Operations(0, 16, s, x), x), x), x);
    State(Plus(s.a, r.a), Plus(s.b, r.b), Plus(s.c, r.c), Plus(s.d, r.d))
  }

  // ---------- The source ----------

  function F1(x: Word, y: Word, z: Word): Word {
    Xor(z, And(x, Xor(y, z)))
  }

  function F2(x: Word, y: Word, z: Word): Word {
    F1(z, x, y)
  }

  function F3(x: Word, y: Word, z: Word): Word {
    Xor(Xor(x, y), z)
  }

  function F4(x: Word, y: Word, z: Word): Word {
    Xor(y, Or(x, Not(z)))
  }

  /** Three operations instead of four, with the same value. */
  lemma F1IsF(x: Word, y: Word, z: Word)
    ensures F1(x, y, z) == F(x, y, z)
  {
    Width();
    ChooseBits(32, x, y, z);
  }

  lemma F2IsG(x: Word, y: Word, z: Word)
    ensures F2(x, y, z) == G(x, y, z)
  {
    Width();
    ChooseBits(32, z, x, y);
    AndCommutes(32, z, x);
    AndCommutes(32, Not(z), y);
  }

  /** The central step; `f` is the value of one of the four core functions. */
  function MD5Step(f: Word, w: Word, x: Word, data: Word, s: nat): Word
    requires s < 32
  {
    Plus(Rotate(Plus(w, Plus(f, data)), s), x)
  }

  function Core(round: nat, x: Word, y: Word, z: Word): Word {
    match round
    case 0 => F1(x, y, z)
    case 1 => F2(x, y, z)
    case 2 => F3(x, y, z)
    case _ => F4(x, y, z)
  }

  lemma CoreIsAuxiliary(round: nat, x: Word, y: Word, z: Word)
    ensures Core(round, x, y, z) == Auxiliary(round, x, y, z)
  {
    hide F1, F2, F, G, And, Or, Xor, Not;
    F1IsF(x, y, z);
    F2IsG(x, y, z);
  }

  lemma SumsAgree(w: Word, f: Word, x: Word, t: Word)
    ensures Plus(w, Plus(f, Plus(x, t))) == Plus(Plus(Plus(w, f), x), t)
  {
  }

  lemma Swap(x: Word, y: Word)
    ensures Plus(x, y) == Plus(y, x)
  {
  }

  /** The central step is the operation, on words that have traded places. */
  lemma StepIsOperation(round: nat, k: nat, s: State, x: seq<Word>)
    requires |x| == 16
    ensures Operation(round, k, s, x)
            == State(s.d, MD5Step(Core(round, s.b, s.c, s.d), s.a, s.b, Plus(x[Index(round, k)], T(round, k)), Shift(round, k)), s.b, s.c)
  {
    hide Rotate, Index, Shift, T, Core, Auxiliary, Plus;
    var f := Auxiliary(round, s.b, s.c, s.d);
    CoreIsAuxiliary(round, s.b, s.c, s.d);
    SumsAgree(s.a, f, x[Index(round, k)], T(round, k));
    Swap(s.b, Rotate(Plus(Plus(Plus(s.a, f), x[Index(round, k)]), T(round, k)), Shift(round, k)));
  }

  /** After four steps every word is back in its place. */
  lemma FourSteps(round: nat, n: nat, s: State, x: seq<Word>)
    requires |x| == 16
    ensures var S := Operations(round, n, s, x);
            var a := MD5Step(Core(round, S.b, S.c, S.d), S.a, S.b, Plus(x[Index(round, n)], T(round, n)), Shift(round, n));
            var d := MD5Step(Core(round, a, S.b, S.c), S.d, a, Plus(x[Index(round, n + 1)], T(round, n + 1)), Shift(round, n + 1));
            var c := MD5Step(Core(round, d, a, S.b), S.c, d, Plus(x[Index(round, n + 2)], T(round, n + 2)), Shift(round, n + 2));
            var b := MD5Step(Core(round, c, d, a), S.b, c, Plus(x[Index(round, n + 3)], T(round, n + 3)), Shift(round, n + 3));
            Operations(round, n + 4, s, x) == State(a, b, c, d)
  {
    hide Operation, Operations, MD5Step, Core, Index, T, Shift, Plus;
    forall k: nat
      ensures Operations(round, k + 1, s, x) == Operation(round, k, Operations(round, k, s, x), x)
    {
      OneMore(round, k, s, x);
    }
    StepIsOperation(round, n, Operations(round, n, s, x), x);
    StepIsOperation(round, n + 1, Operations(round, n + 1, s, x), x);
    StepIsOperation(round, n + 2, Operations(round, n + 2, s, x), x);
    StepIsOperation(round, n + 3, Operations(round, n + 3, s, x), x);
  }

  lemma OneMore(round: nat, n: nat, s: State, x: seq<Word>)
    requires |x| == 16
    ensures Operations(round, n + 1, s, x) == Operation(round, n, Operations(round, n, s, x), x)
  {
  }

  lemma NoSteps(round: nat, s: State, x: seq<Word>)
    requires |x| == 16
    ensures Operations(round, 0, s, x) == s
  {
  }

  method Round1(s: State, x: seq<Word>) returns (r: State)
    requires |x| == 16
    ensures r == Operations(0, 16, s, x)
  {
    hide Operations, MD5Step, F1, F2, F3, F4, Plus, T2, T3, T4;
    NoSteps(0, s, x);
    var a, b, c, d := s.a, s.b, s.c, s.d;
    FourSteps(0, 0, s, x);
    a := MD5Step(F1(b, c, d), a, b, Plus(x[0], 0xD76A_A478), 7);
    d := MD5Step(F1(a, b, c), d, a, Plus(x[1], 0xE8C7_B756), 12);
    c := MD5Step(F1(d, a, b), c, d, Plus(x[2], 0x2420_70DB), 17);
    b := MD5Step(F1(c, d, a), b, c, Plus(x[3], 0xC1BD_CEEE), 22);
    assert State(a, b, c, d) == Operations(0, 4, s, x);
    FourSteps(0, 4, s, x);
    a := MD5Step(F1(b, c, d), a, b, Plus(x[4], 0xF57C_0FAF), 7);
    d := MD5Step(F1(a, b, c), d, a, Plus(x[5], 0x4787_C62A), 12);
    c := MD5Step(F1(d, a, b), c, d, Plus(x[6], 0xA830_4613), 17);
    b := MD5Step(F1(c, d, a), b, c, Plus(x[7], 0xFD46_9501), 22);
    assert State(a, b, c, d) == Operations(0, 8, s, x);
    FourSteps(0, 8, s, x);
    a := MD5Step(F1(b, c, d), a, b, Plus(x[8], 0x6980_98D8), 7);
    d := MD5Step(F1(a, b, c), d, a, Plus(x[9], 0x8B44_F7AF), 12);
    c := MD5Step(F1(d, a, b), c, d, Plus(x[10], 0xFFFF_5BB1), 17);
    b := MD5Step(F1(c, d, a), b, c, Plus(x[11], 0x895C_D7BE), 22);
    assert State(a, b, c, d) == Operations(0, 12, s, x);
    FourSteps(0, 12, s, x);
    a := MD5Step(F1(b, c, d), a, b, Plus(x[12], 0x6B90_1122), 7);
    d := MD5Step(F1(a, b, c), d, a, Plus(x[13], 0xFD98_7193), 12);
    c := MD5Step(F1(d, a, b), c, d, Plus(x[14], 0xA679_438E), 17);
    b := MD5Step(F1(c, d, a), b, c, Plus(x[15], 0x49B4_0821), 22);
    assert State(a, b, c, d) == Operations(0, 16, s, x);
    r := State(a, b, c, d);
  }

  method Round2(s: State, x: seq<Word>) returns (r: State)
    requires |x| == 16
    ensures r == Operations(1, 16, s, x)
  {
    hide Operations, MD5Step, F1, F2, F3, F4, Plus, T1, T3, T4;
    NoSteps(1, s, x);
    var a, b, c, d := s.a, s.b, s.c, s.d;
    FourSteps(1, 0, s, x);
    a := MD5Step(F2(b, c, d), a, b, Plus(x[1], 0xF61E_2562), 5);
    d := MD5Step(F2(a, b, c), d, a, Plus(x[6], 0xC040_B340), 9);
    c := MD5Step(F2(d, a, b), c, d, Plus(x[11], 0x265E_5A51), 14);
    b := MD5Step(F2(c, d, a), b, c, Plus(x[0], 0xE9B6_C7AA), 20);
    assert State(a, b, c, d) == Operations(1, 4, s, x);
    FourSteps(1, 4, s, x);
    a := MD5Step(F2(b, c, d), a, b, Plus(x[5], 0xD62F_105D), 5);
    d := MD5Step(F2(a, b, c), d, a, Plus(x[10], 0x0244_1453), 9);
    c := MD5Step(F2(d, a, b), c, d, Plus(x[15], 0xD8A1_E681), 14);
    b := MD5Step(F2(c, d, a), b, c, Plus(x[4], 0xE7D3_FBC8), 20);
    assert State(a, b, c, d) == Operations(1, 8, s, x);
    FourSteps(1, 8, s, x);
    a := MD5Step(F2(b, c, d), a, b, Plus(x[9], 0x21E1_CDE6), 5);
    d := MD5Step(F2(a, b, c), d, a, Plus(x[14], 0xC337_07D6), 9);
    c := MD5Step(F2(d, a, b), c, d, Plus(x[3], 0xF4D5_0D87), 14);
    b := MD5Step(F2(c, d, a), b, c, Plus(x[8], 0x455A_14ED), 20);
    assert State(a, b, c, d) == Operations(1, 12, s, x);
    FourSteps(1, 12, s, x);
    a := MD5Step(F2(b, c, d), a, b, Plus(x[13], 0xA9E3_E905), 5);
    d := MD5Step(F2(a, b, c), d, a, Plus(x[2], 0xFCEF_A3F8), 9);
    c := MD5Step(F2(d, a, b), c, d, Plus(x[7], 0x676F_02D9), 14);
    b := MD5Step(F2(c, d, a), b, c, Plus(x[12], 0x8D2A_4C8A), 20);
    assert State(a, b, c, d) == Operations(1, 16, s, x);
    r := State(a, b, c, d);
  }

  method Round3(s: State, x: seq<Word>) returns (r: State)
    requires |x| == 16
    ensures r == Operations(2, 16, s, x)
  {
    hide Operations, MD5Step, F1, F2, F3, F4, Plus, T1, T2, T4;
    NoSteps(2, s, x);
    var a, b, c, d := s.a, s.b, s.c, s.d;
    FourSteps(2, 0, s, x);
    a := MD5Step(F3(b, c, d), a, b, Plus(x[5], 0xFFFA_3942), 4);
    d := MD5Step(F3(a, b, c), d, a, Plus(x[8], 0x8771_F681), 11);
    c := MD5Step(F3(d, a, b), c, d, Plus(x[11], 0x6D9D_6122), 16);
    b := MD5Step(F3(c, d, a), b, c, Plus(x[14], 0xFDE5_380C), 23);
    assert State(a, b, c, d) == Operations(2, 4, s, x);
    FourSteps(2, 4, s, x);
    a := MD5Step(F3(b, c, d), a, b, Plus(x[1], 0xA4BE_EA44), 4);
    d := MD5Step(F3(a, b, c), d, a, Plus(x[4], 0x4BDE_CFA9), 11);
    c := MD5Step(F3(d, a, b), c, d, Plus(x[7], 0xF6BB_4B60), 16);
    b := MD5Step(F3(c, d, a), b, c, Plus(x[10], 0xBEBF_BC70), 23);
    assert State(a, b, c, d) == Operations(2, 8, s, x);
    FourSteps(2, 8, s, x);
    a := MD5Step(F3(b, c, d), a, b, Plus(x[13], 0x289B_7EC6), 4);
    d := MD5Step(F3(a, b, c), d, a, Plus(x[0], 0xEAA1_27FA), 11);
    c := MD5Step(F3(d, a, b), c, d, Plus(x[3], 0xD4EF_3085), 16);
    b := MD5Step(F3(c, d, a), b, c, Plus(x[6], 0x0488_1D05), 23);
    assert State(a, b, c, d) == Operations(2, 12, s, x);
    FourSteps(2, 12, s, x);
    a := MD5Step(F3(b, c, d), a, b, Plus(x[9], 0xD9D4_D039), 4);
    d := MD5Step(F3(a, b, c), d, a, Plus(x[12], 0xE6DB_99E5), 11);
    c := MD5Step(F3(d, a, b), c, d, Plus(x[15], 0x1FA2_7CF8), 16);
    b := MD5Step(F3(c, d, a), b, c, Plus(x[2], 0xC4AC_5665), 23);
    assert State(a, b, c, d) == Operations(2, 16, s, x);
    r := State(a, b, c, d);
  }

  method Round4(s: State, x: seq<Word>) returns (r: State)
    requires |x| == 16
    ensures r == Operations(3, 16, s, x)
  {
    hide Operations, MD5Step, F1, F2, F3, F4, Plus, T1, T2, T3;
    NoSteps(3, s, x);
    var a, b, c, d := s.a, s.b, s.c, s.d;
    FourSteps(3, 0, s, x);
    a := MD5Step(F4(b, c, d), a, b, Plus(x[0], 0xF429_2244), 6);
    d := MD5Step(F4(a, b, c), d, a, Plus(x[7], 0x432A_FF97), 10);
    c := MD5Step(F4(d, a, b), c, d, Plus(x[14], 0xAB94_23A7), 15);
    b := MD5Step(F4(c, d, a), b, c, Plus(x[5], 0xFC93_A039), 21);
    assert State(a, b, c, d) == Operations(3, 4, s, x);
    FourSteps(3, 4, s, x);
    a := MD5Step(F4(b, c, d), a, b, Plus(x[12], 0x655B_59C3), 6);
    d := MD5Step(F4(a, b, c), d, a, Plus(x[3], 0x8F0C_CC92), 10);
    c := MD5Step(F4(d, a, b), c, d, Plus(x[10], 0xFFEF_F47D), 15);
    b := MD5Step(F4(c, d, a), b, c, Plus(x[1], 0x8584_5DD1), 21);
    assert State(a, b, c, d) == Operations(3, 8, s, x);
    FourSteps(3, 8, s, x);
    a := MD5Step(F4(b, c, d), a, b, Plus(x[8], 0x6FA8_7E4F), 6);
    d := MD5Step(F4(a, b, c), d, a, Plus(x[15], 0xFE2C_E6E0), 10);
    c := MD5Step(F4(d, a, b), c, d, Plus(x[6], 0xA301_4314), 15);
    b := MD5Step(F4(c, d, a), b, c, Plus(x[13], 0x4E08_11A1), 21);
    assert State(a, b, c, d) == Operations(3, 12, s, x);
    FourSteps(3, 12, s, x);
    a := MD5Step(F4(b, c, d), a, b, Plus(x[4], 0xF753_7E82), 6);
    d := MD5Step(F4(a, b, c), d, a, Plus(x[11], 0xBD3A_F235), 10);
    c := MD5Step(F4(d, a, b), c, d, Plus(x[2], 0x2AD7_D2BB), 15);
    b := MD5Step(F4(c, d, a), b, c, Plus(x[9], 0xEB86_D391), 21);
    assert State(a, b, c, d) == Operations(3, 16, s, x);
    r := State(a, b, c, d);
  }

  /** `MD5Transform`. */
  method Transform(s: State, x: seq<Word>) returns (r: State)
    requires |x| == 16
    ensures r == Compress(s, x)
  {
    hide Operations, Operation, Plus;
    r := Round1(s, x);
    r := Round2(r, x);
    r := Round3(r, x);
    r := Round4(r, x);
    r := State(Plus(s.a, r.a), Plus(s.b, r.b), Plus(s.c, r.c), Plus(s.d, r.d));
  }
}
