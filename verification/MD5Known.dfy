/** A digest that is known: "abcdefghijklmnopqrstuvwxyz" in the MD5 test suite of RFC 1321 (appendix A.5), whose padded form is
    one block. */
module MD5Known {
  import opened Addresses
  import opened FixedWidth
  import opened Leb128
  import opened MD5
  import opened MD5Transform
  import opened WordBits
  import opened Words

  // ---------- Steps on vectors ----------

  function Mixed(round: nat, x: bv32, y: bv32, z: bv32): bv32 {
    match round
    case 0 => (x & y) | ((x ^ 0xFFFF_FFFF) & z)
    case 1 => (x & z) | (y & (z ^ 0xFFFF_FFFF))
    case 2 => x ^ y ^ z
    case _ => y ^ (x | (z ^ 0xFFFF_FFFF))
  }

  lemma FIs(x: bv32, y: bv32, z: bv32)
    ensures F(Numeral(x), Numeral(y), Numeral(z)) == Numeral(Mixed(0, x, y, z))
  {
    hide Numeral, And, Or, Not;
    var n := x ^ 0xFFFF_FFFF;
    NotIs(x);
    AndIs(x, y);
    AndIs(n, z);
    OrIs(x & y, n & z);
  }

  lemma GIs(x: bv32, y: bv32, z: bv32)
    ensures G(Numeral(x), Numeral(y), Numeral(z)) == Numeral(Mixed(1, x, y, z))
  {
    hide Numeral, And, Or, Not;
    var n := z ^ 0xFFFF_FFFF;
    NotIs(z);
    AndIs(x, z);
    AndIs(y, n);
    OrIs(x & z, y & n);
  }

  lemma HIs(x: bv32, y: bv32, z: bv32)
    ensures H(Numeral(x), Numeral(y), Numeral(z)) == Numeral(Mixed(2, x, y, z))
  {
    hide Numeral, Xor;
    XorIs(x, y);
    XorIs(x ^ y, z);
  }

  lemma IIs(x: bv32, y: bv32, z: bv32)
    ensures I(Numeral(x), Numeral(y), Numeral(z)) == Numeral(Mixed(3, x, y, z))
  {
    hide Numeral, Or, Xor, Not;
    var n := z ^ 0xFFFF_FFFF;
    NotIs(z);
    OrIs(x, n);
    XorIs(y, x | n);
  }

  lemma MixedIs(round: nat, x: bv32, y: bv32, z: bv32)
    ensures Auxiliary(round, Numeral(x), Numeral(y), Numeral(z)) == Numeral(Mixed(round, x, y, z))
  {
    hide Numeral, F, G, H, I;
    if round == 0 {
      FIs(x, y, z);
    } else if round == 1 {
      GIs(x, y, z);
    } else if round == 2 {
      HIs(x, y, z);
    } else {
      IIs(x, y, z);
    }
  }

  lemma ShiftIsRotation(round: nat, k: nat)
    ensures IsRotation(Shift(round, k))
  {
  }

  /** Step `k` of a round leads from `a`, `b`, `c` and `d` to `r`: with `f` mixed from three of them, by way of `sum` and
      its rotation `q`, and sums modulo 2^32. */
  ghost predicate Leads(round: nat, k: nat, a: bv32, b: bv32, c: bv32, d: bv32, f: bv32, sum: bv32, q: bv32, r: bv32,
                        x: seq<Word>)
    requires |x| == 16
  {
    && Mixed(round, b, c, d) == f && Rotated(sum, Shift(round, k)) == q
    && Bytes(a) + Bytes(f) + x[Index(round, k)] + T(round, k) - Bytes(sum)
       in {0, 0x1_0000_0000, 0x2_0000_0000, 0x3_0000_0000}
    && Bytes(b) + Bytes(q) - Bytes(r) in {0, 0x1_0000_0000}
  }

  /** The state that four vectors stand for. */
  function StateOf(a: bv32, b: bv32, c: bv32, d: bv32): State {
    State(Numeral(a), Numeral(b), Numeral(c), Numeral(d))
  }

  lemma SumIs(a: Word, f: Word, w: Word, t: Word, sum: Word)
    requires a + f + w + t - sum in {0, 0x1_0000_0000, 0x2_0000_0000, 0x3_0000_0000}
    ensures Plus(Plus(Plus(a, f), w), t) == sum
  {
  }

  lemma StepLeads(round: nat, k: nat, a: bv32, b: bv32, c: bv32, d: bv32, f: bv32, sum: bv32, q: bv32, r: bv32,
                  x: seq<Word>)
    requires |x| == 16 && Leads(round, k, a, b, c, d, f, sum, q, r, x)
    ensures Operation(round, k, StateOf(a, b, c, d), x) == StateOf(d, r, b, c)
  {
    hide Numeral, Bytes, Auxiliary, Mixed, Index, Shift, T, Rotate, Rotated, IsRotation;
    NumeralIs(a);
    NumeralIs(b);
    NumeralIs(f);
    NumeralIs(sum);
    NumeralIs(q);
    NumeralIs(r);
    MixedIs(round, b, c, d);
    ShiftIsRotation(round, k);
    SumIs(Numeral(a), Numeral(f), x[Index(round, k)], T(round, k), Numeral(sum));
    RotatedIs(sum, Shift(round, k));
  }

  lemma LeadsToNext(round: nat, x: seq<Word>)
    requires |x| == 16
    ensures forall k: nat, a, b, c, d, f, sum, q, r :: Leads(round, k, a, b, c, d, f, sum, q, r, x) ==>
              Operation(round, k, StateOf(a, b, c, d), x) == StateOf(d, r, b, c)
  {
    hide Leads, StateOf, Operation;
    forall k: nat, a, b, c, d, f, sum, q, r | Leads(round, k, a, b, c, d, f, sum, q, r, x)
      ensures Operation(round, k, StateOf(a, b, c, d), x) == StateOf(d, r, b, c)
    {
      StepLeads(round, k, a, b, c, d, f, sum, q, r, x);
    }
  }

  lemma AllOperations(round: nat, s: State, x: seq<Word>)
    requires |x| == 16
    ensures Operations(round, 0, s, x) == s
    ensures Operations(round, 1, s, x) == Operation(round, 0, Operations(round, 0, s, x), x)
    ensures Operations(round, 2, s, x) == Operation(round, 1, Operations(round, 1, s, x), x)
    ensures Operations(round, 3, s, x) == Operation(round, 2, Operations(round, 2, s, x), x)
    ensures Operations(round, 4, s, x) == Operation(round, 3, Operations(round, 3, s, x), x)
    ensures Operations(round, 5, s, x) == Operation(round, 4, Operations(round, 4, s, x), x)
    ensures Operations(round, 6, s, x) == Operation(round, 5, Operations(round, 5, s, x), x)
    ensures Operations(round, 7, s, x) == Operation(round, 6, Operations(round, 6, s, x), x)
    ensures Operations(round, 8, s, x) == Operation(round, 7, Operations(round, 7, s, x), x)
    ensures Operations(round, 9, s, x) == Operation(round, 8, Operations(round, 8, s, x), x)
    ensures Operations(round, 10, s, x) == Operation(round, 9, Operations(round, 9, s, x), x)
    ensures Operations(round, 11, s, x) == Operation(round, 10, Operations(round, 10, s, x), x)
    ensures Operations(round, 12, s, x) == Operation(round, 11, Operations(round, 11, s, x), x)
    ensures Operations(round, 13, s, x) == Operation(round, 12, Operations(round, 12, s, x), x)
    ensures Operations(round, 14, s, x) == Operation(round, 13, Operations(round, 13, s, x), x)
    ensures Operations(round, 15, s, x) == Operation(round, 14, Operations(round, 14, s, x), x)
    ensures Operations(round, 16, s, x) == Operation(round, 15, Operations(round, 15, s, x), x)
  {
    hide Operation, Operations;
    NoSteps(round, s, x);
    forall k: nat
      ensures Operations(round, k + 1, s, x) == Operation(round, k, Operations(round, k, s, x), x)
    {
      OneMore(round, k, s, x);
    }
  }

  // ---------- The block ----------

  /** The sixteen words. */
  function WordAt(i: nat): Word {
    match i
    case 0 => 0x6463_6261
    case 1 => 0x6867_6665
    case 2 => 0x6C6B_6A69
    case 3 => 0x706F_6E6D
    case 4 => 0x7473_7271
    case 5 => 0x7877_7675
    case 6 => 0x0080_7A79
    case 14 => 0x0000_00D0
    case _ => 0
  }

  const WORDS: seq<Word> := seq(16, i requires 0 <= i < 16 => WordAt(i))

  // Step by step: the words before it, the mixed word, the sum, its rotation, and the new word.

  lemma Round1Step0()
    ensures Leads(0, 0, 0x6745_2301, 0xEFCD_AB89, 0x98BA_DCFE, 0x1032_5476,
                  0x98BA_DCFE, 0x3BCE_06D8, 0xE703_6C1D, 0xD6D1_17A6, WORDS)
  {
  }

  lemma Round1Step1()
    ensures Leads(0, 1, 0x1032_5476, 0xD6D1_17A6, 0xEFCD_AB89, 0x98BA_DCFE,
                  0xCEEB_CBD8, 0x304D_3E09, 0xD3E0_9304, 0xAAB1_AAAA, WORDS)
  {
  }

  lemma Round1Step2()
    ensures Leads(0, 2, 0x98BA_DCFE, 0xAAB1_AAAA, 0xD6D1_17A6, 0xEFCD_AB89,
                  0xC7DD_03A3, 0xF123_BBE5, 0x77CB_E247, 0x227D_8CF1, WORDS)
  {
  }

  lemma Round1Step3()
    ensures Leads(0, 3, 0xEFCD_AB89, 0x227D_8CF1, 0xAAB1_AAAA, 0xD6D1_17A6,
                  0xF6B1_9BA6, 0x18AC_848A, 0x2286_2B21, 0x4503_B812, WORDS)
  {
  }

  lemma Round1Step4()
    ensures Leads(0, 4, 0xD6D1_17A6, 0x4503_B812, 0x227D_8CF1, 0xAAB1_AAAA,
                  0xAAB1_8AB8, 0xEB72_247E, 0xB912_3F75, 0xFE15_F787, WORDS)
  {
  }

  lemma Round1Step5()
    ensures Leads(0, 5, 0xAAB1_AAAA, 0xFE15_F787, 0x4503_B812, 0x227D_8CF1,
                  0x4469_B872, 0xAF1A_9FBB, 0xA9FB_BAF1, 0xA811_B278, WORDS)
  {
  }

  lemma Round1Step6()
    ensures Leads(0, 6, 0x227D_8CF1, 0xA811_B278, 0xFE15_F787, 0x4503_B812,
                  0xED13_BA02, 0xB842_077F, 0x0EFF_7084, 0xB711_22FC, WORDS)
  {
  }

  lemma Round1Step7()
    ensures Leads(0, 7, 0x4503_B812, 0xB711_22FC, 0xA811_B278, 0xFE15_F787,
                  0xE815_F77B, 0x2A60_448E, 0x238A_9811, 0xDA9B_BB0D, WORDS)
  {
  }

  lemma Round1Step8()
    ensures Leads(0, 8, 0xFE15_F787, 0xDA9B_BB0D, 0xB711_22FC, 0xA811_B278,
                  0xB211_227C, 0x19A7_B2DB, 0xD3D9_6D8C, 0xAE75_2899, WORDS)
  {
  }

  lemma Round1Step9()
    ensures Leads(0, 9, 0xA811_B278, 0xAE75_2899, 0xDA9B_BB0D, 0xB711_22FC,
                  0x9B11_2A6D, 0xCE67_D494, 0x7D49_4CE6, 0x2BBE_757F, WORDS)
  {
  }

  lemma Round1Step10()
    ensures Leads(0, 10, 0xB711_22FC, 0x2BBE_757F, 0xAE75_2899, 0xDA9B_BB0D,
                  0xFA35_AA19, 0xB146_28C6, 0x518D_628C, 0x7D4B_D80B, WORDS)
  {
  }

  lemma Round1Step11()
    ensures Leads(0, 11, 0xDA9B_BB0D, 0x7D4B_D80B, 0x2BBE_757F, 0xAE75_2899,
                  0xAB3E_709B, 0x0F37_0366, 0xD983_CDC0, 0x56CF_A5CB, WORDS)
  {
  }

  lemma Round1Step12()
    ensures Leads(0, 12, 0xAE75_2899, 0x56CF_A5CB, 0x7D4B_D80B, 0x2BBE_757F,
                  0x7D7B_D03F, 0x9781_09FA, 0xC084_FD4B, 0x1754_A316, WORDS)
  {
  }

  lemma Round1Step13()
    ensures Leads(0, 13, 0x2BBE_757F, 0x1754_A316, 0x56CF_A5CB, 0x7D4B_D80B,
                  0x7E4F_F90B, 0xA7A6_E01D, 0x6E01_DA7A, 0x8556_7D90, WORDS)
  {
  }

  lemma Round1Step14()
    ensures Leads(0, 14, 0x7D4B_D80B, 0x8556_7D90, 0x1754_A316, 0x56CF_A5CB,
                  0x57DD_A15B, 0x7BA2_BDC4, 0x7B88_F745, 0x00DF_74D5, WORDS)
  {
  }

  lemma Round1Step15()
    ensures Leads(0, 15, 0x56CF_A5CB, 0x00DF_74D5, 0x8556_7D90, 0x1754_A316,
                  0x1756_F792, 0xB7DA_A57E, 0x5FAD_F6A9, 0x608D_6B7E, WORDS)
  {
  }

  lemma Round2Step0()
    ensures Leads(1, 0, 0x1754_A316, 0x608D_6B7E, 0x00DF_74D5, 0x8556_7D90,
                  0x008D_6955, 0x7667_9832, 0xCCF3_064E, 0x2D80_71CC, WORDS)
  {
  }

  lemma Round2Step1()
    ensures Leads(1, 1, 0x8556_7D90, 0x2D80_71CC, 0x608D_6B7E, 0x00DF_74D5,
                  0x6080_7BEE, 0xA698_2737, 0x304E_6F4D, 0x5DCE_E119, WORDS)
  {
  }

  lemma Round2Step2()
    ensures Leads(1, 2, 0x00DF_74D5, 0x5DCE_E119, 0x2D80_71CC, 0x608D_6B7E,
                  0x4D8C_7198, 0x74CA_40BE, 0x902F_9D32, 0xEDFE_7E4B, WORDS)
  {
  }

  lemma Round2Step3()
    ensures Leads(1, 3, 0x608D_6B7E, 0xEDFE_7E4B, 0x5DCE_E119, 0x2D80_71CC,
                  0x7DCE_F059, 0x2C76_85E2, 0x5E22_C768, 0x4C21_45B3, WORDS)
  {
  }

  lemma Round2Step4()
    ensures Leads(1, 4, 0x2D80_71CC, 0x4C21_45B3, 0xEDFE_7E4B, 0x5DCE_E119,
                  0xEC30_5F53, 0x6857_57F1, 0x0AEA_FE2D, 0x570C_43E0, WORDS)
  {
  }

  lemma Round2Step5()
    ensures Leads(1, 5, 0x5DCE_E119, 0x570C_43E0, 0x4C21_45B3, 0xEDFE_7E4B,
                  0x450D_43F0, 0xA520_395C, 0x4072_B94A, 0x977E_FD2A, WORDS)
  {
  }

  lemma Round2Step6()
    ensures Leads(1, 6, 0xEDFE_7E4B, 0x977E_FD2A, 0x570C_43E0, 0x4C21_45B3,
                  0x172C_4762, 0xDDCC_AC2E, 0x2B0B_B773, 0xC28A_B49D, WORDS)
  {
  }

  lemma Round2Step7()
    ensures Leads(1, 7, 0x4C21_45B3, 0xC28A_B49D, 0x977E_FD2A, 0x570C_43E0,
                  0xC27A_BC8A, 0x6AE3_7076, 0x0766_AE37, 0xC9F1_62D4, WORDS)
  {
  }

  lemma Round2Step8()
    ensures Leads(1, 8, 0x570C_43E0, 0xC9F1_62D4, 0xC28A_B49D, 0x977E_FD2A,
                  0xC1F0_6095, 0x3ADE_725B, 0x5BCE_4B67, 0x25BF_AE3B, WORDS)
  {
  }

  lemma Round2Step9()
    ensures Leads(1, 9, 0x977E_FD2A, 0x25BF_AE3B, 0xC9F1_62D4, 0xC28A_B49D,
                  0x09FB_E659, 0x64B1_EC29, 0x63D8_52C9, 0x8998_0104, WORDS)
  {
  }

  lemma Round2Step10()
    ensures Leads(1, 10, 0xC28A_B49D, 0x8998_0104, 0x25BF_AE3B, 0xC9F1_62D4,
                  0xAD9E_8C2F, 0xD56D_BCC0, 0x6F30_355B, 0xF8C8_365F, WORDS)
  {
  }

  lemma Round2Step11()
    ensures Leads(1, 11, 0xC9F1_62D4, 0xF8C8_365F, 0x8998_0104, 0x25BF_AE3B,
                  0xA888_271F, 0xB7D3_9EE0, 0xEE0B_7D39, 0xE6D3_B398, WORDS)
  {
  }

  lemma Round2Step12()
    ensures Leads(1, 12, 0x25BF_AE3B, 0xE6D3_B398, 0xF8C8_365F, 0x8998_0104,
                  0xF0D0_375B, 0xC073_CE9B, 0x0E79_D378, 0xF54D_8710, WORDS)
  {
  }

  lemma Round2Step13()
    ensures Leads(1, 13, 0x8998_0104, 0xF54D_8710, 0xE6D3_B398, 0xF8C8_365F,
                  0xF65B_8790, 0xE94E_96F5, 0x9D2D_EBD2, 0x927B_72E2, WORDS)
  {
  }

  lemma Round2Step14()
    ensures Leads(1, 14, 0xF8C8_365F, 0x927B_72E2, 0xF54D_8710, 0xE6D3_B398,
                  0x935F_3680, 0xF396_6FB8, 0x9BEE_3CE5, 0x2E69_AFC7, WORDS)
  {
  }

  lemma Round2Step15()
    ensures Leads(1, 15, 0xE6D3_B398, 0x2E69_AFC7, 0x927B_72E2, 0xF54D_8710,
                  0x267B_F7E2, 0x9A79_F804, 0x8049_A79F, 0xAEB3_5766, WORDS)
  {
  }

  lemma Round3Step0()
    ensures Leads(2, 0, 0xF54D_8710, 0xAEB3_5766, 0x2E69_AFC7, 0x927B_72E2,
                  0x12A1_8A43, 0x8060_C10A, 0x060C_10A8, 0xB4BF_680E, WORDS)
  {
  }

  lemma Round3Step1()
    ensures Leads(2, 1, 0x927B_72E2, 0xB4BF_680E, 0xAEB3_5766, 0x2E69_AFC7,
                  0x3465_90AF, 0x4E52_FA12, 0x97D0_9272, 0x4C8F_FA80, WORDS)
  {
  }

  lemma Round3Step2()
    ensures Leads(2, 2, 0x2E69_AFC7, 0x4C8F_FA80, 0xB4BF_680E, 0xAEB3_5766,
                  0x5683_C5E8, 0xF28A_D6D1, 0xD6D1_F28A, 0x2361_ED0A, WORDS)
  {
  }

  lemma Round3Step3()
    ensures Leads(2, 3, 0xAEB3_5766, 0x2361_ED0A, 0x4C8F_FA80, 0xB4BF_680E,
                  0xDB51_7F84, 0x87EA_0FC6, 0xE343_F507, 0x06A5_E211, WORDS)
  {
  }

  lemma Round3Step4()
    ensures Leads(2, 4, 0xB4BF_680E, 0x06A5_E211, 0x2361_ED0A, 0x4C8F_FA80,
                  0x694B_F59B, 0x2B31_AE52, 0xB31A_E522, 0xB9C0_C733, WORDS)
  {
  }

  lemma Round3Step5()
    ensures Leads(2, 5, 0x4C8F_FA80, 0xB9C0_C733, 0x06A5_E211, 0x2361_ED0A,
                  0x9C04_C828, 0xA8E7_04C2, 0x3826_1547, 0xF1E6_DC7A, WORDS)
  {
  }

  lemma Round3Step6()
    ensures Leads(2, 6, 0x2361_ED0A, 0xF1E6_DC7A, 0xB9C0_C733, 0x06A5_E211,
                  0x4E83_F958, 0x68A1_31C2, 0x31C2_68A1, 0x23A9_451B, WORDS)
  {
  }

  lemma Round3Step7()
    ensures Leads(2, 7, 0x06A5_E211, 0x23A9_451B, 0xF1E6_DC7A, 0xB9C0_C733,
                  0x6B8F_5E52, 0x30F4_FCD3, 0x6998_7A7E, 0x8D41_BF99, WORDS)
  {
  }

  lemma Round3Step8()
    ensures Leads(2, 8, 0xB9C0_C733, 0x8D41_BF99, 0x23A9_451B, 0xF1E6_DC7A,
                  0x5F0E_26F8, 0x416A_6CF1, 0x16A6_CF14, 0xA3E8_8EAD, WORDS)
  {
  }

  lemma Round3Step9()
    ensures Leads(2, 9, 0xF1E6_DC7A, 0xA3E8_8EAD, 0x8D41_BF99, 0x23A9_451B,
                  0x0D00_742F, 0x4DEB_DB04, 0x5ED8_226F, 0x02C0_B11C, WORDS)
  {
  }

  lemma Round3Step10()
    ensures Leads(2, 10, 0x23A9_451B, 0x02C0_B11C, 0xA3E8_8EAD, 0x8D41_BF99,
                  0x2C69_8028, 0x9571_6435, 0x6435_9571, 0x66F6_468D, WORDS)
  {
  }

  lemma Round3Step11()
    ensures Leads(2, 11, 0x8D41_BF99, 0x66F6_468D, 0x02C0_B11C, 0xA3E8_8EAD,
                  0xC7DE_793C, 0x5A28_D053, 0x29AD_1468, 0x90A3_5AF5, WORDS)
  {
  }

  lemma Round3Step12()
    ensures Leads(2, 12, 0xA3E8_8EAD, 0x90A3_5AF5, 0x66F6_468D, 0x02C0_B11C,
                  0xF495_AD64, 0x7253_0C4A, 0x2530_C4A7, 0xB5D4_1F9C, WORDS)
  {
  }

  lemma Round3Step13()
    ensures Leads(2, 13, 0x02C0_B11C, 0xB5D4_1F9C, 0x90A3_5AF5, 0x66F6_468D,
                  0x4381_03E4, 0x2D1D_4EE5, 0xEA77_2968, 0xA04B_4904, WORDS)
  {
  }

  lemma Round3Step14()
    ensures Leads(2, 14, 0x66F6_468D, 0xA04B_4904, 0xB5D4_1F9C, 0x90A3_5AF5,
                  0x853C_0C6D, 0x0BD4_CFF2, 0xCFF2_0BD4, 0x703D_54D8, WORDS)
  {
  }

  lemma Round3Step15()
    ensures Leads(2, 15, 0x90A3_5AF5, 0x703D_54D8, 0xA04B_4904, 0xB5D4_1F9C,
                  0x65A2_0240, 0x275D_1E03, 0x0193_AE8F, 0x71D1_0367, WORDS)
  {
  }

  lemma Round4Step0()
    ensures Leads(3, 0, 0xB5D4_1F9C, 0x71D1_0367, 0x703D_54D8, 0xA04B_4904,
                  0x0FC8_E327, 0x1E29_8768, 0x8A61_DA07, 0xFC32_DD6E, WORDS)
  {
  }

  lemma Round4Step1()
    ensures Leads(3, 1, 0xA04B_4904, 0xFC32_DD6E, 0x71D1_0367, 0x703D_54D8,
                  0x8E23_FC08, 0x719A_44A3, 0x6912_8DC6, 0x6545_6B34, WORDS)
  {
  }

  lemma Round4Step2()
    ensures Leads(3, 2, 0x703D_54D8, 0x6545_6B34, 0xFC32_DD6E, 0x71D1_0367,
                  0x135D_22D2, 0x2F2E_9C21, 0x4E10_9797, 0xB356_02CB, WORDS)
  {
  }

  lemma Round4Step3()
    ensures Leads(3, 3, 0x71D1_0367, 0xB356_02CB, 0x6545_6B34, 0xFC32_DD6E,
                  0xD69A_49EF, 0xBD76_6404, 0x8097_AECC, 0x33ED_B197, WORDS)
  {
  }

  lemma Round4Step4()
    ensures Leads(3, 4, 0xFC32_DD6E, 0x33ED_B197, 0xB356_02CB, 0x6545_6B34,
                  0x08A9_B714, 0x6A37_EE45, 0x8DFB_915A, 0xC1E9_42F1, WORDS)
  {
  }

  lemma Round4Step5()
    ensures Leads(3, 5, 0x6545_6B34, 0xC1E9_42F1, 0x33ED_B197, 0xB356_02CB,
                  0xFE04_4E62, 0x62C5_F495, 0x17D2_558B, 0xD9BB_987C, WORDS)
  {
  }

  lemma Round4Step6()
    ensures Leads(3, 6, 0xB356_02CB, 0xD9BB_987C, 0xC1E9_42F1, 0x33ED_B197,
                  0x1C52_9C8D, 0xCF98_93D5, 0x49EA_E7CC, 0x23A6_8048, WORDS)
  {
  }

  lemma Round4Step7()
    ensures Leads(3, 7, 0x33ED_B197, 0x23A6_8048, 0xD9BB_987C, 0xC1E9_42F1,
                  0xE60D_2532, 0x07E6_9AFF, 0x5FE0_FCD3, 0x8387_7D1B, WORDS)
  {
  }

  lemma Round4Step8()
    ensures Leads(3, 8, 0xC1E9_42F1, 0x8387_7D1B, 0x23A6_8048, 0xD9BB_987C,
                  0x8461_FFD3, 0xB5F3_C113, 0x7CF0_44ED, 0x0077_C208, WORDS)
  {
  }

  lemma Round4Step9()
    ensures Leads(3, 9, 0xD9BB_987C, 0x0077_C208, 0x8387_7D1B, 0x23A6_8048,
                  0x5FF8_82A4, 0x37E1_0200, 0x8408_00DF, 0x847F_C2E7, WORDS)
  {
  }

  lemma Round4Step10()
    ensures Leads(3, 10, 0x23A6_8048, 0x847F_C2E7, 0x0077_C208, 0x8387_7D1B,
                  0xFC08_00EF, 0xC330_3EC4, 0x1F62_6198, 0xA3E2_247F, WORDS)
  {
  }

  lemma Round4Step11()
    ensures Leads(3, 11, 0x8387_7D1B, 0xA3E2_247F, 0x847F_C2E7, 0x0077_C208,
                  0x7B95_FF18, 0x4D25_8DD4, 0xBA89_A4B1, 0x5E6B_C930, WORDS)
  {
  }

  lemma Round4Step12()
    ensures Leads(3, 12, 0x0077_C208, 0x5E6B_C930, 0xA3E2_247F, 0x847F_C2E7,
                  0xDC09_D947, 0x4848_8C42, 0x1223_1092, 0x708E_D9C2, WORDS)
  {
  }

  lemma Round4Step13()
    ensures Leads(3, 13, 0x847F_C2E7, 0x708E_D9C2, 0x5E6B_C930, 0xA3E2_247F,
                  0x22F4_12F2, 0x64AE_C80E, 0xBB20_3992, 0x2BAF_1354, WORDS)
  {
  }

  lemma Round4Step14()
    ensures Leads(3, 14, 0xA3E2_247F, 0x2BAF_1354, 0x708E_D9C2, 0x5E6B_C930,
                  0xDB31_EE1D, 0x1657_4FC0, 0xA7E0_0B2B, 0xD38F_1E7F, WORDS)
  {
  }

  lemma Round4Step15()
    ensures Leads(3, 15, 0x5E6B_C930, 0xD38F_1E7F, 0x2BAF_1354, 0x708E_D9C2,
                  0xF450_2D2B, 0x3E42_C9EC, 0x3D87_C859, 0x1116_E6D8, WORDS)
  {
  }

  lemma Round1()
    ensures Operations(0, 16, StateOf(0x6745_2301, 0xEFCD_AB89, 0x98BA_DCFE, 0x1032_5476), WORDS)
         == StateOf(0x1754_A316, 0x608D_6B7E, 0x00DF_74D5, 0x8556_7D90)
  {
    hide Leads, StateOf, Operation, Operations;
    LeadsToNext(0, WORDS);
    AllOperations(0, StateOf(0x6745_2301, 0xEFCD_AB89, 0x98BA_DCFE, 0x1032_5476), WORDS);
    Round1Step0(); Round1Step1(); Round1Step2(); Round1Step3();
    Round1Step4(); Round1Step5(); Round1Step6(); Round1Step7();
    Round1Step8(); Round1Step9(); Round1Step10(); Round1Step11();
    Round1Step12(); Round1Step13(); Round1Step14(); Round1Step15();
  }

  lemma Round2()
    ensures Operations(1, 16, StateOf(0x1754_A316, 0x608D_6B7E, 0x00DF_74D5, 0x8556_7D90), WORDS)
         == StateOf(0xF54D_8710, 0xAEB3_5766, 0x2E69_AFC7, 0x927B_72E2)
  {
    hide Leads, StateOf, Operation, Operations;
    LeadsToNext(1, WORDS);
    AllOperations(1, StateOf(0x1754_A316, 0x608D_6B7E, 0x00DF_74D5, 0x8556_7D90), WORDS);
    Round2Step0(); Round2Step1(); Round2Step2(); Round2Step3();
    Round2Step4(); Round2Step5(); Round2Step6(); Round2Step7();
    Round2Step8(); Round2Step9(); Round2Step10(); Round2Step11();
    Round2Step12(); Round2Step13(); Round2Step14(); Round2Step15();
  }

  lemma Round3()
    ensures Operations(2, 16, StateOf(0xF54D_8710, 0xAEB3_5766, 0x2E69_AFC7, 0x927B_72E2), WORDS)
         == StateOf(0xB5D4_1F9C, 0x71D1_0367, 0x703D_54D8, 0xA04B_4904)
  {
    hide Leads, StateOf, Operation, Operations;
    LeadsToNext(2, WORDS);
    AllOperations(2, StateOf(0xF54D_8710, 0xAEB3_5766, 0x2E69_AFC7, 0x927B_72E2), WORDS);
    Round3Step0(); Round3Step1(); Round3Step2(); Round3Step3();
    Round3Step4(); Round3Step5(); Round3Step6(); Round3Step7();
    Round3Step8(); Round3Step9(); Round3Step10(); Round3Step11();
    Round3Step12(); Round3Step13(); Round3Step14(); Round3Step15();
  }

  lemma Round4()
    ensures Operations(3, 16, StateOf(0xB5D4_1F9C, 0x71D1_0367, 0x703D_54D8, 0xA04B_4904), WORDS)
         == StateOf(0x708E_D9C2, 0x1116_E6D8, 0xD38F_1E7F, 0x2BAF_1354)
  {
    hide Leads, StateOf, Operation, Operations;
    LeadsToNext(3, WORDS);
    AllOperations(3, StateOf(0xB5D4_1F9C, 0x71D1_0367, 0x703D_54D8, 0xA04B_4904), WORDS);
    Round4Step0(); Round4Step1(); Round4Step2(); Round4Step3();
    Round4Step4(); Round4Step5(); Round4Step6(); Round4Step7();
    Round4Step8(); Round4Step9(); Round4Step10(); Round4Step11();
    Round4Step12(); Round4Step13(); Round4Step14(); Round4Step15();
  }

  function Letter(i: nat): Byte
    requires i < 26
  {
    0x61 + i
  }

  /** "abcdefghijklmnopqrstuvwxyz" */
  const MESSAGE: seq<Byte> := seq(26, i requires 0 <= i < 26 => Letter(i))

  /** Its padded form: the letters, a one bit, zeros, and the length of 208 bits. */
  function BlockByte(i: nat): Byte {
    if i < 26 then 0x61 + i else if i == 26 then 0x80 else if i == 56 then 208 else 0
  }

  const BLOCK: seq<Byte> := seq(64, i requires 0 <= i < 64 => BlockByte(i))

  lemma MessagePadded()
    ensures Padded(MESSAGE) == BLOCK
  {
    hide Write;
    LengthWritten();
    assert LengthField(26) == Write(Little, 208, 8);
  }

  lemma LengthWritten()
    ensures Write(Little, 208, 8) == [208, 0, 0, 0, 0, 0, 0, 0]
  {
    WriteZeros(7);
    assert Write(Little, 208, 8) == [208] + Write(Little, 0, 7);
  }

  lemma {:induction false} WriteZeros(n: nat)
    ensures Write(Little, 0, n) == seq(n, _ => 0)
  {
    if n > 0 {
      WriteZeros(n - 1);
    }
  }

  lemma Words0To1(i: nat)
    requires 0 <= i < 2
    ensures Lowest(BlockByte(4 * i), BlockByte(4 * i + 1), BlockByte(4 * i + 2), BlockByte(4 * i + 3)) == WordAt(i)
  {
    if i == 0 {
    } else {
    }
  }

  lemma Words2To3(i: nat)
    requires 2 <= i < 4
    ensures Lowest(BlockByte(4 * i), BlockByte(4 * i + 1), BlockByte(4 * i + 2), BlockByte(4 * i + 3)) == WordAt(i)
  {
    if i == 2 {
    } else {
    }
  }

  lemma Words4To5(i: nat)
    requires 4 <= i < 6
    ensures Lowest(BlockByte(4 * i), BlockByte(4 * i + 1), BlockByte(4 * i + 2), BlockByte(4 * i + 3)) == WordAt(i)
  {
    if i == 4 {
    } else {
    }
  }

  lemma LastLetters()
    ensures WordAt(6) == 0x0080_7A79
    ensures BlockByte(24) == 0x79 && BlockByte(25) == 0x7A && BlockByte(26) == 0x80 && BlockByte(27) == 0
  {
  }

  lemma EmptyWords(i: nat)
    requires 7 <= i < 14 || i == 15
    ensures WordAt(i) == 0
    ensures BlockByte(4 * i) == BlockByte(4 * i + 1) == BlockByte(4 * i + 2) == BlockByte(4 * i + 3) == 0
  {
  }

  lemma LengthWord()
    ensures WordAt(14) == 208 == BlockByte(56) && BlockByte(57) == BlockByte(58) == BlockByte(59) == 0
  {
  }

  lemma WordAtIs(i: nat)
    requires i < 16
    ensures Lowest(BlockByte(4 * i), BlockByte(4 * i + 1), BlockByte(4 * i + 2), BlockByte(4 * i + 3)) == WordAt(i)
  {
    hide BlockByte, WordAt;
    if i < 2 {
      Words0To1(i);
    } else if i < 4 {
      Words2To3(i);
    } else if i < 6 {
      Words4To5(i);
    } else if i == 6 {
      LastLetters();
    } else if i == 14 {
      LengthWord();
    } else {
      EmptyWords(i);
    }
  }

  lemma BlockWord(i: nat)
    requires i < 16
    ensures BlockWords(BLOCK)[i] == WORDS[i]
  {
    hide Read, Lowest, BlockByte, WordAt;
    var s := BLOCK[4 * i..4 * i + 4];
    assert s[0] == BlockByte(4 * i) && s[1] == BlockByte(4 * i + 1);
    assert s[2] == BlockByte(4 * i + 2) && s[3] == BlockByte(4 * i + 3);
    ReadFour(s);
    WordAtIs(i);
  }

  lemma StartOf()
    ensures INITIAL == StateOf(0x6745_2301, 0xEFCD_AB89, 0x98BA_DCFE, 0x1032_5476)
  {
    hide Numeral;
    NumeralIs(0x6745_2301);
    NumeralIs(0xEFCD_AB89);
    NumeralIs(0x98BA_DCFE);
    NumeralIs(0x1032_5476);
  }

  lemma EndOf()
    ensures StateOf(0x708E_D9C2, 0x1116_E6D8, 0xD38F_1E7F, 0x2BAF_1354) == State(0x708E_D9C2, 0x1116_E6D8, 0xD38F_1E7F, 0x2BAF_1354)
  {
    hide Numeral;
    NumeralIs(0x708E_D9C2);
    NumeralIs(0x1116_E6D8);
    NumeralIs(0xD38F_1E7F);
    NumeralIs(0x2BAF_1354);
  }

  lemma BlockCompressed()
    ensures Compress(INITIAL, WORDS) == State(0xD7D3_FCC3, 0x00E4_9261, 0x6C49_FB7D, 0x3BE1_67CA)
  {
    hide Operations, StateOf;
    StartOf();
    Round1();
    Round2();
    Round3();
    Round4();
    EndOf();
  }

  lemma DigestBytes()
    ensures Output(State(0xD7D3_FCC3, 0x00E4_9261, 0x6C49_FB7D, 0x3BE1_67CA))
         == [0xC3, 0xFC, 0xD3, 0xD7, 0x61, 0x92, 0xE4, 0x00, 0x7D, 0xFB, 0x49, 0x6C, 0xCA, 0x67, 0xE1, 0x3B]
  {
    hide Write;
    WriteFour(0xD7D3_FCC3);
    WriteFour(0x00E4_9261);
    WriteFour(0x6C49_FB7D);
    WriteFour(0x3BE1_67CA);
  }

  /** The digest c3fcd3d76192e4007dfb496cca67e13b. */
  lemma DigestOfAlphabet()
    ensures Digest(MESSAGE)
         == [0xC3, 0xFC, 0xD3, 0xD7, 0x61, 0x92, 0xE4, 0x00, 0x7D, 0xFB, 0x49, 0x6C, 0xCA, 0x67, 0xE1, 0x3B]
  {
    hide Padded, Blocks, BlockWords, Compress, Output;
    MessagePadded();
    OneBlock(INITIAL, BLOCK);
    forall i | 0 <= i < 16
      ensures BlockWords(BLOCK)[i] == WORDS[i]
    {
      BlockWord(i);
    }
    assert BlockWords(BLOCK) == WORDS;
    BlockCompressed();
    DigestBytes();
  }
}
