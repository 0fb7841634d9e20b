// The table of cached powers of ten, and the one looked up for an exponent.
module CachedPowers {
  import opened Arithmetic
  import opened Decimals
  import opened RealPowers
  import opened DiyFloats

  const ENTRIES := 87

  function Cached(i: nat): DiyFp
    requires i < ENTRIES
  {
    match i
    case 0 => DiyFp(0xfa8f_d5a0_081c_0288, -1220)
    case 1 => DiyFp(0xbaae_e17f_a23e_bf76, -1193)
    case 2 => DiyFp(0x8b16_fb20_3055_ac76, -1166)
    case 3 => DiyFp(0xcf42_894a_5dce_35ea, -1140)
    case 4 => DiyFp(0x9a6b_b0aa_5565_3b2d, -1113)
    case 5 => DiyFp(0xe61a_cf03_3d1a_45df, -1087)
    case 6 => DiyFp(0xab70_fe17_c79a_c6ca, -1060)
    case 7 => DiyFp(0xff77_b1fc_bebc_dc4f, -1034)
    case 8 => DiyFp(0xbe56_91ef_416b_d60c, -1007)
    case 9 => DiyFp(0x8dd0_1fad_907f_fc3c, -980)
    case 10 => DiyFp(0xd351_5c28_3155_9a83, -954)
    case 11 => DiyFp(0x9d71_ac8f_ada6_c9b5, -927)
    case 12 => DiyFp(0xea9c_2277_23ee_8bcb, -901)
    case 13 => DiyFp(0xaecc_4991_4078_536d, -874)
    case 14 => DiyFp(0x823c_1279_5db6_ce57, -847)
    case 15 => DiyFp(0xc210_9436_4dfb_5637, -821)
    case 16 => DiyFp(0x9096_ea6f_3848_984f, -794)
    case 17 => DiyFp(0xd774_85cb_2582_3ac7, -768)
    case 18 => DiyFp(0xa086_cfcd_97bf_97f4, -741)
    case 19 => DiyFp(0xef34_0a98_172a_ace5, -715)
    case 20 => DiyFp(0xb238_67fb_2a35_b28e, -688)
    case 21 => DiyFp(0x84c8_d4df_d2c6_3f3b, -661)
    case 22 => DiyFp(0xc5dd_4427_1ad3_cdba, -635)
    case 23 => DiyFp(0x936b_9fce_bb25_c996, -608)
    case 24 => DiyFp(0xdbac_6c24_7d62_a584, -582)
    case 25 => DiyFp(0xa3ab_6658_0d5f_daf6, -555)
    case 26 => DiyFp(0xf3e2_f893_dec3_f126, -529)
    case 27 => DiyFp(0xb5b5_ada8_aaff_80b8, -502)
    case 28 => DiyFp(0x8762_5f05_6c7c_4a8b, -475)
    case 29 => DiyFp(0xc9bc_ff60_34c1_3053, -449)
    case 30 => DiyFp(0x964e_858c_91ba_2655, -422)
    case 31 => DiyFp(0xdff9_7724_7029_7ebd, -396)
    case 32 => DiyFp(0xa6df_bd9f_b8e5_b88f, -369)
    case 33 => DiyFp(0xf8a9_5fcf_8874_7d94, -343)
    case 34 => DiyFp(0xb944_7093_8fa8_9bcf, -316)
    case 35 => DiyFp(0x8a08_f0f8_bf0f_156b, -289)
    case 36 => DiyFp(0xcdb0_2555_6531_31b6, -263)
    case 37 => DiyFp(0x993f_e2c6_d07b_7fac, -236)
    case 38 => DiyFp(0xe45c_10c4_2a2b_3b06, -210)
    case 39 => DiyFp(0xaa24_2499_6973_92d3, -183)
    case 40 => DiyFp(0xfd87_b5f2_8300_ca0e, -157)
    case 41 => DiyFp(0xbce5_0864_9211_1aeb, -130)
    case 42 => DiyFp(0x8cbc_cc09_6f50_88cc, -103)
    case 43 => DiyFp(0xd1b7_1758_e219_652c, -77)
    case 44 => DiyFp(0x9c40_0000_0000_0000, -50)
    case 45 => DiyFp(0xe8d4_a510_0000_0000, -24)
    case 46 => DiyFp(0xad78_ebc5_ac62_0000, 3)
    case 47 => DiyFp(0x813f_3978_f894_0984, 30)
    case 48 => DiyFp(0xc097_ce7b_c907_15b3, 56)
    case 49 => DiyFp(0x8f7e_32ce_7bea_5c70, 83)
    case 50 => DiyFp(0xd5d2_38a4_abe9_8068, 109)
    case 51 => DiyFp(0x9f4f_2726_179a_2245, 136)
    case 52 => DiyFp(0xed63_a231_d4c4_fb27, 162)
    case 53 => DiyFp(0xb0de_6538_8cc8_ada8, 189)
    case 54 => DiyFp(0x83c7_088e_1aab_65db, 216)
    case 55 => DiyFp(0xc45d_1df9_4271_1d9a, 242)
    case 56 => DiyFp(0x924d_692c_a61b_e758, 269)
    case 57 => DiyFp(0xda01_ee64_1a70_8dea, 295)
    case 58 => DiyFp(0xa26d_a399_9aef_774a, 322)
    case 59 => DiyFp(0xf209_787b_b47d_6b85, 348)
    case 60 => DiyFp(0xb454_e4a1_79dd_1877, 375)
    case 61 => DiyFp(0x865b_8692_5b9b_c5c2, 402)
    case 62 => DiyFp(0xc835_53c5_c896_5d3d, 428)
    case 63 => DiyFp(0x952a_b45c_fa97_a0b3, 455)
    case 64 => DiyFp(0xde46_9fbd_99a0_5fe3, 481)
    case 65 => DiyFp(0xa59b_c234_db39_8c25, 508)
    case 66 => DiyFp(0xf6c6_9a72_a398_9f5c, 534)
    case 67 => DiyFp(0xb7dc_bf53_54e9_bece, 561)
    case 68 => DiyFp(0x88fc_f317_f222_41e2, 588)
    case 69 => DiyFp(0xcc20_ce9b_d35c_78a5, 614)
    case 70 => DiyFp(0x9816_5af3_7b21_53df, 641)
    case 71 => DiyFp(0xe2a0_b5dc_971f_303a, 667)
    case 72 => DiyFp(0xa8d9_d153_5ce3_b396, 694)
    case 73 => DiyFp(0xfb9b_7cd9_a4a7_443c, 720)
    case 74 => DiyFp(0xbb76_4c4c_a7a4_4410, 747)
    case 75 => DiyFp(0x8bab_8eef_b640_9c1a, 774)
    case 76 => DiyFp(0xd01f_ef10_a657_842c, 800)
    case 77 => DiyFp(0x9b10_a4e5_e991_3129, 827)
    case 78 => DiyFp(0xe710_9bfb_a19c_0c9d, 853)
    case 79 => DiyFp(0xac28_20d9_623b_f429, 880)
    case 80 => DiyFp(0x8044_4b5e_7aa7_cf85, 907)
    case 81 => DiyFp(0xbf21_e440_03ac_dd2d, 933)
    case 82 => DiyFp(0x8e67_9c2f_5e44_ff8f, 960)
    case 83 => DiyFp(0xd433_179d_9c8c_b841, 986)
    case 84 => DiyFp(0x9e19_db92_b4e3_1ba9, 1013)
    case 85 => DiyFp(0xeb96_bf6e_badf_77d9, 1039)
    case _ => DiyFp(0xaf87_023b_9bf0_ee6b, 1066)
  }

  // The power of ten of entry i.
  function DecimalExponent(i: nat): int { 8 * i - 348 }

  // Ten to the power of entry i is known to 128 bits: how far the lower bound is
  // from the significand in the last of these bits, and how far the upper bound is
  // from the lower one.
  function Bounds(i: nat): (int, int)
    requires i < ENTRIES
  {
    match i
    case 0 => (0x1732c869cd60e434, 66)
    case 1 => (0x5d79bcf00d2df633, 48)
    case 2 => (0x4c3bcb5021afcc21, 35)
    case 3 => (0x52064cac828675a2, 50)
    case 4 => (0x47b233c92125365e, 36)
    case 5 => (0x6fb92487298e33a6, 52)
    case 6 => (0x6dbd630a48aaf3f5, 38)
    case 7 => (0x25e8e89c13bb0f61, 56)
    case 8 => (0x23cc986bc656d541, 41)
    case 9 => (-0x51c2582680986d2a, 30)
    case 10 => (0xd5a5b44ca873df0, 43)
    case 11 => (0x6f773fc3603db49b, 31)
    case 12 => (0x465e15a979c1cac7, 45)
    case 13 => (0x58fae9f773886e09, 33)
    case 14 => (0x76c53d08d6b7084d, 24)
    case 15 => (-0x67a6ea03ed0abd2b, 34)
    case 16 => (0x3ff0d2c85def7616, 25)
    case 17 => (0x7d633293366b827a, 37)
    case 18 => (-0x7f175bf1332dd768, 27)
    case 19 => (-0x7904768ee93783de, 39)
    case 20 => (-0x16619e65b0dc55ca, 28)
    case 21 => (0x29ecd9f40041e06a, 20)
    case 22 => (0x40eff1e1853f29f0, 28)
    case 23 => (-0x354ef226ff4113d5, 20)
    case 24 => (-0x20ba08b948b540d5, 28)
    case 25 => (-0x3ec19f2f2d1f1450, 20)
    case 26 => (0x5a89dba3c3efcced, 27)
    case 27 => (0xd819992132456b1, 19)
    case 28 => (0x11471cd764ad496c, 13)
    case 29 => (-0x3764c6c22fd0f54, 18)
    case 30 => (0x3a6a07f8d510f869, 13)
    case 31 => (0x59787e2b93bc56ed, 19)
    case 32 => (-0x34b332aff09446b4, 13)
    case 33 => (0x75a44c6397ce9121, 18)
    case 34 => (-0x7f71bf172a4c19d, 13)
    case 35 => (0x1b8e9ecb641b58fb, 9)
    case 36 => (0x3792f412cb067947, 12)
    case 37 => (-0x1ab957fc7101bfdb, 8)
    case 38 => (-0x734765824883af9a, 10)
    case 39 => (-0x221af42e2a2f4619, 6)
    case 40 => (-0x74356291e777ac07, 7)
    case 41 => (-0x770b44e359430a7e, 4)
    case 42 => (-0x6c07848bbd1ba2d, 2)
    case 43 => (-0x2c3c9eecbfb15b58, 1)
    case 44 => (0x0, 0)
    case 45 => (0x0, 0)
    case 46 => (0x0, 0)
    case 47 => (0x4000000000000000, 0)
    case 48 => (0x4b9f100000000000, 0)
    case 49 => (-0x1b7dffdc5e000000, 0)
    case 50 => (0x72a4904598d6d880, 0)
    case 51 => (0x1d762422c946590, 1)
    case 52 => (0x4ca7aaa863ee4bdc, 2)
    case 53 => (0x3b25a55f43294bca, 3)
    case 54 => (0x792667c6da79e0f8, 3)
    case 55 => (0x3ba5d0bd324f8391, 5)
    case 56 => (0x593c2626705f9c54, 4)
    case 57 => (-0x17f190b7df336b6e, 7)
    case 58 => (-0x1c41a1ccf0c70f65, 6)
    case 59 => (-0x3f9873a242dc5b6b, 10)
    case 60 => (0x29babe4598c311f7, 9)
    case 61 => (0xb8a2392ba45a9ae, 8)
    case 62 => (0x6f92829494e5acc0, 13)
    case 63 => (-0x226ba58b840d9e82, 10)
    case 64 => (0x6fca5f8ed9aef3b2, 16)
    case 65 => (0x43fab9837e69908e, 13)
    case 66 => (-0x7552ab61a8d8c2c7, 20)
    case 67 => (0xc11ed6d538aeb26, 16)
    case 68 => (0x441fece3bdf81efc, 13)
    case 69 => (0x31ec038df7b441e9, 20)
    case 70 => (-0x3c8d85cc85748fbf, 16)
    case 71 => (0x2e44ae64840fd610, 25)
    case 72 => (0x7f1839a741a14d03, 19)
    case 73 => (0x169840ef017da3a1, 30)
    case 74 => (-0x6292e52be541c81b, 23)
    case 75 => (0x1ad089b6c2f75484, 18)
    case 76 => (0x2d2b7569b0432d75, 28)
    case 77 => (-0x35830d4be6e37ce6, 22)
    case 78 => (0xcc512670a783ac2, 34)
    case 79 => (0x546345fa9fbdcd36, 26)
    case 80 => (0x7980d163cf5b81a8, 20)
    case 81 => (-0x1fb8f59c1942a94e, 31)
    case 82 => (0x570f09eaa7ea763b, 24)
    case 83 => (0x5fa60692a46151d7, 37)
    case 84 => (0x6c07a2c26a8346c1, 29)
    case 85 => (-0x1be3a42e73a81789, 44)
    case _ => (-0x1470528380797f5e, 33)
  }

  function Lower(i: nat): int
    requires i < ENTRIES
  {
    Cached(i).significand * WORD + Bounds(i).0
  }

  function Upper(i: nat): int
    requires i < ENTRIES
  {
    Lower(i) + Bounds(i).1
  }

  // The binary logarithm of ten is 1 / 0.30102999566398114.
  const LOG := 30102999566398114
  const LOG_UNIT := 100000000000000000

  // The bounds are within half a unit of the significand, and the exponents for
  // which the entry is looked up are brought between -60 and -32, even if the
  // logarithm is wrong by 10^-9.
  predicate EntryOk(i: nat)
    requires i < ENTRIES
  {
    var c, d := Cached(i), DecimalExponent(i);
    var (offset, width) := Bounds(i);
    && WORD / 2 <= c.significand < WORD
    && -(WORD / 2) <= offset && 0 <= width && offset + width <= WORD / 2
    && d * LOG_UNIT + 100000000 < (c.exp + 64) * LOG
    && (c.exp + 34) * LOG <= (d - 8) * LOG_UNIT - 100000000
  }

  const TEN_EIGHT := 100000000

  function Shifted(n: int, s: int): int { if s == 26 then n * 0x400_0000 else n * 0x800_0000 }

  // From 10^4, which is exact, the bounds are carried on in both directions.
  predicate StepOk(i: nat)
    requires i + 1 < ENTRIES
  {
    var s := Cached(i + 1).exp - Cached(i).exp;
    && (s == 26 || s == 27)
    && if i >= EXACT then
         Shifted(Lower(i + 1), s) <= Lower(i) * TEN_EIGHT && Upper(i) * TEN_EIGHT <= Shifted(Upper(i + 1), s)
       else
         Lower(i) * TEN_EIGHT <= Shifted(Lower(i + 1), s) && Shifted(Upper(i + 1), s) <= Upper(i) * TEN_EIGHT
  }

  const EXACT: nat := 44

  lemma RowOk(i: nat)
    requires i < ENTRIES
    ensures EntryOk(i) && (i + 1 < ENTRIES ==> StepOk(i))
  {
    hide EntryOk, StepOk;
    if i < 5 {
      Rows0(i);
    } else if i < 10 {
      Rows5(i);
    } else if i < 15 {
      Rows10(i);
    } else if i < 20 {
      Rows15(i);
    } else if i < 25 {
      Rows20(i);
    } else if i < 30 {
      Rows25(i);
    } else if i < 35 {
      Rows30(i);
    } else if i < 40 {
      Rows35(i);
    } else if i < 45 {
      Rows40(i);
    } else if i < 50 {
      Rows45(i);
    } else if i < 55 {
      Rows50(i);
    } else if i < 60 {
      Rows55(i);
    } else if i < 65 {
      Rows60(i);
    } else if i < 70 {
      Rows65(i);
    } else if i < 75 {
      Rows70(i);
    } else if i < 80 {
      Rows75(i);
    } else if i < 85 {
      Rows80(i);
    } else {
      Rows85(i);
    }
  }

  lemma Rows0(i: nat)
    requires 0 <= i < 5
    ensures EntryOk(i) && (i + 1 < ENTRIES ==> StepOk(i))
  {
    match i {
      case 0 =>
      case 1 =>
      case 2 =>
      case 3 =>
      case 4 =>
      case _ =>
    }
  }

  lemma Rows5(i: nat)
    requires 5 <= i < 10
    ensures EntryOk(i) && (i + 1 < ENTRIES ==> StepOk(i))
  {
    match i {
      case 5 =>
      case 6 =>
      case 7 =>
      case 8 =>
      case 9 =>
      case _ =>
    }
  }

  lemma Rows10(i: nat)
    requires 10 <= i < 15
    ensures EntryOk(i) && (i + 1 < ENTRIES ==> StepOk(i))
  {
    match i {
      case 10 =>
      case 11 =>
      case 12 =>
      case 13 =>
      case 14 =>
      case _ =>
    }
  }

  lemma Rows15(i: nat)
    requires 15 <= i < 20
    ensures EntryOk(i) && (i + 1 < ENTRIES ==> StepOk(i))
  {
    match i {
      case 15 =>
      case 16 =>
      case 17 =>
      case 18 =>
      case 19 =>
      case _ =>
    }
  }

  lemma Rows20(i: nat)
    requires 20 <= i < 25
    ensures EntryOk(i) && (i + 1 < ENTRIES ==> StepOk(i))
  {
    match i {
      case 20 =>
      case 21 =>
      case 22 =>
      case 23 =>
      case 24 =>
      case _ =>
    }
  }

  lemma Rows25(i: nat)
    requires 25 <= i < 30
    ensures EntryOk(i) && (i + 1 < ENTRIES ==> StepOk(i))
  {
    match i {
      case 25 =>
      case 26 =>
      case 27 =>
      case 28 =>
      case 29 =>
      case _ =>
    }
  }

  lemma Rows30(i: nat)
    requires 30 <= i < 35
    ensures EntryOk(i) && (i + 1 < ENTRIES ==> StepOk(i))
  {
    match i {
      case 30 =>
      case 31 =>
      case 32 =>
      case 33 =>
      case 34 =>
      case _ =>
    }
  }

  lemma Rows35(i: nat)
    requires 35 <= i < 40
    ensures EntryOk(i) && (i + 1 < ENTRIES ==> StepOk(i))
  {
    match i {
      case 35 =>
      case 36 =>
      case 37 =>
      case 38 =>
      case 39 =>
      case _ =>
    }
  }

  lemma Rows40(i: nat)
    requires 40 <= i < 45
    ensures EntryOk(i) && (i + 1 < ENTRIES ==> StepOk(i))
  {
    match i {
      case 40 =>
      case 41 =>
      case 42 =>
      case 43 =>
      case 44 =>
      case _ =>
    }
  }

  lemma Rows45(i: nat)
    requires 45 <= i < 50
    ensures EntryOk(i) && (i + 1 < ENTRIES ==> StepOk(i))
  {
    match i {
      case 45 =>
      case 46 =>
      case 47 =>
      case 48 =>
      case 49 =>
      case _ =>
    }
  }

  lemma Rows50(i: nat)
    requires 50 <= i < 55
    ensures EntryOk(i) && (i + 1 < ENTRIES ==> StepOk(i))
  {
    match i {
      case 50 =>
      case 51 =>
      case 52 =>
      case 53 =>
      case 54 =>
      case _ =>
    }
  }

  lemma Rows55(i: nat)
    requires 55 <= i < 60
    ensures EntryOk(i) && (i + 1 < ENTRIES ==> StepOk(i))
  {
    match i {
      case 55 =>
      case 56 =>
      case 57 =>
      case 58 =>
      case 59 =>
      case _ =>
    }
  }

  lemma Rows60(i: nat)
    requires 60 <= i < 65
    ensures EntryOk(i) && (i + 1 < ENTRIES ==> StepOk(i))
  {
    match i {
      case 60 =>
      case 61 =>
      case 62 =>
      case 63 =>
      case 64 =>
      case _ =>
    }
  }

  lemma Rows65(i: nat)
    requires 65 <= i < 70
    ensures EntryOk(i) && (i + 1 < ENTRIES ==> StepOk(i))
  {
    match i {
      case 65 =>
      case 66 =>
      case 67 =>
      case 68 =>
      case 69 =>
      case _ =>
    }
  }

  lemma Rows70(i: nat)
    requires 70 <= i < 75
    ensures EntryOk(i) && (i + 1 < ENTRIES ==> StepOk(i))
  {
    match i {
      case 70 =>
      case 71 =>
      case 72 =>
      case 73 =>
      case 74 =>
      case _ =>
    }
  }

  lemma Rows75(i: nat)
    requires 75 <= i < 80
    ensures EntryOk(i) && (i + 1 < ENTRIES ==> StepOk(i))
  {
    match i {
      case 75 =>
      case 76 =>
      case 77 =>
      case 78 =>
      case 79 =>
      case _ =>
    }
  }

  lemma Rows80(i: nat)
    requires 80 <= i < 85
    ensures EntryOk(i) && (i + 1 < ENTRIES ==> StepOk(i))
  {
    match i {
      case 80 =>
      case 81 =>
      case 82 =>
      case 83 =>
      case 84 =>
      case _ =>
    }
  }

  lemma Rows85(i: nat)
    requires 85 <= i < 87
    ensures EntryOk(i) && (i + 1 < ENTRIES ==> StepOk(i))
  {
    match i {
      case 85 =>
      case 86 =>
      case _ =>
    }
  }

  // Ten to the power of the entry is between the bounds.
  ghost predicate Near(i: nat)
    requires i < ENTRIES
  {
    var u := TwoTo(Cached(i).exp - 64);
    Lower(i) as real * u <= TenTo(DecimalExponent(i)) <= Upper(i) as real * u
  }

  lemma ExactTen()
    ensures Near(EXACT)
  {
    hide Power, Pow2, TenTo, TwoTo, Ten;
    FourTens();
    TenToNat(4);
    Pow2Values();
    Pow2Small();
    Pow2Add(52, 8);
    Pow2Add(60, 2);
    Pow2Add(50, 2);
    Pow2Add(64, 50);
    TwoToNat(114);
    TwoToSum(114, -114);
    TwoToZero();
    assert Lower(EXACT) == 10000 * Pow2(114) && Upper(EXACT) == Lower(EXACT);
    Inverse(10000.0, TwoTo(114), TwoTo(-114));
  }

  lemma FourTens()
    ensures Ten(4) == 10000 && Ten(8) == TEN_EIGHT
  {
  }

  lemma Inverse(n: real, a: real, b: real)
    requires a * b == 1.0
    ensures (n * a) * b == n
  {
    assert (n * a) * b == n * (a * b);
  }

  lemma TwoToZero()
    ensures TwoTo(0) == 1.0
  {
  }

  // The powers of the next entry.
  lemma NextPowers(i: nat)
    requires i + 1 < ENTRIES && StepOk(i)
    ensures TenTo(DecimalExponent(i + 1)) == TEN_EIGHT as real * TenTo(DecimalExponent(i))
    ensures var u := TwoTo(Cached(i).exp - 64);
            var s := Cached(i + 1).exp - Cached(i).exp;
            && (s == 26 || s == 27)
            && TwoTo(Cached(i + 1).exp - 64) == Shifted(1, s) as real * u
  {
    hide Power, Pow2, Ten, Cached, Lower, Upper;
    FourTens();
    TenToNat(8);
    PowerAdd(10.0, 8, DecimalExponent(i));
    var s := Cached(i + 1).exp - Cached(i).exp;
    TwoToSum(s, Cached(i).exp - 64);
    TwoToNat(s);
    Pow2Small();
    Pow2Add(8, 8);
    Pow2Add(16, 10);
    Pow2Add(26, 1);
  }

  // From n * 10^8 <= m * 2^s and like facts about the units to a fact about what
  // the numbers stand for; u is the unit of n, and that of m is 2^s as large.
  lemma Carried(n: int, m: int, s: int, u: real, u1: real)
    requires (s == 26 || s == 27) && u1 == Shifted(1, s) as real * u && u > 0.0
    ensures Shifted(m, s) <= n * TEN_EIGHT ==> m as real * u1 <= TEN_EIGHT as real * (n as real * u)
    ensures n * TEN_EIGHT <= Shifted(m, s) ==> TEN_EIGHT as real * (n as real * u) <= m as real * u1
  {
    var k := Shifted(1, s) as real;
    assert m as real * u1 == (m as real * k) * u;
    assert TEN_EIGHT as real * (n as real * u) == (TEN_EIGHT as real * n as real) * u;
    assert m as real * k == Shifted(m, s) as real;
    assert TEN_EIGHT as real * n as real == (n * TEN_EIGHT) as real;
    Grow(Shifted(m, s), n * TEN_EIGHT, u);
  }

  lemma Grow(a: int, b: int, u: real)
    requires u > 0.0
    ensures a <= b ==> a as real * u <= b as real * u
    ensures b <= a ==> b as real * u <= a as real * u
  {
  }

  lemma TenTimes(a: real, x: real, b: real)
    requires a <= x <= b
    ensures TEN_EIGHT as real * a <= TEN_EIGHT as real * x <= TEN_EIGHT as real * b
  {
  }

  lemma TenthOf(a: real, x: real, b: real, lower: real, upper: real)
    requires TEN_EIGHT as real * a <= lower <= TEN_EIGHT as real * x <= upper <= TEN_EIGHT as real * b
    ensures a <= x <= b
  {
  }

  lemma StepUp(i: nat)
    requires EXACT <= i && i + 1 < ENTRIES && Near(i)
    ensures Near(i + 1)
  {
    hide Cached, Bounds, Lower, Upper, EntryOk, TenTo, TwoTo, Power, Shifted;
    RowOk(i);
    NextPowers(i);
    var u, u1 := TwoTo(Cached(i).exp - 64), TwoTo(Cached(i + 1).exp - 64);
    var s := Cached(i + 1).exp - Cached(i).exp;
    Carried(Lower(i), Lower(i + 1), s, u, u1);
    Carried(Upper(i), Upper(i + 1), s, u, u1);
    TenTimes(Lower(i) as real * u, TenTo(DecimalExponent(i)), Upper(i) as real * u);
  }

  lemma StepDown(i: nat)
    requires i < EXACT && Near(i + 1)
    ensures Near(i)
  {
    hide Cached, Bounds, Lower, Upper, EntryOk, TenTo, TwoTo, Power, Shifted;
    RowOk(i);
    NextPowers(i);
    var u, u1 := TwoTo(Cached(i).exp - 64), TwoTo(Cached(i + 1).exp - 64);
    var s := Cached(i + 1).exp - Cached(i).exp;
    Carried(Lower(i), Lower(i + 1), s, u, u1);
    Carried(Upper(i), Upper(i + 1), s, u, u1);
    TenthOf(Lower(i) as real * u, TenTo(DecimalExponent(i)), Upper(i) as real * u, Lower(i + 1) as real * u1,
            Upper(i + 1) as real * u1);
  }

  lemma {:induction false} AllNear(i: nat)
    requires i < ENTRIES
    ensures Near(i)
    decreases if i >= EXACT then i - EXACT else EXACT - i
  {
    hide Near;
    if i == EXACT {
      ExactTen();
    } else if i > EXACT {
      AllNear(i - 1);
      StepUp(i - 1);
    } else {
      AllNear(i + 1);
      StepDown(i);
    }
  }

  // ----- the look-up -----

  // A cached power is ten to the k to within half a unit, normalized, and brings
  // a number of exponent exp into the range the digit generation works in.
  ghost predicate CachedPowerOk(c: DiyFp, k: int, exp: int) {
    && WORD / 2 <= c.significand < WORD && -60 <= exp + c.exp + 64 <= -32
    && Value(c) - TwoTo(c.exp) / 2.0 <= TenTo(k) <= Value(c) + TwoTo(c.exp) / 2.0
  }

  // The logarithm as the machine multiplies it, which is wrong by less than 10^-13.
  predicate Product(p: real, x: int) {
    var exact := x as real * LOG as real / LOG_UNIT as real;
    exact - 0.000000001 <= p <= exact + 0.000000001
  }

  function Ceil(p: real): (n: int)
    ensures n as real - 1.0 < p <= n as real
  {
    -((-p).Floor)
  }

  function EntryFor(p: real): int { (Ceil(p) + 347) / 8 + 1 }

  // The entry is one found with the logarithm as the machine may multiply it.
  ghost predicate LookedUp(c: DiyFp, decExp: int, exp: int) {
    exists p: real :: Product(p, -61 - exp) && IsEntry(EntryFor(p), c, decExp)
  }

  predicate IsEntry(i: int, c: DiyFp, decExp: int) {
    0 <= i < ENTRIES && c == Cached(i) && decExp == -DecimalExponent(i)
  }

  // The entry for numbers of exponent exp; decExp is what to multiply the result by.
  method CachedPowerBin(exp: int) returns (c: DiyFp, decExp: int)
    requires -1137 <= exp <= 960
    ensures CachedPowerOk(c, -decExp, exp) && -400 <= decExp <= 400
    ensures LookedUp(c, decExp, exp)
  {
    hide Power, TwoTo, TenTo, Value, CachedPowerOk, Cached, Near, EntryOk;
    ghost var x := -61 - exp;
    assert Product(x as real * LOG as real / LOG_UNIT as real, x);
    var product: real :| Product(product, -61 - exp);
    var k := Ceil(product) + 348 - 1;
    InTable(exp, product);
    var index: nat := k / 8 + 1;
    decExp := -(-348 + index * 8);
    c := Cached(index);
    RowOk(index);
    AllNear(index);
    Window(index, exp, product);
    assert IsEntry(EntryFor(product), c, decExp);
    HalfUnit(index, exp);
  }

  lemma InTable(exp: int, p: real)
    requires -1137 <= exp <= 960 && Product(p, -61 - exp)
    ensures 0 <= Ceil(p) + 347 && (Ceil(p) + 347) / 8 + 1 < ENTRIES - 1
    ensures -310 <= Ceil(p) <= 325
  {
    var x := -61 - exp;
    assert x * LOG >= -1021 * LOG && x * LOG <= 1076 * LOG;
  }

  // Where the number is brought to.
  lemma Window(i: nat, exp: int, p: real)
    requires i < ENTRIES && EntryOk(i) && Product(p, -61 - exp) && i == (Ceil(p) + 347) / 8 + 1
    ensures -60 <= exp + Cached(i).exp + 64 <= -32
  {
    hide Cached;
    var x, e, d := -61 - exp, Cached(i).exp, DecimalExponent(i);
    assert d - 7 <= Ceil(p) <= d;
    assert x * LOG <= d * LOG_UNIT + 100000000;
    assert x * LOG > (d - 8) * LOG_UNIT - 100000000;
  }

  lemma HalfUnit(i: nat, exp: int)
    requires i < ENTRIES && EntryOk(i) && Near(i) && -60 <= exp + Cached(i).exp + 64 <= -32
    ensures CachedPowerOk(Cached(i), DecimalExponent(i), exp)
  {
    hide Power, TwoTo, TenTo, Cached, Bounds, Pow2;
    var c := Cached(i);
    var u := TwoTo(c.exp - 64);
    Pow2Values();
    TwoToNat(64);
    TwoToSum(64, c.exp - 64);
    WithinHalf(c.significand, Lower(i), Upper(i), u, TwoTo(c.exp), TenTo(DecimalExponent(i)));
  }

  lemma WithinHalf(n: int, lower: int, upper: int, u: real, w: real, ten: real)
    requires u > 0.0 && w == WORD as real * u && lower as real * u <= ten <= upper as real * u
    requires n * WORD - WORD / 2 <= lower && upper <= n * WORD + WORD / 2
    ensures n as real * w - w / 2.0 <= ten <= n as real * w + w / 2.0
  {
    var x, h := (n * WORD) as real * u, WORD as real * u / 2.0;
    assert n as real * (WORD as real * u) == (n as real * WORD as real) * u;
    assert n as real * w == x && w / 2.0 == h;
    assert x - h <= lower as real * u && upper as real * u <= x + h by {
      Grow(n * WORD - WORD / 2, lower, u);
      Grow(upper, n * WORD + WORD / 2, u);
      HalfWords(n * WORD, u);
    }
  }

  lemma HalfWords(n: int, u: real)
    ensures (n - WORD / 2) as real * u == n as real * u - WORD as real * u / 2.0
    ensures (n + WORD / 2) as real * u == n as real * u + WORD as real * u / 2.0
  {
    var h := (WORD / 2) as real;
    assert (n as real - h) * u == n as real * u - h * u && (n as real + h) * u == n as real * u + h * u;
    assert h * u == WORD as real * u / 2.0;
  }
}
