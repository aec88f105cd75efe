/** The numbers compiled into the client meet the facts assumed of them elsewhere. */
module PinnedNumbers {
  import opened Bytes
  import opened NumberTheory
  import opened RsaPad
  import opened HandshakeMessages
  import opened Handshake
  import opened KeyAgreement

  const PINNED := Params(
    0xc8c11d63_5691fac0_91dd9489_aedced29_32aa8a0b_cefef05f_a800892d_9b52ed03_200865c9_e97211cb_2ee6c7ae_96d3fb0e_15aeffd6_6019b44a_08a240cf_dd2868a8_5e1f54d6_fa5deaa0_41f6941d_df302690_d61dc476_385c2fa6_55142353_cb4e4b59_f6e5b658_4db76fe8_b1370263_246c010c_93d01101_4113ebdf_987d093f_9d37c2be_48352d69_a1683f8f_6e6c2167_983c761e_3ab169fd_e5daaa12_123fa1be_ab621e4d_a5935e9c_198f82f3_5eae583a_99386d81_10ea6bd1_abb0f568_759f6269_4419ea5f_69847c43_462abef8_58b4cb5e_dc84e7b9_226cd7bd_7e183aa9_74a712c0_79dde85b_9dc063b8_a5c08e8f_859c0ee5_dcd824c7_807f2015_3361a7f6_3cfd2a43_3a1be7f5,
    0xc71caeb9_c6b1c904_8e6c522f_70f13f73_980d4023_8e3e21c1_4934d037_563d930f_48198a0a_a7c14058_229493d2_2530f4db_fa336f6e_0ac92513_9543aed4_4cce7c37_20fd51f6_9458705a_c68cd4fe_6b6b13ab_dc974651_29693284_54f18faf_8c595f64_2477fe96_bb2a941d_5bcd1d4a_c8cc4988_0708fa9b_378e3c4f_3a9060be_e67cf9a4_a4a69581_1051907e_162753b5_6b0f6b41_0dba74d8_a84b2a14_b3144e0e_f1284754_fd17ed95_0d5965b4_b9dd4658_2db1178d_169c6bc4_65b0d6ff_9ca3928f_ef5b9ae4_e418fc15_e83ebea0_f87fa9ff_5eed7005_0ded2849_f47bf959_d956850c_e929851f_0d8115f6_35b105ee_2e4e15d0_4b2454bf_6f4fadf0_34b10403_119cd8e3_b92fcc5b)

  lemma PowersOf256()
    ensures Pow(256, 128) == 0x1_00000000_00000000_00000000_00000000_00000000_00000000_00000000_00000000_00000000_00000000_00000000_00000000_00000000_00000000_00000000_00000000_00000000_00000000_00000000_00000000_00000000_00000000_00000000_00000000_00000000_00000000_00000000_00000000_00000000_00000000_00000000_00000000
    ensures Pow(256, 120) == 0x1_00000000_00000000_00000000_00000000_00000000_00000000_00000000_00000000_00000000_00000000_00000000_00000000_00000000_00000000_00000000_00000000_00000000_00000000_00000000_00000000_00000000_00000000_00000000_00000000_00000000_00000000_00000000_00000000_00000000_00000000
  {
    assert Pow(256, 8) == 0x1_00000000_00000000;
    PowOfSum(256, 8, 8);
    assert Pow(256, 16) == 0x1_00000000_00000000_00000000_00000000;
    PowOfSum(256, 16, 16);
    assert Pow(256, 32) == 0x1_00000000_00000000_00000000_00000000_00000000_00000000_00000000_00000000;
    PowOfSum(256, 32, 32);
    assert Pow(256, 64) == 0x1_00000000_00000000_00000000_00000000_00000000_00000000_00000000_00000000_00000000_00000000_00000000_00000000_00000000_00000000_00000000_00000000;
    PowOfSum(256, 64, 64);
    PowOfSum(256, 8, 16);
    PowOfSum(256, 24, 32);
    PowOfSum(256, 56, 64);
  }

  lemma PinnedNumbersAreValid()
    ensures PINNED.Valid()
  {
    PowersOf256();
    PowOfSum(256, 128, 128);
    PowOfSum(256, 120, 128);
  }

  // The lowest public value a server can have over the pinned prime is two to the 1984.
  lemma LowestPublicValue()
    ensures ModPow(2, 1984, PINNED.dhPrime) == Pow(2, 1984) <= PINNED.dhPrime - Pow(2, 1984)
  {
    hide Pow;
    PinnedNumbersAreValid();
    PowersOfTwo(248);
  }

  // What is assumed of an honest server can be met over the pinned prime.
  lemma HonestServersExist()
    ensures exists server: Server :: server.Honest() && server.params.dhPrime == PINNED.dhPrime
  {
    hide Pow;
    PinnedNumbersAreValid();
    LowestPublicValue();
    var params := Params(1, PINNED.dhPrime);
    var server := Server(params, x => 0, Zeros(16), [21], [FINGERPRINT], 2, 1984, 0);
    OnlyZeroBelowOne();
    assert server.Honest();
  }

  lemma OnlyZeroBelowOne()
    ensures InvertsPublicOperation(x => 0, 1)
  {
  }
}
