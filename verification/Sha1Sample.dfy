/** The worked example of section 7.3 of RFC 3174: the message "abc" through the schedule, the eighty rounds and the
    digest, and the parts of the block function described without their definitions. */
module Sha1Sample {
  import opened Sha1

  const ABC: octets := [0x61, 0x62, 0x63]

  /** The one block of the padded message. */
  function Block(): (m: octets)
    ensures |m| == 64
  {
    ABC + [0x80] + Zeros(52) + [0, 0, 0, 0, 0, 0, 0, 24]
  }

  /** The words of its schedule, and the state after its rounds. */
  function Word(t: nat): word { W(Block(), t) }
  function After(n: nat): State { Rounds(H0, Block(), n) }

  lemma FirstWords()
    ensures Word(0) == 0x6162_6380 && Word(15) == 0x0000_0018
    ensures forall t :: 1 <= t < 15 ==> Word(t) == 0
  {
    hide Zeros;
    var m := Block();
    assert m[0] == 0x61 && m[1] == 0x62 && m[2] == 0x63 && m[3] == 0x80 && m[63] == 24;
    assert forall i :: 4 <= i < 63 ==> m[i] == 0;
  }

  /** A later word, from four earlier ones. */
  lemma NextWord(t: nat, w3: word, w8: word, w14: word, w16: word)
    requires 16 <= t && Word(t - 3) == w3 && Word(t - 8) == w8 && Word(t - 14) == w14 && Word(t - 16) == w16
    ensures Word(t) == Rol(Xor(Xor(Xor(w3, w8), w14), w16), 1)
  {
    hide Rol, Xor, BigEndian;
  }

  /** One round more. */
  lemma NextRound(n: nat, s: State, w: word)
    requires After(n) == s && Word(n) == w
    ensures After(n + 1) == Round(s, n, w)
  {
    hide Round, W;
  }

  lemma Words16()
    ensures Word(16) == 0xC2C4_C700 && Word(17) == 0x0000_0000 && Word(18) == 0x0000_0030
    ensures Word(19) == 0x8589_8E01
  {
    hide Word;
    FirstWords();
    NextWord(16, 0x0000_0000, 0x0000_0000, 0x0000_0000, 0x6162_6380);
    NextWord(17, 0x0000_0000, 0x0000_0000, 0x0000_0000, 0x0000_0000);
    NextWord(18, 0x0000_0018, 0x0000_0000, 0x0000_0000, 0x0000_0000);
    NextWord(19, 0xC2C4_C700, 0x0000_0000, 0x0000_0000, 0x0000_0000);
  }

  lemma Words20()
    ensures Word(20) == 0x0000_0000 && Word(21) == 0x0000_0060 && Word(22) == 0x0B13_1C03
    ensures Word(23) == 0x0000_0030 && Word(24) == 0x8589_8EC1 && Word(25) == 0x1626_3806
    ensures Word(26) == 0x0000_0000 && Word(27) == 0x0000_0180 && Word(28) == 0x2C4C_700C
    ensures Word(29) == 0x0000_00F0 && Word(30) == 0x93AF_B507 && Word(31) == 0x5898_E048
  {
    hide Word;
    FirstWords();
    Words16();
    NextWord(20, 0x0000_0000, 0x0000_0000, 0x0000_0000, 0x0000_0000);
    NextWord(21, 0x0000_0030, 0x0000_0000, 0x0000_0000, 0x0000_0000);
    NextWord(22, 0x8589_8E01, 0x0000_0000, 0x0000_0000, 0x0000_0000);
    NextWord(23, 0x0000_0000, 0x0000_0018, 0x0000_0000, 0x0000_0000);
    NextWord(24, 0x0000_0060, 0xC2C4_C700, 0x0000_0000, 0x0000_0000);
    NextWord(25, 0x0B13_1C03, 0x0000_0000, 0x0000_0000, 0x0000_0000);
    NextWord(26, 0x0000_0030, 0x0000_0030, 0x0000_0000, 0x0000_0000);
    NextWord(27, 0x8589_8EC1, 0x8589_8E01, 0x0000_0000, 0x0000_0000);
    NextWord(28, 0x1626_3806, 0x0000_0000, 0x0000_0000, 0x0000_0000);
    NextWord(29, 0x0000_0000, 0x0000_0060, 0x0000_0018, 0x0000_0000);
    NextWord(30, 0x0000_0180, 0x0B13_1C03, 0xC2C4_C700, 0x0000_0000);
    NextWord(31, 0x2C4C_700C, 0x0000_0030, 0x0000_0000, 0x0000_0018);
  }

  lemma Words32()
    ensures Word(32) == 0x8E9A_9202 && Word(33) == 0x0000_0600 && Word(34) == 0xB131_C0F0
    ensures Word(35) == 0x1626_3BC6 && Word(36) == 0x4EBE_D41E && Word(37) == 0x6263_80A1
    ensures Word(38) == 0x1626_3806 && Word(39) == 0x0000_18C0 && Word(40) == 0xD2E1_38C4
    ensures Word(41) == 0x0000_0F00 && Word(42) == 0x3AFB_5079 && Word(43) == 0x898E_04E5
    ensures Word(44) == 0xE2BA_3C2B && Word(45) == 0x0000_60C0 && Word(46) == 0x053A_37CD
    ensures Word(47) == 0x7445_8547
  {
    hide Word;
    Words16();
    Words20();
    NextWord(32, 0x0000_00F0, 0x8589_8EC1, 0x0000_0030, 0xC2C4_C700);
    NextWord(33, 0x93AF_B507, 0x1626_3806, 0x8589_8E01, 0x0000_0000);
    NextWord(34, 0x5898_E048, 0x0000_0000, 0x0000_0000, 0x0000_0030);
    NextWord(35, 0x8E9A_9202, 0x0000_0180, 0x0000_0060, 0x8589_8E01);
    NextWord(36, 0x0000_0600, 0x2C4C_700C, 0x0B13_1C03, 0x0000_0000);
    NextWord(37, 0xB131_C0F0, 0x0000_00F0, 0x0000_0030, 0x0000_0060);
    NextWord(38, 0x1626_3BC6, 0x93AF_B507, 0x8589_8EC1, 0x0B13_1C03);
    NextWord(39, 0x4EBE_D41E, 0x5898_E048, 0x1626_3806, 0x0000_0030);
    NextWord(40, 0x6263_80A1, 0x8E9A_9202, 0x0000_0000, 0x8589_8EC1);
    NextWord(41, 0x1626_3806, 0x0000_0600, 0x0000_0180, 0x1626_3806);
    NextWord(42, 0x0000_18C0, 0xB131_C0F0, 0x2C4C_700C, 0x0000_0000);
    NextWord(43, 0xD2E1_38C4, 0x1626_3BC6, 0x0000_00F0, 0x0000_0180);
    NextWord(44, 0x0000_0F00, 0x4EBE_D41E, 0x93AF_B507, 0x2C4C_700C);
    NextWord(45, 0x3AFB_5079, 0x6263_80A1, 0x5898_E048, 0x0000_00F0);
    NextWord(46, 0x898E_04E5, 0x1626_3806, 0x8E9A_9202, 0x93AF_B507);
    NextWord(47, 0xE2BA_3C2B, 0x0000_18C0, 0x0000_0600, 0x5898_E048);
  }

  lemma Words48()
    ensures Word(48) == 0xDA94_15ED && Word(49) == 0x2638_0A16 && Word(50) == 0x6263_83A1
    ensures Word(51) == 0x4EBF_54DE && Word(52) == 0x3835_B44B && Word(53) == 0x0000_F600
    ensures Word(54) == 0x1E84_C7A3 && Word(55) == 0x98E0_4D98 && Word(56) == 0x651D_16A0
    ensures Word(57) == 0x6265_8CA1 && Word(58) == 0x4585_44D6 && Word(59) == 0x4458_4CB7
    ensures Word(60) == 0x7BA0_6619 && Word(61) == 0x6380_AEA2 && Word(62) == 0x0AE5_5269
    ensures Word(63) == 0x627B_49A1
  {
    hide Word;
    Words32();
    NextWord(48, 0x0000_60C0, 0xD2E1_38C4, 0xB131_C0F0, 0x8E9A_9202);
    NextWord(49, 0x053A_37CD, 0x0000_0F00, 0x1626_3BC6, 0x0000_0600);
    NextWord(50, 0x7445_8547, 0x3AFB_5079, 0x4EBE_D41E, 0xB131_C0F0);
    NextWord(51, 0xDA94_15ED, 0x898E_04E5, 0x6263_80A1, 0x1626_3BC6);
    NextWord(52, 0x2638_0A16, 0xE2BA_3C2B, 0x1626_3806, 0x4EBE_D41E);
    NextWord(53, 0x6263_83A1, 0x0000_60C0, 0x0000_18C0, 0x6263_80A1);
    NextWord(54, 0x4EBF_54DE, 0x053A_37CD, 0xD2E1_38C4, 0x1626_3806);
    NextWord(55, 0x3835_B44B, 0x7445_8547, 0x0000_0F00, 0x0000_18C0);
    NextWord(56, 0x0000_F600, 0xDA94_15ED, 0x3AFB_5079, 0xD2E1_38C4);
    NextWord(57, 0x1E84_C7A3, 0x2638_0A16, 0x898E_04E5, 0x0000_0F00);
    NextWord(58, 0x98E0_4D98, 0x6263_83A1, 0xE2BA_3C2B, 0x3AFB_5079);
    NextWord(59, 0x651D_16A0, 0x4EBF_54DE, 0x0000_60C0, 0x898E_04E5);
    NextWord(60, 0x6265_8CA1, 0x3835_B44B, 0x053A_37CD, 0xE2BA_3C2B);
    NextWord(61, 0x4585_44D6, 0x0000_F600, 0x7445_8547, 0x0000_60C0);
    NextWord(62, 0x4458_4CB7, 0x1E84_C7A3, 0xDA94_15ED, 0x053A_37CD);
    NextWord(63, 0x7BA0_6619, 0x98E0_4D98, 0x2638_0A16, 0x7445_8547);
  }

  lemma Words64()
    ensures Word(64) == 0x7CD4_5C9D && Word(65) == 0x000F_0000 && Word(66) == 0xFB50_753A
    ensures Word(67) == 0xEC67_65E8 && Word(68) == 0xBA3C_2BE2 && Word(69) == 0x0060_C000
    ensures Word(70) == 0x3A37_CD05 && Word(71) == 0x4585_46F4 && Word(72) == 0xB859_9DD6
    ensures Word(73) == 0x380A_1A26 && Word(74) == 0x01E0_2203 && Word(75) == 0xE7CC_3456
    ensures Word(76) == 0xE6E6_0B69 && Word(77) == 0x00F6_0A00 && Word(78) == 0x5795_EF4F
    ensures Word(79) == 0x822E_0879
  {
    hide Word;
    Words48();
    NextWord(64, 0x6380_AEA2, 0x651D_16A0, 0x6263_83A1, 0xDA94_15ED);
    NextWord(65, 0x0AE5_5269, 0x6265_8CA1, 0x4EBF_54DE, 0x2638_0A16);
    NextWord(66, 0x627B_49A1, 0x4585_44D6, 0x3835_B44B, 0x6263_83A1);
    NextWord(67, 0x7CD4_5C9D, 0x4458_4CB7, 0x0000_F600, 0x4EBF_54DE);
    NextWord(68, 0x000F_0000, 0x7BA0_6619, 0x1E84_C7A3, 0x3835_B44B);
    NextWord(69, 0xFB50_753A, 0x6380_AEA2, 0x98E0_4D98, 0x0000_F600);
    NextWord(70, 0xEC67_65E8, 0x0AE5_5269, 0x651D_16A0, 0x1E84_C7A3);
    NextWord(71, 0xBA3C_2BE2, 0x627B_49A1, 0x6265_8CA1, 0x98E0_4D98);
    NextWord(72, 0x0060_C000, 0x7CD4_5C9D, 0x4585_44D6, 0x651D_16A0);
    NextWord(73, 0x3A37_CD05, 0x000F_0000, 0x4458_4CB7, 0x6265_8CA1);
    NextWord(74, 0x4585_46F4, 0xFB50_753A, 0x7BA0_6619, 0x4585_44D6);
    NextWord(75, 0xB859_9DD6, 0xEC67_65E8, 0x6380_AEA2, 0x4458_4CB7);
    NextWord(76, 0x380A_1A26, 0xBA3C_2BE2, 0x0AE5_5269, 0x7BA0_6619);
    NextWord(77, 0x01E0_2203, 0x0060_C000, 0x627B_49A1, 0x6380_AEA2);
    NextWord(78, 0xE7CC_3456, 0x3A37_CD05, 0x7CD4_5C9D, 0x0AE5_5269);
    NextWord(79, 0xE6E6_0B69, 0x4585_46F4, 0x000F_0000, 0x627B_49A1);
  }

  lemma Rounds10()
    ensures After(10) == State(0x8351_F929, 0x4B6A_E328, 0x27A3_01F5, 0x664F_8C30, 0x0FF1_F290)
  {
    hide Word, After;
    NoRounds();
    FirstWords();
    NextRound(0, State(0x6745_2301, 0xEFCD_AB89, 0x98BA_DCFE, 0x1032_5476, 0xC3D2_E1F0), 0x6162_6380);
    NextRound(1, State(0x0116_FC33, 0x6745_2301, 0x7BF3_6AE2, 0x98BA_DCFE, 0x1032_5476), 0x0000_0000);
    NextRound(2, State(0x8990_536D, 0x0116_FC33, 0x59D1_48C0, 0x7BF3_6AE2, 0x98BA_DCFE), 0x0000_0000);
    NextRound(3, State(0xA139_0F08, 0x8990_536D, 0xC045_BF0C, 0x59D1_48C0, 0x7BF3_6AE2), 0x0000_0000);
    NextRound(4, State(0xCDD8_E11B, 0xA139_0F08, 0x6264_14DB, 0xC045_BF0C, 0x59D1_48C0), 0x0000_0000);
    NextRound(5, State(0xCFD4_99DE, 0xCDD8_E11B, 0x284E_43C2, 0x6264_14DB, 0xC045_BF0C), 0x0000_0000);
    NextRound(6, State(0x3FC7_CA40, 0xCFD4_99DE, 0xF376_3846, 0x284E_43C2, 0x6264_14DB), 0x0000_0000);
    NextRound(7, State(0x993E_30C1, 0x3FC7_CA40, 0xB3F5_2677, 0xF376_3846, 0x284E_43C2), 0x0000_0000);
    NextRound(8, State(0x9E8C_07D4, 0x993E_30C1, 0x0FF1_F290, 0xB3F5_2677, 0xF376_3846), 0x0000_0000);
    NextRound(9, State(0x4B6A_E328, 0x9E8C_07D4, 0x664F_8C30, 0x0FF1_F290, 0xB3F5_2677), 0x0000_0000);
  }

  lemma Rounds20()
    ensures After(20) == State(0xFD9E_1D7D, 0xDC64_901D, 0x20AA_99CA, 0xD3A4_9608, 0xC82F_758B)
  {
    hide Word, After;
    Rounds10();
    FirstWords();
    Words16();
    NextRound(10, State(0x8351_F929, 0x4B6A_E328, 0x27A3_01F5, 0x664F_8C30, 0x0FF1_F290), 0x0000_0000);
    NextRound(11, State(0xFBDA_9E89, 0x8351_F929, 0x12DA_B8CA, 0x27A3_01F5, 0x664F_8C30), 0x0000_0000);
    NextRound(12, State(0x6318_8FE4, 0xFBDA_9E89, 0x60D4_7E4A, 0x12DA_B8CA, 0x27A3_01F5), 0x0000_0000);
    NextRound(13, State(0x4607_B664, 0x6318_8FE4, 0x7EF6_A7A2, 0x60D4_7E4A, 0x12DA_B8CA), 0x0000_0000);
    NextRound(14, State(0x9128_F695, 0x4607_B664, 0x18C6_23F9, 0x7EF6_A7A2, 0x60D4_7E4A), 0x0000_0000);
    NextRound(15, State(0x196B_EE77, 0x9128_F695, 0x1181_ED99, 0x18C6_23F9, 0x7EF6_A7A2), 0x0000_0018);
    NextRound(16, State(0x20BD_D62F, 0x196B_EE77, 0x644A_3DA5, 0x1181_ED99, 0x18C6_23F9), 0xC2C4_C700);
    NextRound(17, State(0x4E92_5823, 0x20BD_D62F, 0xC65A_FB9D, 0x644A_3DA5, 0x1181_ED99), 0x0000_0000);
    NextRound(18, State(0x82AA_6728, 0x4E92_5823, 0xC82F_758B, 0xC65A_FB9D, 0x644A_3DA5), 0x0000_0030);
    NextRound(19, State(0xDC64_901D, 0x82AA_6728, 0xD3A4_9608, 0xC82F_758B, 0xC65A_FB9D), 0x8589_8E01);
  }

  lemma Rounds30()
    ensures After(30) == State(0xC5FB_AF5D, 0x8370_B52E, 0xD2AA_1365, 0x6F8D_7EF5, 0x1210_4EE9)
  {
    hide Word, After;
    Rounds20();
    Words20();
    NextRound(20, State(0xFD9E_1D7D, 0xDC64_901D, 0x20AA_99CA, 0xD3A4_9608, 0xC82F_758B), 0x0000_0000);
    NextRound(21, State(0x1A37_B0CA, 0xFD9E_1D7D, 0x7719_2407, 0x20AA_99CA, 0xD3A4_9608), 0x0000_0060);
    NextRound(22, State(0x33A2_3BFC, 0x1A37_B0CA, 0x7F67_875F, 0x7719_2407, 0x20AA_99CA), 0x0B13_1C03);
    NextRound(23, State(0x2128_3486, 0x33A2_3BFC, 0x868D_EC32, 0x7F67_875F, 0x7719_2407), 0x0000_0030);
    NextRound(24, State(0xD541_F12D, 0x2128_3486, 0x0CE8_8EFF, 0x868D_EC32, 0x7F67_875F), 0x8589_8EC1);
    NextRound(25, State(0xC756_7DC6, 0xD541_F12D, 0x884A_0D21, 0x0CE8_8EFF, 0x868D_EC32), 0x1626_3806);
    NextRound(26, State(0x4841_3BA4, 0xC756_7DC6, 0x7550_7C4B, 0x884A_0D21, 0x0CE8_8EFF), 0x0000_0000);
    NextRound(27, State(0xBE35_FBD5, 0x4841_3BA4, 0xB1D5_9F71, 0x7550_7C4B, 0x884A_0D21), 0x0000_0180);
    NextRound(28, State(0x4AA8_4D97, 0xBE35_FBD5, 0x1210_4EE9, 0xB1D5_9F71, 0x7550_7C4B), 0x2C4C_700C);
    NextRound(29, State(0x8370_B52E, 0x4AA8_4D97, 0x6F8D_7EF5, 0x1210_4EE9, 0xB1D5_9F71), 0x0000_00F0);
  }

  lemma Rounds40()
    ensures After(40) == State(0x32DE_1CBA, 0x4C98_6405, 0xF718_E5CF, 0x03D4_47F6, 0xF72E_EC32)
  {
    hide Word, After;
    Rounds30();
    Words20();
    Words32();
    NextRound(30, State(0xC5FB_AF5D, 0x8370_B52E, 0xD2AA_1365, 0x6F8D_7EF5, 0x1210_4EE9), 0x93AF_B507);
    NextRound(31, State(0x1267_B407, 0xC5FB_AF5D, 0xA0DC_2D4B, 0xD2AA_1365, 0x6F8D_7EF5), 0x5898_E048);
    NextRound(32, State(0x3B84_5D33, 0x1267_B407, 0x717E_EBD7, 0xA0DC_2D4B, 0xD2AA_1365), 0x8E9A_9202);
    NextRound(33, State(0x046F_AA0A, 0x3B84_5D33, 0xC499_ED01, 0x717E_EBD7, 0xA0DC_2D4B), 0x0000_0600);
    NextRound(34, State(0x2C0E_BC11, 0x046F_AA0A, 0xCEE1_174C, 0xC499_ED01, 0x717E_EBD7), 0xB131_C0F0);
    NextRound(35, State(0x2179_6AD4, 0x2C0E_BC11, 0x811B_EA82, 0xCEE1_174C, 0xC499_ED01), 0x1626_3BC6);
    NextRound(36, State(0xDCBB_B0CB, 0x2179_6AD4, 0x4B03_AF04, 0x811B_EA82, 0xCEE1_174C), 0x4EBE_D41E);
    NextRound(37, State(0x0F51_1FD8, 0xDCBB_B0CB, 0x085E_5AB5, 0x4B03_AF04, 0x811B_EA82), 0x6263_80A1);
    NextRound(38, State(0xDC63_973F, 0x0F51_1FD8, 0xF72E_EC32, 0x085E_5AB5, 0x4B03_AF04), 0x1626_3806);
    NextRound(39, State(0x4C98_6405, 0xDC63_973F, 0x03D4_47F6, 0xF72E_EC32, 0x085E_5AB5), 0x0000_18C0);
  }

  lemma Rounds50()
    ensures After(50) == State(0x1207_31C5, 0xBAF3_9337, 0xAFAB_40B2, 0x2806_E11B, 0x8714_787C)
  {
    hide Word, After;
    Rounds40();
    Words32();
    Words48();
    NextRound(40, State(0x32DE_1CBA, 0x4C98_6405, 0xF718_E5CF, 0x03D4_47F6, 0xF72E_EC32), 0xD2E1_38C4);
    NextRound(41, State(0xFC87_DEDF, 0x32DE_1CBA, 0x5326_1901, 0xF718_E5CF, 0x03D4_47F6), 0x0000_0F00);
    NextRound(42, State(0x970A_0D5C, 0xFC87_DEDF, 0x8CB7_872E, 0x5326_1901, 0xF718_E5CF), 0x3AFB_5079);
    NextRound(43, State(0x7F19_3DC5, 0x970A_0D5C, 0xFF21_F7B7, 0x8CB7_872E, 0x5326_1901), 0x898E_04E5);
    NextRound(44, State(0xEE1B_1AAF, 0x7F19_3DC5, 0x25C2_8357, 0xFF21_F7B7, 0x8CB7_872E), 0xE2BA_3C2B);
    NextRound(45, State(0x40F2_8E09, 0xEE1B_1AAF, 0x5FC6_4F71, 0x25C2_8357, 0xFF21_F7B7), 0x0000_60C0);
    NextRound(46, State(0x1C51_E1F2, 0x40F2_8E09, 0xFB86_C6AB, 0x5FC6_4F71, 0x25C2_8357), 0x053A_37CD);
    NextRound(47, State(0xA01B_846C, 0x1C51_E1F2, 0x503C_A382, 0xFB86_C6AB, 0x5FC6_4F71), 0x7445_8547);
    NextRound(48, State(0xBEAD_02CA, 0xA01B_846C, 0x8714_787C, 0x503C_A382, 0xFB86_C6AB), 0xDA94_15ED);
    NextRound(49, State(0xBAF3_9337, 0xBEAD_02CA, 0x2806_E11B, 0x8714_787C, 0x503C_A382), 0x2638_0A16);
  }

  lemma Rounds60()
    ensures After(60) == State(0x3F52_DE5A, 0x09D7_85FD, 0x3498_BFD4, 0xF211_824F, 0xD799_15AB)
  {
    hide Word, After;
    Rounds50();
    Words48();
    NextRound(50, State(0x1207_31C5, 0xBAF3_9337, 0xAFAB_40B2, 0x2806_E11B, 0x8714_787C), 0x6263_83A1);
    NextRound(51, State(0x641D_B2CE, 0x1207_31C5, 0xEEBC_E4CD, 0xAFAB_40B2, 0x2806_E11B), 0x4EBF_54DE);
    NextRound(52, State(0x3847_AD66, 0x641D_B2CE, 0x4481_CC71, 0xEEBC_E4CD, 0xAFAB_40B2), 0x3835_B44B);
    NextRound(53, State(0xE490_436D, 0x3847_AD66, 0x9907_6CB3, 0x4481_CC71, 0xEEBC_E4CD), 0x0000_F600);
    NextRound(54, State(0x27E9_F1D8, 0xE490_436D, 0x8E11_EB59, 0x9907_6CB3, 0x4481_CC71), 0x1E84_C7A3);
    NextRound(55, State(0x7B71_F76D, 0x27E9_F1D8, 0x7924_10DB, 0x8E11_EB59, 0x9907_6CB3), 0x98E0_4D98);
    NextRound(56, State(0x5E64_56AF, 0x7B71_F76D, 0x09FA_7C76, 0x7924_10DB, 0x8E11_EB59), 0x651D_16A0);
    NextRound(57, State(0xC846_093F, 0x5E64_56AF, 0x5EDC_7DDB, 0x09FA_7C76, 0x7924_10DB), 0x6265_8CA1);
    NextRound(58, State(0xD262_FF50, 0xC846_093F, 0xD799_15AB, 0x5EDC_7DDB, 0x09FA_7C76), 0x4585_44D6);
    NextRound(59, State(0x09D7_85FD, 0xD262_FF50, 0xF211_824F, 0xD799_15AB, 0x5EDC_7DDB), 0x4458_4CB7);
  }

  lemma Rounds70()
    ensures After(70) == State(0x3F25_88C2, 0x4970_93C0, 0xDE37_534A, 0x030F_7CAD, 0x4405_957E)
  {
    hide Word, After;
    Rounds60();
    Words48();
    Words64();
    NextRound(60, State(0x3F52_DE5A, 0x09D7_85FD, 0x3498_BFD4, 0xF211_824F, 0xD799_15AB), 0x7BA0_6619);
    NextRound(61, State(0xD756_C147, 0x3F52_DE5A, 0x4275_E17F, 0x3498_BFD4, 0xF211_824F), 0x6380_AEA2);
    NextRound(62, State(0x548C_9CB2, 0xD756_C147, 0x8FD4_B796, 0x4275_E17F, 0x3498_BFD4), 0x0AE5_5269);
    NextRound(63, State(0xB66C_020B, 0x548C_9CB2, 0xF5D5_B051, 0x8FD4_B796, 0x4275_E17F), 0x627B_49A1);
    NextRound(64, State(0x6B61_C9E1, 0xB66C_020B, 0x9523_272C, 0xF5D5_B051, 0x8FD4_B796), 0x7CD4_5C9D);
    NextRound(65, State(0x19DF_A7AC, 0x6B61_C9E1, 0xED9B_0082, 0x9523_272C, 0xF5D5_B051), 0x000F_0000);
    NextRound(66, State(0x1016_55F9, 0x19DF_A7AC, 0x5AD8_7278, 0xED9B_0082, 0x9523_272C), 0xFB50_753A);
    NextRound(67, State(0x0C3D_F2B4, 0x1016_55F9, 0x0677_E9EB, 0x5AD8_7278, 0xED9B_0082), 0xEC67_65E8);
    NextRound(68, State(0x78DD_4D2B, 0x0C3D_F2B4, 0x4405_957E, 0x0677_E9EB, 0x5AD8_7278), 0xBA3C_2BE2);
    NextRound(69, State(0x4970_93C0, 0x78DD_4D2B, 0x030F_7CAD, 0x4405_957E, 0x0677_E9EB), 0x0060_C000);
  }

  lemma Rounds80()
    ensures After(80) == State(0x4254_1B35, 0x5738_D5E1, 0x2183_4873, 0x681E_6DF6, 0xD8FD_F6AD)
  {
    hide Word, After;
    Rounds70();
    Words64();
    NextRound(70, State(0x3F25_88C2, 0x4970_93C0, 0xDE37_534A, 0x030F_7CAD, 0x4405_957E), 0x3A37_CD05);
    NextRound(71, State(0xC199_F8C7, 0x3F25_88C2, 0x125C_24F0, 0xDE37_534A, 0x030F_7CAD), 0x4585_46F4);
    NextRound(72, State(0x3985_9DE7, 0xC199_F8C7, 0x8FC9_6230, 0x125C_24F0, 0xDE37_534A), 0xB859_9DD6);
    NextRound(73, State(0xEDB4_2DE4, 0x3985_9DE7, 0xF066_7E31, 0x8FC9_6230, 0x125C_24F0), 0x380A_1A26);
    NextRound(74, State(0x1179_3F6F, 0xEDB4_2DE4, 0xCE61_6779, 0xF066_7E31, 0x8FC9_6230), 0x01E0_2203);
    NextRound(75, State(0x5EE7_6897, 0x1179_3F6F, 0x3B6D_0B79, 0xCE61_6779, 0xF066_7E31), 0xE7CC_3456);
    NextRound(76, State(0x63F7_DAB7, 0x5EE7_6897, 0xC45E_4FDB, 0x3B6D_0B79, 0xCE61_6779), 0xE6E6_0B69);
    NextRound(77, State(0xA079_B7D9, 0x63F7_DAB7, 0xD7B9_DA25, 0xC45E_4FDB, 0x3B6D_0B79), 0x00F6_0A00);
    NextRound(78, State(0x860D_21CC, 0xA079_B7D9, 0xD8FD_F6AD, 0xD7B9_DA25, 0xC45E_4FDB), 0x5795_EF4F);
    NextRound(79, State(0x5738_D5E1, 0x860D_21CC, 0x681E_6DF6, 0xD8FD_F6AD, 0xD7B9_DA25), 0x822E_0879);
  }

  lemma NoRounds()
    ensures After(0) == H0
  {
  }

  lemma ZeroOctet()
    ensures Octet(0) == 0
  {
  }

  lemma LastOctet()
    ensures Octet(24) == 24
  {
  }

  lemma BitLength()
    ensures Length(24) == [0, 0, 0, 0, 0, 0, 0, 24]
  {
    hide Octet;
    ZeroOctet();
    LastOctet();
  }

  lemma Padded()
    ensures Pad(ABC) == Block()
  {
    hide Zeros, Length;
    BitLength();
    assert ZeroCount(3) == 52;
  }

  /** The digest of "abc" is a9993e36 4706816a ba3e2571 7850c26c 9cd0d89d. */
  lemma Abc()
    ensures Sha1.Sha1(ABC) ==
            [0xa9, 0x99, 0x3e, 0x36, 0x47, 0x06, 0x81, 0x6a, 0xba, 0x3e,
             0x25, 0x71, 0x78, 0x50, 0xc2, 0x6c, 0x9c, 0xd0, 0xd8, 0x9d]
  {
    hide Pad, Block, Rounds, Digest, Length, Zeros;
    Padded();
    Rounds80();
    assert [] + Block() == Block();
    NoBlocks();
    BlocksNext([], Block());
    var s := State(0xA999_3E36, 0x4706_816A, 0xBA3E_2571, 0x7850_C26C, 0x9CD0_D89D);
    assert Compress(H0, Block()) == s;
    DigestOf();
  }

  lemma NoBlocks()
    ensures Blocks([]) == H0
  {
  }

  // ---------------------------------------------------------------- the parts

  /** Rounds 0 to 19 choose: where b has a one the bit of c, where it has a zero the bit of d. */
  lemma Chooses(t: nat, b: word, c: word, d: word)
    requires t < 20
    ensures F(t, b, c, d) & b == c & b && F(t, b, c, d) & !b == d & !b
  {
  }

  /** Rounds 20 to 39 and 60 to 79 take the parity: its difference from b is the difference of c and d. */
  lemma TakesParity(t: nat, b: word, c: word, d: word)
    requires 20 <= t < 40 || 60 <= t
    ensures Xor(F(t, b, c, d), b) == Xor(c, d)
  {
    hide And, Or, Not, Xor;
    WithoutFirst(b, c, d);
  }

  lemma WithoutFirst(b: word, c: word, d: word)
    ensures Xor(Xor(Xor(b, c), d), b) == Xor(c, d)
  {
    hide Xor;
    Swapped(b, c);
    Swapped(Xor(Xor(b, c), d), b);
    Grouped(b, Xor(b, c), d);
    Swapped(b, Xor(b, c));
    Undone(c, b);
  }

  lemma Grouped(x: word, y: word, z: word)
    ensures Xor(x, Xor(y, z)) == Xor(Xor(x, y), z)
  {
  }

  lemma Undone(x: word, y: word)
    ensures Xor(Xor(x, y), y) == x
  {
  }

  lemma Swapped(b: word, c: word)
    ensures Xor(b, c) == Xor(c, b)
  {
  }

  /** Rounds 40 to 59 take the majority: wherever two of the three agree, theirs is the bit. */
  lemma TakesMajority(t: nat, b: word, c: word, d: word)
    requires 40 <= t < 60
    ensures (F(t, b, c, d) ^ b) & !(b ^ c) == 0 && (F(t, b, c, d) ^ b) & !(b ^ d) == 0
    ensures (F(t, b, c, d) ^ c) & !(c ^ d) == 0
  {
  }

  function Square(n: nat): nat { n * n }

  /** The constants are the square roots of 2, 3, 5 and 10 in units of 2^-30, rounded down. */
  lemma Roots(t: nat)
    requires t < 80
    ensures var n := if t < 20 then 2 else if t < 40 then 3 else if t < 60 then 5 else 10;
            Square(K(t) as nat) <= n * 0x1000_0000_0000_0000 < Square(K(t) as nat + 1)
  {
    assert (0x5A82_7999 as word) as nat == 0x5A82_7999;
    assert (0x6ED9_EBA1 as word) as nat == 0x6ED9_EBA1;
    assert (0x8F1B_BCDC as word) as nat == 0x8F1B_BCDC;
    assert (0xCA62_C1D6 as word) as nat == 0xCA62_C1D6;
  }

  /** The starting state counts up and down through the sixteen digits, each word from its last byte. */
  lemma Start()
    ensures WordBytes(H0.a) == [0x67, 0x45, 0x23, 0x01] && WordBytes(H0.b) == [0xef, 0xcd, 0xab, 0x89]
    ensures H0.c == !H0.a && H0.d == !H0.b
    ensures WordBytes(H0.e) == [0xc3, 0xd2, 0xe1, 0xf0]
  {
  }

  lemma DigestOf()
    ensures Digest(State(0xA999_3E36, 0x4706_816A, 0xBA3E_2571, 0x7850_C26C, 0x9CD0_D89D)) ==
            [0xa9, 0x99, 0x3e, 0x36, 0x47, 0x06, 0x81, 0x6a, 0xba, 0x3e,
             0x25, 0x71, 0x78, 0x50, 0xc2, 0x6c, 0x9c, 0xd0, 0xd8, 0x9d]
  {
  }
}
