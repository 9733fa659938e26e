/** Digests that are published with the algorithm: they pin its constants and the order of its steps. */
module XxVectors64 {
  import opened Lz4Block
  import opened XxHash64

  lemma Letters()
    ensures Widen(32) == 32 && Widen(78) == 78 && Widen(97) == 97 && Widen(98) == 98 && Widen(99) == 99 && Widen(100) == 100
    ensures Widen(101) == 101 && Widen(103) == 103 && Widen(104) == 104 && Widen(105) == 105 && Widen(109) == 109 && Widen(110) == 110
    ensures Widen(111) == 111 && Widen(112) == 112 && Widen(114) == 114 && Widen(115) == 115 && Widen(116) == 116 && Widen(121) == 121
  {
  }

  lemma Empty()
    ensures Hash64(0, []) == 0xEF46_DB37_51D8_E999
  {
  }

  lemma EmptySeeded()
    ensures Hash64(0x0000_0000_9E37_79B1, []) == 0xAC75_FDA2_929B_17EF
  {
  }

  lemma LetterLength()
    ensures Small64(0) == 0x27D4_EB2F_1656_67C5
    ensures AddLength64(0x27D4_EB2F_1656_67C5, 1) == 0x27D4_EB2F_1656_67C6
  {
    assert Word64(1) == 1;
    hide Word64;
  }

  lemma LetterTail()
    ensures Mix1(0x27D4_EB2F_1656_67C6, 97) == 0xB865_97E4_19D4_D215
  {
    Letters();
    hide Widen;
  }

  lemma LetterEnd()
    ensures Avalanche64(0xB865_97E4_19D4_D215) == 0xD24E_C4F1_A98C_6E5B
  {
  }

  lemma Letter()
    ensures Hash64(0, [97]) == 0xD24E_C4F1_A98C_6E5B
  {
    hide Avalanche64, AddLength64, Small64, Mix4, Mix1, ReadLE32, Stripes64, Start64, Converge64, Mix8, ReadLE64;
    var s: seq<byte> := [97];
    assert s[0..] == s;
    LetterLength();
    LetterEnd();
    LetterTail();
  }

  lemma ThreeLength()
    ensures Small64(0) == 0x27D4_EB2F_1656_67C5
    ensures AddLength64(0x27D4_EB2F_1656_67C5, 3) == 0x27D4_EB2F_1656_67C8
  {
    assert Word64(3) == 3;
    hide Word64;
  }

  lemma ThreeTail()
    ensures Mix1(0x27D4_EB2F_1656_67C8, 97) == 0x0E6D_11BD_C91F_0215
    ensures Mix1(0x0E6D_11BD_C91F_0215, 98) == 0x7919_83E9_AB30_7069
    ensures Mix1(0x7919_83E9_AB30_7069, 99) == 0xE87A_46F8_B9A4_C39E
  {
    Letters();
    hide Widen;
  }

  lemma ThreeEnd()
    ensures Avalanche64(0xE87A_46F8_B9A4_C39E) == 0x44BC_2CF5_AD77_0999
  {
  }

  lemma Three()
    ensures Hash64(0, [97, 98, 99]) == 0x44BC_2CF5_AD77_0999
  {
    hide Avalanche64, AddLength64, Small64, Mix4, Mix1, ReadLE32, Stripes64, Start64, Converge64, Mix8, ReadLE64;
    var s: seq<byte> := [97, 98, 99];
    assert s[0..] == s;
    ThreeLength();
    ThreeEnd();
    ThreeTail();
  }

  const FOURTEEN: seq<byte> := [
    109, 101, 115, 115, 97, 103, 101, 32, 100, 105, 103, 101, 115, 116]

  lemma FourteenGroups()
    ensures LittleEndian32(109, 101, 115, 115) == 0x0000_0000_7373_656D
    ensures LittleEndian32(97, 103, 101, 32) == 0x0000_0000_2065_6761
    ensures Join64(0x0000_0000_7373_656D, 0x0000_0000_2065_6761) == 0x2065_6761_7373_656D
    ensures LittleEndian32(100, 105, 103, 101) == 0x0000_0000_6567_6964
  {
    Letters();
    hide Widen;
  }

  lemma FourteenWords1()
    ensures ReadLE64(FOURTEEN, 0) == 0x2065_6761_7373_656D
  {
    hide LittleEndian32, Join64;
    FourteenGroups();
  }

  lemma FourteenWords2()
    ensures ReadLE32(FOURTEEN, 8) == 0x0000_0000_6567_6964
  {
    hide LittleEndian32, Join64;
    FourteenGroups();
  }

  lemma FourteenLength()
    ensures Small64(0) == 0x27D4_EB2F_1656_67C5
    ensures AddLength64(0x27D4_EB2F_1656_67C5, 14) == 0x27D4_EB2F_1656_67D3
  {
    assert Word64(14) == 14;
    hide Word64;
  }

  lemma FourteenTail()
    ensures Mix8(0x27D4_EB2F_1656_67D3, 0x2065_6761_7373_656D) == 0x5E53_DDCB_2340_8DD4
    ensures Mix4(0x5E53_DDCB_2340_8DD4, 0x0000_0000_6567_6964) == 0xB88A_2DA1_DAE6_09DA
    ensures Mix1(0xB88A_2DA1_DAE6_09DA, 115) == 0x2E18_60D6_D87A_26A7
    ensures Mix1(0x2E18_60D6_D87A_26A7, 116) == 0x3962_3DB9_5CA0_3705
  {
    Letters();
    hide Widen;
  }

  lemma FourteenEnd()
    ensures Avalanche64(0x3962_3DB9_5CA0_3705) == 0x066E_D728_FCEE_B3BE
  {
  }

  lemma Fourteen()
    ensures Hash64(0, FOURTEEN) == 0x066E_D728_FCEE_B3BE
  {
    hide Avalanche64, AddLength64, Small64, Mix4, Mix1, ReadLE32, Stripes64, Start64, Converge64, Mix8, ReadLE64;
    var s: seq<byte> := FOURTEEN;
    assert s[0..] == s;
    FourteenWords1();
    FourteenWords2();
    FourteenLength();
    FourteenEnd();
    FourteenTail();
  }

  const PHRASE: seq<byte> := [
    78, 111, 98, 111, 100, 121, 32, 105, 110, 115, 112, 101, 99, 116, 115, 32,
    116, 104, 101, 32, 115, 112, 97, 109, 109, 105, 115, 104, 32, 114, 101, 112,
    101, 116, 105, 116, 105, 111, 110]

  lemma PhraseGroups()
    ensures LittleEndian32(78, 111, 98, 111) == 0x0000_0000_6F62_6F4E
    ensures LittleEndian32(100, 121, 32, 105) == 0x0000_0000_6920_7964
    ensures Join64(0x0000_0000_6F62_6F4E, 0x0000_0000_6920_7964) == 0x6920_7964_6F62_6F4E
    ensures LittleEndian32(110, 115, 112, 101) == 0x0000_0000_6570_736E
    ensures LittleEndian32(99, 116, 115, 32) == 0x0000_0000_2073_7463
    ensures Join64(0x0000_0000_6570_736E, 0x0000_0000_2073_7463) == 0x2073_7463_6570_736E
    ensures LittleEndian32(116, 104, 101, 32) == 0x0000_0000_2065_6874
    ensures LittleEndian32(115, 112, 97, 109) == 0x0000_0000_6D61_7073
    ensures Join64(0x0000_0000_2065_6874, 0x0000_0000_6D61_7073) == 0x6D61_7073_2065_6874
    ensures LittleEndian32(109, 105, 115, 104) == 0x0000_0000_6873_696D
    ensures LittleEndian32(32, 114, 101, 112) == 0x0000_0000_7065_7220
    ensures Join64(0x0000_0000_6873_696D, 0x0000_0000_7065_7220) == 0x7065_7220_6873_696D
    ensures LittleEndian32(101, 116, 105, 116) == 0x0000_0000_7469_7465
  {
    Letters();
    hide Widen;
  }

  lemma PhraseWords1()
    ensures ReadLE64(PHRASE, 0) == 0x6920_7964_6F62_6F4E
  {
    hide LittleEndian32, Join64;
    PhraseGroups();
  }

  lemma PhraseWords2()
    ensures ReadLE64(PHRASE, 8) == 0x2073_7463_6570_736E
  {
    hide LittleEndian32, Join64;
    PhraseGroups();
  }

  lemma PhraseWords3()
    ensures ReadLE64(PHRASE, 16) == 0x6D61_7073_2065_6874
  {
    hide LittleEndian32, Join64;
    PhraseGroups();
  }

  lemma PhraseWords4()
    ensures ReadLE64(PHRASE, 24) == 0x7065_7220_6873_696D
  {
    hide LittleEndian32, Join64;
    PhraseGroups();
  }

  lemma PhraseWords5()
    ensures ReadLE32(PHRASE, 32) == 0x0000_0000_7469_7465
  {
    hide LittleEndian32, Join64;
    PhraseGroups();
  }

  lemma PhraseStripe1()
    ensures Round64(0x60EA_27EE_ADC0_B5D6, 0x6920_7964_6F62_6F4E) == 0x3724_5127_A406_7E4B
    ensures Round64(0xC2B2_AE3D_27D4_EB4F, 0x2073_7463_6570_736E) == 0x1B30_2B0A_818F_92CF
    ensures Round64(0x0000_0000_0000_0000, 0x6D61_7073_2065_6874) == 0xCD62_D843_D058_0FCA
    ensures Round64(0x61C8_864E_7A14_3579, 0x7065_7220_6873_696D) == 0x1C16_E43E_F214_2A4A
  {
  }

  lemma PhraseHead()
    ensures Start64(0) == Lanes64(0x60EA_27EE_ADC0_B5D6, 0xC2B2_AE3D_27D4_EB4F, 0x0000_0000_0000_0000, 0x61C8_864E_7A14_3579)
  {
  }

  lemma PhraseConverge()
    ensures Converge64(Lanes64(0x3724_5127_A406_7E4B, 0x1B30_2B0A_818F_92CF, 0xCD62_D843_D058_0FCA, 0x1C16_E43E_F214_2A4A)) == 0x84F2_2C42_1A11_A8B5
  {
    assert Sum(Sum(Sum(Rotl64(0x3724_5127_A406_7E4B, 1), Rotl64(0x1B30_2B0A_818F_92CF, 7)), Rotl64(0xCD62_D843_D058_0FCA, 12)), Rotl64(0x1C16_E43E_F214_2A4A, 18)) == 0xC4DE_2CE6_39FB_8154;
    assert MergeRound64(0xC4DE_2CE6_39FB_8154, 0x3724_5127_A406_7E4B) == 0x30D4_0DDD_00AE_A144;
    assert MergeRound64(0x30D4_0DDD_00AE_A144, 0x1B30_2B0A_818F_92CF) == 0xE5A1_F095_BF49_8698;
    assert MergeRound64(0xE5A1_F095_BF49_8698, 0xCD62_D843_D058_0FCA) == 0xF9CE_E721_E748_096D;
    assert MergeRound64(0xF9CE_E721_E748_096D, 0x1C16_E43E_F214_2A4A) == 0x84F2_2C42_1A11_A8B5;
  }

  lemma PhraseLength()
    ensures AddLength64(0x84F2_2C42_1A11_A8B5, 39) == 0x84F2_2C42_1A11_A8DC
  {
    assert Word64(39) == 39;
    hide Word64;
  }

  lemma PhraseTail()
    ensures Mix4(0x84F2_2C42_1A11_A8DC, 0x0000_0000_7469_7465) == 0x9FCA_0F5D_0AAA_110F
    ensures Mix1(0x9FCA_0F5D_0AAA_110F, 105) == 0x7696_7154_6F21_BA14
    ensures Mix1(0x7696_7154_6F21_BA14, 111) == 0xEAE9_B643_C5F9_4E52
    ensures Mix1(0xEAE9_B643_C5F9_4E52, 110) == 0x1D0A_4748_3B37_CC24
  {
    Letters();
    hide Widen;
  }

  lemma PhraseEnd()
    ensures Avalanche64(0x1D0A_4748_3B37_CC24) == 0xFBCE_A83C_8A37_8BF1
  {
  }

  lemma Phrase()
    ensures Hash64(0, PHRASE) == 0xFBCE_A83C_8A37_8BF1
  {
    hide Avalanche64, AddLength64, Small64, Mix4, Mix1, ReadLE32, Stripes64, Start64, Converge64, Mix8, ReadLE64, Tail64;
    PhraseHead();
    PhraseConverge();
    PhraseLanes();
    PhraseRest();
    TailSlice64(0x84F2_2C42_1A11_A8DC, PHRASE, 32, 0);
    PhraseLength();
    PhraseEnd();
    PhraseTail();
  }

  lemma PhraseLanes()
    ensures Stripes64(Start64(0), PHRASE[..32]) == Lanes64(0x3724_5127_A406_7E4B, 0x1B30_2B0A_818F_92CF, 0xCD62_D843_D058_0FCA, 0x1C16_E43E_F214_2A4A)
  {
    hide Stripes64, Start64, Round64, ReadLE32, ReadLE64;
    var v := Start64(0);
    PhraseHead();
    PhraseWords1();
    PhraseWords2();
    PhraseWords3();
    PhraseWords4();
    PhraseWords5();
    PhraseStripe1();
    StripesNone64(v, PHRASE);
    StripesStep64(v, PHRASE, 0);
  }

  lemma PhraseRest()
    ensures Tail64(0x84F2_2C42_1A11_A8DC, PHRASE, 32) == 0x1D0A_4748_3B37_CC24
  {
    hide Mix4, Mix1, ReadLE32, Mix8, ReadLE64;
    PhraseWords5();
    PhraseTail();
  }

  lemma SeededStripe1()
    ensures Round64(0x60EA_27EF_4BF8_2F87, 0x6920_7964_6F62_6F4E) == 0xC53C_B604_A9F2_48D2
    ensures Round64(0xC2B2_AE3D_C60C_6500, 0x2073_7463_6570_736E) == 0x0B11_1636_018F_92CF
    ensures Round64(0x0000_0000_9E37_79B1, 0x6D61_7073_2065_6874) == 0xBD43_C36F_5058_0FCA
    ensures Round64(0x61C8_864F_184B_AF2A, 0x7065_7220_6873_696D) == 0x0BF7_CF6A_7214_2A4A
  {
  }

  lemma SeededHead()
    ensures Start64(0x0000_0000_9E37_79B1) == Lanes64(0x60EA_27EF_4BF8_2F87, 0xC2B2_AE3D_C60C_6500, 0x0000_0000_9E37_79B1, 0x61C8_864F_184B_AF2A)
  {
  }

  lemma SeededConverge()
    ensures Converge64(Lanes64(0xC53C_B604_A9F2_48D2, 0x0B11_1636_018F_92CF, 0xBD43_C36F_5058_0FCA, 0x0BF7_CF6A_7214_2A4A)) == 0x6801_5F11_4DC7_2DD4
  {
    assert Sum(Sum(Sum(Rotl64(0xC53C_B604_A9F2_48D2, 1), Rotl64(0x0B11_1636_018F_92CF, 7)), Rotl64(0xBD43_C36F_5058_0FCA, 12)), Rotl64(0x0BF7_CF6A_7214_2A4A, 18)) == 0x8CE5_4460_45D2_D4DD;
    assert MergeRound64(0x8CE5_4460_45D2_D4DD, 0xC53C_B604_A9F2_48D2) == 0xD73F_86B0_1BD3_5212;
    assert MergeRound64(0xD73F_86B0_1BD3_5212, 0x0B11_1636_018F_92CF) == 0xC5A4_827E_4F0E_8A08;
    assert MergeRound64(0xC5A4_827E_4F0E_8A08, 0xBD43_C36F_5058_0FCA) == 0xE44E_EC5C_78AE_45F3;
    assert MergeRound64(0xE44E_EC5C_78AE_45F3, 0x0BF7_CF6A_7214_2A4A) == 0x6801_5F11_4DC7_2DD4;
  }

  lemma SeededLength()
    ensures AddLength64(0x6801_5F11_4DC7_2DD4, 39) == 0x6801_5F11_4DC7_2DFB
  {
    assert Word64(39) == 39;
    hide Word64;
  }

  lemma SeededTail()
    ensures Mix4(0x6801_5F11_4DC7_2DFB, 0x0000_0000_7469_7465) == 0x5E75_3427_DF15_2F36
    ensures Mix1(0x5E75_3427_DF15_2F36, 105) == 0x6127_2083_3871_5447
    ensures Mix1(0x6127_2083_3871_5447, 111) == 0x7389_1AE8_E6B0_D775
    ensures Mix1(0x7389_1AE8_E6B0_D775, 110) == 0x3B74_373C_A59C_E1C1
  {
    Letters();
    hide Widen;
  }

  lemma SeededEnd()
    ensures Avalanche64(0x3B74_373C_A59C_E1C1) == 0x56DB_22DD_5B05_1147
  {
  }

  lemma Seeded()
    ensures Hash64(0x0000_0000_9E37_79B1, PHRASE) == 0x56DB_22DD_5B05_1147
  {
    hide Avalanche64, AddLength64, Small64, Mix4, Mix1, ReadLE32, Stripes64, Start64, Converge64, Mix8, ReadLE64, Tail64;
    SeededHead();
    SeededConverge();
    SeededLanes();
    SeededRest();
    TailSlice64(0x6801_5F11_4DC7_2DFB, PHRASE, 32, 0);
    SeededLength();
    SeededEnd();
    SeededTail();
  }

  lemma SeededLanes()
    ensures Stripes64(Start64(0x0000_0000_9E37_79B1), PHRASE[..32]) == Lanes64(0xC53C_B604_A9F2_48D2, 0x0B11_1636_018F_92CF, 0xBD43_C36F_5058_0FCA, 0x0BF7_CF6A_7214_2A4A)
  {
    hide Stripes64, Start64, Round64, ReadLE32, ReadLE64;
    var v := Start64(0x0000_0000_9E37_79B1);
    SeededHead();
    PhraseWords1();
    PhraseWords2();
    PhraseWords3();
    PhraseWords4();
    PhraseWords5();
    SeededStripe1();
    StripesNone64(v, PHRASE);
    StripesStep64(v, PHRASE, 0);
  }

  lemma SeededRest()
    ensures Tail64(0x6801_5F11_4DC7_2DFB, PHRASE, 32) == 0x3B74_373C_A59C_E1C1
  {
    hide Mix4, Mix1, ReadLE32, Mix8, ReadLE64;
    PhraseWords5();
    SeededTail();
  }

  lemma StripesNone64(v: Lanes64, s: seq<byte>)
    ensures Stripes64(v, s[..0]) == v
  {
  }
}
