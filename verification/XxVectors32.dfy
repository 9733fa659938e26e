/** Digests that are published with the algorithm: they pin its constants and the order of its steps. */
module XxVectors32 {
  import opened Lz4Block
  import opened XxHash32

  lemma Letters()
    ensures Widen(0) == 0 && Widen(3) == 3 && Widen(10) == 10 && Widen(11) == 11 && Widen(12) == 12 && Widen(13) == 13
    ensures Widen(32) == 32 && Widen(64) == 64 && Widen(78) == 78 && Widen(93) == 93 && Widen(97) == 97 && Widen(98) == 98
    ensures Widen(99) == 99 && Widen(100) == 100 && Widen(101) == 101 && Widen(104) == 104 && Widen(105) == 105 && Widen(109) == 109
    ensures Widen(110) == 110 && Widen(111) == 111 && Widen(112) == 112 && Widen(114) == 114 && Widen(115) == 115 && Widen(116) == 116
    ensures Widen(121) == 121
  {
  }

  lemma Empty()
    ensures Hash32(0, []) == 0x02CC_5D05
  {
  }

  lemma EmptySeeded()
    ensures Hash32(0x9E37_79B1, []) == 0x36B7_8AE7
  {
  }

  lemma LetterLength()
    ensures Small32(0) == 0x1656_67B1
    ensures AddLength32(0x1656_67B1, 1) == 0x1656_67B2
  {
    assert Word32(1) == 1;
    hide Word32;
  }

  lemma LetterTail()
    ensures Mix1(0x1656_67B2, 97) == 0x6506_CBE8
  {
    Letters();
    hide Widen;
  }

  lemma LetterEnd()
    ensures Avalanche32(0x6506_CBE8) == 0x550D_7456
  {
  }

  lemma Letter()
    ensures Hash32(0, [97]) == 0x550D_7456
  {
    hide Avalanche32, AddLength32, Small32, Mix4, Mix1, ReadLE32, Stripes32, Start32, Converge32;
    var s: seq<byte> := [97];
    assert s[0..] == s;
    LetterLength();
    LetterEnd();
    LetterTail();
  }

  lemma ThreeLength()
    ensures Small32(0) == 0x1656_67B1
    ensures AddLength32(0x1656_67B1, 3) == 0x1656_67B4
  {
    assert Word32(3) == 3;
    hide Word32;
  }

  lemma ThreeTail()
    ensures Mix1(0x1656_67B4, 97) == 0xDCA1_DBE8
    ensures Mix1(0xDCA1_DBE8, 98) == 0x4F80_FD3D
    ensures Mix1(0x4F80_FD3D, 99) == 0x760A_1E67
  {
    Letters();
    hide Widen;
  }

  lemma ThreeEnd()
    ensures Avalanche32(0x760A_1E67) == 0x32D1_53FF
  {
  }

  lemma Three()
    ensures Hash32(0, [97, 98, 99]) == 0x32D1_53FF
  {
    hide Avalanche32, AddLength32, Small32, Mix4, Mix1, ReadLE32, Stripes32, Start32, Converge32;
    var s: seq<byte> := [97, 98, 99];
    assert s[0..] == s;
    ThreeLength();
    ThreeEnd();
    ThreeTail();
  }

  const PHRASE: seq<byte> := [
    78, 111, 98, 111, 100, 121, 32, 105, 110, 115, 112, 101, 99, 116, 115, 32,
    116, 104, 101, 32, 115, 112, 97, 109, 109, 105, 115, 104, 32, 114, 101, 112,
    101, 116, 105, 116, 105, 111, 110]

  lemma PhraseGroups()
    ensures LittleEndian32(78, 111, 98, 111) == 0x6F62_6F4E
    ensures LittleEndian32(100, 121, 32, 105) == 0x6920_7964
    ensures LittleEndian32(110, 115, 112, 101) == 0x6570_736E
    ensures LittleEndian32(99, 116, 115, 32) == 0x2073_7463
    ensures LittleEndian32(116, 104, 101, 32) == 0x2065_6874
    ensures LittleEndian32(115, 112, 97, 109) == 0x6D61_7073
    ensures LittleEndian32(109, 105, 115, 104) == 0x6873_696D
    ensures LittleEndian32(32, 114, 101, 112) == 0x7065_7220
    ensures LittleEndian32(101, 116, 105, 116) == 0x7469_7465
  {
    Letters();
    hide Widen;
  }

  lemma PhraseWords1()
    ensures ReadLE32(PHRASE, 0) == 0x6F62_6F4E
    ensures ReadLE32(PHRASE, 4) == 0x6920_7964
    ensures ReadLE32(PHRASE, 8) == 0x6570_736E
    ensures ReadLE32(PHRASE, 12) == 0x2073_7463
  {
    hide LittleEndian32;
    PhraseGroups();
  }

  lemma PhraseWords2()
    ensures ReadLE32(PHRASE, 16) == 0x2065_6874
    ensures ReadLE32(PHRASE, 20) == 0x6D61_7073
    ensures ReadLE32(PHRASE, 24) == 0x6873_696D
    ensures ReadLE32(PHRASE, 28) == 0x7065_7220
  {
    hide LittleEndian32;
    PhraseGroups();
  }

  lemma PhraseWords3()
    ensures ReadLE32(PHRASE, 32) == 0x7469_7465
  {
    hide LittleEndian32;
    PhraseGroups();
  }

  lemma PhraseStripe1()
    ensures Round32(0x2423_4428, 0x6F62_6F4E) == 0x046A_700A
    ensures Round32(0x85EB_CA77, 0x6920_7964) == 0xBFAD_F8E3
    ensures Round32(0x0000_0000, 0x6570_736E) == 0x5B32_B4AA
    ensures Round32(0x61C8_864F, 0x2073_7463) == 0x137E_5555
  {
  }

  lemma PhraseStripe2()
    ensures Round32(0x046A_700A, 0x2065_6874) == 0x719A_836E
    ensures Round32(0xBFAD_F8E3, 0x6D61_7073) == 0x514C_1DE8
    ensures Round32(0x5B32_B4AA, 0x6873_696D) == 0x97FA_4BA2
    ensures Round32(0x137E_5555, 0x7065_7220) == 0x242A_97A2
  {
  }

  lemma PhraseHead()
    ensures Start32(0) == Lanes32(0x2423_4428, 0x85EB_CA77, 0x0000_0000, 0x61C8_864F)
    ensures Converge32(Lanes32(0x719A_836E, 0x514C_1DE8, 0x97FA_4BA2, 0x242A_97A2)) == 0x8C86_B52D
  {
  }

  lemma PhraseLength()
    ensures AddLength32(0x8C86_B52D, 39) == 0x8C86_B554
  {
    assert Word32(39) == 39;
    hide Word32;
  }

  lemma PhraseTail()
    ensures Mix4(0x8C86_B554, 0x7469_7465) == 0x09B5_1544
    ensures Mix1(0x09B5_1544, 105) == 0xCDEF_D3C9
    ensures Mix1(0xCDEF_D3C9, 111) == 0x3852_087B
    ensures Mix1(0x3852_087B, 110) == 0xB3A7_011B
  {
    Letters();
    hide Widen;
  }

  lemma PhraseEnd()
    ensures Avalanche32(0xB3A7_011B) == 0xE229_3B2F
  {
  }

  lemma Phrase()
    ensures Hash32(0, PHRASE) == 0xE229_3B2F
  {
    hide Avalanche32, AddLength32, Small32, Mix4, Mix1, ReadLE32, Stripes32, Start32, Converge32, Tail32;
    PhraseHead();
    PhraseLanes();
    PhraseRest();
    TailSlice32(0x8C86_B554, PHRASE, 32, 0);
    PhraseLength();
    PhraseEnd();
    PhraseTail();
  }

  lemma PhraseLanes()
    ensures Stripes32(Start32(0), PHRASE[..32]) == Lanes32(0x719A_836E, 0x514C_1DE8, 0x97FA_4BA2, 0x242A_97A2)
  {
    hide Stripes32, Start32, Round32, ReadLE32;
    var v := Start32(0);
    PhraseHead();
    PhraseWords1();
    PhraseWords2();
    PhraseWords3();
    PhraseStripe1();
    PhraseStripe2();
    StripesNone32(v, PHRASE);
    StripesStep32(v, PHRASE, 0);
    StripesStep32(v, PHRASE, 16);
  }

  lemma PhraseRest()
    ensures Tail32(0x8C86_B554, PHRASE, 32) == 0xB3A7_011B
  {
    hide Mix4, Mix1, ReadLE32;
    PhraseWords3();
    PhraseTail();
  }

  lemma SeededStripe1()
    ensures Round32(0xC25A_BDD9, 0x6F62_6F4E) == 0xF91E_4BA1
    ensures Round32(0x2423_4428, 0x6920_7964) == 0xC52B_B47A
    ensures Round32(0x9E37_79B1, 0x6570_736E) == 0x60B0_7041
    ensures Round32(0x0000_0000, 0x2073_7463) == 0x18FC_10EC
  {
  }

  lemma SeededStripe2()
    ensures Round32(0xF91E_4BA1, 0x2065_6874) == 0x1BAC_C8D5
    ensures Round32(0xC52B_B47A, 0x6D61_7073) == 0x59BC_A798
    ensures Round32(0x60B0_7041, 0x6873_696D) == 0xA06A_D552
    ensures Round32(0x18FC_10EC, 0x7065_7220) == 0x2C9B_2152
  {
  }

  lemma SeededHead()
    ensures Start32(0x9E37_79B1) == Lanes32(0xC25A_BDD9, 0x2423_4428, 0x9E37_79B1, 0x0000_0000)
    ensures Converge32(Lanes32(0x1BAC_C8D5, 0x59BC_A798, 0xA06A_D552, 0x2C9B_2152)) == 0x484B_3A48
  {
  }

  lemma SeededLength()
    ensures AddLength32(0x484B_3A48, 39) == 0x484B_3A6F
  {
    assert Word32(39) == 39;
    hide Word32;
  }

  lemma SeededTail()
    ensures Mix4(0x484B_3A6F, 0x7469_7465) == 0xDAB4_CA6B
    ensures Mix1(0xDAB4_CA6B, 105) == 0xD1EC_CFD1
    ensures Mix1(0xD1EC_CFD1, 111) == 0x0F8D_7E9B
    ensures Mix1(0x0F8D_7E9B, 110) == 0xC763_09B5
  {
    Letters();
    hide Widen;
  }

  lemma SeededEnd()
    ensures Avalanche32(0xC763_09B5) == 0xC9E8_9E68
  {
  }

  lemma Seeded()
    ensures Hash32(0x9E37_79B1, PHRASE) == 0xC9E8_9E68
  {
    hide Avalanche32, AddLength32, Small32, Mix4, Mix1, ReadLE32, Stripes32, Start32, Converge32, Tail32;
    SeededHead();
    SeededLanes();
    SeededRest();
    TailSlice32(0x484B_3A6F, PHRASE, 32, 0);
    SeededLength();
    SeededEnd();
    SeededTail();
  }

  lemma SeededLanes()
    ensures Stripes32(Start32(0x9E37_79B1), PHRASE[..32]) == Lanes32(0x1BAC_C8D5, 0x59BC_A798, 0xA06A_D552, 0x2C9B_2152)
  {
    hide Stripes32, Start32, Round32, ReadLE32;
    var v := Start32(0x9E37_79B1);
    SeededHead();
    PhraseWords1();
    PhraseWords2();
    PhraseWords3();
    SeededStripe1();
    SeededStripe2();
    StripesNone32(v, PHRASE);
    StripesStep32(v, PHRASE, 0);
    StripesStep32(v, PHRASE, 16);
  }

  lemma SeededRest()
    ensures Tail32(0x484B_3A6F, PHRASE, 32) == 0xC763_09B5
  {
    hide Mix4, Mix1, ReadLE32;
    PhraseWords3();
    SeededTail();
  }

  lemma DescriptorLength()
    ensures Small32(0) == 0x1656_67B1
    ensures AddLength32(0x1656_67B1, 2) == 0x1656_67B3
  {
    assert Word32(2) == 2;
    hide Word32;
  }

  lemma DescriptorTail()
    ensures Mix1(0x1656_67B3, 100) == 0x1574_3680
    ensures Mix1(0x1574_3680, 64) == 0x0EA8_49D8
  {
    Letters();
    hide Widen;
  }

  lemma DescriptorEnd()
    ensures Avalanche32(0x0EA8_49D8) == 0x95C0_A77C
  {
  }

  lemma Descriptor()
    ensures Hash32(0, [100, 64]) == 0x95C0_A77C
  {
    hide Avalanche32, AddLength32, Small32, Mix4, Mix1, ReadLE32, Stripes32, Start32, Converge32;
    var s: seq<byte> := [100, 64];
    assert s[0..] == s;
    DescriptorLength();
    DescriptorEnd();
    DescriptorTail();
  }

  const DESCRIPTOR14: seq<byte> := [
    93, 112, 3, 0, 0, 0, 0, 0, 0, 0, 13, 12, 11, 10]

  lemma Descriptor14Groups()
    ensures LittleEndian32(93, 112, 3, 0) == 0x0003_705D
    ensures LittleEndian32(0, 0, 0, 0) == 0x0000_0000
    ensures LittleEndian32(0, 0, 13, 12) == 0x0C0D_0000
  {
    Letters();
    hide Widen;
  }

  lemma Descriptor14Words()
    ensures ReadLE32(DESCRIPTOR14, 0) == 0x0003_705D
    ensures ReadLE32(DESCRIPTOR14, 4) == 0x0000_0000
    ensures ReadLE32(DESCRIPTOR14, 8) == 0x0C0D_0000
  {
    hide LittleEndian32;
    Descriptor14Groups();
  }

  lemma Descriptor14Length()
    ensures Small32(0) == 0x1656_67B1
    ensures AddLength32(0x1656_67B1, 14) == 0x1656_67BF
  {
    assert Word32(14) == 14;
    hide Word32;
  }

  lemma Descriptor14Tail()
    ensures Mix4(0x1656_67BF, 0x0003_705D) == 0x2D64_F7FE
    ensures Mix4(0x2D64_F7FE, 0x0000_0000) == 0x841F_2DE7
    ensures Mix4(0x841F_2DE7, 0x0C0D_0000) == 0x32B3_D290
    ensures Mix1(0x32B3_D290, 11) == 0x7C3C_6253
    ensures Mix1(0x7C3C_6253, 10) == 0x2491_5E1C
  {
    Letters();
    hide Widen;
  }

  lemma Descriptor14End()
    ensures Avalanche32(0x2491_5E1C) == 0xF2CF_3424
  {
  }

  lemma Descriptor14()
    ensures Hash32(0, DESCRIPTOR14) == 0xF2CF_3424
  {
    hide Avalanche32, AddLength32, Small32, Mix4, Mix1, ReadLE32, Stripes32, Start32, Converge32;
    var s: seq<byte> := DESCRIPTOR14;
    assert s[0..] == s;
    Descriptor14Words();
    Descriptor14Length();
    Descriptor14End();
    Descriptor14Tail();
  }

  lemma StripesNone32(v: Lanes32, s: seq<byte>)
    ensures Stripes32(v, s[..0]) == v
  {
  }
}
