/** The digest that sha1.cpp documents for "abc", which is appendix A of FIPS PUB 180-1. */
module KnownDigest {
  import opened Fips180

  /** The padded message, as words. */
  function Block(): (m: seq<word>)
    ensures |m| == 16 && m[0] == 0x61626380 && m[15] == 0x18 && forall i :: 1 <= i < 15 ==> m[i] == 0
  {
    [0x61626380, 0, 0, 0, 0, 0, 0, 0, 0, 0, 0, 0, 0, 0, 0, 0x18]
  }

  // ---------- the words and registers that the appendix lists ----------

  lemma NextWord(t: nat)
    requires 16 <= t
    ensures W(Block(), t) == S1(W(Block(), t - 3) ^ W(Block(), t - 8) ^ W(Block(), t - 14) ^ W(Block(), t - 16))
  {
  }

  lemma NextRegs(t: nat)
    ensures Rounds(H0, Block(), t + 1) == Round(Rounds(H0, Block(), t), t, W(Block(), t))
  {
  }

  lemma FirstWords()
    ensures W(Block(), 0) == 0x61626380 && W(Block(), 15) == 0x18
    ensures 0 == W(Block(), 1) == W(Block(), 2) == W(Block(), 3) == W(Block(), 4) == W(Block(), 5) == W(Block(), 6)
    ensures 0 == W(Block(), 7) == W(Block(), 8) == W(Block(), 9) == W(Block(), 10) == W(Block(), 11)
    ensures 0 == W(Block(), 12) == W(Block(), 13) == W(Block(), 14)
  {
  }

  lemma WordsFrom16()
    ensures W(Block(), 16) == 0xC2C4C700 && W(Block(), 17) == 0x00000000
    ensures W(Block(), 18) == 0x00000030 && W(Block(), 19) == 0x85898E01
    ensures W(Block(), 20) == 0x00000000 && W(Block(), 21) == 0x00000060
    ensures W(Block(), 22) == 0x0B131C03 && W(Block(), 23) == 0x00000030
  {
    hide W, Block;
    FirstWords();
    NextWord(16); NextWord(17); NextWord(18); NextWord(19);
    NextWord(20); NextWord(21); NextWord(22); NextWord(23);
  }

  lemma WordsFrom24()
    ensures W(Block(), 24) == 0x85898EC1 && W(Block(), 25) == 0x16263806
    ensures W(Block(), 26) == 0x00000000 && W(Block(), 27) == 0x00000180
    ensures W(Block(), 28) == 0x2C4C700C && W(Block(), 29) == 0x000000F0
    ensures W(Block(), 30) == 0x93AFB507 && W(Block(), 31) == 0x5898E048
  {
    hide W, Block;
    FirstWords();
    WordsFrom16();
    NextWord(24); NextWord(25); NextWord(26); NextWord(27);
    NextWord(28); NextWord(29); NextWord(30); NextWord(31);
  }

  lemma WordsFrom32()
    ensures W(Block(), 32) == 0x8E9A9202 && W(Block(), 33) == 0x00000600
    ensures W(Block(), 34) == 0xB131C0F0 && W(Block(), 35) == 0x16263BC6
    ensures W(Block(), 36) == 0x4EBED41E && W(Block(), 37) == 0x626380A1
    ensures W(Block(), 38) == 0x16263806 && W(Block(), 39) == 0x000018C0
  {
    hide W, Block;
    WordsFrom16(); WordsFrom24();
    NextWord(32); NextWord(33); NextWord(34); NextWord(35);
    NextWord(36); NextWord(37); NextWord(38); NextWord(39);
  }

  lemma WordsFrom40()
    ensures W(Block(), 40) == 0xD2E138C4 && W(Block(), 41) == 0x00000F00
    ensures W(Block(), 42) == 0x3AFB5079 && W(Block(), 43) == 0x898E04E5
    ensures W(Block(), 44) == 0xE2BA3C2B && W(Block(), 45) == 0x000060C0
    ensures W(Block(), 46) == 0x053A37CD && W(Block(), 47) == 0x74458547
  {
    hide W, Block;
    WordsFrom24(); WordsFrom32();
    NextWord(40); NextWord(41); NextWord(42); NextWord(43);
    NextWord(44); NextWord(45); NextWord(46); NextWord(47);
  }

  lemma WordsFrom48()
    ensures W(Block(), 48) == 0xDA9415ED && W(Block(), 49) == 0x26380A16
    ensures W(Block(), 50) == 0x626383A1 && W(Block(), 51) == 0x4EBF54DE
    ensures W(Block(), 52) == 0x3835B44B && W(Block(), 53) == 0x0000F600
    ensures W(Block(), 54) == 0x1E84C7A3 && W(Block(), 55) == 0x98E04D98
  {
    hide W, Block;
    WordsFrom32(); WordsFrom40();
    NextWord(48); NextWord(49); NextWord(50); NextWord(51);
    NextWord(52); NextWord(53); NextWord(54); NextWord(55);
  }

  lemma WordsFrom56()
    ensures W(Block(), 56) == 0x651D16A0 && W(Block(), 57) == 0x62658CA1
    ensures W(Block(), 58) == 0x458544D6 && W(Block(), 59) == 0x44584CB7
    ensures W(Block(), 60) == 0x7BA06619 && W(Block(), 61) == 0x6380AEA2
    ensures W(Block(), 62) == 0x0AE55269 && W(Block(), 63) == 0x627B49A1
  {
    hide W, Block;
    WordsFrom40(); WordsFrom48();
    NextWord(56); NextWord(57); NextWord(58); NextWord(59);
    NextWord(60); NextWord(61); NextWord(62); NextWord(63);
  }

  lemma WordsFrom64()
    ensures W(Block(), 64) == 0x7CD45C9D && W(Block(), 65) == 0x000F0000
    ensures W(Block(), 66) == 0xFB50753A && W(Block(), 67) == 0xEC6765E8
    ensures W(Block(), 68) == 0xBA3C2BE2 && W(Block(), 69) == 0x0060C000
    ensures W(Block(), 70) == 0x3A37CD05 && W(Block(), 71) == 0x458546F4
  {
    hide W, Block;
    WordsFrom48(); WordsFrom56();
    NextWord(64); NextWord(65); NextWord(66); NextWord(67);
    NextWord(68); NextWord(69); NextWord(70); NextWord(71);
  }

  lemma WordsFrom72()
    ensures W(Block(), 72) == 0xB8599DD6 && W(Block(), 73) == 0x380A1A26
    ensures W(Block(), 74) == 0x01E02203 && W(Block(), 75) == 0xE7CC3456
    ensures W(Block(), 76) == 0xE6E60B69 && W(Block(), 77) == 0x00F60A00
    ensures W(Block(), 78) == 0x5795EF4F && W(Block(), 79) == 0x822E0879
  {
    hide W, Block;
    WordsFrom56(); WordsFrom64();
    NextWord(72); NextWord(73); NextWord(74); NextWord(75);
    NextWord(76); NextWord(77); NextWord(78); NextWord(79);
  }

  lemma RegsAt5()
    ensures Rounds(H0, Block(), 5) == Regs(0xCFD499DE, 0xCDD8E11B, 0x284E43C2, 0x626414DB, 0xC045BF0C)
  {
    hide W, Block, Rounds;
    NoRounds(); FirstWords();
    NextRegs(0); NextRegs(1); NextRegs(2); NextRegs(3); NextRegs(4);
  }

  lemma RegsAt10()
    ensures Rounds(H0, Block(), 10) == Regs(0x8351F929, 0x4B6AE328, 0x27A301F5, 0x664F8C30, 0x0FF1F290)
  {
    hide W, Block, Rounds;
    RegsAt5(); FirstWords();
    NextRegs(5); NextRegs(6); NextRegs(7); NextRegs(8); NextRegs(9);
  }

  lemma RegsAt15()
    ensures Rounds(H0, Block(), 15) == Regs(0x196BEE77, 0x9128F695, 0x1181ED99, 0x18C623F9, 0x7EF6A7A2)
  {
    hide W, Block, Rounds;
    RegsAt10(); FirstWords();
    NextRegs(10); NextRegs(11); NextRegs(12); NextRegs(13); NextRegs(14);
  }

  lemma RegsAt20()
    ensures Rounds(H0, Block(), 20) == Regs(0xFD9E1D7D, 0xDC64901D, 0x20AA99CA, 0xD3A49608, 0xC82F758B)
  {
    hide W, Block, Rounds;
    RegsAt15(); FirstWords(); WordsFrom16();
    NextRegs(15); NextRegs(16); NextRegs(17); NextRegs(18); NextRegs(19);
  }

  lemma RegsAt25()
    ensures Rounds(H0, Block(), 25) == Regs(0xC7567DC6, 0xD541F12D, 0x884A0D21, 0x0CE88EFF, 0x868DEC32)
  {
    hide W, Block, Rounds;
    RegsAt20(); WordsFrom16(); WordsFrom24();
    NextRegs(20); NextRegs(21); NextRegs(22); NextRegs(23); NextRegs(24);
  }

  lemma RegsAt30()
    ensures Rounds(H0, Block(), 30) == Regs(0xC5FBAF5D, 0x8370B52E, 0xD2AA1365, 0x6F8D7EF5, 0x12104EE9)
  {
    hide W, Block, Rounds;
    RegsAt25(); WordsFrom24();
    NextRegs(25); NextRegs(26); NextRegs(27); NextRegs(28); NextRegs(29);
  }

  lemma RegsAt35()
    ensures Rounds(H0, Block(), 35) == Regs(0x21796AD4, 0x2C0EBC11, 0x811BEA82, 0xCEE1174C, 0xC499ED01)
  {
    hide W, Block, Rounds;
    RegsAt30(); WordsFrom24(); WordsFrom32();
    NextRegs(30); NextRegs(31); NextRegs(32); NextRegs(33); NextRegs(34);
  }

  lemma RegsAt40()
    ensures Rounds(H0, Block(), 40) == Regs(0x32DE1CBA, 0x4C986405, 0xF718E5CF, 0x03D447F6, 0xF72EEC32)
  {
    hide W, Block, Rounds;
    RegsAt35(); WordsFrom32();
    NextRegs(35); NextRegs(36); NextRegs(37); NextRegs(38); NextRegs(39);
  }

  lemma RegsAt45()
    ensures Rounds(H0, Block(), 45) == Regs(0x40F28E09, 0xEE1B1AAF, 0x5FC64F71, 0x25C28357, 0xFF21F7B7)
  {
    hide W, Block, Rounds;
    RegsAt40(); WordsFrom40();
    NextRegs(40); NextRegs(41); NextRegs(42); NextRegs(43); NextRegs(44);
  }

  lemma RegsAt50()
    ensures Rounds(H0, Block(), 50) == Regs(0x120731C5, 0xBAF39337, 0xAFAB40B2, 0x2806E11B, 0x8714787C)
  {
    hide W, Block, Rounds;
    RegsAt45(); WordsFrom40(); WordsFrom48();
    NextRegs(45); NextRegs(46); NextRegs(47); NextRegs(48); NextRegs(49);
  }

  lemma RegsAt55()
    ensures Rounds(H0, Block(), 55) == Regs(0x7B71F76D, 0x27E9F1D8, 0x792410DB, 0x8E11EB59, 0x99076CB3)
  {
    hide W, Block, Rounds;
    RegsAt50(); WordsFrom48();
    NextRegs(50); NextRegs(51); NextRegs(52); NextRegs(53); NextRegs(54);
  }

  lemma RegsAt60()
    ensures Rounds(H0, Block(), 60) == Regs(0x3F52DE5A, 0x09D785FD, 0x3498BFD4, 0xF211824F, 0xD79915AB)
  {
    hide W, Block, Rounds;
    RegsAt55(); WordsFrom48(); WordsFrom56();
    NextRegs(55); NextRegs(56); NextRegs(57); NextRegs(58); NextRegs(59);
  }

  lemma RegsAt65()
    ensures Rounds(H0, Block(), 65) == Regs(0x19DFA7AC, 0x6B61C9E1, 0xED9B0082, 0x9523272C, 0xF5D5B051)
  {
    hide W, Block, Rounds;
    RegsAt60(); WordsFrom56(); WordsFrom64();
    NextRegs(60); NextRegs(61); NextRegs(62); NextRegs(63); NextRegs(64);
  }

  lemma RegsAt70()
    ensures Rounds(H0, Block(), 70) == Regs(0x3F2588C2, 0x497093C0, 0xDE37534A, 0x030F7CAD, 0x4405957E)
  {
    hide W, Block, Rounds;
    RegsAt65(); WordsFrom64();
    NextRegs(65); NextRegs(66); NextRegs(67); NextRegs(68); NextRegs(69);
  }

  lemma RegsAt75()
    ensures Rounds(H0, Block(), 75) == Regs(0x5EE76897, 0x11793F6F, 0x3B6D0B79, 0xCE616779, 0xF0667E31)
  {
    hide W, Block, Rounds;
    RegsAt70(); WordsFrom64(); WordsFrom72();
    NextRegs(70); NextRegs(71); NextRegs(72); NextRegs(73); NextRegs(74);
  }

  lemma RegsAt80()
    ensures Rounds(H0, Block(), 80) == Regs(0x42541B35, 0x5738D5E1, 0x21834873, 0x681E6DF6, 0xD8FDF6AD)
  {
    hide W, Block, Rounds;
    RegsAt75(); WordsFrom72();
    NextRegs(75); NextRegs(76); NextRegs(77); NextRegs(78); NextRegs(79);
  }

  lemma NoRounds()
    ensures Rounds(H0, Block(), 0) == Regs(0x67452301, 0xEFCDAB89, 0x98BADCFE, 0x10325476, 0xC3D2E1F0)
  {
  }

  // ---------- padding and digest ----------

  lemma PaddedText(text: seq<byte>)
    requires text == [0x61, 0x62, 0x63]
    ensures |Pad(text)| == 64 && Pad(text)[..4] == [0x61, 0x62, 0x63, 0x80] && Pad(text)[63] == 24
    ensures forall i :: 4 <= i < 63 ==> Pad(text)[i] == 0
  {
    hide LengthField;
    assert PadLength(3) == 52;
    LengthOfThree();
  }

  lemma LengthOfThree()
    ensures LengthField(24) == [0, 0, 0, 0, 0, 0, 0, 24]
  {
    hide ToByte;
    ZeroByte();
  }

  lemma ZeroByte()
    ensures ToByte(0) == 0 && ToByte(24) == 24
  {
  }

  lemma PaddedWords(text: seq<byte>)
    requires text == [0x61, 0x62, 0x63]
    ensures |Pad(text)| == 64 && Words(Pad(text)) == Block()
  {
    hide Pad, BigEndian, Block;
    PaddedText(text);
    var p := Pad(text);
    assert p[0] == p[..4][0] && p[1] == p[..4][1] && p[2] == p[..4][2] && p[3] == p[..4][3];
    ThreeWords();
    forall i | 0 <= i < 16
      ensures Words(p)[i] == Block()[i]
    {
      assert 0 < i < 15 ==> Words(p)[i] == BigEndian(0, 0, 0, 0);
    }
  }

  lemma ThreeWords()
    ensures BigEndian(0x61, 0x62, 0x63, 0x80) == 0x61626380
    ensures BigEndian(0, 0, 0, 0) == 0 && BigEndian(0, 0, 0, 24) == 0x18
  {
  }

  lemma OneBlock(text: seq<byte>)
    requires |text| == 64
    ensures HashBlocks(text) == Compress(H0, Words(text))
  {
    hide Compress, Words;
    assert text[..0] == [] && text[0..] == text;
    assert HashBlocks(text[..0]) == H0;
  }

  lemma LastSum()
    ensures Compress(H0, Block()) == Regs(0xA9993E36, 0x4706816A, 0xBA3E2571, 0x7850C26C, 0x9CD0D89D)
  {
    hide W, Block, Rounds;
    NoRounds();
    RegsAt80();
  }

  lemma DigestBytes()
    ensures BytesOf(Regs(0xA9993E36, 0x4706816A, 0xBA3E2571, 0x7850C26C, 0x9CD0D89D)) ==
            [0xA9, 0x99, 0x3E, 0x36, 0x47, 0x06, 0x81, 0x6A, 0xBA, 0x3E, 0x25, 0x71, 0x78, 0x50, 0xC2, 0x6C,
             0x9C, 0xD0, 0xD8, 0x9D]
  {
    assert WordBytes(0xA9993E36) == [0xA9, 0x99, 0x3E, 0x36] && WordBytes(0x4706816A) == [0x47, 0x06, 0x81, 0x6A];
    assert WordBytes(0xBA3E2571) == [0xBA, 0x3E, 0x25, 0x71] && WordBytes(0x7850C26C) == [0x78, 0x50, 0xC2, 0x6C];
    assert WordBytes(0x9CD0D89D) == [0x9C, 0xD0, 0xD8, 0x9D];
  }

  /** SHA-1 of "abc". */
  lemma DigestOfAbc()
    ensures Digest([0x61, 0x62, 0x63]) ==
            [0xA9, 0x99, 0x3E, 0x36, 0x47, 0x06, 0x81, 0x6A, 0xBA, 0x3E, 0x25, 0x71, 0x78, 0x50, 0xC2, 0x6C,
             0x9C, 0xD0, 0xD8, 0x9D]
  {
    hide Compress, Words, HashBlocks, Pad, BytesOf, Block;
    PaddedWords([0x61, 0x62, 0x63]);
    OneBlock(Pad([0x61, 0x62, 0x63]));
    LastSum();
    DigestBytes();
  }
}
