// The CRC of mkpimage (package/mkpimage/mkpimage.c): the table-driven byte loop
// against division by the generator polynomial of section 3.2.9 of IEEE 802.3.

// The register.  It is wrapped so that proofs about it need not look at bits.
module Registers {
  datatype Reg = Reg(w: bv32)

  function Xor(a: Reg, b: Reg): Reg {
    Reg(a.w ^ b.w)
  }

  function Double(c: Reg): Reg {
    Reg(c.w << 1)
  }

  predicate Top(c: Reg) {
    c.w & 0x8000_0000 != 0
  }

  lemma DoubleXor(a: Reg, b: Reg)
    ensures Double(Xor(a, b)) == Xor(Double(a), Double(b))
  {
  }

  lemma TopSame(a: Reg, b: Reg)
    requires Top(a) && Top(b)
    ensures !Top(Xor(a, b))
  {
  }

  lemma TopNone(a: Reg, b: Reg)
    requires !Top(a) && !Top(b)
    ensures !Top(Xor(a, b))
  {
  }

  lemma TopOne(a: Reg, b: Reg)
    requires Top(a) && !Top(b)
    ensures Top(Xor(a, b)) && Top(Xor(b, a))
  {
  }

  lemma TopXor(a: Reg, b: Reg)
    ensures Top(Xor(a, b)) == (Top(a) != Top(b))
  {
    hide Top, Xor;
    if Top(a) && Top(b) {
      TopSame(a, b);
    } else if Top(a) {
      TopOne(a, b);
    } else if Top(b) {
      TopOne(b, a);
    } else {
      TopNone(a, b);
    }
  }

  lemma XorCancels(x: Reg, y: Reg, p: Reg)
    ensures Xor(Xor(x, p), Xor(y, p)) == Xor(x, y)
  {
  }

  lemma XorAssociates(x: Reg, y: Reg, p: Reg)
    ensures Xor(x, Xor(y, p)) == Xor(Xor(x, y), p)
  {
  }

  lemma XorCommutes(x: Reg, y: Reg)
    ensures Xor(x, y) == Xor(y, x)
  {
  }

  // A byte, as eight bits.
  function Octet(b: int): bv8
    requires 0 <= b < 256
  {
    b as bv8
  }

  lemma DigitsBack(b: int, high: int, low: int)
    requires 0 <= high < 16 && 0 <= low < 16 && b == 16 * high + low
    ensures (b as bv8) as int == b
  {
  }

  lemma OctetBack(b: int)
    requires 0 <= b < 256
    ensures Octet(b) as int == b
  {
    DigitsBack(b, b / 16, b % 16);
  }
}

module Crc {
  import opened Registers

  // One byte of a buffer, as a word.
  type Byte = b: bv32 | b < 256 witness 0

  const POLY: bv32 := 0x04C11DB7

  // -------------------------------------------------------- division by bits

  // A zero is shifted in at the low end, and the polynomial subtracted if a one
  // falls out at the high end.
  function Step(c: Reg): Reg {
    if Top(c) then Xor(Double(c), Reg(POLY)) else Double(c)
  }

  function Step2(c: Reg): Reg {
    Step(Step(c))
  }

  function Step4(c: Reg): Reg {
    Step2(Step2(c))
  }

  function Step8(c: Reg): Reg {
    Step4(Step4(c))
  }

  function Bit(bit: bool): Reg {
    Reg(if bit then 1 else 0)
  }

  // Long division: the remainder of the bits shifted in after the remainder r.
  function Remainder(r: Reg, bits: seq<bool>): Reg {
    if bits == [] then r else Xor(Step(Remainder(r, bits[..|bits| - 1])), Bit(bits[|bits| - 1]))
  }

  // The bits of a byte, most significant first.
  function ByteBits(b: Byte): seq<bool> {
    [b & 0x80 != 0, b & 0x40 != 0, b & 0x20 != 0, b & 0x10 != 0, b & 8 != 0, b & 4 != 0, b & 2 != 0, b & 1 != 0]
  }

  function Bits(buf: seq<Byte>): seq<bool> {
    if buf == [] then [] else Bits(buf[..|buf| - 1]) + ByteBits(buf[|buf| - 1])
  }

  // --------------------------------------------------------------- the table

  function Row0(k: bv32): bv32 {
    if k == 0 then 0x0000_0000
    else if k == 1 then 0x04C1_1DB7
    else if k == 2 then 0x0982_3B6E
    else if k == 3 then 0x0D43_26D9
    else if k == 4 then 0x1304_76DC
    else if k == 5 then 0x17C5_6B6B
    else if k == 6 then 0x1A86_4DB2
    else if k == 7 then 0x1E47_5005
    else if k == 8 then 0x2608_EDB8
    else if k == 9 then 0x22C9_F00F
    else if k == 10 then 0x2F8A_D6D6
    else if k == 11 then 0x2B4B_CB61
    else if k == 12 then 0x350C_9B64
    else if k == 13 then 0x31CD_86D3
    else if k == 14 then 0x3C8E_A00A
    else 0x384F_BDBD
  }

  function Row1(k: bv32): bv32 {
    if k == 0 then 0x4C11_DB70
    else if k == 1 then 0x48D0_C6C7
    else if k == 2 then 0x4593_E01E
    else if k == 3 then 0x4152_FDA9
    else if k == 4 then 0x5F15_ADAC
    else if k == 5 then 0x5BD4_B01B
    else if k == 6 then 0x5697_96C2
    else if k == 7 then 0x5256_8B75
    else if k == 8 then 0x6A19_36C8
    else if k == 9 then 0x6ED8_2B7F
    else if k == 10 then 0x639B_0DA6
    else if k == 11 then 0x675A_1011
    else if k == 12 then 0x791D_4014
    else if k == 13 then 0x7DDC_5DA3
    else if k == 14 then 0x709F_7B7A
    else 0x745E_66CD
  }

  function Row2(k: bv32): bv32 {
    if k == 0 then 0x9823_B6E0
    else if k == 1 then 0x9CE2_AB57
    else if k == 2 then 0x91A1_8D8E
    else if k == 3 then 0x9560_9039
    else if k == 4 then 0x8B27_C03C
    else if k == 5 then 0x8FE6_DD8B
    else if k == 6 then 0x82A5_FB52
    else if k == 7 then 0x8664_E6E5
    else if k == 8 then 0xBE2B_5B58
    else if k == 9 then 0xBAEA_46EF
    else if k == 10 then 0xB7A9_6036
    else if k == 11 then 0xB368_7D81
    else if k == 12 then 0xAD2F_2D84
    else if k == 13 then 0xA9EE_3033
    else if k == 14 then 0xA4AD_16EA
    else 0xA06C_0B5D
  }

  function Row3(k: bv32): bv32 {
    if k == 0 then 0xD432_6D90
    else if k == 1 then 0xD0F3_7027
    else if k == 2 then 0xDDB0_56FE
    else if k == 3 then 0xD971_4B49
    else if k == 4 then 0xC736_1B4C
    else if k == 5 then 0xC3F7_06FB
    else if k == 6 then 0xCEB4_2022
    else if k == 7 then 0xCA75_3D95
    else if k == 8 then 0xF23A_8028
    else if k == 9 then 0xF6FB_9D9F
    else if k == 10 then 0xFBB8_BB46
    else if k == 11 then 0xFF79_A6F1
    else if k == 12 then 0xE13E_F6F4
    else if k == 13 then 0xE5FF_EB43
    else if k == 14 then 0xE8BC_CD9A
    else 0xEC7D_D02D
  }

  function Row4(k: bv32): bv32 {
    if k == 0 then 0x3486_7077
    else if k == 1 then 0x3047_6DC0
    else if k == 2 then 0x3D04_4B19
    else if k == 3 then 0x39C5_56AE
    else if k == 4 then 0x2782_06AB
    else if k == 5 then 0x2343_1B1C
    else if k == 6 then 0x2E00_3DC5
    else if k == 7 then 0x2AC1_2072
    else if k == 8 then 0x128E_9DCF
    else if k == 9 then 0x164F_8078
    else if k == 10 then 0x1B0C_A6A1
    else if k == 11 then 0x1FCD_BB16
    else if k == 12 then 0x018A_EB13
    else if k == 13 then 0x054B_F6A4
    else if k == 14 then 0x0808_D07D
    else 0x0CC9_CDCA
  }

  function Row5(k: bv32): bv32 {
    if k == 0 then 0x7897_AB07
    else if k == 1 then 0x7C56_B6B0
    else if k == 2 then 0x7115_9069
    else if k == 3 then 0x75D4_8DDE
    else if k == 4 then 0x6B93_DDDB
    else if k == 5 then 0x6F52_C06C
    else if k == 6 then 0x6211_E6B5
    else if k == 7 then 0x66D0_FB02
    else if k == 8 then 0x5E9F_46BF
    else if k == 9 then 0x5A5E_5B08
    else if k == 10 then 0x571D_7DD1
    else if k == 11 then 0x53DC_6066
    else if k == 12 then 0x4D9B_3063
    else if k == 13 then 0x495A_2DD4
    else if k == 14 then 0x4419_0B0D
    else 0x40D8_16BA
  }

  function Row6(k: bv32): bv32 {
    if k == 0 then 0xACA5_C697
    else if k == 1 then 0xA864_DB20
    else if k == 2 then 0xA527_FDF9
    else if k == 3 then 0xA1E6_E04E
    else if k == 4 then 0xBFA1_B04B
    else if k == 5 then 0xBB60_ADFC
    else if k == 6 then 0xB623_8B25
    else if k == 7 then 0xB2E2_9692
    else if k == 8 then 0x8AAD_2B2F
    else if k == 9 then 0x8E6C_3698
    else if k == 10 then 0x832F_1041
    else if k == 11 then 0x87EE_0DF6
    else if k == 12 then 0x99A9_5DF3
    else if k == 13 then 0x9D68_4044
    else if k == 14 then 0x902B_669D
    else 0x94EA_7B2A
  }

  function Row7(k: bv32): bv32 {
    if k == 0 then 0xE0B4_1DE7
    else if k == 1 then 0xE475_0050
    else if k == 2 then 0xE936_2689
    else if k == 3 then 0xEDF7_3B3E
    else if k == 4 then 0xF3B0_6B3B
    else if k == 5 then 0xF771_768C
    else if k == 6 then 0xFA32_5055
    else if k == 7 then 0xFEF3_4DE2
    else if k == 8 then 0xC6BC_F05F
    else if k == 9 then 0xC27D_EDE8
    else if k == 10 then 0xCF3E_CB31
    else if k == 11 then 0xCBFF_D686
    else if k == 12 then 0xD5B8_8683
    else if k == 13 then 0xD179_9B34
    else if k == 14 then 0xDC3A_BDED
    else 0xD8FB_A05A
  }

  function Row8(k: bv32): bv32 {
    if k == 0 then 0x690C_E0EE
    else if k == 1 then 0x6DCD_FD59
    else if k == 2 then 0x608E_DB80
    else if k == 3 then 0x644F_C637
    else if k == 4 then 0x7A08_9632
    else if k == 5 then 0x7EC9_8B85
    else if k == 6 then 0x738A_AD5C
    else if k == 7 then 0x774B_B0EB
    else if k == 8 then 0x4F04_0D56
    else if k == 9 then 0x4BC5_10E1
    else if k == 10 then 0x4686_3638
    else if k == 11 then 0x4247_2B8F
    else if k == 12 then 0x5C00_7B8A
    else if k == 13 then 0x58C1_663D
    else if k == 14 then 0x5582_40E4
    else 0x5143_5D53
  }

  function Row9(k: bv32): bv32 {
    if k == 0 then 0x251D_3B9E
    else if k == 1 then 0x21DC_2629
    else if k == 2 then 0x2C9F_00F0
    else if k == 3 then 0x285E_1D47
    else if k == 4 then 0x3619_4D42
    else if k == 5 then 0x32D8_50F5
    else if k == 6 then 0x3F9B_762C
    else if k == 7 then 0x3B5A_6B9B
    else if k == 8 then 0x0315_D626
    else if k == 9 then 0x07D4_CB91
    else if k == 10 then 0x0A97_ED48
    else if k == 11 then 0x0E56_F0FF
    else if k == 12 then 0x1011_A0FA
    else if k == 13 then 0x14D0_BD4D
    else if k == 14 then 0x1993_9B94
    else 0x1D52_8623
  }

  function Row10(k: bv32): bv32 {
    if k == 0 then 0xF12F_560E
    else if k == 1 then 0xF5EE_4BB9
    else if k == 2 then 0xF8AD_6D60
    else if k == 3 then 0xFC6C_70D7
    else if k == 4 then 0xE22B_20D2
    else if k == 5 then 0xE6EA_3D65
    else if k == 6 then 0xEBA9_1BBC
    else if k == 7 then 0xEF68_060B
    else if k == 8 then 0xD727_BBB6
    else if k == 9 then 0xD3E6_A601
    else if k == 10 then 0xDEA5_80D8
    else if k == 11 then 0xDA64_9D6F
    else if k == 12 then 0xC423_CD6A
    else if k == 13 then 0xC0E2_D0DD
    else if k == 14 then 0xCDA1_F604
    else 0xC960_EBB3
  }

  function Row11(k: bv32): bv32 {
    if k == 0 then 0xBD3E_8D7E
    else if k == 1 then 0xB9FF_90C9
    else if k == 2 then 0xB4BC_B610
    else if k == 3 then 0xB07D_ABA7
    else if k == 4 then 0xAE3A_FBA2
    else if k == 5 then 0xAAFB_E615
    else if k == 6 then 0xA7B8_C0CC
    else if k == 7 then 0xA379_DD7B
    else if k == 8 then 0x9B36_60C6
    else if k == 9 then 0x9FF7_7D71
    else if k == 10 then 0x92B4_5BA8
    else if k == 11 then 0x9675_461F
    else if k == 12 then 0x8832_161A
    else if k == 13 then 0x8CF3_0BAD
    else if k == 14 then 0x81B0_2D74
    else 0x8571_30C3
  }

  function Row12(k: bv32): bv32 {
    if k == 0 then 0x5D8A_9099
    else if k == 1 then 0x594B_8D2E
    else if k == 2 then 0x5408_ABF7
    else if k == 3 then 0x50C9_B640
    else if k == 4 then 0x4E8E_E645
    else if k == 5 then 0x4A4F_FBF2
    else if k == 6 then 0x470C_DD2B
    else if k == 7 then 0x43CD_C09C
    else if k == 8 then 0x7B82_7D21
    else if k == 9 then 0x7F43_6096
    else if k == 10 then 0x7200_464F
    else if k == 11 then 0x76C1_5BF8
    else if k == 12 then 0x6886_0BFD
    else if k == 13 then 0x6C47_164A
    else if k == 14 then 0x6104_3093
    else 0x65C5_2D24
  }

  function Row13(k: bv32): bv32 {
    if k == 0 then 0x119B_4BE9
    else if k == 1 then 0x155A_565E
    else if k == 2 then 0x1819_7087
    else if k == 3 then 0x1CD8_6D30
    else if k == 4 then 0x029F_3D35
    else if k == 5 then 0x065E_2082
    else if k == 6 then 0x0B1D_065B
    else if k == 7 then 0x0FDC_1BEC
    else if k == 8 then 0x3793_A651
    else if k == 9 then 0x3352_BBE6
    else if k == 10 then 0x3E11_9D3F
    else if k == 11 then 0x3AD0_8088
    else if k == 12 then 0x2497_D08D
    else if k == 13 then 0x2056_CD3A
    else if k == 14 then 0x2D15_EBE3
    else 0x29D4_F654
  }

  function Row14(k: bv32): bv32 {
    if k == 0 then 0xC5A9_2679
    else if k == 1 then 0xC168_3BCE
    else if k == 2 then 0xCC2B_1D17
    else if k == 3 then 0xC8EA_00A0
    else if k == 4 then 0xD6AD_50A5
    else if k == 5 then 0xD26C_4D12
    else if k == 6 then 0xDF2F_6BCB
    else if k == 7 then 0xDBEE_767C
    else if k == 8 then 0xE3A1_CBC1
    else if k == 9 then 0xE760_D676
    else if k == 10 then 0xEA23_F0AF
    else if k == 11 then 0xEEE2_ED18
    else if k == 12 then 0xF0A5_BD1D
    else if k == 13 then 0xF464_A0AA
    else if k == 14 then 0xF927_8673
    else 0xFDE6_9BC4
  }

  function Row15(k: bv32): bv32 {
    if k == 0 then 0x89B8_FD09
    else if k == 1 then 0x8D79_E0BE
    else if k == 2 then 0x803A_C667
    else if k == 3 then 0x84FB_DBD0
    else if k == 4 then 0x9ABC_8BD5
    else if k == 5 then 0x9E7D_9662
    else if k == 6 then 0x933E_B0BB
    else if k == 7 then 0x97FF_AD0C
    else if k == 8 then 0xAFB0_10B1
    else if k == 9 then 0xAB71_0D06
    else if k == 10 then 0xA632_2BDF
    else if k == 11 then 0xA2F3_3668
    else if k == 12 then 0xBCB4_666D
    else if k == 13 then 0xB875_7BDA
    else if k == 14 then 0xB536_5D03
    else 0xB1F7_40B4
  }

  // crc_table
  function Table(i: bv32): bv32 {
    var r, k := i >> 4, i & 15;
    if r == 0 then Row0(k)
    else if r == 1 then Row1(k)
    else if r == 2 then Row2(k)
    else if r == 3 then Row3(k)
    else if r == 4 then Row4(k)
    else if r == 5 then Row5(k)
    else if r == 6 then Row6(k)
    else if r == 7 then Row7(k)
    else if r == 8 then Row8(k)
    else if r == 9 then Row9(k)
    else if r == 10 then Row10(k)
    else if r == 11 then Row11(k)
    else if r == 12 then Row12(k)
    else if r == 13 then Row13(k)
    else if r == 14 then Row14(k)
    else Row15(k)
  }

  lemma Row0IsDivision(k: bv32)
    requires k < 16
    ensures Reg(Row0(k)) == Step8(High(0 + k))
  {
  }

  lemma Row1IsDivision(k: bv32)
    requires k < 16
    ensures Reg(Row1(k)) == Step8(High(16 + k))
  {
  }

  lemma Row2IsDivision(k: bv32)
    requires k < 16
    ensures Reg(Row2(k)) == Step8(High(32 + k))
  {
  }

  lemma Row3IsDivision(k: bv32)
    requires k < 16
    ensures Reg(Row3(k)) == Step8(High(48 + k))
  {
  }

  lemma Row4IsDivision(k: bv32)
    requires k < 16
    ensures Reg(Row4(k)) == Step8(High(64 + k))
  {
  }

  lemma Row5IsDivision(k: bv32)
    requires k < 16
    ensures Reg(Row5(k)) == Step8(High(80 + k))
  {
  }

  lemma Row6IsDivision(k: bv32)
    requires k < 16
    ensures Reg(Row6(k)) == Step8(High(96 + k))
  {
  }

  lemma Row7IsDivision(k: bv32)
    requires k < 16
    ensures Reg(Row7(k)) == Step8(High(112 + k))
  {
  }

  lemma Row8IsDivision(k: bv32)
    requires k < 16
    ensures Reg(Row8(k)) == Step8(High(128 + k))
  {
  }

  lemma Row9IsDivision(k: bv32)
    requires k < 16
    ensures Reg(Row9(k)) == Step8(High(144 + k))
  {
  }

  lemma Row10IsDivision(k: bv32)
    requires k < 16
    ensures Reg(Row10(k)) == Step8(High(160 + k))
  {
  }

  lemma Row11IsDivision(k: bv32)
    requires k < 16
    ensures Reg(Row11(k)) == Step8(High(176 + k))
  {
  }

  lemma Row12IsDivision(k: bv32)
    requires k < 16
    ensures Reg(Row12(k)) == Step8(High(192 + k))
  {
  }

  lemma Row13IsDivision(k: bv32)
    requires k < 16
    ensures Reg(Row13(k)) == Step8(High(208 + k))
  {
  }

  lemma Row14IsDivision(k: bv32)
    requires k < 16
    ensures Reg(Row14(k)) == Step8(High(224 + k))
  {
  }

  lemma Row15IsDivision(k: bv32)
    requires k < 16
    ensures Reg(Row15(k)) == Step8(High(240 + k))
  {
  }

  // A byte at the high end.
  function High(b: bv32): Reg {
    Reg(b << 24)
  }

  // Every entry is what eight steps make of its index.
  lemma TableIsDivision(i: bv32)
    requires i < 256
    ensures Reg(Table(i)) == Step8(High(i))
  {
    hide Step8;
    var r, k := i >> 4, i & 15;
    assert r < 16 && k < 16;
    if r == 0 {
      Row0IsDivision(k);
      assert i == 0 + k;
    } else if r == 1 {
      Row1IsDivision(k);
      assert i == 16 + k;
    } else if r == 2 {
      Row2IsDivision(k);
      assert i == 32 + k;
    } else if r == 3 {
      Row3IsDivision(k);
      assert i == 48 + k;
    } else if r == 4 {
      Row4IsDivision(k);
      assert i == 64 + k;
    } else if r == 5 {
      Row5IsDivision(k);
      assert i == 80 + k;
    } else if r == 6 {
      Row6IsDivision(k);
      assert i == 96 + k;
    } else if r == 7 {
      Row7IsDivision(k);
      assert i == 112 + k;
    } else if r == 8 {
      Row8IsDivision(k);
      assert i == 128 + k;
    } else if r == 9 {
      Row9IsDivision(k);
      assert i == 144 + k;
    } else if r == 10 {
      Row10IsDivision(k);
      assert i == 160 + k;
    } else if r == 11 {
      Row11IsDivision(k);
      assert i == 176 + k;
    } else if r == 12 {
      Row12IsDivision(k);
      assert i == 192 + k;
    } else if r == 13 {
      Row13IsDivision(k);
      assert i == 208 + k;
    } else if r == 14 {
      Row14IsDivision(k);
      assert i == 224 + k;
    } else {
      Row15IsDivision(k);
      assert i == 240 + k;
    }
  }

  // ------------------------------------------------------------ byte by byte

  function IndexWord(crc: bv32, b: Byte): bv32 {
    ((crc >> 24) ^ b) & 0xFF
  }

  function Index(c: Reg, b: Byte): bv32 {
    IndexWord(c.w, b)
  }

  function Shift8(c: Reg): Reg {
    Reg(c.w << 8)
  }

  function Low(c: Reg): Reg {
    Reg(c.w & 0x00FF_FFFF)
  }

  // One turn of the loop of crc32.
  function TurnWord(crc: bv32, b: Byte): bv32 {
    (crc << 8) ^ Table(IndexWord(crc, b))
  }

  function Turn(c: Reg, b: Byte): Reg {
    Reg(TurnWord(c.w, b))
  }

  lemma TurnIsXor(c: Reg, b: Byte)
    ensures Turn(c, b) == Xor(Shift8(c), Reg(Table(Index(c, b))))
  {
    hide Table, IndexWord;
  }

  function CrcOf(crc: Reg, buf: seq<Byte>): Reg {
    if buf == [] then crc else Turn(CrcOf(crc, buf[..|buf| - 1]), buf[|buf| - 1])
  }

  // The division is linear.
  lemma StepLinear(a: Reg, b: Reg)
    ensures Step(Xor(a, b)) == Xor(Step(a), Step(b))
  {
    hide Xor, Double, Top;
    DoubleXor(a, b);
    TopXor(a, b);
    var x, y, p := Double(a), Double(b), Reg(POLY);
    XorCancels(x, y, p);
    XorAssociates(x, y, p);
    XorAssociates(x, p, y);
    XorCommutes(p, y);
  }

  lemma Step2Linear(a: Reg, b: Reg)
    ensures Step2(Xor(a, b)) == Xor(Step2(a), Step2(b))
  {
    hide Xor, Step;
    StepLinear(a, b);
    StepLinear(Step(a), Step(b));
  }

  lemma Step4Linear(a: Reg, b: Reg)
    ensures Step4(Xor(a, b)) == Xor(Step4(a), Step4(b))
  {
    hide Xor, Step2;
    Step2Linear(a, b);
    Step2Linear(Step2(a), Step2(b));
  }

  lemma Step8Linear(a: Reg, b: Reg)
    ensures Step8(Xor(a, b)) == Xor(Step8(a), Step8(b))
  {
    hide Xor, Step4;
    Step4Linear(a, b);
    Step4Linear(Step4(a), Step4(b));
  }

  // Nothing falls out of the low three bytes.
  lemma Step8Low(c: Reg)
    ensures Step8(Low(c)) == Shift8(c)
  {
  }

  lemma SplitHigh(c: Reg, b: Byte)
    ensures Xor(c, High(b)) == Xor(High(Index(c, b)), Low(c)) && Index(c, b) < 256
  {
  }

  // One turn of the loop is eight steps of the division.
  lemma TurnIsDivision(c: Reg, b: Byte)
    ensures Turn(c, b) == Step8(Xor(c, High(b)))
  {
    hide Turn, Xor, Step8, Table, Index, High, Low, Shift8;
    TurnIsXor(c, b);
    SplitHigh(c, b);
    Step8Linear(High(Index(c, b)), Low(c));
    Step8Low(c);
    TableIsDivision(Index(c, b));
    XorCommutes(Shift8(c), Reg(Table(Index(c, b))));
  }

  // The values of a buffer can be computed piece by piece.
  lemma {:induction false} CrcOfConcat(crc: Reg, a: seq<Byte>, b: seq<Byte>)
    ensures CrcOf(crc, a + b) == CrcOf(CrcOf(crc, a), b)
  {
    if b == [] {
      assert a + b == a;
    } else {
      var c := b[..|b| - 1];
      CrcOfConcat(crc, a, c);
      assert (a + b)[..|a + b| - 1] == a + c;
    }
  }

  // ----------------------------------------------------------- long division

  lemma {:induction false} RemainderConcat(r: Reg, a: seq<bool>, b: seq<bool>)
    ensures Remainder(r, a + b) == Remainder(Remainder(r, a), b)
  {
    if b == [] {
      assert a + b == a;
    } else {
      var c := b[..|b| - 1];
      RemainderConcat(r, a, c);
      assert (a + b)[..|a + b| - 1] == a + c;
    }
  }

  function Zeros(n: nat): seq<bool> {
    seq(n, i => false)
  }

  lemma StepZero(r: Reg, n: nat)
    ensures Remainder(r, Zeros(n + 1)) == Step(Remainder(r, Zeros(n)))
  {
    assert Zeros(n + 1)[..n] == Zeros(n);
    XorZero(Step(Remainder(r, Zeros(n))));
  }

  lemma XorZero(r: Reg)
    ensures Xor(r, Bit(false)) == r
  {
  }

  lemma EightZeros(r: Reg, n: nat)
    ensures Remainder(r, Zeros(n + 8)) == Step8(Remainder(r, Zeros(n)))
  {
    hide Step, Zeros, Remainder;
    StepZero(r, n);
    StepZero(r, n + 1);
    StepZero(r, n + 2);
    StepZero(r, n + 3);
    StepZero(r, n + 4);
    StepZero(r, n + 5);
    StepZero(r, n + 6);
    StepZero(r, n + 7);
  }

  // The remainder times x to the 32nd.
  function Up(r: Reg): Reg {
    Step8(Step8(Step8(Step8(r))))
  }

  lemma UpIsZeros(r: Reg)
    ensures Remainder(r, Zeros(32)) == Up(r)
  {
    hide Step8;
    EightZeros(r, 0);
    EightZeros(r, 8);
    EightZeros(r, 16);
    EightZeros(r, 24);
  }

  lemma UpLinear(a: Reg, b: Reg)
    ensures Up(Xor(a, b)) == Xor(Up(a), Up(b))
  {
    hide Step8, Xor;
    Step8Linear(a, b);
    Step8Linear(Step8(a), Step8(b));
    Step8Linear(Step8(Step8(a)), Step8(Step8(b)));
    Step8Linear(Step8(Step8(Step8(a))), Step8(Step8(Step8(b))));
  }

  // A byte moves to the high end in 24 steps.
  lemma UpByte(b: Byte)
    ensures Up(Reg(b)) == Step8(High(b))
  {
    hide Step8;
    Step8Low(Reg(b));
    Step8Low(Shift8(Reg(b)));
    Step8Low(Shift8(Shift8(Reg(b))));
    assert Low(Reg(b)) == Reg(b) && Low(Shift8(Reg(b))) == Shift8(Reg(b));
    assert Low(Shift8(Shift8(Reg(b)))) == Shift8(Shift8(Reg(b)));
    assert Shift8(Shift8(Shift8(Reg(b)))) == High(b);
  }

  // Bits shifted in, one after the other.
  function Next(r: Reg, bit: bool): Reg {
    Xor(Step(r), Bit(bit))
  }

  function FourIn(r: Reg, b1: bool, b2: bool, b3: bool, b4: bool): Reg {
    Next(Next(Next(Next(r, b1), b2), b3), b4)
  }

  function ByteIn(r: Reg, b: Byte): Reg {
    FourIn(
      FourIn(r, b & 0x80 != 0, b & 0x40 != 0, b & 0x20 != 0, b & 0x10 != 0),
      b & 8 != 0, b & 4 != 0, b & 2 != 0, b & 1 != 0)
  }

  lemma RemainderNext(r: Reg, bits: seq<bool>, bit: bool)
    ensures Remainder(r, bits + [bit]) == Next(Remainder(r, bits), bit)
  {
    assert (bits + [bit])[..|bits|] == bits;
  }

  lemma RemainderEmpty(r: Reg)
    ensures Remainder(r, []) == r
  {
  }

  lemma RemainderFour(r: Reg, b1: bool, b2: bool, b3: bool, b4: bool)
    ensures Remainder(r, [b1, b2, b3, b4]) == FourIn(r, b1, b2, b3, b4)
  {
    hide Next, Remainder;
    RemainderEmpty(r);
    RemainderNext(r, [], b1);
    RemainderNext(r, [b1], b2);
    RemainderNext(r, [b1, b2], b3);
    RemainderNext(r, [b1, b2, b3], b4);
    assert [] + [b1] == [b1] && [b1] + [b2] == [b1, b2] && [b1, b2] + [b3] == [b1, b2, b3];
    assert [b1, b2, b3] + [b4] == [b1, b2, b3, b4];
  }

  lemma RemainderByte(r: Reg, b: Byte)
    ensures Remainder(r, ByteBits(b)) == ByteIn(r, b)
  {
    hide Remainder, FourIn;
    var high := [b & 0x80 != 0, b & 0x40 != 0, b & 0x20 != 0, b & 0x10 != 0];
    var low := [b & 8 != 0, b & 4 != 0, b & 2 != 0, b & 1 != 0];
    RemainderFour(r, high[0], high[1], high[2], high[3]);
    RemainderFour(Remainder(r, high), low[0], low[1], low[2], low[3]);
    RemainderConcat(r, high, low);
    assert ByteBits(b) == high + low;
  }

  lemma NextLinear(r: Reg, y: Reg, bit: bool)
    ensures Next(Xor(r, y), bit) == Xor(Step(r), Next(y, bit))
  {
    hide Xor, Step;
    StepLinear(r, y);
    XorAssociates(Step(r), Step(y), Bit(bit));
  }

  lemma TwoNextLinear(r: Reg, y: Reg, b1: bool, b2: bool)
    ensures Next(Next(Xor(r, y), b1), b2) == Xor(Step2(r), Next(Next(y, b1), b2))
  {
    hide Xor, Step, Next;
    NextLinear(r, y, b1);
    NextLinear(Step(r), Next(y, b1), b2);
  }

  lemma FourInLinear(r: Reg, y: Reg, b1: bool, b2: bool, b3: bool, b4: bool)
    ensures FourIn(Xor(r, y), b1, b2, b3, b4) == Xor(Step4(r), FourIn(y, b1, b2, b3, b4))
  {
    hide Xor, Step2, Next;
    TwoNextLinear(r, y, b1, b2);
    TwoNextLinear(Step2(r), Next(Next(y, b1), b2), b3, b4);
  }

  lemma ByteInLinear(r: Reg, y: Reg, b: Byte)
    ensures ByteIn(Xor(r, y), b) == Xor(Step8(r), ByteIn(y, b))
  {
    hide Xor, Step4, FourIn;
    var b1, b2, b3, b4 := b & 0x80 != 0, b & 0x40 != 0, b & 0x20 != 0, b & 0x10 != 0;
    FourInLinear(r, y, b1, b2, b3, b4);
    FourInLinear(Step4(r), FourIn(y, b1, b2, b3, b4), b & 8 != 0, b & 4 != 0, b & 2 != 0, b & 1 != 0);
  }

  lemma HighFour(b: Byte)
    ensures FourIn(Bit(false), b & 0x80 != 0, b & 0x40 != 0, b & 0x20 != 0, b & 0x10 != 0) == Reg(b >> 4)
  {
  }

  lemma LowFour(b: Byte)
    ensures FourIn(Reg(b >> 4), b & 8 != 0, b & 4 != 0, b & 2 != 0, b & 1 != 0) == Reg(b)
  {
  }

  lemma ByteInZero(b: Byte)
    ensures ByteIn(Bit(false), b) == Reg(b)
  {
    hide FourIn;
    HighFour(b);
    LowFour(b);
  }

  lemma UpStep8(x: Reg)
    ensures Up(Step8(x)) == Step8(Up(x))
  {
    hide Step8;
  }

  // Dividing eight more bits, and one turn of the loop 32 bits further up.
  lemma TurnUp(x: Reg, b: Byte)
    ensures Turn(Up(x), b) == Up(Remainder(x, ByteBits(b)))
  {
    hide Xor, Step8, Turn, Up, High, ByteIn, ByteBits, Remainder, Bit;
    XorZero(x);
    RemainderByte(x, b);
    ByteInLinear(x, Bit(false), b);
    ByteInZero(b);
    UpLinear(Step8(x), Reg(b));
    UpByte(b);
    UpStep8(x);
    TurnIsDivision(Up(x), b);
    Step8Linear(Up(x), High(b));
  }

  lemma {:induction false} CrcIsRemainder(r: Reg, buf: seq<Byte>)
    ensures CrcOf(Up(r), buf) == Up(Remainder(r, Bits(buf)))
  {
    if buf != [] {
      var front, b := buf[..|buf| - 1], buf[|buf| - 1];
      CrcIsRemainder(r, front);
      TurnUp(Remainder(r, Bits(front)), b);
      RemainderConcat(r, Bits(front), ByteBits(b));
    }
  }

  // The loop computes the remainder of the message, 32 zeros appended, from the
  // remainder of what went before.
  lemma CrcIsLongDivision(r: Reg, buf: seq<Byte>)
    ensures CrcOf(Remainder(r, Zeros(32)), buf) == Remainder(r, Bits(buf) + Zeros(32))
  {
    UpIsZeros(r);
    CrcIsRemainder(r, buf);
    RemainderConcat(r, Bits(buf), Zeros(32));
    UpIsZeros(Remainder(r, Bits(buf)));
  }

  const ALL_ONES := Reg(0xFFFF_FFFF)

  // What the register must have held 32 bits earlier to start as all ones.
  const PRELOAD := Reg(0x46AF_6449)

  lemma CrcOfImage(buf: seq<Byte>)
    ensures CrcOf(Reg(0xFFFF_FFFF), buf) == Remainder(PRELOAD, Bits(buf) + Zeros(32))
  {
    CrcIsLongDivision(PRELOAD, buf);
    UpIsZeros(PRELOAD);
    UpPreload();
  }

  lemma UpPreload()
    ensures Up(PRELOAD) == ALL_ONES
  {
    var a := Step8(PRELOAD);
    var b := Step8(a);
    var c := Step8(b);
  }

  lemma CrcEmpty(crc: Reg)
    ensures CrcOf(crc, []) == crc
  {
  }

  lemma CrcSnoc(crc: Reg, buf: seq<Byte>, b: Byte)
    ensures CrcOf(crc, buf + [b]) == Turn(CrcOf(crc, buf), b)
  {
    assert (buf + [b])[..|buf|] == buf;
  }

  // The bytes of a buffer, promoted to words.
  type UInt8 = x: int | 0 <= x < 256

  function Widen(b: UInt8): Byte {
    Octet(b) as bv32
  }

  function Widened(buf: seq<UInt8>): seq<Byte> {
    seq(|buf|, i requires 0 <= i < |buf| => Widen(buf[i]))
  }

  // crc32, of the first `length` bytes
  method Crc32(crc: bv32, buf: array<UInt8>, length: nat) returns (r: bv32)
    requires length <= buf.Length
    ensures Reg(r) == CrcOf(Reg(crc), Widened(buf[..length]))
  {
    hide TurnWord, CrcOf, Widen;
    CrcEmpty(Reg(crc));
    assert Widened(buf[..0]) == [];
    r := crc;
    var i := 0;
    while i < length
      invariant 0 <= i <= length && Reg(r) == CrcOf(Reg(crc), Widened(buf[..i]))
    {
      assert Widened(buf[..i + 1]) == Widened(buf[..i]) + [Widen(buf[i])];
      CrcSnoc(Reg(crc), Widened(buf[..i]), Widen(buf[i]));
      r := TurnWord(r, Widen(buf[i]));
      i := i + 1;
    }
  }
}
