/** The constant tables of the Tip5 permutation: its dimensions, the
    byte-wise S-box table, the round constants and the first column of the
    circulant linear layer. Each table is written sixteen entries to a row;
    entry 16 * r + c is column c of row r. */
module Tip5Tables {
  import opened Goldilocks
  import opened BField

  const STATE_SIZE: nat := 16
  const NUM_SPLIT_AND_LOOKUP: nat := 4
  const NUM_ROUNDS: nat := 7

  /** Entry c of the sixteen arguments e0 .. e15, by binary search on c.
      The tables below are rows of sixteen entries picked this way rather
      than sequence literals, which would put every entry into every proof
      that mentions a table and make those proofs far more expensive. */
  function Pick(c: nat, e0: int, e1: int, e2: int, e3: int, e4: int, e5: int, e6: int, e7: int, e8: int, e9: int, e10: int, e11: int, e12: int, e13: int, e14: int, e15: int): int
    requires c < 16
  {
    if c < 8 then
      if c < 4 then
        if c < 2 then
          if c < 1 then
            e0
          else
            e1
        else
          if c < 3 then
            e2
          else
            e3
      else
        if c < 6 then
          if c < 5 then
            e4
          else
            e5
        else
          if c < 7 then
            e6
          else
            e7
    else
      if c < 12 then
        if c < 10 then
          if c < 9 then
            e8
          else
            e9
        else
          if c < 11 then
            e10
          else
            e11
      else
        if c < 14 then
          if c < 13 then
            e12
          else
            e13
        else
          if c < 15 then
            e14
          else
            e15
  }

  /** `LOOKUP_TABLE[b]`: entry b is ((b + 1)^3 + 256) mod 257 (LookupTableIsCubeMap). */
  function LookupTable(b: u8): u8
  {
    if b < 16 then Pick(b, 0, 7, 26, 63, 124, 215, 85, 254, 214, 228, 45, 185, 140, 173, 33, 240)
    else if b < 32 then Pick(b - 16, 29, 177, 176, 32, 8, 110, 87, 202, 204, 99, 150, 106, 230, 14, 235, 128)
    else if b < 48 then Pick(b - 32, 213, 239, 212, 138, 23, 130, 208, 6, 44, 71, 93, 116, 146, 189, 251, 81)
    else if b < 64 then Pick(b - 48, 199, 97, 38, 28, 73, 179, 95, 84, 152, 48, 35, 119, 49, 88, 242, 3)
    else if b < 80 then Pick(b - 64, 148, 169, 72, 120, 62, 161, 166, 83, 175, 191, 137, 19, 100, 129, 112, 55)
    else if b < 96 then Pick(b - 80, 221, 102, 218, 61, 151, 237, 68, 164, 17, 147, 46, 234, 203, 216, 22, 141)
    else if b < 112 then Pick(b - 96, 65, 57, 123, 12, 244, 54, 219, 231, 96, 77, 180, 154, 5, 253, 133, 165)
    else if b < 128 then Pick(b - 112, 98, 195, 205, 134, 245, 30, 9, 188, 59, 142, 186, 197, 181, 144, 92, 31)
    else if b < 144 then Pick(b - 128, 224, 163, 111, 74, 58, 69, 113, 196, 67, 246, 225, 10, 121, 50, 60, 157)
    else if b < 160 then Pick(b - 144, 90, 122, 2, 250, 101, 75, 178, 159, 24, 36, 201, 11, 243, 132, 198, 190)
    else if b < 176 then Pick(b - 160, 114, 233, 39, 52, 21, 209, 108, 238, 91, 187, 18, 104, 194, 37, 153, 34)
    else if b < 192 then Pick(b - 176, 200, 143, 126, 155, 236, 118, 64, 80, 172, 89, 94, 193, 135, 183, 86, 107)
    else if b < 208 then Pick(b - 192, 252, 13, 167, 206, 136, 220, 207, 103, 171, 160, 76, 182, 227, 217, 158, 56)
    else if b < 224 then Pick(b - 208, 174, 4, 66, 109, 139, 162, 184, 211, 249, 47, 125, 232, 117, 43, 16, 42)
    else if b < 240 then Pick(b - 224, 127, 20, 241, 25, 149, 105, 156, 51, 53, 168, 145, 247, 223, 79, 78, 226)
    else Pick(b - 240, 15, 222, 82, 115, 70, 210, 27, 41, 1, 170, 40, 131, 192, 229, 248, 255)
  }

  /** The inverse permutation of LOOKUP_TABLE, which undoes it
      (LookupTableIsPermutation). */
  function InverseLookupTable(b: u8): u8
  {
    if b < 16 then Pick(b, 0, 248, 146, 63, 209, 108, 39, 1, 20, 118, 139, 155, 99, 193, 29, 240)
    else if b < 32 then Pick(b - 16, 222, 88, 170, 75, 225, 164, 94, 36, 152, 227, 2, 246, 51, 16, 117, 127)
    else if b < 48 then Pick(b - 32, 19, 14, 175, 58, 153, 173, 50, 162, 250, 247, 223, 221, 40, 10, 90, 217)
    else if b < 64 then Pick(b - 48, 57, 60, 141, 231, 163, 232, 101, 79, 207, 97, 132, 120, 142, 83, 68, 3)
    else if b < 80 then Pick(b - 64, 182, 96, 210, 136, 86, 133, 244, 41, 66, 52, 131, 149, 202, 105, 238, 237)
    else if b < 96 then Pick(b - 80, 183, 47, 242, 71, 55, 6, 190, 22, 61, 185, 144, 168, 126, 42, 186, 54)
    else if b < 112 then Pick(b - 96, 104, 49, 112, 25, 76, 148, 81, 199, 171, 229, 27, 191, 166, 211, 21, 130)
    else if b < 128 then Pick(b - 112, 78, 134, 160, 243, 43, 220, 181, 59, 67, 140, 145, 98, 4, 218, 178, 224)
    else if b < 144 then Pick(b - 128, 31, 77, 37, 251, 157, 110, 115, 188, 196, 74, 35, 212, 12, 95, 121, 177)
    else if b < 160 then Pick(b - 144, 125, 234, 44, 89, 64, 228, 26, 84, 56, 174, 107, 179, 230, 143, 206, 151)
    else if b < 176 then Pick(b - 160, 201, 69, 213, 129, 87, 111, 70, 194, 233, 65, 249, 200, 184, 13, 208, 72)
    else if b < 192 then Pick(b - 176, 18, 17, 150, 53, 106, 124, 203, 189, 214, 11, 122, 169, 119, 45, 159, 73)
    else if b < 208 then Pick(b - 192, 252, 187, 172, 113, 135, 123, 158, 48, 176, 154, 23, 92, 24, 114, 195, 198)
    else if b < 224 then Pick(b - 208, 38, 165, 245, 215, 34, 32, 8, 5, 93, 205, 82, 102, 197, 80, 241, 236)
    else if b < 240 then Pick(b - 224, 128, 138, 239, 204, 9, 253, 28, 103, 219, 161, 91, 30, 180, 85, 167, 33)
    else Pick(b - 240, 15, 226, 62, 156, 100, 116, 137, 235, 254, 216, 147, 46, 192, 109, 7, 255)
  }

  /** The canonical value of `ROUND_CONSTANTS[k]`, one row per round; the
      source stores each constant in Montgomery form, as `new` of the value. */
  function RoundConstantInteger(k: nat): u64
    requires k < NUM_ROUNDS * STATE_SIZE
  {
    if k < 16 then
      Pick(k,
        1_332_676_891_236_936_200, 16_607_633_045_354_064_669, 12_746_538_998_793_080_786, 15_240_351_333_789_289_931,
        10_333_439_796_058_208_418, 986_873_372_968_378_050, 153_505_017_314_310_505, 703_086_547_770_691_416,
        8_522_628_845_961_587_962, 1_727_254_290_898_686_320, 199_492_491_401_196_126, 2_969_174_933_639_985_366,
        1_607_536_590_362_293_391, 16_971_515_075_282_501_568, 15_401_316_942_841_283_351, 14_178_982_151_025_681_389)
    else if k < 32 then
      Pick(k - 16,
        2_916_963_588_744_282_587, 5_474_267_501_391_258_599, 5_350_367_839_445_462_659, 7_436_373_192_934_779_388,
        12_563_531_800_071_493_891, 12_265_318_129_758_141_428, 6_524_649_031_155_262_053, 1_388_069_597_090_660_214,
        3_049_665_785_814_990_091, 5_225_141_380_721_656_276, 10_399_487_208_361_035_835, 6_576_713_996_114_457_203,
        12_913_805_829_885_867_278, 10_299_910_245_954_679_423, 12_980_779_960_345_402_499, 593_670_858_850_716_490)
    else if k < 48 then
      Pick(k - 32,
        12_184_128_243_723_146_967, 1_315_341_360_419_235_257, 9_107_195_871_057_030_023, 4_354_141_752_578_294_067,
        8_824_457_881_527_486_794, 14_811_586_928_506_712_910, 7_768_837_314_956_434_138, 2_807_636_171_572_954_860,
        9_487_703_495_117_094_125, 13_452_575_580_428_891_895, 14_689_488_045_617_615_844, 16_144_091_782_672_017_853,
        15_471_922_440_568_867_245, 17_295_382_518_415_944_107, 15_054_306_047_726_632_486, 5_708_955_503_115_886_019)
    else if k < 64 then
      Pick(k - 48,
        9_596_017_237_020_520_842, 16_520_851_172_964_236_909, 8_513_472_793_890_943_175, 8_503_326_067_026_609_602,
        9_402_483_918_549_940_854, 8_614_816_312_698_982_446, 7_744_830_563_717_871_780, 14_419_404_818_700_162_041,
        8_090_742_384_565_069_824, 15_547_662_568_163_517_559, 17_314_710_073_626_307_254, 10_008_393_716_631_058_961,
        14_480_243_402_290_327_574, 13_569_194_973_291_808_551, 10_573_516_815_088_946_209, 15_120_483_436_559_336_219)
    else if k < 80 then
      Pick(k - 64,
        3_515_151_310_595_301_563, 1_095_382_462_248_757_907, 5_323_307_938_514_209_350, 14_204_542_692_543_834_582,
        12_448_773_944_668_684_656, 13_967_843_398_310_696_452, 14_838_288_394_107_326_806, 13_718_313_940_616_442_191,
        15_032_565_440_414_177_483, 13_769_903_572_116_157_488, 17_074_377_440_395_071_208, 16_931_086_385_239_297_738,
        8_723_550_055_169_003_617, 590_842_605_971_518_043, 16_642_348_030_861_036_090, 10_708_719_298_241_282_592)
    else if k < 96 then
      Pick(k - 80,
        12_766_914_315_707_517_909, 11_780_889_552_403_245_587, 113_183_285_481_780_712, 9_019_899_125_655_375_514,
        3_300_264_967_390_964_820, 12_802_381_622_653_377_935, 891_063_765_000_023_873, 15_939_045_541_699_412_539,
        3_240_223_189_948_727_743, 4_087_221_142_360_949_772, 10_980_466_041_788_253_952, 18_199_914_337_033_135_244,
        7_168_108_392_363_190_150, 16_860_278_046_098_150_740, 13_088_202_265_571_714_855, 4_712_275_036_097_525_581)
    else
      Pick(k - 96,
        16_338_034_078_141_228_133, 1_455_012_125_527_134_274, 5_024_057_780_895_012_002, 9_289_161_311_673_217_186,
        9_401_110_072_402_537_104, 11_919_498_251_456_187_748, 4_173_156_070_774_045_271, 15_647_643_457_869_530_627,
        15_642_078_237_964_257_476, 1_405_048_341_078_324_037, 3_059_193_199_283_698_832, 1_605_012_781_983_592_984,
        7_134_876_918_849_821_827, 5_796_994_175_286_958_720, 7_251_651_436_095_127_661, 4_565_856_221_886_323_991)
  }

  /** The first column of the circulant linear layer: sixteen 16-bit chunks. */
  function MdsMatrixFirstColumn(i: nat): u16
    requires i < 16
  {
    Pick(i, 61402, 1108, 28750, 33823, 7454, 43244, 53865, 12034, 56951, 27521, 41351, 40901, 12021, 59689, 26798, 17845)
  }

  /** `offset_fermat_cube_map`: ((x + 1)^3 + 256) mod 257, computed in u64.
      The source's `x + 1` is a u16 addition, which overflows for 0xffff. */
  function OffsetFermatCubeMap(x: u16): (r: u16)
    requires x < 0xffff
    ensures r < 257
  {
    var xx: u64 := x + 1;
    CubeBound(xx);
    var xxx: u64 := xx * xx * xx;
    (xxx + 256) % 257
  }

  lemma CubeBound(x: int)
    requires 0 <= x <= 0xffff
    ensures x * x * x < 0x1_0000_0000_0000
  {
    MulMono(x, x, 0xffff);
    MulMono(0xffff, x, 0xffff);
    MulMono(x * x, x, 0xffff);
    MulMono(0xffff, x * x, 0xffff * 0xffff);
  }

  /** Round constant k, in Montgomery form; every one is canonical. */
  function RoundConstant(k: nat): (c: BFieldElement)
    requires k < NUM_ROUNDS * STATE_SIZE
    ensures c.raw < P
  {
    New(RoundConstantInteger(k))
  }

  lemma RoundConstantValue(k: nat)
    requires k < NUM_ROUNDS * STATE_SIZE
    ensures Value(RoundConstant(k)) == ModP(RoundConstantInteger(k))
  {
    NewValue(RoundConstantInteger(k));
  }

  // ---------------------------------------------------------------------------
  // The lookup table is the offset cube map, and a permutation of the bytes.
  // Each group of entries below is checked by evaluating both tables.

  lemma LookupEntries0()
    ensures forall b: u8 :: 0 <= b < 8 ==> LookupTable(b) == OffsetFermatCubeMap(b) && InverseLookupTable(LookupTable(b)) == b
  {
  }

  lemma LookupEntries1()
    ensures forall b: u8 :: 8 <= b < 16 ==> LookupTable(b) == OffsetFermatCubeMap(b) && InverseLookupTable(LookupTable(b)) == b
  {
  }

  lemma LookupEntries2()
    ensures forall b: u8 :: 16 <= b < 24 ==> LookupTable(b) == OffsetFermatCubeMap(b) && InverseLookupTable(LookupTable(b)) == b
  {
  }

  lemma LookupEntries3()
    ensures forall b: u8 :: 24 <= b < 32 ==> LookupTable(b) == OffsetFermatCubeMap(b) && InverseLookupTable(LookupTable(b)) == b
  {
  }

  lemma LookupEntries4()
    ensures forall b: u8 :: 32 <= b < 40 ==> LookupTable(b) == OffsetFermatCubeMap(b) && InverseLookupTable(LookupTable(b)) == b
  {
  }

  lemma LookupEntries5()
    ensures forall b: u8 :: 40 <= b < 48 ==> LookupTable(b) == OffsetFermatCubeMap(b) && InverseLookupTable(LookupTable(b)) == b
  {
  }

  lemma LookupEntries6()
    ensures forall b: u8 :: 48 <= b < 56 ==> LookupTable(b) == OffsetFermatCubeMap(b) && InverseLookupTable(LookupTable(b)) == b
  {
  }

  lemma LookupEntries7()
    ensures forall b: u8 :: 56 <= b < 64 ==> LookupTable(b) == OffsetFermatCubeMap(b) && InverseLookupTable(LookupTable(b)) == b
  {
  }

  lemma LookupEntries8()
    ensures forall b: u8 :: 64 <= b < 72 ==> LookupTable(b) == OffsetFermatCubeMap(b) && InverseLookupTable(LookupTable(b)) == b
  {
  }

  lemma LookupEntries9()
    ensures forall b: u8 :: 72 <= b < 80 ==> LookupTable(b) == OffsetFermatCubeMap(b) && InverseLookupTable(LookupTable(b)) == b
  {
  }

  lemma LookupEntries10()
    ensures forall b: u8 :: 80 <= b < 88 ==> LookupTable(b) == OffsetFermatCubeMap(b) && InverseLookupTable(LookupTable(b)) == b
  {
  }

  lemma LookupEntries11()
    ensures forall b: u8 :: 88 <= b < 96 ==> LookupTable(b) == OffsetFermatCubeMap(b) && InverseLookupTable(LookupTable(b)) == b
  {
  }

  lemma LookupEntries12()
    ensures forall b: u8 :: 96 <= b < 104 ==> LookupTable(b) == OffsetFermatCubeMap(b) && InverseLookupTable(LookupTable(b)) == b
  {
  }

  lemma LookupEntries13()
    ensures forall b: u8 :: 104 <= b < 112 ==> LookupTable(b) == OffsetFermatCubeMap(b) && InverseLookupTable(LookupTable(b)) == b
  {
  }

  lemma LookupEntries14()
    ensures forall b: u8 :: 112 <= b < 120 ==> LookupTable(b) == OffsetFermatCubeMap(b) && InverseLookupTable(LookupTable(b)) == b
  {
  }

  lemma LookupEntries15()
    ensures forall b: u8 :: 120 <= b < 128 ==> LookupTable(b) == OffsetFermatCubeMap(b) && InverseLookupTable(LookupTable(b)) == b
  {
  }

  lemma LookupEntries16()
    ensures forall b: u8 :: 128 <= b < 136 ==> LookupTable(b) == OffsetFermatCubeMap(b) && InverseLookupTable(LookupTable(b)) == b
  {
  }

  lemma LookupEntries17()
    ensures forall b: u8 :: 136 <= b < 144 ==> LookupTable(b) == OffsetFermatCubeMap(b) && InverseLookupTable(LookupTable(b)) == b
  {
  }

  lemma LookupEntries18()
    ensures forall b: u8 :: 144 <= b < 152 ==> LookupTable(b) == OffsetFermatCubeMap(b) && InverseLookupTable(LookupTable(b)) == b
  {
  }

  lemma LookupEntries19()
    ensures forall b: u8 :: 152 <= b < 160 ==> LookupTable(b) == OffsetFermatCubeMap(b) && InverseLookupTable(LookupTable(b)) == b
  {
  }

  lemma LookupEntries20()
    ensures forall b: u8 :: 160 <= b < 168 ==> LookupTable(b) == OffsetFermatCubeMap(b) && InverseLookupTable(LookupTable(b)) == b
  {
  }

  lemma LookupEntries21()
    ensures forall b: u8 :: 168 <= b < 176 ==> LookupTable(b) == OffsetFermatCubeMap(b) && InverseLookupTable(LookupTable(b)) == b
  {
  }

  lemma LookupEntries22()
    ensures forall b: u8 :: 176 <= b < 184 ==> LookupTable(b) == OffsetFermatCubeMap(b) && InverseLookupTable(LookupTable(b)) == b
  {
  }

  lemma LookupEntries23()
    ensures forall b: u8 :: 184 <= b < 192 ==> LookupTable(b) == OffsetFermatCubeMap(b) && InverseLookupTable(LookupTable(b)) == b
  {
  }

  lemma LookupEntries24()
    ensures forall b: u8 :: 192 <= b < 200 ==> LookupTable(b) == OffsetFermatCubeMap(b) && InverseLookupTable(LookupTable(b)) == b
  {
  }

  lemma LookupEntries25()
    ensures forall b: u8 :: 200 <= b < 208 ==> LookupTable(b) == OffsetFermatCubeMap(b) && InverseLookupTable(LookupTable(b)) == b
  {
  }

  lemma LookupEntries26()
    ensures forall b: u8 :: 208 <= b < 216 ==> LookupTable(b) == OffsetFermatCubeMap(b) && InverseLookupTable(LookupTable(b)) == b
  {
  }

  lemma LookupEntries27()
    ensures forall b: u8 :: 216 <= b < 224 ==> LookupTable(b) == OffsetFermatCubeMap(b) && InverseLookupTable(LookupTable(b)) == b
  {
  }

  lemma LookupEntries28()
    ensures forall b: u8 :: 224 <= b < 232 ==> LookupTable(b) == OffsetFermatCubeMap(b) && InverseLookupTable(LookupTable(b)) == b
  {
  }

  lemma LookupEntries29()
    ensures forall b: u8 :: 232 <= b < 240 ==> LookupTable(b) == OffsetFermatCubeMap(b) && InverseLookupTable(LookupTable(b)) == b
  {
  }

  lemma LookupEntries30()
    ensures forall b: u8 :: 240 <= b < 248 ==> LookupTable(b) == OffsetFermatCubeMap(b) && InverseLookupTable(LookupTable(b)) == b
  {
  }

  lemma LookupEntries31()
    ensures forall b: u8 :: 248 <= b < 256 ==> LookupTable(b) == OffsetFermatCubeMap(b) && InverseLookupTable(LookupTable(b)) == b
  {
  }

  lemma InverseEntries0()
    ensures forall y: u8 :: 0 <= y < 16 ==> LookupTable(InverseLookupTable(y)) == y
  {
  }

  lemma InverseEntries1()
    ensures forall y: u8 :: 16 <= y < 32 ==> LookupTable(InverseLookupTable(y)) == y
  {
  }

  lemma InverseEntries2()
    ensures forall y: u8 :: 32 <= y < 48 ==> LookupTable(InverseLookupTable(y)) == y
  {
  }

  lemma InverseEntries3()
    ensures forall y: u8 :: 48 <= y < 64 ==> LookupTable(InverseLookupTable(y)) == y
  {
  }

  lemma InverseEntries4()
    ensures forall y: u8 :: 64 <= y < 80 ==> LookupTable(InverseLookupTable(y)) == y
  {
  }

  lemma InverseEntries5()
    ensures forall y: u8 :: 80 <= y < 96 ==> LookupTable(InverseLookupTable(y)) == y
  {
  }

  lemma InverseEntries6()
    ensures forall y: u8 :: 96 <= y < 112 ==> LookupTable(InverseLookupTable(y)) == y
  {
  }

  lemma InverseEntries7()
    ensures forall y: u8 :: 112 <= y < 128 ==> LookupTable(InverseLookupTable(y)) == y
  {
  }

  lemma InverseEntries8()
    ensures forall y: u8 :: 128 <= y < 144 ==> LookupTable(InverseLookupTable(y)) == y
  {
  }

  lemma InverseEntries9()
    ensures forall y: u8 :: 144 <= y < 160 ==> LookupTable(InverseLookupTable(y)) == y
  {
  }

  lemma InverseEntries10()
    ensures forall y: u8 :: 160 <= y < 176 ==> LookupTable(InverseLookupTable(y)) == y
  {
  }

  lemma InverseEntries11()
    ensures forall y: u8 :: 176 <= y < 192 ==> LookupTable(InverseLookupTable(y)) == y
  {
  }

  lemma InverseEntries12()
    ensures forall y: u8 :: 192 <= y < 208 ==> LookupTable(InverseLookupTable(y)) == y
  {
  }

  lemma InverseEntries13()
    ensures forall y: u8 :: 208 <= y < 224 ==> LookupTable(InverseLookupTable(y)) == y
  {
  }

  lemma InverseEntries14()
    ensures forall y: u8 :: 224 <= y < 240 ==> LookupTable(InverseLookupTable(y)) == y
  {
  }

  lemma InverseEntries15()
    ensures forall y: u8 :: 240 <= y < 256 ==> LookupTable(InverseLookupTable(y)) == y
  {
  }

  /** Every entry of the table is the offset Fermat cube map of its index,
      and the inverse table maps it back. */
  lemma LookupTableIsCubeMap()
    ensures forall i: u8 :: LookupTable(i) == OffsetFermatCubeMap(i)
    ensures forall i: u8 :: InverseLookupTable(LookupTable(i)) == i
  {
    LookupEntries0();
    LookupEntries1();
    LookupEntries2();
    LookupEntries3();
    LookupEntries4();
    LookupEntries5();
    LookupEntries6();
    LookupEntries7();
    LookupEntries8();
    LookupEntries9();
    LookupEntries10();
    LookupEntries11();
    LookupEntries12();
    LookupEntries13();
    LookupEntries14();
    LookupEntries15();
    LookupEntries16();
    LookupEntries17();
    LookupEntries18();
    LookupEntries19();
    LookupEntries20();
    LookupEntries21();
    LookupEntries22();
    LookupEntries23();
    LookupEntries24();
    LookupEntries25();
    LookupEntries26();
    LookupEntries27();
    LookupEntries28();
    LookupEntries29();
    LookupEntries30();
    LookupEntries31();
  }

  lemma InverseTableIsRightInverse()
    ensures forall y: u8 :: LookupTable(InverseLookupTable(y)) == y
  {
    InverseEntries0();
    InverseEntries1();
    InverseEntries2();
    InverseEntries3();
    InverseEntries4();
    InverseEntries5();
    InverseEntries6();
    InverseEntries7();
    InverseEntries8();
    InverseEntries9();
    InverseEntries10();
    InverseEntries11();
    InverseEntries12();
    InverseEntries13();
    InverseEntries14();
    InverseEntries15();
  }

  /** The table is a permutation of the 256 byte values: injective, and onto
      with InverseLookupTable naming the preimage. */
  lemma LookupTableIsPermutation()
    ensures forall i: u8, j: u8 :: LookupTable(i) == LookupTable(j) <==> i == j
    ensures forall y: u8 :: LookupTable(InverseLookupTable(y)) == y
  {
    LookupTableIsCubeMap();
    InverseTableIsRightInverse();
  }
}
