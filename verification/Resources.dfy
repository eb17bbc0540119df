/** The settings the R6xx emitters take, and the register words they make of them. */
module Resources {
  import opened CommandWords
  import opened RegisterFields

  /** A register word of fields. */
  function WordOf(fs: Layout): Word
    requires InRange(fs)
  {
    PackedReads(fs);
    Packed(fs)
  }

  /** What the GPU reads from a field, and from a field of one bit. */
  function At(word: nat, shift: nat, width: nat): nat {
    Extract(word, shift, width)
  }

  predicate Set(word: nat, bit: nat) {
    Extract(word, bit, 1) == 1
  }

  // ---- Vertex buffers ----

  datatype VtxResource = VtxResource(id: nat, vbAddr: nat, sizeDw: nat, numEntries: nat, memReqSize: nat, clampX: bool,
                                     format: nat, numFormatAll: nat, formatCompAll: bool, srfModeAll: bool,
                                     endian: nat) {
    ghost predicate Fits() {
      && id <= 584 && vbAddr < 0x100_0000_0000 && 0 < 4 * numEntries <= 0x1_0000_0000 && memReqSize < 4
      && InRange(Shape())
    }

    function Shape(): Layout {
      [Field(0, 8, vbAddr / 0x1_0000_0000 % 0x100), Field(8, 11, 4 * sizeDw), Field(19, 1, Bit(clampX)),
       Field(20, 6, format), Field(26, 2, numFormatAll), Field(28, 1, Bit(formatCompAll)),
       Field(29, 1, Bit(srfModeAll)), Field(30, 2, endian)]
    }

    function Words(): (words: seq<Word>)
      requires Fits()
      ensures |words| == 7
    {
      [vbAddr % 0x1_0000_0000, 4 * numEntries - 1, WordOf(Shape()), memReqSize, 0, 0, 3 * 0x4000_0000]
    }

    /** The GPU reads the 40-bit address, the last byte, the stride, the format and the kind. */
    lemma Read()
      requires Fits()
      ensures var w: seq<nat> := Words();
              && w[0] + 0x1_0000_0000 * At(w[2], 0, 8) == vbAddr && w[1] + 1 == 4 * numEntries
              && w[3] == memReqSize && w[4] == w[5] == 0 && w[6] == 0xC000_0000
              && At(w[2], 8, 11) == 4 * sizeDw && Set(w[2], 19) == clampX && At(w[2], 20, 6) == format
              && At(w[2], 26, 2) == numFormatAll && Set(w[2], 28) == formatCompAll && Set(w[2], 29) == srfModeAll
              && At(w[2], 30, 2) == endian
    {
      ShapeRead();
      AddressRead();
    }

    lemma ShapeRead()
      requires Fits()
      ensures var k := WordOf(Shape());
              && At(k, 0, 8) == vbAddr / 0x1_0000_0000 % 0x100 && At(k, 8, 11) == 4 * sizeDw && Set(k, 19) == clampX
              && At(k, 20, 6) == format && At(k, 26, 2) == numFormatAll && Set(k, 28) == formatCompAll
              && Set(k, 29) == srfModeAll && At(k, 30, 2) == endian
    {
      var fs := Shape();
      PackedReads(fs);
      assert fs[0] == Field(0, 8, vbAddr / 0x1_0000_0000 % 0x100) && fs[1] == Field(8, 11, 4 * sizeDw)
        && fs[2] == Field(19, 1, Bit(clampX)) && fs[3] == Field(20, 6, format) && fs[4] == Field(26, 2, numFormatAll)
        && fs[5] == Field(28, 1, Bit(formatCompAll)) && fs[6] == Field(29, 1, Bit(srfModeAll))
        && fs[7] == Field(30, 2, endian);
    }

    lemma AddressRead()
      requires Fits()
      ensures vbAddr % 0x1_0000_0000 + 0x1_0000_0000 * Extract(WordOf(Shape()), 0, 8) == vbAddr
    {
      FieldRead(Shape(), 0);
    }
  }

  // ---- Textures ----

  datatype TexResource = TexResource(
    id: nat, w: nat, h: nat, pitch: nat, depth: nat, dim: nat, tileMode: nat, tileType: bool, format: nat,
    base: nat, mipBase: nat, formatCompX: nat, formatCompY: nat, formatCompZ: nat, formatCompW: nat,
    numFormatAll: nat, srfModeAll: bool, forceDegamma: bool, endian: nat, requestSize: nat,
    dstSelX: nat, dstSelY: nat, dstSelZ: nat, dstSelW: nat, baseLevel: nat, lastLevel: nat,
    baseArray: nat, lastArray: nat, mpegClamp: nat, perfModulation: nat, interlaced: bool)
  {
    ghost predicate Fits() {
      && id <= 584 && (w > 0 ==> pitch > 0)
      && InRange(Word0()) && InRange(Word1()) && InRange(Word4()) && InRange(Word5()) && InRange(Word6())
    }

    /** A size of zero leaves its fields out; the others are stored less one, the pitch in units of eight. */
    function LessOne(size: nat): nat {
      if size == 0 then 0 else size - 1
    }

    function Word0(): Layout
      requires w > 0 ==> pitch > 0
    {
      [Field(0, 3, dim), Field(3, 4, tileMode), Field(7, 1, Bit(tileType)),
       Field(8, 11, if w == 0 then 0 else (pitch + 7) / 8 - 1), Field(19, 13, LessOne(w))]
    }

    function Word1(): Layout {
      [Field(0, 13, LessOne(h)), Field(13, 13, LessOne(depth)), Field(26, 6, format)]
    }

    function Word4(): Layout {
      [Field(0, 2, formatCompX), Field(2, 2, formatCompY), Field(4, 2, formatCompZ), Field(6, 2, formatCompW),
       Field(8, 2, numFormatAll), Field(10, 1, Bit(srfModeAll)), Field(11, 1, Bit(forceDegamma)),
       Field(12, 2, endian), Field(14, 2, requestSize), Field(16, 3, dstSelX), Field(19, 3, dstSelY),
       Field(22, 3, dstSelZ), Field(25, 3, dstSelW), Field(28, 4, baseLevel)]
    }

    function Word5(): Layout {
      [Field(0, 4, lastLevel), Field(4, 13, baseArray), Field(17, 13, lastArray)]
    }

    function Word6(): Layout {
      [Field(0, 2, mpegClamp), Field(5, 3, perfModulation), Field(8, 1, Bit(interlaced)), Field(30, 2, 2)]
    }

    function Words(): (words: seq<Word>)
      requires Fits()
      ensures |words| == 7
    {
      [WordOf(Word0()), WordOf(Word1()), base / 256 % 0x1_0000_0000, mipBase / 256 % 0x1_0000_0000,
       WordOf(Word4()), WordOf(Word5()), WordOf(Word6())]
    }

    /** The GPU reads both addresses, without their low byte. */
    lemma ReadAddresses()
      requires Fits()
      ensures base < 0x100_0000_0000 ==> 256 * Words()[2] + base % 256 == base
      ensures mipBase < 0x100_0000_0000 ==> 256 * Words()[3] + mipBase % 256 == mipBase
    {
    }

    /** The GPU reads kind and size. A size of zero leaves its field zero; the others are stored less one, the
        pitch in units of eight pixels, as many as a row needs. */
    lemma ReadSize()
      requires Fits()
      ensures var k := Words();
              && At(k[0], 0, 3) == dim && At(k[0], 3, 4) == tileMode && Set(k[0], 7) == tileType
              && (if w == 0 then At(k[0], 8, 11) == 0 else pitch <= 8 * (At(k[0], 8, 11) + 1) < pitch + 8)
              && (if w == 0 then At(k[0], 19, 13) == 0 else At(k[0], 19, 13) + 1 == w)
      ensures var k := Words();
              && (if h == 0 then At(k[1], 0, 13) == 0 else At(k[1], 0, 13) + 1 == h)
              && (if depth == 0 then At(k[1], 13, 13) == 0 else At(k[1], 13, 13) + 1 == depth)
              && At(k[1], 26, 6) == format
    {
      Word0Read();
      Word1Read();
    }

    /** The GPU reads how a texel is taken apart and which part goes to which channel. */
    lemma ReadFormat()
      requires Fits()
      ensures var k := Words();
              && At(k[4], 0, 2) == formatCompX && At(k[4], 2, 2) == formatCompY && At(k[4], 4, 2) == formatCompZ
              && At(k[4], 6, 2) == formatCompW && At(k[4], 8, 2) == numFormatAll && Set(k[4], 10) == srfModeAll
              && Set(k[4], 11) == forceDegamma && At(k[4], 12, 2) == endian && At(k[4], 14, 2) == requestSize
              && At(k[4], 16, 3) == dstSelX && At(k[4], 19, 3) == dstSelY && At(k[4], 22, 3) == dstSelZ
              && At(k[4], 25, 3) == dstSelW && At(k[4], 28, 4) == baseLevel
    {
      Word4Read();
    }

    /** The GPU reads the levels, the layers and the kind of the resource. */
    lemma ReadLevels()
      requires Fits()
      ensures var k := Words();
              && At(k[5], 0, 4) == lastLevel && At(k[5], 4, 13) == baseArray && At(k[5], 17, 13) == lastArray
      ensures var k := Words();
              && At(k[6], 0, 2) == mpegClamp && At(k[6], 5, 3) == perfModulation && Set(k[6], 8) == interlaced
              && At(k[6], 30, 2) == 2
    {
      Word5Read();
      Word6Read();
    }

    lemma Word0Read()
      requires Fits()
      ensures var k := WordOf(Word0());
              && At(k, 0, 3) == dim && At(k, 3, 4) == tileMode && Set(k, 7) == tileType
              && At(k, 8, 11) == (if w == 0 then 0 else (pitch + 7) / 8 - 1) && At(k, 19, 13) == LessOne(w)
    {
      var fs := Word0();
      PackedReads(fs);
      assert fs[0] == Field(0, 3, dim) && fs[1] == Field(3, 4, tileMode) && fs[2] == Field(7, 1, Bit(tileType))
        && fs[3] == Field(8, 11, if w == 0 then 0 else (pitch + 7) / 8 - 1) && fs[4] == Field(19, 13, LessOne(w));
    }

    lemma Word1Read()
      requires Fits()
      ensures var k := WordOf(Word1());
              && At(k, 0, 13) == LessOne(h) && At(k, 13, 13) == LessOne(depth) && At(k, 26, 6) == format
    {
      var fs := Word1();
      PackedReads(fs);
      assert fs[0] == Field(0, 13, LessOne(h)) && fs[1] == Field(13, 13, LessOne(depth))
        && fs[2] == Field(26, 6, format);
    }

    lemma Word4Read()
      requires Fits()
      ensures var k := WordOf(Word4());
              && At(k, 0, 2) == formatCompX && At(k, 2, 2) == formatCompY && At(k, 4, 2) == formatCompZ
              && At(k, 6, 2) == formatCompW && At(k, 8, 2) == numFormatAll && Set(k, 10) == srfModeAll
              && Set(k, 11) == forceDegamma && At(k, 12, 2) == endian && At(k, 14, 2) == requestSize
              && At(k, 16, 3) == dstSelX && At(k, 19, 3) == dstSelY && At(k, 22, 3) == dstSelZ
              && At(k, 25, 3) == dstSelW && At(k, 28, 4) == baseLevel
    {
      var fs := Word4();
      PackedReads(fs);
      assert fs[0] == Field(0, 2, formatCompX) && fs[1] == Field(2, 2, formatCompY)
        && fs[2] == Field(4, 2, formatCompZ) && fs[3] == Field(6, 2, formatCompW)
        && fs[4] == Field(8, 2, numFormatAll) && fs[5] == Field(10, 1, Bit(srfModeAll))
        && fs[6] == Field(11, 1, Bit(forceDegamma)) && fs[7] == Field(12, 2, endian)
        && fs[8] == Field(14, 2, requestSize) && fs[9] == Field(16, 3, dstSelX) && fs[10] == Field(19, 3, dstSelY)
        && fs[11] == Field(22, 3, dstSelZ) && fs[12] == Field(25, 3, dstSelW) && fs[13] == Field(28, 4, baseLevel);
    }

    lemma Word5Read()
      requires Fits()
      ensures var k := WordOf(Word5());
              && At(k, 0, 4) == lastLevel && At(k, 4, 13) == baseArray && At(k, 17, 13) == lastArray
    {
      var fs := Word5();
      PackedReads(fs);
      assert fs[0] == Field(0, 4, lastLevel) && fs[1] == Field(4, 13, baseArray) && fs[2] == Field(17, 13, lastArray);
    }

    lemma Word6Read()
      requires Fits()
      ensures var k := WordOf(Word6());
              && At(k, 0, 2) == mpegClamp && At(k, 5, 3) == perfModulation && Set(k, 8) == interlaced
              && At(k, 30, 2) == 2
    {
      var fs := Word6();
      PackedReads(fs);
      assert fs[0] == Field(0, 2, mpegClamp) && fs[1] == Field(5, 3, perfModulation)
        && fs[2] == Field(8, 1, Bit(interlaced)) && fs[3] == Field(30, 2, 2);
    }
  }

  // ---- Samplers ----

  datatype TexSampler = TexSampler(
    id: nat, clampX: nat, clampY: nat, clampZ: nat, borderColor: nat, xyMagFilter: nat, xyMinFilter: nat,
    zFilter: nat, mipFilter: nat, highPrecisionFilter: bool, perfMip: nat, perfZ: nat, minLod: nat, maxLod: nat,
    lodBias: nat, lodBias2: nat, lodUsesMinorAxis: bool, pointSamplingClamp: bool, texArrayOverride: bool,
    mcCoordTruncate: bool, forceDegamma: bool, fetch4: bool, sampleIsPcf: bool, kind: bool,
    depthCompare: nat, chromaKey: nat)
  {
    ghost predicate Fits() {
      id <= 339 && InRange(Word0()) && InRange(Word1()) && InRange(Word2())
    }

    function Word0(): Layout {
      [Field(0, 3, clampX), Field(3, 3, clampY), Field(6, 3, clampZ), Field(9, 3, xyMagFilter),
       Field(12, 3, xyMinFilter), Field(15, 2, zFilter), Field(17, 2, mipFilter), Field(22, 2, borderColor),
       Field(24, 1, Bit(pointSamplingClamp)), Field(25, 1, Bit(texArrayOverride)), Field(26, 3, depthCompare),
       Field(29, 2, chromaKey), Field(31, 1, Bit(lodUsesMinorAxis))]
    }

    function Word1(): Layout {
      [Field(0, 10, minLod), Field(10, 10, maxLod), Field(20, 12, lodBias)]
    }

    function Word2(): Layout {
      [Field(0, 12, lodBias2), Field(12, 1, Bit(mcCoordTruncate)), Field(13, 1, Bit(forceDegamma)),
       Field(14, 1, Bit(highPrecisionFilter)), Field(15, 3, perfMip), Field(18, 2, perfZ),
       Field(26, 1, Bit(fetch4)), Field(27, 1, Bit(sampleIsPcf)), Field(31, 1, Bit(kind))]
    }

    function Words(): (words: seq<Word>)
      requires Fits()
      ensures |words| == 3
    {
      [WordOf(Word0()), WordOf(Word1()), WordOf(Word2())]
    }

    /** The GPU reads every field where it has it. */
    lemma Read()
      requires Fits()
      ensures var k := Words();
              && At(k[0], 0, 3) == clampX && At(k[0], 3, 3) == clampY && At(k[0], 6, 3) == clampZ
              && At(k[0], 9, 3) == xyMagFilter && At(k[0], 12, 3) == xyMinFilter && At(k[0], 15, 2) == zFilter
              && At(k[0], 17, 2) == mipFilter && At(k[0], 22, 2) == borderColor && Set(k[0], 24) == pointSamplingClamp
              && Set(k[0], 25) == texArrayOverride && At(k[0], 26, 3) == depthCompare && At(k[0], 29, 2) == chromaKey
              && Set(k[0], 31) == lodUsesMinorAxis
      ensures var k := Words();
              && At(k[1], 0, 10) == minLod && At(k[1], 10, 10) == maxLod && At(k[1], 20, 12) == lodBias
      ensures var k := Words();
              && At(k[2], 0, 12) == lodBias2 && Set(k[2], 12) == mcCoordTruncate && Set(k[2], 13) == forceDegamma
              && Set(k[2], 14) == highPrecisionFilter && At(k[2], 15, 3) == perfMip && At(k[2], 18, 2) == perfZ
              && Set(k[2], 26) == fetch4 && Set(k[2], 27) == sampleIsPcf && Set(k[2], 31) == kind
    {
      Word0Read();
      Word1Read();
      Word2Read();
    }

    lemma Word0Read()
      requires Fits()
      ensures var k := WordOf(Word0());
              && At(k, 0, 3) == clampX && At(k, 3, 3) == clampY && At(k, 6, 3) == clampZ && At(k, 9, 3) == xyMagFilter
              && At(k, 12, 3) == xyMinFilter && At(k, 15, 2) == zFilter && At(k, 17, 2) == mipFilter
              && At(k, 22, 2) == borderColor && Set(k, 24) == pointSamplingClamp && Set(k, 25) == texArrayOverride
              && At(k, 26, 3) == depthCompare && At(k, 29, 2) == chromaKey && Set(k, 31) == lodUsesMinorAxis
    {
      var fs := Word0();
      PackedReads(fs);
      assert fs[0] == Field(0, 3, clampX) && fs[1] == Field(3, 3, clampY) && fs[2] == Field(6, 3, clampZ)
        && fs[3] == Field(9, 3, xyMagFilter) && fs[4] == Field(12, 3, xyMinFilter) && fs[5] == Field(15, 2, zFilter)
        && fs[6] == Field(17, 2, mipFilter) && fs[7] == Field(22, 2, borderColor)
        && fs[8] == Field(24, 1, Bit(pointSamplingClamp)) && fs[9] == Field(25, 1, Bit(texArrayOverride))
        && fs[10] == Field(26, 3, depthCompare) && fs[11] == Field(29, 2, chromaKey)
        && fs[12] == Field(31, 1, Bit(lodUsesMinorAxis));
    }

    lemma Word1Read()
      requires Fits()
      ensures var k := WordOf(Word1());
              && At(k, 0, 10) == minLod && At(k, 10, 10) == maxLod && At(k, 20, 12) == lodBias
    {
      var fs := Word1();
      PackedReads(fs);
      assert fs[0] == Field(0, 10, minLod) && fs[1] == Field(10, 10, maxLod) && fs[2] == Field(20, 12, lodBias);
    }

    lemma Word2Read()
      requires Fits()
      ensures var k := WordOf(Word2());
              && At(k, 0, 12) == lodBias2 && Set(k, 12) == mcCoordTruncate && Set(k, 13) == forceDegamma
              && Set(k, 14) == highPrecisionFilter && At(k, 15, 3) == perfMip && At(k, 18, 2) == perfZ
              && Set(k, 26) == fetch4 && Set(k, 27) == sampleIsPcf && Set(k, 31) == kind
    {
      var fs := Word2();
      PackedReads(fs);
      assert fs[0] == Field(0, 12, lodBias2) && fs[1] == Field(12, 1, Bit(mcCoordTruncate))
        && fs[2] == Field(13, 1, Bit(forceDegamma)) && fs[3] == Field(14, 1, Bit(highPrecisionFilter))
        && fs[4] == Field(15, 3, perfMip) && fs[5] == Field(18, 2, perfZ) && fs[6] == Field(26, 1, Bit(fetch4))
        && fs[7] == Field(27, 1, Bit(sampleIsPcf)) && fs[8] == Field(31, 1, Bit(kind));
    }
  }

  // ---- Color targets ----

  datatype ColorInfo = ColorInfo(
    endian: nat, format: nat, arrayMode: nat, numberType: nat, readSize: bool, compSwap: nat, tileMode: nat,
    blendClamp: bool, clearColor: bool, blendBypass: bool, blendFloat32: bool, simpleFloat: bool, roundMode: bool,
    tileCompact: bool, sourceFormat: bool)
  {
    ghost predicate Fits() {
      InRange(Fields())
    }

    function Fields(): Layout {
      [Field(0, 2, endian), Field(2, 6, format), Field(8, 4, arrayMode), Field(12, 3, numberType),
       Field(15, 1, Bit(readSize)), Field(16, 2, compSwap), Field(18, 2, tileMode), Field(20, 1, Bit(blendClamp)),
       Field(21, 1, Bit(clearColor)), Field(22, 1, Bit(blendBypass)), Field(23, 1, Bit(blendFloat32)),
       Field(24, 1, Bit(simpleFloat)), Field(25, 1, Bit(roundMode)), Field(26, 1, Bit(tileCompact)),
       Field(27, 1, Bit(sourceFormat))]
    }

    function Word(): Word
      requires Fits()
    {
      WordOf(Fields())
    }

    /** The GPU reads every field where it has it. */
    lemma Read()
      requires Fits()
      ensures var k := Word();
              && At(k, 0, 2) == endian && At(k, 2, 6) == format && At(k, 8, 4) == arrayMode
              && At(k, 12, 3) == numberType && Set(k, 15) == readSize && At(k, 16, 2) == compSwap
              && At(k, 18, 2) == tileMode && Set(k, 20) == blendClamp && Set(k, 21) == clearColor
              && Set(k, 22) == blendBypass && Set(k, 23) == blendFloat32 && Set(k, 24) == simpleFloat
              && Set(k, 25) == roundMode && Set(k, 26) == tileCompact && Set(k, 27) == sourceFormat
    {
      FieldsRead();
    }

    lemma FieldsRead()
      requires Fits()
      ensures var k := WordOf(Fields());
              && At(k, 0, 2) == endian && At(k, 2, 6) == format && At(k, 8, 4) == arrayMode
              && At(k, 12, 3) == numberType && Set(k, 15) == readSize && At(k, 16, 2) == compSwap
              && At(k, 18, 2) == tileMode && Set(k, 20) == blendClamp && Set(k, 21) == clearColor
              && Set(k, 22) == blendBypass && Set(k, 23) == blendFloat32 && Set(k, 24) == simpleFloat
              && Set(k, 25) == roundMode && Set(k, 26) == tileCompact && Set(k, 27) == sourceFormat
    {
      var fs := Fields();
      PackedReads(fs);
      assert fs[0] == Field(0, 2, endian) && fs[1] == Field(2, 6, format) && fs[2] == Field(8, 4, arrayMode)
        && fs[3] == Field(12, 3, numberType) && fs[4] == Field(15, 1, Bit(readSize))
        && fs[5] == Field(16, 2, compSwap) && fs[6] == Field(18, 2, tileMode)
        && fs[7] == Field(20, 1, Bit(blendClamp)) && fs[8] == Field(21, 1, Bit(clearColor))
        && fs[9] == Field(22, 1, Bit(blendBypass)) && fs[10] == Field(23, 1, Bit(blendFloat32))
        && fs[11] == Field(24, 1, Bit(simpleFloat)) && fs[12] == Field(25, 1, Bit(roundMode))
        && fs[13] == Field(26, 1, Bit(tileCompact)) && fs[14] == Field(27, 1, Bit(sourceFormat));
    }
  }

  // ---- Shares of the shader engine ----

  /** The shares of the four shader stages, and whether the chip has a vertex cache. */
  datatype SqConfig = SqConfig(
    vertexCache: bool, psPrio: nat, vsPrio: nat, gsPrio: nat, esPrio: nat,
    psGprs: nat, vsGprs: nat, gsGprs: nat, esGprs: nat, tempGprs: nat,
    psThreads: nat, vsThreads: nat, gsThreads: nat, esThreads: nat,
    psStack: nat, vsStack: nat, gsStack: nat, esStack: nat)
  {
    ghost predicate Fits() {
      && InRange(Config()) && InRange(Gprs1()) && InRange(Gprs2())
      && InRange(Threads()) && InRange(Stack1()) && InRange(Stack2())
    }

    function Config(): Layout {
      [Field(0, 1, Bit(vertexCache)), Field(2, 1, 1), Field(3, 1, 1),
       Field(24, 2, psPrio), Field(26, 2, vsPrio), Field(28, 2, gsPrio), Field(30, 2, esPrio)]
    }

    function Gprs1(): Layout {
      [Field(0, 8, psGprs), Field(16, 8, vsGprs), Field(28, 4, tempGprs)]
    }

    function Gprs2(): Layout {
      [Field(0, 8, gsGprs), Field(16, 8, esGprs)]
    }

    function Threads(): Layout {
      [Field(0, 8, psThreads), Field(8, 8, vsThreads), Field(16, 8, gsThreads), Field(24, 8, esThreads)]
    }

    function Stack1(): Layout {
      [Field(0, 12, psStack), Field(16, 12, vsStack)]
    }

    function Stack2(): Layout {
      [Field(0, 12, gsStack), Field(16, 12, esStack)]
    }

    function Words(): (words: seq<Word>)
      requires Fits()
      ensures |words| == 6
    {
      [WordOf(Config()), WordOf(Gprs1()), WordOf(Gprs2()), WordOf(Threads()), WordOf(Stack1()), WordOf(Stack2())]
    }

    /** The GPU reads every share of every stage, and that the constants are of DirectX 9 and vectors preferred. */
    lemma Read()
      requires Fits()
      ensures var k := Words();
              && Set(k[0], 0) == vertexCache && At(k[0], 2, 1) == 1 && At(k[0], 3, 1) == 1
              && At(k[0], 24, 2) == psPrio && At(k[0], 26, 2) == vsPrio && At(k[0], 28, 2) == gsPrio
              && At(k[0], 30, 2) == esPrio
      ensures var k := Words();
              && At(k[1], 0, 8) == psGprs && At(k[1], 16, 8) == vsGprs && At(k[1], 28, 4) == tempGprs
      ensures var k := Words();
              && At(k[2], 0, 8) == gsGprs && At(k[2], 16, 8) == esGprs
      ensures var k := Words();
              && At(k[3], 0, 8) == psThreads && At(k[3], 8, 8) == vsThreads && At(k[3], 16, 8) == gsThreads
              && At(k[3], 24, 8) == esThreads
      ensures var k := Words();
              && At(k[4], 0, 12) == psStack && At(k[4], 16, 12) == vsStack
      ensures var k := Words();
              && At(k[5], 0, 12) == gsStack && At(k[5], 16, 12) == esStack
    {
      ConfigRead();
      Gprs1Read();
      Gprs2Read();
      ThreadsRead();
      Stack1Read();
      Stack2Read();
    }

    lemma ConfigRead()
      requires Fits()
      ensures var k := WordOf(Config());
              && Set(k, 0) == vertexCache && At(k, 2, 1) == 1 && At(k, 3, 1) == 1 && At(k, 24, 2) == psPrio
              && At(k, 26, 2) == vsPrio && At(k, 28, 2) == gsPrio && At(k, 30, 2) == esPrio
    {
      var fs := Config();
      PackedReads(fs);
      assert fs[0] == Field(0, 1, Bit(vertexCache)) && fs[1] == Field(2, 1, 1) && fs[2] == Field(3, 1, 1)
        && fs[3] == Field(24, 2, psPrio) && fs[4] == Field(26, 2, vsPrio) && fs[5] == Field(28, 2, gsPrio)
        && fs[6] == Field(30, 2, esPrio);
    }

    lemma Gprs1Read()
      requires Fits()
      ensures var k := WordOf(Gprs1());
              && At(k, 0, 8) == psGprs && At(k, 16, 8) == vsGprs && At(k, 28, 4) == tempGprs
    {
      var fs := Gprs1();
      PackedReads(fs);
      assert fs[0] == Field(0, 8, psGprs) && fs[1] == Field(16, 8, vsGprs) && fs[2] == Field(28, 4, tempGprs);
    }

    lemma Gprs2Read()
      requires Fits()
      ensures var k := WordOf(Gprs2());
              && At(k, 0, 8) == gsGprs && At(k, 16, 8) == esGprs
    {
      var fs := Gprs2();
      PackedReads(fs);
      assert fs[0] == Field(0, 8, gsGprs) && fs[1] == Field(16, 8, esGprs);
    }

    lemma ThreadsRead()
      requires Fits()
      ensures var k := WordOf(Threads());
              && At(k, 0, 8) == psThreads && At(k, 8, 8) == vsThreads && At(k, 16, 8) == gsThreads
              && At(k, 24, 8) == esThreads
    {
      var fs := Threads();
      PackedReads(fs);
      assert fs[0] == Field(0, 8, psThreads) && fs[1] == Field(8, 8, vsThreads) && fs[2] == Field(16, 8, gsThreads)
        && fs[3] == Field(24, 8, esThreads);
    }

    lemma Stack1Read()
      requires Fits()
      ensures var k := WordOf(Stack1());
              && At(k, 0, 12) == psStack && At(k, 16, 12) == vsStack
    {
      var fs := Stack1();
      PackedReads(fs);
      assert fs[0] == Field(0, 12, psStack) && fs[1] == Field(16, 12, vsStack);
    }

    lemma Stack2Read()
      requires Fits()
      ensures var k := WordOf(Stack2());
              && At(k, 0, 12) == gsStack && At(k, 16, 12) == esStack
    {
      var fs := Stack2();
      PackedReads(fs);
      assert fs[0] == Field(0, 12, gsStack) && fs[1] == Field(16, 12, esStack);
    }
  }
}
