/** The R6xx indirect buffer and the functions that append commands to it. */
module CommandStream {
  import opened Arith
  import opened Card
  import opened CommandWords
  import opened Resources
  import opened Wrappers

  // Registers below the regions go out in plain runs.
  const D1MODE_VLINE_START_END: Word := 0x6538
  const D1MODE_VLINE_STATUS: Word := 0x653C
  const D2MODE_VLINE_START_END: Word := 0x6D38
  const D2MODE_VLINE_STATUS: Word := 0x6D3C
  const WAIT_UNTIL: Word := 0x8040
  const WAIT_3D_IDLE: Word := 0x8000
  const WAIT_3D_IDLECLEAN: Word := 0x2_0000
  const VGT_PRIMITIVE_TYPE: Word := 0x8958
  const SQ_CONFIG: Word := 0x8c00
  const TD_PS_SAMPLER0_BORDER_RED: Word := 0xa400
  const TD_VS_SAMPLER0_BORDER_RED: Word := 0xa600
  const CB_COLOR0_BASE: Word := 0x28040
  const CB_COLOR0_SIZE: Word := 0x28060
  const CB_COLOR0_VIEW: Word := 0x28080
  const CB_COLOR0_INFO: Word := 0x280a0
  const CB_COLOR0_TILE: Word := 0x280c0
  const CB_COLOR0_FRAG: Word := 0x280e0
  const CB_COLOR0_MASK: Word := 0x28100
  const SQ_ALU_CONSTANT: Word := 0x30000
  const SQ_RESOURCE: Word := 0x38000
  const SQ_TEX_SAMPLER_WORD: Word := 0x3c000
  const SQ_LOOP_CONST: Word := 0x3e200
  const SQ_BOOL_CONST: Word := 0x3e380

  const IT_START_3D_CMDBUF := 0x24
  const IT_CONTEXT_CONTROL := 0x28
  const IT_INDEX_TYPE := 0x2A
  const IT_DRAW_INDEX_AUTO := 0x2D
  const IT_DRAW_INDEX_IMMD := 0x2E
  const IT_NUM_INSTANCES := 0x2F
  const IT_WAIT_REG_MEM := 0x3C
  const IT_SURFACE_SYNC := 0x43
  const IT_EVENT_WRITE := 0x46
  const IT_SURFACE_BASE_UPDATE := 0x73

  const CACHE_FLUSH_AND_INV_EVENT: Word := 0x16

  function Zeros(n: nat): (r: seq<Word>)
    ensures |r| == n && forall i :: 0 <= i < n ==> r[i] == 0
  {
    seq(n, _ => 0)
  }

  // ---- What the larger emitters do ----

  const SAMPLER_RESET: seq<Word> := [3 * 0x400_0000, 0x3ff * 0x400, 0]

  /** The first n samplers reset. */
  function SamplerResets(n: nat): seq<Effect> {
    if n == 0 then [] else SamplerResets(n - 1) + Writes(SQ_TEX_SAMPLER_WORD + 12 * (n - 1), SAMPLER_RESET)
  }

  lemma SamplerStep(before: seq<Effect>, i: nat)
    ensures before + SamplerResets(i) + Writes(SQ_TEX_SAMPLER_WORD + 12 * i, SAMPLER_RESET)
         == before + SamplerResets(i + 1)
  {
  }

  lemma {:induction false} SamplerWord(log: seq<Effect>, n: nat, i: nat, k: nat)
    requires i < n && k < 3
    ensures RegAfter(log + SamplerResets(n), SQ_TEX_SAMPLER_WORD + 12 * i + 4 * k) == Some(SAMPLER_RESET[k])
    decreases n
  {
    var front, first := log + SamplerResets(n - 1), SQ_TEX_SAMPLER_WORD + 12 * (n - 1);
    var reg := SQ_TEX_SAMPLER_WORD + 12 * i + 4 * k;
    assert log + SamplerResets(n) == front + Writes(first, SAMPLER_RESET);
    RegAfterBoth(front, Writes(first, SAMPLER_RESET), reg);
    RegAfterRun(first, SAMPLER_RESET, reg);
    if i < n - 1 {
      SamplerWord(log, n - 1, i, k);
    }
  }

  /** The card has sampler i compare by less-or-equal and allow all levels, and the rest zero. */
  predicate SamplerIsReset(log: seq<Effect>, i: nat) {
    && RegAfter(log, 0x3c000 + 12 * i) == Some(3 * 0x400_0000)
    && RegAfter(log, 0x3c004 + 12 * i) == Some(0x3ff * 0x400) && RegAfter(log, 0x3c008 + 12 * i) == Some(0)
  }

  lemma SamplersReset(log: seq<Effect>, n: nat)
    ensures forall i :: 0 <= i < n ==> SamplerIsReset(log + SamplerResets(n), i)
  {
    forall i | 0 <= i < n ensures SamplerIsReset(log + SamplerResets(n), i) {
      SamplerWord(log, n, i, 0);
      SamplerWord(log, n, i, 1);
      SamplerWord(log, n, i, 2);
    }
  }

  datatype DrawConfig = DrawConfig(primType: Word, indexType: Word, numInstances: Word, numIndices: Word,
                                   initiator: Word)

  const INDEX_SIZE_16_BIT: Word := 0

  function DrawSetup(c: DrawConfig): seq<Effect> {
    [Write(VGT_PRIMITIVE_TYPE, c.primType), Command(IT_INDEX_TYPE, [c.indexType]),
     Command(IT_NUM_INSTANCES, [c.numInstances])]
  }

  /** The last effect is a draw, and these are the settings the card has when it meets it. */
  ghost predicate Draws(log: seq<Effect>, op: nat, body: seq<Word>, c: DrawConfig) {
    && log != [] && log[|log| - 1] == Command(op, body)
    && RegAfter(log, 0x8958) == Some(c.primType)
    && LastBody(log, 0x2A) == Some([c.indexType]) && LastBody(log, 0x2F) == Some([c.numInstances])
  }

  lemma DrawReads(log: seq<Effect>, c: DrawConfig, op: nat, body: seq<Word>)
    requires op != 0x2A && op != 0x2F
    ensures Draws(log + DrawSetup(c) + [Command(op, body)], op, body, c)
  {
    var a := log + [DrawSetup(c)[0]];
    var b := a + [DrawSetup(c)[1]];
    var d := b + [DrawSetup(c)[2]];
    assert log + DrawSetup(c) == d;
    OneMore(log, DrawSetup(c)[0], 0x8958, 0);
    OneMore(a, DrawSetup(c)[1], 0x8958, 0x2A);
    OneMore(b, DrawSetup(c)[2], 0x8958, 0x2A);
    OneMore(b, DrawSetup(c)[2], 0, 0x2F);
    OneMore(d, Command(op, body), 0x8958, 0x2A);
    OneMore(d, Command(op, body), 0, 0x2F);
  }

  /** The words an index list takes in the packet. */
  function IndexWords(c: DrawConfig, indices: seq<Word>): seq<Word> {
    if c.indexType == INDEX_SIZE_16_BIT then Pack16(indices) else indices
  }

  /** The indices the GPU draws from the body of an immediate draw: two to a word for index type 0. */
  function DrawnIndices(indexType: Word, body: seq<Word>): seq<Word>
    requires |body| >= 2 && body[0] <= (if indexType == 0 then 2 else 1) * (|body| - 2)
  {
    if indexType == 0 then Unpack16(body[2..], body[0]) else body[2..][..body[0]]
  }

  /** An immediate draw draws the list it was given, unless an index does not fit the short form. */
  lemma DrawnIndicesIff(c: DrawConfig, indices: seq<Word>)
    requires c.numIndices == |indices|
    ensures DrawnIndices(c.indexType, [c.numIndices, c.initiator] + IndexWords(c, indices)) == indices
       <==> c.indexType != 0 || forall i :: 0 <= i < |indices| ==> indices[i] < 0x1_0000
  {
    var body := [c.numIndices, c.initiator] + IndexWords(c, indices);
    assert body[2..] == IndexWords(c, indices);
    if c.indexType == INDEX_SIZE_16_BIT {
      UnpackPackIff(indices);
    }
  }

  /** The units of 256 bytes a cache flush is asked to cover. */
  function CoherSize(size: Word): Word {
    if size == 0xffff_ffff then 0xffff_ffff else (size + 255) % 0x1_0000_0000 / 256
  }

  /** The flush covers the surface except for the last 254 sizes below the special value, where the sum wraps. */
  lemma CoherCoversIff(size: Word)
    ensures 256 * CoherSize(size) >= size <==> size <= 0xffff_ff00 || size == 0xffff_ffff
    ensures size != 0xffff_ffff ==> 256 * CoherSize(size) < size + 256
  {
  }

  /** The scan lines a vline wait really waits for: none unless part of the range is on the screen. */
  function VlineRange(crtc: int, vdisplay: Option<int>, start: int, stop: int): Option<(int, int)> {
    if crtc < 0 || crtc > 1 || vdisplay.None? then None
    else
      var first, last := if start > 0 then start else 0, if stop < vdisplay.value - 1 then stop else vdisplay.value - 1;
      if last <= first then None else Some((first, last))
  }

  /** Set the range of a controller, and poll its status until the beam has left it. */
  function VlineWait(crtc: int, first: int, last: int): seq<Effect>
    requires 0 <= first < last < 0x1_0000
  {
    [Write(if crtc == 0 then D1MODE_VLINE_START_END else D2MODE_VLINE_START_END, last * 0x1_0000 + first),
     Command(IT_WAIT_REG_MEM, [3, (if crtc == 0 then D1MODE_VLINE_STATUS else D2MODE_VLINE_STATUS) / 4, 0, 0, 0x1000,
                               10])]
  }

  /** The range register of that controller gets both ends, and its status register is polled until its bit is clear. */
  lemma VlineWaitReads(crtc: int, first: int, last: int)
    requires 0 <= crtc <= 1 && 0 <= first < last < 0x1_0000
    ensures var e := VlineWait(crtc, first, last);
            && |e| == 2 && e[0].Write? && e[0].reg == 0x6538 + 0x800 * crtc
            && e[0].value % 0x1_0000 == first && e[0].value / 0x1_0000 == last
            && e[1].Command? && e[1].op == 0x3C && |e[1].body| == 6
            && e[1].body[0] == 3 && 4 * e[1].body[1] == 0x653C + 0x800 * crtc && e[1].body[2] == 0
            && e[1].body[3] == 0 && e[1].body[4] == 0x1000 && e[1].body[5] == 10
  {
  }

  /** The lines waited for are exactly those of the range that are on the screen; there is no wait
      only if there is no live controller, or not two such lines. */
  lemma VlineRangeIsVisiblePart(crtc: int, vdisplay: Option<int>, start: int, stop: int)
    ensures match VlineRange(crtc, vdisplay, start, stop)
            case Some(lines) =>
              && 0 <= crtc <= 1 && vdisplay.Some?
              && forall l :: lines.0 <= l <= lines.1 <==> Visible(vdisplay.value, start, stop, l)
            case None =>
              !(0 <= crtc <= 1) || vdisplay.None?
              || forall l, m ::
                   Visible(vdisplay.value, start, stop, l) && Visible(vdisplay.value, start, stop, m) ==> l == m
  {
  }

  predicate Visible(vdisplay: int, start: int, stop: int, l: int) {
    start <= l <= stop && 0 <= l < vdisplay
  }

  /** The rows of a target rounded up to tiles. */
  function TiledRows(h: nat): nat {
    (h + 7) / 8 * 8
  }

  predicate TargetFits(w: nat, h: nat) {
    8 <= w <= 8192 && 0 < h <= 8192
  }

  /** Pitch and slice of a target, counted in tiles less one. */
  function TargetSize(w: nat, h: nat): Word
    requires TargetFits(w, h)
  {
    SliceFits(w, h);
    (w / 8 - 1) + (w * TiledRows(h) / 64 - 1) * 0x400
  }

  lemma SliceFits(w: nat, h: nat)
    requires TargetFits(w, h)
    ensures 1 <= w * TiledRows(h) / 64 <= 0x10_0000
  {
    Area(w, TiledRows(h));
  }

  lemma Area(w: nat, h: nat)
    requires 8 <= w <= 8192 && 8 <= h <= 8192
    ensures 64 <= w * h <= 0x400_0000
  {
    SpanIs(w, h);
    SpanIs(8, h);
    SpanIs(8192, h);
    SpanMonotone(8, w, h);
    SpanMonotone(w, 8192, h);
  }

  /** For a pitch of whole tiles the GPU reads the pitch back, and a slice that holds every row. */
  lemma TargetSizeReads(w: nat, h: nat)
    requires TargetFits(w, h) && w % 8 == 0
    ensures 8 * (TargetSize(w, h) % 0x400 + 1) == w
    ensures 64 * (TargetSize(w, h) / 0x400 + 1) == w * TiledRows(h) && h <= TiledRows(h) < h + 8
  {
    SliceFits(w, h);
    var a, b := w / 8, TiledRows(h) / 8;
    assert w * TiledRows(h) == 64 * (a * b) by {
      assert w * TiledRows(h) == (8 * a) * (8 * b);
    }
    DivUnique(w * TiledRows(h), 64, a * b, 0);
    DivUnique(TargetSize(w, h), 0x400, w * TiledRows(h) / 64 - 1, a - 1);
  }

  /** The registers of color target id, with the packet that only the chips between R600 and RV770 get. */
  function TargetWrites(id: nat, base: Word, size: Word, info: Word, rv6xx: bool): seq<Effect>
    requires id < 8
  {
    TargetBaseWrites(id, base, rv6xx) + TargetShapeWrites(id, size, info)
  }

  function TargetBaseWrites(id: nat, base: Word, rv6xx: bool): seq<Effect>
    requires id < 8
  {
    [Write(CB_COLOR0_BASE + 4 * id, base / 256)]
    + if rv6xx then [Command(IT_SURFACE_BASE_UPDATE, [SurfaceBit(id)])] else []
  }

  function TargetShapeWrites(id: nat, size: Word, info: Word): seq<Effect>
    requires id < 8
  {
    [Write(CB_COLOR0_SIZE + 4 * id, size), Write(CB_COLOR0_VIEW + 4 * id, 0), Write(CB_COLOR0_INFO + 4 * id, info)]
    + [Write(CB_COLOR0_TILE + 4 * id, 0), Write(CB_COLOR0_FRAG + 4 * id, 0), Write(CB_COLOR0_MASK + 4 * id, 0)]
  }

  /** The registers of a target, in the order of their addresses. */
  predicate IsTargetReg(id: nat, reg: nat) {
    exists k: nat :: 2 <= k <= 8 && reg == 0x28000 + 0x20 * k + 4 * id
  }

  /** What the card has for target id afterwards; no other register has changed. */
  ghost predicate TargetSet(before: seq<Effect>, after: seq<Effect>, id: nat, base: Word, size: Word, info: Word) {
    && RegAfter(after, 0x28040 + 4 * id) == Some(base / 256) && RegAfter(after, 0x28060 + 4 * id) == Some(size)
    && RegAfter(after, 0x28080 + 4 * id) == Some(0) && RegAfter(after, 0x280a0 + 4 * id) == Some(info)
    && RegAfter(after, 0x280c0 + 4 * id) == Some(0) && RegAfter(after, 0x280e0 + 4 * id) == Some(0)
    && RegAfter(after, 0x28100 + 4 * id) == Some(0)
    && forall reg :: IsTargetReg(id, reg) || RegAfter(after, reg) == RegAfter(before, reg)
  }

  lemma TargetReads(log: seq<Effect>, id: nat, base: Word, size: Word, info: Word, rv6xx: bool)
    requires id < 8
    ensures TargetSet(log, log + TargetWrites(id, base, size, info, rv6xx), id, base, size, info)
    ensures rv6xx ==> LastBody(log + TargetWrites(id, base, size, info, rv6xx), 0x73) == Some([SurfaceBit(id)])
  {
    var mid := log + TargetBaseWrites(id, base, rv6xx);
    assert log + TargetWrites(id, base, size, info, rv6xx) == mid + TargetShapeWrites(id, size, info);
    forall reg: nat
      ensures RegAfter(mid, reg) == if reg == 0x28040 + 4 * id then Some(base / 256) else RegAfter(log, reg)
    {
      BaseReads(log, id, base, rv6xx, reg);
    }
    BaseReads(log, id, base, rv6xx, 0);
    forall reg: nat {
      ShapeReads(mid, id, size, info, reg);
    }
    ShapeReads(mid, id, size, info, 0);
    assert IsTargetReg(id, 0x28000 + 0x20 * 2 + 4 * id);
    forall reg: nat | reg in {0x28060 + 4 * id, 0x28080 + 4 * id, 0x280a0 + 4 * id, 0x280c0 + 4 * id,
                              0x280e0 + 4 * id, 0x28100 + 4 * id}
      ensures IsTargetReg(id, reg)
    {
      assert reg == 0x28000 + 0x20 * ((reg - 0x28000) / 0x20) + 4 * id;
    }
  }

  lemma BaseReads(log: seq<Effect>, id: nat, base: Word, rv6xx: bool, reg: nat)
    requires id < 8
    ensures var mid := log + TargetBaseWrites(id, base, rv6xx);
            && RegAfter(mid, reg) == (if reg == 0x28040 + 4 * id then Some(base / 256) else RegAfter(log, reg))
            && (rv6xx ==> LastBody(mid, 0x73) == Some([SurfaceBit(id)]))
  {
    var a := log + [Write(CB_COLOR0_BASE + 4 * id, base / 256)];
    OneMore(log, Write(CB_COLOR0_BASE + 4 * id, base / 256), reg, 0x73);
    if rv6xx {
      assert log + TargetBaseWrites(id, base, rv6xx) == a + [Command(0x73, [SurfaceBit(id)])];
      OneMore(a, Command(0x73, [SurfaceBit(id)]), reg, 0x73);
    } else {
      assert log + TargetBaseWrites(id, base, rv6xx) == a;
    }
  }

  lemma ShapeReads(log: seq<Effect>, id: nat, size: Word, info: Word, reg: nat)
    requires id < 8
    ensures var after := log + TargetShapeWrites(id, size, info);
            && LastBody(after, 0x73) == LastBody(log, 0x73)
            && RegAfter(after, reg) ==
               if reg == 0x28060 + 4 * id then Some(size)
               else if reg == 0x280a0 + 4 * id then Some(info)
               else if reg in {0x28080 + 4 * id, 0x280c0 + 4 * id, 0x280e0 + 4 * id, 0x28100 + 4 * id} then Some(0)
               else RegAfter(log, reg)
  {
    var e, k := TargetShapeWrites(id, size, info), 0;
    assert log + e[..0] == log;
    while k < 6
      invariant k <= 6 && LastBody(log + e[..k], 0x73) == LastBody(log, 0x73)
      invariant RegAfter(log + e[..k], reg) ==
                if k > 0 && reg == 0x28060 + 4 * id then Some(size)
                else if k > 2 && reg == 0x280a0 + 4 * id then Some(info)
                else if (k > 1 && reg == 0x28080 + 4 * id) || (k > 3 && reg == 0x280c0 + 4 * id)
                     || (k > 4 && reg == 0x280e0 + 4 * id) || (k > 5 && reg == 0x28100 + 4 * id) then Some(0)
                else RegAfter(log, reg)
    {
      assert log + e[..k + 1] == log + e[..k] + [e[k]];
      OneMore(log + e[..k], e[k], reg, 0x73);
      k := k + 1;
    }
    assert e[..k] == e;
  }

  /** n no-op packets. */
  function Padding(n: nat): (r: seq<Word>)
    ensures |r| == n && forall i :: 0 <= i < n ==> r[i] == PACKET2
  {
    if n == 0 then [] else Padding(n - 1) + [PACKET2]
  }

  lemma SmallPow2(id: nat)
    requires id < 8
    ensures Pow2(id) <= 128
  {
    assert Pow2(4) == 16 && Pow2(7) == 128;
    if id < 7 {
      Pow2Monotone(id, 7);
    }
  }

  /** One bit for each target, from the second up. */
  function SurfaceBit(id: nat): (bit: Word)
    requires id < 8
    ensures bit == Pow2(id + 1)
  {
    SmallPow2(id);
    2 * Pow2(id)
  }

  predicate IsContextReg(reg: Word) {
    CONTEXT.first <= reg && reg + 4 <= CONTEXT.end && reg % 4 == 0
  }

  /** From a position in words to the next multiple of 16. */
  function PadWords(words: nat): nat {
    (16 - words % 16) % 16
  }

  /** k words of padding have been written, and no more than it takes. */
  predicate Padded(words: nat, k: nat, used: nat, length: nat) {
    used == 4 * (words + k) && k <= PadWords(words) && words + k <= length && length % 16 == 0
  }

  lemma PadMore(words: nat, k: nat, used: nat, length: nat)
    requires Padded(words, k, used, length)
    ensures used % 64 == 0 <==> k == PadWords(words)
    ensures used % 64 != 0 ==> Padded(words, k + 1, used + 4, length)
  {
    FourTimes(words + k);
  }

  lemma FourTimes(n: nat)
    ensures 4 * n % 64 == 0 <==> n % 16 == 0
  {
  }

  class IndirectBuffer {
    const address: array<Word>
    var used: nat
    ghost var log: seq<Effect>
    var submitted: seq<seq<Word>>

    constructor (total: nat)
      ensures Valid() && log == [] && used == 0 && address.Length == total / 4 && fresh(address) && submitted == []
    {
      address, used, log, submitted := new Word[total / 4](_ => 0), 0, [], [];
    }

    ghost predicate Open()
      reads this, address
    {
      used % 4 == 0 && used / 4 <= address.Length
    }

    ghost function Contents(): seq<Word>
      reads this, address
      requires Open()
    {
      address[..used / 4]
    }

    /** The buffer is a sequence of whole packets, and they do what the log says. */
    ghost predicate Valid()
      reads this, address
    {
      Open() && Decode(Contents()) == Some(log)
    }

    predicate Room(words: nat)
      reads this
    {
      used / 4 + words <= address.Length
    }

    method E32(dword: Word)
      requires Open() && Room(1)
      modifies `used, address
      ensures Open() && Contents() == old(Contents()) + [dword] && used == old(used) + 4
    {
      address[used / 4] := dword;
      used := used + 4;
    }

    method Words(dwords: seq<Word>)
      requires Open() && Room(|dwords|)
      modifies `used, address
      ensures Open() && Contents() == old(Contents()) + dwords && used == old(used) + 4 * |dwords|
    {
      var i := 0;
      while i < |dwords|
        invariant i <= |dwords| && Open() && used == old(used) + 4 * i
        invariant Contents() == old(Contents()) + dwords[..i]
      {
        E32(dwords[i]);
        i := i + 1;
      }
      assert dwords[..i] == dwords;
    }

    method Pack3(op: nat, num: nat)
      requires Open() && Room(1) && op < 256
      modifies `used, address
      ensures Open() && Contents() == old(Contents()) + [Header3(op, num)] && used == old(used) + 4
    {
      E32(Header3(op, num));
    }

    method Pack0(reg: Word, num: nat)
      requires Open() && Room(2)
      modifies `used, address
      ensures Open() && Contents() == old(Contents()) + RunHeader(reg, num) && used <= old(used) + 8
    {
      var region := RegionOf(reg);
      match region {
        case Some(r) =>
          RegionRoundTrip(reg);
          Pack3(r.op, num + 1);
          E32((reg - r.first) / 4);
        case None =>
          E32(Header0(reg, num));
      }
    }

    /** Whole packets follow whole packets. */
    ghost method Close(before: seq<Word>, more: seq<Word>, effects: seq<Effect>)
      requires Open() && Decode(before) == Some(log) && Contents() == before + more && Decode(more) == Some(effects)
      modifies `log
      ensures Valid() && log == old(log) + effects
    {
      DecodeAppend(before, more);
      log := log + effects;
    }

    /** A run of registers: PACK0 with its count and that many values. */
    method SetRun(reg: Word, num: nat, values: seq<Word>)
      requires Valid() && Room(2 + num) && |values| == num && RunOk(reg, num) && (num > 0 || RegionOf(reg).Some?)
      modifies `used, `log, address
      ensures Valid() && log == old(log) + Writes(reg, values) && used <= old(used) + 4 * (2 + num)
    {
      ghost var before := Contents();
      RunWords(reg, num, values);
      RunDecodes(reg, values);
      Close(before, RunHeader(reg, num) + values, Writes(reg, values));
    }

    method RunWords(reg: Word, num: nat, values: seq<Word>)
      requires Open() && Room(2 + num) && |values| == num
      modifies `used, address
      ensures Open() && Contents() == old(Contents()) + (RunHeader(reg, num) + values)
          && used <= old(used) + 4 * (2 + num)
    {
      Pack0(reg, num);
      Words(values);
    }

    method EReg(reg: Word, val: Word)
      requires Valid() && Room(3) && RunOk(reg, 1)
      modifies `used, `log, address
      ensures Valid() && log == old(log) + [Write(reg, val)] && used <= old(used) + 12
    {
      SetRun(reg, 1, [val]);
      assert Writes(reg, [val]) == [Write(reg, val)];
    }

    /** A packet that sets no register: PACK3 with its count and that many words. */
    method Packet3(op: nat, num: nat, body: seq<Word>)
      requires Valid() && Room(1 + num) && |body| == num && op < 256 && RegionFor(op).None? && 1 <= num <= 0x4000
      modifies `used, `log, address
      ensures Valid() && log == old(log) + [Command(op, body)] && used == old(used) + 4 * (1 + num)
    {
      ghost var before := Contents();
      PacketWords3(op, num, body);
      CommandDecodes(op, body);
      Close(before, [Header3(op, num)] + body, [Command(op, body)]);
    }

    method PacketWords3(op: nat, num: nat, body: seq<Word>)
      requires Open() && Room(1 + num) && |body| == num && op < 256
      modifies `used, address
      ensures Open() && Contents() == old(Contents()) + ([Header3(op, num)] + body) && used == old(used) + 4 * (1 + num)
    {
      Pack3(op, num);
      Words(body);
    }

    // ---- The emitters ----

    method Wait3DIdle()
      requires Valid() && Room(3)
      modifies `used, `log, address
      ensures Valid() && log == old(log) + [Write(0x8040, 0x8000)] && used <= old(used) + 12
    {
      EReg(WAIT_UNTIL, WAIT_3D_IDLE);
    }

    method Wait3DIdleClean()
      requires Valid() && Room(5)
      modifies `used, `log, address
      ensures Valid() && log == old(log) + [Command(0x46, [0x16]), Write(0x8040, 0x2_8000)] && used <= old(used) + 20
    {
      Packet3(IT_EVENT_WRITE, 1, [CACHE_FLUSH_AND_INV_EVENT]);
      EReg(WAIT_UNTIL, WAIT_3D_IDLE + WAIT_3D_IDLECLEAN);
    }

    /** Wait until the beam has left the part of the scan lines start..stop that is on the screen. */
    method WaitVlineRange(crtc: int, vdisplay: Option<int>, start: int, stop: int)
      requires Valid() && Room(10) && (vdisplay.Some? ==> vdisplay.value <= 0x1_0000)
      modifies `used, `log, address
      ensures Valid() && used <= old(used) + 40
      ensures log == old(log) + match VlineRange(crtc, vdisplay, start, stop)
                                case None => []
                                case Some(lines) => VlineWait(crtc, lines.0, lines.1)
    {
      if crtc < 0 || crtc > 1 {
        return;
      }
      if vdisplay.None? {
        return;
      }
      var first, last := start, stop;
      if first < 0 {
        first := 0;
      }
      if last > vdisplay.value - 1 {
        last := vdisplay.value - 1;
      }
      if last <= first {
        return;
      }
      WaitVlines(crtc, first, last);
    }

    method WaitVlines(crtc: int, first: nat, last: nat)
      requires Valid() && Room(10) && first < last < 0x1_0000
      modifies `used, `log, address
      ensures Valid() && used <= old(used) + 40 && log == old(log) + VlineWait(crtc, first, last)
    {
      EReg(if crtc == 0 then D1MODE_VLINE_START_END else D2MODE_VLINE_START_END, last * 0x1_0000 + first);
      Packet3(IT_WAIT_REG_MEM, 6, [3, (if crtc == 0 then D1MODE_VLINE_STATUS else D2MODE_VLINE_STATUS) / 4, 0, 0,
                                   0x1000, 10]);
    }

    method ResetCb()
      requires Valid() && Room(10)
      modifies `used, `log, address
      ensures Valid() && log == old(log) + Writes(0x280a0, Zeros(8)) && used <= old(used) + 40
    {
      SetRun(CB_COLOR0_INFO, 8, Zeros(8));
    }

    method ResetTdSamplers()
      requires Valid() && Room(154)
      modifies `used, `log, address
      ensures Valid() && used <= old(used) + 616
      ensures log == old(log) + [Write(0x8040, 0x8000)] + Writes(0xa400, Zeros(72)) + Writes(0xa600, Zeros(72))
          + [Write(0x8040, 0x8000)]
    {
      Wait3DIdle();
      SetRun(TD_PS_SAMPLER0_BORDER_RED, 4 * 18, Zeros(72));
      SetRun(TD_VS_SAMPLER0_BORDER_RED, 4 * 18, Zeros(72));
      Wait3DIdle();
    }

    method ResetSamplerConst()
      requires Valid() && Room(270)
      modifies `used, `log, address
      ensures Valid() && log == old(log) + SamplerResets(54) && used <= old(used) + 1080
      ensures forall i :: 0 <= i < 54 ==> SamplerIsReset(log, i)
    {
      var i := 0;
      ghost var before := log;
      while i < 54
        invariant i <= 54 && Valid() && log == before + SamplerResets(i) && used <= old(used) + 20 * i
      {
        SamplerRun(i, SAMPLER_RESET);
        SamplerStep(before, i);
        i := i + 1;
      }
      SamplersReset(before, 54);
    }

    method ResetDx9AluConsts()
      requires Valid() && Room(2050)
      modifies `used, `log, address
      ensures Valid() && log == old(log) + Writes(0x30000, Zeros(2048)) && used <= old(used) + 8200
    {
      SetRun(SQ_ALU_CONSTANT, 512 * 4, Zeros(2048));
    }

    method ResetBoolLoopConst()
      requires Valid() && Room(103)
      modifies `used, `log, address
      ensures Valid() && log == old(log) + Writes(0x3e380, Zeros(3)) + Writes(0x3e200, Zeros(96))
          && used <= old(used) + 412
    {
      SetRun(SQ_BOOL_CONST, 3, Zeros(3));
      SetRun(SQ_LOOP_CONST, 96, Zeros(96));
    }

    method Start3D(beforeRv770: bool)
      requires Valid() && Room(10)
      modifies `used, `log, address
      ensures Valid() && used <= old(used) + 40
      ensures log == old(log) + (if beforeRv770 then [Command(0x24, [0])] else [])
                   + [Command(0x28, [0x8000_0000, 0x8000_0000]), Command(0x46, [0x16]), Write(0x8040, 0x2_8000)]
    {
      if beforeRv770 {
        Packet3(IT_START_3D_CMDBUF, 1, [0]);
      }
      Packet3(IT_CONTEXT_CONTROL, 2, [0x8000_0000, 0x8000_0000]);
      Wait3DIdleClean();
    }

    method SqSetup(c: SqConfig)
      requires Valid() && Room(8) && c.Fits()
      modifies `used, `log, address
      ensures Valid() && log == old(log) + Writes(0x8c00, c.Words()) && used <= old(used) + 32
    {
      SqRun(c.Words());
    }

    method SqRun(words: seq<Word>)
      requires Valid() && Room(8) && |words| == 6
      modifies `used, `log, address
      ensures Valid() && log == old(log) + Writes(SQ_CONFIG, words) && used <= old(used) + 32
    {
      SetRun(SQ_CONFIG, 6, words);
    }

    method SetRenderTarget(id: nat, base: Word, w: nat, h: nat, info: ColorInfo, rv6xx: bool)
      requires Valid() && Room(23) && id < 8 && TargetFits(w, h) && info.Fits()
      modifies `used, `log, address
      ensures Valid() && used <= old(used) + 92
      ensures log == old(log) + TargetWrites(id, base, TargetSize(w, h), info.Word(), rv6xx)
      ensures TargetSet(old(log), log, id, base, TargetSize(w, h), info.Word())
    {
      TargetReads(log, id, base, TargetSize(w, h), info.Word(), rv6xx);
      TargetRegs(id, base, TargetSize(w, h), info.Word(), rv6xx);
    }

    method TargetRegs(id: nat, base: Word, size: Word, info: Word, rv6xx: bool)
      requires Valid() && Room(23) && id < 8
      modifies `used, `log, address
      ensures Valid() && used <= old(used) + 92
      ensures log == old(log) + TargetWrites(id, base, size, info, rv6xx)
    {
      Associates(log, TargetBaseWrites(id, base, rv6xx), TargetShapeWrites(id, size, info));
      TargetBase(id, base, rv6xx);
      TargetShape(id, size, info);
    }

    method TargetBase(id: nat, base: Word, rv6xx: bool)
      requires Valid() && Room(5) && id < 8
      modifies `used, `log, address
      ensures Valid() && used <= old(used) + 20 && log == old(log) + TargetBaseWrites(id, base, rv6xx)
    {
      ContextReg(CB_COLOR0_BASE + 4 * id, base / 256);
      SurfaceBaseUpdate(id, rv6xx);
    }

    method TargetShape(id: nat, size: Word, info: Word)
      requires Valid() && Room(18) && id < 8
      modifies `used, `log, address
      ensures Valid() && used <= old(used) + 72
      ensures log == old(log) + TargetShapeWrites(id, size, info)
    {
      Associates(log, TargetShapeWrites(id, size, info)[..3], TargetShapeWrites(id, size, info)[3..]);
      ThreeContextRegs(CB_COLOR0_SIZE + 4 * id, size, CB_COLOR0_VIEW + 4 * id, 0, CB_COLOR0_INFO + 4 * id, info);
      ThreeContextRegs(CB_COLOR0_TILE + 4 * id, 0, CB_COLOR0_FRAG + 4 * id, 0, CB_COLOR0_MASK + 4 * id, 0);
    }

    /** A workaround only the chips between R600 and RV770 get. */
    method SurfaceBaseUpdate(id: nat, rv6xx: bool)
      requires Valid() && Room(2) && id < 8
      modifies `used, `log, address
      ensures Valid() && used <= old(used) + 8
      ensures log == old(log) + if rv6xx then [Command(IT_SURFACE_BASE_UPDATE, [SurfaceBit(id)])] else []
    {
      if rv6xx {
        Packet3(IT_SURFACE_BASE_UPDATE, 1, [SurfaceBit(id)]);
      }
    }

    method ThreeContextRegs(reg0: Word, val0: Word, reg1: Word, val1: Word, reg2: Word, val2: Word)
      requires Valid() && Room(9) && IsContextReg(reg0) && IsContextReg(reg1) && IsContextReg(reg2)
      modifies `used, `log, address
      ensures Valid() && log == old(log) + [Write(reg0, val0), Write(reg1, val1), Write(reg2, val2)]
          && used <= old(used) + 36
    {
      ContextReg(reg0, val0);
      ContextReg(reg1, val1);
      ContextReg(reg2, val2);
    }

    method ContextReg(reg: Word, val: Word)
      requires Valid() && Room(3) && IsContextReg(reg)
      modifies `used, `log, address
      ensures Valid() && log == old(log) + [Write(reg, val)] && used <= old(used) + 12
    {
      EReg(reg, val);
    }

    method CpSetSurfaceSync(syncType: Word, size: Word, mcAddr: nat)
      requires Valid() && Room(5)
      modifies `used, `log, address
      ensures Valid() && used == old(used) + 20
      ensures log == old(log)
          + [Command(0x43, [syncType, CoherSize(size), mcAddr / 256 % 0x1_0000_0000, 10])]
    {
      Packet3(IT_SURFACE_SYNC, 4, [syncType, CoherSize(size), mcAddr / 256 % 0x1_0000_0000, 10]);
    }

    method SetAluConsts(offset: nat, count: nat, constants: seq<Word>)
      requires Valid() && offset + count <= 512 && offset < 512 && |constants| >= 4 * count && Room(2 + 4 * count)
      modifies `used, `log, address
      ensures Valid() && log == old(log) + Writes(0x30000 + 16 * offset, constants[..4 * count])
          && used <= old(used) + 4 * (2 + 4 * count)
    {
      SetRun(SQ_ALU_CONSTANT + offset * 16, count * 4, constants[..count * 4]);
    }

    method SetBoolConsts(offset: nat, val: Word)
      requires Valid() && Room(3) && offset < 3
      modifies `used, `log, address
      ensures Valid() && log == old(log) + [Write(0x3e380 + 4 * offset, val)] && used <= old(used) + 12
    {
      EReg(SQ_BOOL_CONST + offset * 4, val);
    }

    /** A vertex or texture resource: both live in the same region, seven registers each. */
    method ResourceRun(id: nat, words: seq<Word>)
      requires Valid() && Room(9) && id <= 584 && |words| == 7
      modifies `used, `log, address
      ensures Valid() && log == old(log) + Writes(SQ_RESOURCE + 28 * id, words) && used <= old(used) + 36
    {
      SetRun(SQ_RESOURCE + id * 28, 7, words);
    }

    method SetVtxResource(r: VtxResource)
      requires Valid() && Room(9) && r.Fits()
      modifies `used, `log, address
      ensures Valid() && log == old(log) + Writes(0x38000 + 28 * r.id, r.Words()) && used <= old(used) + 36
    {
      ResourceRun(r.id, r.Words());
    }

    method SetTexResource(r: TexResource)
      requires Valid() && Room(9) && r.Fits()
      modifies `used, `log, address
      ensures Valid() && log == old(log) + Writes(0x38000 + 28 * r.id, r.Words()) && used <= old(used) + 36
    {
      ResourceRun(r.id, r.Words());
    }

    method SamplerRun(id: nat, words: seq<Word>)
      requires Valid() && Room(5) && id <= 339 && |words| == 3
      modifies `used, `log, address
      ensures Valid() && log == old(log) + Writes(SQ_TEX_SAMPLER_WORD + 12 * id, words) && used <= old(used) + 20
    {
      SetRun(SQ_TEX_SAMPLER_WORD + id * 12, 3, words);
    }

    method SetTexSampler(s: TexSampler)
      requires Valid() && Room(5) && s.Fits()
      modifies `used, `log, address
      ensures Valid() && log == old(log) + Writes(0x3c000 + 12 * s.id, s.Words()) && used <= old(used) + 20
    {
      SamplerRun(s.id, s.Words());
    }

    method SetupDraw(c: DrawConfig)
      requires Valid() && Room(7)
      modifies `used, `log, address
      ensures Valid() && log == old(log) + DrawSetup(c) && used <= old(used) + 28
    {
      EReg(VGT_PRIMITIVE_TYPE, c.primType);
      Packet3(IT_INDEX_TYPE, 1, [c.indexType]);
      Packet3(IT_NUM_INSTANCES, 1, [c.numInstances]);
    }

    method DrawAuto(c: DrawConfig)
      requires Valid() && Room(10)
      modifies `used, `log, address
      ensures Valid() && used <= old(used) + 40
      ensures log == old(log) + DrawSetup(c) + [Command(IT_DRAW_INDEX_AUTO, [c.numIndices, c.initiator])]
      ensures Draws(log, 0x2D, [c.numIndices, c.initiator], c)
    {
      DrawReads(log, c, IT_DRAW_INDEX_AUTO, [c.numIndices, c.initiator]);
      SetupDraw(c);
      Packet3(IT_DRAW_INDEX_AUTO, 2, [c.numIndices, c.initiator]);
    }

    /** Draw the vertices an index list names. The packet carries the list, two indices to a word if they
        are short. A buffer has 64 KB, so a list that fits it fits the packet's count. */
    method DrawImmd(c: DrawConfig, indices: seq<Word>)
      requires Valid() && Room(10 + |IndexWords(c, indices)|) && address.Length <= 0x4000 && c.numIndices == |indices|
      modifies `used, `log, address
      ensures Valid() && used <= old(used) + 4 * (10 + |IndexWords(c, indices)|)
      ensures log == old(log) + DrawSetup(c)
          + [Command(IT_DRAW_INDEX_IMMD, [c.numIndices, c.initiator] + IndexWords(c, indices))]
      ensures Draws(log, 0x2E, [c.numIndices, c.initiator] + IndexWords(c, indices), c)
    {
      DrawReads(log, c, IT_DRAW_INDEX_IMMD, [c.numIndices, c.initiator] + IndexWords(c, indices));
      SetupDraw(c);
      var count := 2;
      if c.indexType == INDEX_SIZE_16_BIT {
        count := count + (c.numIndices + 1) / 2;
      } else {
        count := count + c.numIndices;
      }
      EmitIndices(c, indices, count);
    }

    /** The list itself, a word at a time. */
    method Indices(c: DrawConfig, indices: seq<Word>)
      requires Open() && Room(|IndexWords(c, indices)|) && c.numIndices == |indices|
      modifies `used, address
      ensures Open() && Contents() == old(Contents()) + IndexWords(c, indices)
          && used == old(used) + 4 * |IndexWords(c, indices)|
    {
      if c.indexType == INDEX_SIZE_16_BIT {
        var i := 0;
        while i < c.numIndices
          invariant i % 2 == 0 && i / 2 <= |Pack16(indices)| && Open() && used == old(used) + 4 * (i / 2)
          invariant Contents() == old(Contents()) + Pack16(indices)[..i / 2]
        {
          assert Pack16(indices)[i / 2] == PackedWord(indices, i / 2);
          if i + 1 == c.numIndices {
            E32(indices[i]);
          } else {
            E32(PackPair(indices[i], indices[i + 1]));
          }
          i := i + 2;
        }
        assert Pack16(indices)[..i / 2] == Pack16(indices);
      } else {
        Words(indices);
      }
    }

    method DrawPacketWords(c: DrawConfig, indices: seq<Word>, count: nat)
      requires Open() && Room(1 + count) && c.numIndices == |indices| && count == 2 + |IndexWords(c, indices)|
      modifies `used, address
      ensures Open() && used == old(used) + 4 * (1 + count)
      ensures Contents() == old(Contents())
          + ([Header3(IT_DRAW_INDEX_IMMD, count)] + ([c.numIndices, c.initiator] + IndexWords(c, indices)))
    {
      Pack3(IT_DRAW_INDEX_IMMD, count);
      E32(c.numIndices);
      E32(c.initiator);
      Indices(c, indices);
    }

    method EmitIndices(c: DrawConfig, indices: seq<Word>, count: nat)
      requires Valid() && Room(1 + count) && c.numIndices == |indices|
          && count == 2 + |IndexWords(c, indices)| <= 0x4000
      modifies `used, `log, address
      ensures Valid() && used == old(used) + 4 * (1 + count)
      ensures log == old(log) + [Command(IT_DRAW_INDEX_IMMD, [c.numIndices, c.initiator] + IndexWords(c, indices))]
    {
      ghost var before, body := Contents(), [c.numIndices, c.initiator] + IndexWords(c, indices);
      DrawPacketWords(c, indices, count);
      CommandDecodes(IT_DRAW_INDEX_IMMD, body);
      Close(before, [Header3(IT_DRAW_INDEX_IMMD, count)] + body, [Command(IT_DRAW_INDEX_IMMD, body)]);
    }

    /** Pad to a multiple of 64 bytes and submit. The padding does nothing. */
    method FlushIndirect()
      requires Valid() && address.Length % 16 == 0
      modifies `used, `log, `submitted, address
      ensures Valid() && log == old(log)
      ensures used % 64 == 0 && old(used) <= used < old(used) + 64
      ensures Contents() == old(Contents()) + Padding((used - old(used)) / 4)
      ensures |submitted| == |old(submitted)| + 1 && submitted[..|old(submitted)|] == old(submitted)
      ensures submitted[|old(submitted)|] == Contents()
    {
      Pad();
      submitted := submitted + [address[..used / 4]];
    }

    method Pad()
      requires Valid() && address.Length % 16 == 0
      modifies `used, `log, address
      ensures Valid() && log == old(log)
      ensures used % 64 == 0 && old(used) <= used < old(used) + 64
      ensures Contents() == old(Contents()) + Padding((used - old(used)) / 4)
    {
      ghost var before, words, k := Contents(), used / 4, 0;
      while used % 64 != 0
        invariant Valid() && log == old(log) && Padded(words, k, used, address.Length)
            && Contents() == before + Padding(k)
        decreases PadWords(words) - k
      {
        PadMore(words, k, used, address.Length);
        Nop();
        Associates(before, Padding(k), [PACKET2]);
        k := k + 1;
      }
      PadMore(words, k, used, address.Length);
    }

    method Nop()
      requires Valid() && Room(1)
      modifies `used, `log, address
      ensures Valid() && log == old(log) && used == old(used) + 4 && Contents() == old(Contents()) + [PACKET2]
    {
      ghost var before := Contents();
      E32(PACKET2);
      PaddingDecodes();
      Close(before, [PACKET2], []);
      assert log == old(log);
    }

    /** Give the buffer back without doing anything it holds. */
    method Discard()
      requires Open() && address.Length % 16 == 0
      modifies this, address
      ensures Valid() && used == 0 && log == []
      ensures |submitted| == |old(submitted)| + 1 && submitted[..|old(submitted)|] == old(submitted)
      ensures submitted[|old(submitted)|] == []
    {
      used, log := 0, [];
      FlushIndirect();
    }
  }
}
