/** The words of the R6xx command stream: how packet headers and register runs are
    encoded, and a parser that gives a stream its meaning. */
module CommandWords {
  import opened Arith
  import opened Wrappers

  type Word = w: nat | w < 0x1_0000_0000

  /** What a stream does, in order: register writes, and packets that set no register. */
  datatype Effect = Write(reg: nat, value: Word) | Command(op: nat, body: seq<Word>)

  // ---- Register regions ----

  /** A block of registers with a packet of its own. The driver's table of them follows. */
  datatype Region = Region(op: nat, first: nat, end: nat)

  const CONFIG := Region(0x68, 0x8000, 0xac00)
  const CONTEXT := Region(0x69, 0x28000, 0x29000)
  const ALU_CONST := Region(0x6A, 0x30000, 0x32000)
  const BOOL_CONST := Region(0x6B, 0x3e380, 0x3e38c)
  const LOOP_CONST := Region(0x6C, 0x3e200, 0x3e380)
  const RESOURCE := Region(0x6D, 0x38000, 0x3c000)
  const SAMPLER := Region(0x6E, 0x3c000, 0x3cff0)
  const CTL_CONST := Region(0x6F, 0x3cff0, 0x3e200)

  /** The region a register falls in, tried in the driver's order. */
  function RegionOf(reg: nat): Option<Region> {
    if CONFIG.first <= reg < CONFIG.end then Some(CONFIG)
    else if CONTEXT.first <= reg < CONTEXT.end then Some(CONTEXT)
    else if ALU_CONST.first <= reg < ALU_CONST.end then Some(ALU_CONST)
    else if RESOURCE.first <= reg < RESOURCE.end then Some(RESOURCE)
    else if SAMPLER.first <= reg < SAMPLER.end then Some(SAMPLER)
    else if CTL_CONST.first <= reg < CTL_CONST.end then Some(CTL_CONST)
    else if LOOP_CONST.first <= reg < LOOP_CONST.end then Some(LOOP_CONST)
    else if BOOL_CONST.first <= reg < BOOL_CONST.end then Some(BOOL_CONST)
    else None
  }

  /** The region the card fills for a packet opcode. */
  function RegionFor(op: nat): Option<Region> {
    match op
    case 0x68 => Some(Region(0x68, 0x8000, 0xac00))
    case 0x69 => Some(Region(0x69, 0x28000, 0x29000))
    case 0x6A => Some(Region(0x6A, 0x30000, 0x32000))
    case 0x6B => Some(Region(0x6B, 0x3e380, 0x3e38c))
    case 0x6C => Some(Region(0x6C, 0x3e200, 0x3e380))
    case 0x6D => Some(Region(0x6D, 0x38000, 0x3c000))
    case 0x6E => Some(Region(0x6E, 0x3c000, 0x3cff0))
    case 0x6F => Some(Region(0x6F, 0x3cff0, 0x3e200))
    case _ => None
  }

  lemma RegionRoundTrip(reg: nat)
    requires RegionOf(reg).Some?
    ensures var r := RegionOf(reg).value;
            && RegionFor(r.op) == Some(r) && r.first <= reg < r.end <= 0x40000
            && r.first % 4 == 0 && r.op < 256
  {
  }

  /** A register gets the packet of a region exactly if it lies in it. */
  lemma RegionChosenIff(reg: nat, op: nat)
    requires RegionFor(op).Some?
    ensures RegionOf(reg) == RegionFor(op) <==> RegionFor(op).value.first <= reg < RegionFor(op).value.end
  {
  }

  // ---- Encoding ----

  /** Bitwise or. */
  function Or(a: nat, b: nat): (r: nat)
    ensures b == 0 ==> r == a
    ensures a == 0 ==> r == b
    decreases a + b
  {
    if a == 0 then b
    else if b == 0 then a
    else 2 * Or(a / 2, b / 2) + (if a % 2 == 1 || b % 2 == 1 then 1 else 0)
  }

  /** A bit is set if it is set in either. */
  lemma {:induction false} OrBits(a: nat, b: nat, i: nat)
    ensures Or(a, b) / Pow2(i) % 2 == 1 <==> a / Pow2(i) % 2 == 1 || b / Pow2(i) % 2 == 1
    decreases i
  {
    if i > 0 {
      HalvedBit(Or(a, b), i);
      HalvedBit(a, i);
      HalvedBit(b, i);
      OrBits(a / 2, b / 2, i - 1);
      OrHalves(a, b);
    }
  }

  lemma OrHalves(a: nat, b: nat)
    ensures Or(a, b) / 2 == Or(a / 2, b / 2)
  {
  }

  lemma HalvedBit(a: nat, i: nat)
    requires i > 0
    ensures a / Pow2(i) == a / 2 / Pow2(i - 1)
  {
    var p := Pow2(i - 1);
    var q, r := a / 2 / p, a / 2 % p;
    assert a == (q * p + r) * 2 + a % 2 == q * (2 * p) + (2 * r + a % 2);
    DivUnique(a, 2 * p, q, 2 * r + a % 2);
  }

  lemma {:induction false} OrBelow(a: nat, b: nat, bits: nat)
    requires a < Pow2(bits) && b < Pow2(bits)
    ensures Or(a, b) < Pow2(bits)
    decreases bits
  {
    if bits > 0 && a != 0 && b != 0 {
      OrBelow(a / 2, b / 2, bits - 1);
    }
  }

  /** PACK3: the header of a packet with `num` words after it. */
  function Header3(op: nat, num: nat): (h: Word)
    requires op < 256
  {
    0xC000_0000 + (num - 1) % 0x4000 * 0x1_0000 + op * 0x100
  }

  /** CP_PACKET0: the header of a run of n registers. The two fields are or-ed, as 32-bit values. */
  function Header0(reg: Word, n: nat): (h: Word)
  {
    var high := Or((n - 1) % 0x1_0000, reg / 4 / 0x1_0000);
    OrBelow16((n - 1) % 0x1_0000, reg / 4 / 0x1_0000);
    high * 0x1_0000 + reg / 4 % 0x1_0000
  }

  lemma OrBelow16(a: nat, b: nat)
    requires a < 0x1_0000 && b < 0x1_0000
    ensures Or(a, b) < 0x1_0000
  {
    assert Pow2(16) == 0x1_0000 by {
      assert Pow2(4) == 16;
      assert Pow2(8) == 256;
      assert Pow2(12) == 4096;
    }
    OrBelow(a, b, 16);
  }

  /** PACK0: the words that open a run of num registers. */
  function RunHeader(reg: Word, num: nat): seq<Word> {
    match RegionOf(reg)
    case Some(r) => RegionRoundTrip(reg); [Header3(r.op, num + 1), (reg - r.first) / 4]
    case None => [Header0(reg, num)]
  }

  const PACKET2: Word := 0x8000_0000

  // ---- Parsing ----

  function Kind(h: Word): nat {
    h / 0x4000_0000
  }

  /** The words a packet takes, header included; 0 if there is no such packet. Bits without a meaning must be clear. */
  function PacketWords(h: Word): nat {
    match Kind(h)
    case 0 => h / 0x1_0000 % 0x4000 + 2
    case 2 => if h == 0x8000_0000 then 1 else 0
    case 3 => if h % 0x100 == 0 then h / 0x1_0000 % 0x4000 + 2 else 0
    case _ => 0
  }

  function Writes(reg: nat, values: seq<Word>): (e: seq<Effect>)
    ensures |e| == |values| && forall i :: 0 <= i < |values| ==> e[i] == Write(reg + 4 * i, values[i])
  {
    seq(|values|, i requires 0 <= i < |values| => Write(reg + 4 * i, values[i]))
  }

  /** What a packet of kind 3 does. A run that leaves its region is an error. */
  function Meaning3(op: nat, body: seq<Word>): Option<seq<Effect>>
    requires body != []
  {
    match RegionFor(op)
    case Some(r) =>
      var reg: nat := r.first + 4 * (body[0] as nat);
      if reg + 4 * (|body| - 1) <= r.end then Some(Writes(reg, body[1..])) else None
    case None => Some([Command(op, body)])
  }

  /** What one whole packet does. */
  function Meaning(p: seq<Word>): Option<seq<Effect>>
    requires p != [] && |p| == PacketWords(p[0])
  {
    if Kind(p[0]) == 0 then Some(Writes(p[0] % 0x1_0000 * 4, p[1..]))
    else if Kind(p[0]) == 2 then Some([])
    else Meaning3(p[0] / 0x100 % 0x100, p[1..])
  }

  /** What a whole stream does, or None if it is not a sequence of whole packets. */
  function Decode(s: seq<Word>): Option<seq<Effect>> {
    if s == [] then Some([])
    else
      var n := PacketWords(s[0]);
      if n == 0 || n > |s| then None else Join(Meaning(s[..n]), Decode(s[n..]))
  }

  /** Streams of whole packets can be put one after the other. */
  lemma {:induction false} DecodeAppend(a: seq<Word>, b: seq<Word>)
    requires Decode(a).Some?
    ensures Decode(a + b) == Join(Decode(a), Decode(b))
    decreases a
  {
    if a == [] {
      assert a + b == b;
      JoinNothing(Decode(b));
    } else {
      var n := PacketWords(a[0]);
      var first, rest := a[..n], a[n..];
      assert a + b == first + (rest + b);
      DecodeFirst(first, rest + b);
      DecodeAppend(rest, b);
      JoinAssociates(Meaning(first), Decode(rest), Decode(b));
    }
  }

  lemma DecodeFirst(p: seq<Word>, rest: seq<Word>)
    requires p != [] && |p| == PacketWords(p[0])
    ensures Decode(p + rest) == Join(Meaning(p), Decode(rest))
  {
    var s := p + rest;
    assert s[0] == p[0] && s[..|p|] == p && s[|p|..] == rest;
  }

  lemma OnePacket(p: seq<Word>)
    requires p != [] && |p| == PacketWords(p[0])
    ensures Decode(p) == Meaning(p)
  {
    assert p + [] == p;
    DecodeFirst(p, []);
    JoinNothing(Meaning(p));
  }

  // ---- Runs of registers ----

  /** The runs PACK0 can express: aligned, short enough for the count field, and inside the region they start in. */
  predicate RunOk(reg: Word, n: nat) {
    && reg % 4 == 0
    && match RegionOf(reg)
       case Some(r) => n < 0x4000 && reg + 4 * n <= r.end
       case None => n <= 0x4000 && reg < 0x4_0000
  }

  lemma HeaderFields(op: nat, num: nat)
    requires op < 256
    ensures var h := Header3(op, num);
            Kind(h) == 3 && h / 0x100 % 0x100 == op && PacketWords(h) == (num - 1) % 0x4000 + 2
  {
  }

  /** The count field is right exactly for 1 to 0x4000 words. */
  lemma HeaderCountIff(op: nat, num: nat)
    requires op < 256
    ensures PacketWords(Header3(op, num)) == num + 1 <==> 1 <= num <= 0x4000
  {
    HeaderFields(op, num);
    if num > 0x4000 {
      assert (num - 1) % 0x4000 < 0x4000;
    }
  }

  lemma RunDecodes(reg: Word, values: seq<Word>)
    requires RunOk(reg, |values|) && (values != [] || RegionOf(reg).Some?)
    ensures Decode(RunHeader(reg, |values|) + values) == Some(Writes(reg, values))
  {
    if RegionOf(reg).Some? {
      RegionRunDecodes(RegionOf(reg).value, reg, values);
    } else {
      PlainRunDecodes(reg, values);
    }
  }

  lemma RegionRunDecodes(r: Region, reg: Word, values: seq<Word>)
    requires RegionOf(reg) == Some(r) && reg % 4 == 0 && |values| < 0x4000 && reg + 4 * |values| <= r.end
    ensures Decode(RunHeader(reg, |values|) + values) == Some(Writes(reg, values))
  {
    var h, index := RegionRunHeader(r, reg, |values|);
    SetPacket(h, r, index, values);
  }

  /** The two words that open a run in a region. */
  lemma RegionRunHeader(r: Region, reg: Word, n: nat) returns (h: Word, index: Word)
    requires RegionOf(reg) == Some(r)
    ensures RunHeader(reg, n) == [h, index] && r.first + 4 * index == reg - reg % 4
    ensures Kind(h) == 3 && RegionFor(h / 0x100 % 0x100) == Some(r) && (PacketWords(h) == n + 2 <==> n < 0x4000)
  {
    RegionRoundTrip(reg);
    RegisterIndex(reg, r.first);
    HeaderFields(r.op, n + 1);
    HeaderCountIff(r.op, n + 1);
    h, index := Header3(r.op, n + 1), (reg - r.first) / 4;
  }

  lemma RegisterIndex(reg: nat, first: nat)
    requires first <= reg && first % 4 == 0
    ensures first + 4 * ((reg - first) / 4) == reg - reg % 4
  {
  }

  lemma SetPacket(h: Word, r: Region, index: Word, values: seq<Word>)
    requires Kind(h) == 3 && RegionFor(h / 0x100 % 0x100) == Some(r) && PacketWords(h) == |values| + 2
    ensures Decode([h, index] + values) ==
            if r.first + 4 * index + 4 * |values| <= r.end then Some(Writes(r.first + 4 * index, values)) else None
  {
    var p, body := [h, index] + values, [index] + values;
    assert p == [h] + body && p[1..] == body && body[1..] == values;
    OnePacket(p);
    SetMeaning(h / 0x100 % 0x100, r, index, body);
  }

  lemma SetMeaning(op: nat, r: Region, index: nat, body: seq<Word>)
    requires RegionFor(op) == Some(r) && body != [] && index == body[0]
    ensures Meaning3(op, body) ==
            if r.first + 4 * index + 4 * (|body| - 1) <= r.end then Some(Writes(r.first + 4 * index, body[1..]))
            else None
  {
  }

  lemma PlainRunDecodes(reg: Word, values: seq<Word>)
    requires RegionOf(reg).None? && reg % 4 == 0 && reg < 0x4_0000 && 1 <= |values| <= 0x4000
    ensures Decode(RunHeader(reg, |values|) + values) == Some(Writes(reg, values))
  {
    Header0Fields(reg, |values|);
    PlainPacket(Header0(reg, |values|), values);
  }

  lemma Header0Fields(reg: Word, n: nat)
    requires reg % 4 == 0 && reg < 0x4_0000 && 1 <= n <= 0x4000
    ensures var h := Header0(reg, n); Kind(h) == 0 && h % 0x1_0000 * 4 == reg && PacketWords(h) == n + 1
  {
    assert reg / 4 / 0x1_0000 == 0;
    assert Header0(reg, n) == (n - 1) * 0x1_0000 + reg / 4;
  }

  lemma PlainPacket(h: Word, values: seq<Word>)
    requires Kind(h) == 0 && PacketWords(h) == |values| + 1
    ensures Decode([h] + values) == Some(Writes(h % 0x1_0000 * 4, values))
  {
    var p := [h] + values;
    assert p[1..] == values;
    OnePacket(p);
  }

  /** A packet that sets no register comes back as it was. */
  lemma CommandDecodes(op: nat, body: seq<Word>)
    requires op < 256 && RegionFor(op).None? && 1 <= |body| <= 0x4000
    ensures Decode([Header3(op, |body|)] + body) == Some([Command(op, body)])
  {
    HeaderFields(op, |body|);
    HeaderCountIff(op, |body|);
    CommandPacket(Header3(op, |body|), op, body);
  }

  lemma CommandPacket(h: Word, op: nat, body: seq<Word>)
    requires Kind(h) == 3 && h / 0x100 % 0x100 == op && PacketWords(h) == |body| + 1 && RegionFor(op).None?
        && body != []
    ensures Decode([h] + body) == Some([Command(op, body)])
  {
    var p := [h] + body;
    assert p[1..] == body;
    OnePacket(p);
  }

  lemma PaddingDecodes()
    ensures Decode([PACKET2]) == Some([])
  {
    OnePacket([PACKET2]);
  }

  // ---- The runs PACK0 cannot express ----

  /** Any stream does fewer things than it has words. */
  lemma {:induction false} FewerEffects(s: seq<Word>)
    requires s != [] && Decode(s).Some?
    ensures |Decode(s).value| < |s|
    decreases s
  {
    var n := PacketWords(s[0]);
    FewerInPacket(s[..n]);
    if s[n..] != [] {
      FewerEffects(s[n..]);
    }
  }

  lemma FewerInPacket(p: seq<Word>)
    requires p != [] && |p| == PacketWords(p[0]) && Meaning(p).Some?
    ensures |Meaning(p).value| < |p|
    ensures Kind(p[0]) == 3 && RegionFor(p[0] / 0x100 % 0x100).Some? ==> |Meaning(p).value| == |p| - 2
  {
  }

  /** PACK0 followed by the values means those register writes exactly for the runs it can express. */
  lemma RunDecodesIff(reg: Word, values: seq<Word>)
    requires 1 <= |values|
    ensures Decode(RunHeader(reg, |values|) + values) == Some(Writes(reg, values)) <==> RunOk(reg, |values|)
  {
    if RunOk(reg, |values|) {
      RunDecodes(reg, values);
    } else if RegionOf(reg).Some? {
      RegionRunFails(RegionOf(reg).value, reg, values);
    } else {
      PlainRunFails(reg, values);
    }
  }

  lemma RegionRunFails(r: Region, reg: Word, values: seq<Word>)
    requires RegionOf(reg) == Some(r) && 1 <= |values| && !RunOk(reg, |values|)
    ensures Decode(RunHeader(reg, |values|) + values) != Some(Writes(reg, values))
  {
    var h, index := RegionRunHeader(r, reg, |values|);
    SetPacketFails(h, r, index, reg, values);
  }

  lemma SetPacketFails(h: Word, r: Region, index: Word, reg: Word, values: seq<Word>)
    requires Kind(h) == 3 && RegionFor(h / 0x100 % 0x100) == Some(r) && values != []
    requires PacketWords(h) != |values| + 2 || r.first + 4 * index + 4 * |values| > r.end || r.first + 4 * index != reg
    ensures Decode([h, index] + values) != Some(Writes(reg, values))
  {
    var s := [h, index] + values;
    if PacketWords(h) == |values| + 2 {
      SetPacket(h, r, index, values);
      assert Writes(r.first + 4 * index, values)[0].reg == r.first + 4 * index;
      assert Writes(reg, values)[0].reg == reg;
    } else if Decode(s).Some? {
      var k := PacketWords(h);
      FewerInPacket(s[..k]);
      FewerEffects(s[k..]);
    }
  }

  lemma PlainRunFails(reg: Word, values: seq<Word>)
    requires RegionOf(reg).None? && 1 <= |values| && !RunOk(reg, |values|)
    ensures Decode(RunHeader(reg, |values|) + values) != Some(Writes(reg, values))
  {
    PlainHeaderWrong(reg, |values|);
    assert RunHeader(reg, |values|) == [Header0(reg, |values|)];
    PlainPacketFails(Header0(reg, |values|), reg, values);
  }

  /** A header of kind 0 that gives the run's length names another register. */
  lemma PlainHeaderWrong(reg: Word, n: nat)
    requires 1 <= n && !(reg % 4 == 0 && n <= 0x4000 && reg < 0x4_0000)
    ensures var h := Header0(reg, n); Kind(h) == 0 && PacketWords(h) == n + 1 ==> h % 0x1_0000 * 4 != reg
  {
  }

  lemma PlainPacketFails(h: Word, reg: Word, values: seq<Word>)
    requires values != [] && (Kind(h) == 0 && PacketWords(h) == |values| + 1 ==> h % 0x1_0000 * 4 != reg)
    ensures Decode([h] + values) != Some(Writes(reg, values))
  {
    var s := [h] + values;
    if Decode(s).Some? {
      var k := PacketWords(h);
      assert Writes(reg, values)[0] == Write(reg, values[0]);
      if k < |s| {
        FewerInPacket(s[..k]);
        FewerEffects(s[k..]);
      } else if Kind(h) == 0 {
        PlainPacket(h, values);
        assert Writes(h % 0x1_0000 * 4, values)[0].reg == h % 0x1_0000 * 4;
      } else {
        OnePacket(s);
        FewerInPacket(s);
      }
    }
  }

  // ---- Index lists of immediate draws ----

  /** Two indices in one word, as the driver ors them. */
  function PackPair(low: Word, high: Word): Word {
    OrBelow16(low / 0x1_0000, high % 0x1_0000);
    Or(low / 0x1_0000, high % 0x1_0000) * 0x1_0000 + low % 0x1_0000
  }

  function PackedWord(indices: seq<Word>, k: nat): Word
    requires 2 * k < |indices|
  {
    if 2 * k + 1 == |indices| then indices[2 * k] else PackPair(indices[2 * k], indices[2 * k + 1])
  }

  function Pack16(indices: seq<Word>): (r: seq<Word>)
    ensures |r| == (|indices| + 1) / 2
  {
    seq((|indices| + 1) / 2, k requires 0 <= k < (|indices| + 1) / 2 => PackedWord(indices, k))
  }

  /** What the GPU reads as index i: the low half of a word first. */
  function Half(words: seq<Word>, i: nat): Word
    requires i / 2 < |words|
  {
    if i % 2 == 0 then words[i / 2] % 0x1_0000 else words[i / 2] / 0x1_0000
  }

  function Unpack16(words: seq<Word>, n: nat): (r: seq<Word>)
    requires n <= 2 * |words|
    ensures |r| == n
  {
    seq(n, i requires 0 <= i < n => Half(words, i))
  }

  lemma PairHalves(low: Word, high: Word)
    ensures PackPair(low, high) % 0x1_0000 == low % 0x1_0000
    ensures low < 0x1_0000 ==> PackPair(low, high) / 0x1_0000 == high % 0x1_0000
  {
    OrBelow16(low / 0x1_0000, high % 0x1_0000);
    DivUnique(PackPair(low, high), 0x1_0000, Or(low / 0x1_0000, high % 0x1_0000), low % 0x1_0000);
  }

  /** The list comes back, odd lengths included, exactly if every index fits 16 bits. */
  lemma UnpackPackIff(indices: seq<Word>)
    ensures Unpack16(Pack16(indices), |indices|) == indices
       <==> forall i :: 0 <= i < |indices| ==> indices[i] < 0x1_0000
  {
    var words := Pack16(indices);
    var r := Unpack16(words, |indices|);
    if forall i :: 0 <= i < |indices| ==> indices[i] < 0x1_0000 {
      forall i | 0 <= i < |indices| ensures r[i] == indices[i] {
        HalfIs(indices, i);
      }
    } else {
      var i :| 0 <= i < |indices| && indices[i] >= 0x1_0000;
      assert r[i] == Half(words, i) < 0x1_0000;
    }
  }

  lemma HalfIs(indices: seq<Word>, i: nat)
    requires i < |indices| && forall j :: 0 <= j < |indices| ==> indices[j] < 0x1_0000
    ensures Half(Pack16(indices), i) == indices[i]
  {
    var k := i / 2;
    assert Pack16(indices)[k] == PackedWord(indices, k);
    if 2 * k + 1 < |indices| {
      PairHalves(indices[2 * k], indices[2 * k + 1]);
    }
  }
}
