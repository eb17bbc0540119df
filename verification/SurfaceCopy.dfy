/** The CopyArea entry point on R6xx for a copy within one surface, with the raster
    operation and plane mask it was prepared with. */
module SurfaceCopy {
  import opened Raster
  import opened OverlapCopy
  import opened Wrappers

  // ---- Raster operations ----

  /** The code written to the colour control register for each X function. */
  function Rop3(alu: nat): nat {
    match alu
    case 0 => 0x00
    case 1 => 0x88
    case 2 => 0x44
    case 3 => 0xcc
    case 4 => 0x22
    case 5 => 0xaa
    case 6 => 0x66
    case 7 => 0xee
    case 8 => 0x11
    case 9 => 0x99
    case 10 => 0x55
    case 11 => 0xdd
    case 12 => 0x33
    case 13 => 0xbb
    case 14 => 0x77
    case _ => 0xff
  }

  /** A ternary raster operation code is its own truth table: the result for pattern P,
      source S and destination D is bit 4P + 2S + D. */
  predicate Rop3Bit(code: nat, p: bool, s: bool, d: bool) {
    (match (p, s, d)
     case (false, false, false) => code
     case (false, false, true) => code / 2
     case (false, true, false) => code / 4
     case (false, true, true) => code / 8
     case (true, false, false) => code / 16
     case (true, false, true) => code / 32
     case (true, true, false) => code / 64
     case (true, true, true) => code / 128) % 2 == 1
  }

  /** The functions of a graphics context in the X protocol. */
  predicate XFunction(alu: nat, s: bool, d: bool) {
    match alu
    case 0 => false
    case 1 => s && d
    case 2 => s && !d
    case 3 => s
    case 4 => !s && d
    case 5 => d
    case 6 => s != d
    case 7 => s || d
    case 8 => !s && !d
    case 9 => !s != d
    case 10 => !d
    case 11 => s || !d
    case 12 => !s
    case 13 => !s || d
    case 14 => !s || !d
    case _ => true
  }

  /** Each code computes the X function of its index, whatever the pattern. */
  lemma RopTableCorrect(alu: nat, p: bool, s: bool, d: bool)
    requires alu < 16
    ensures Rop3Bit(Rop3(alu), p, s, d) == XFunction(alu, s, d)
  {
  }

  /** What a graphics context asks for: the function on the bits of the plane mask, the others kept. */
  function XBits(alu: nat, planemask: Bits, s: Bits, d: Bits): Bits {
    seq(32, i requires 0 <= i < 32 => if planemask[i] then XFunction(alu, s[i], d[i]) else d[i])
  }

  function XRop(alu: nat, planemask: Bits): Rop {
    (s: Pixel, d: Pixel) => Pixel(XBits(alu, planemask, s.bits, d.bits))
  }

  /** Byte k of the plane mask has a plane set. */
  predicate AnyIn(planemask: Bits, k: nat)
    requires k < 4
  {
    exists i :: 8 * k <= i < 8 * k + 8 && planemask[i]
  }

  /** The shader write mask the driver programs: blue, green, red and alpha from the low byte up. */
  function ShaderMask(planemask: Bits): nat {
    (if AnyIn(planemask, 0) then 4 else 0) + (if AnyIn(planemask, 1) then 2 else 0)
    + (if AnyIn(planemask, 2) then 1 else 0) + (if AnyIn(planemask, 3) then 8 else 0)
  }

  /** The mask bits in the order the hardware has them: red, green, blue, alpha. */
  function MaskBit(c: Channel): nat {
    match c
    case Red => 1
    case Green => 2
    case Blue => 4
    case Alpha => 8
  }

  datatype Channel = Red | Green | Blue | Alpha

  /** Where a pixel has bit i. */
  function ChannelOf(i: nat): Channel {
    if i < 8 then Blue else if i < 16 then Green else if i < 24 then Red else Alpha
  }

  /** The channel bit i lies in is written. */
  predicate ChannelOn(planemask: Bits, i: nat) {
    ShaderMask(planemask) / MaskBit(ChannelOf(i)) % 2 == 1
  }

  /** A channel is written exactly if the plane mask has one of its planes. */
  lemma ChannelOnIff(planemask: Bits, i: nat)
    requires i < 32
    ensures ChannelOn(planemask, i) <==> exists j :: 0 <= j < 32 && j / 8 == i / 8 && planemask[j]
  {
    var k := i / 8;
    assert ChannelOn(planemask, i) <==> AnyIn(planemask, k);
    if AnyIn(planemask, k) {
      var j :| 8 * k <= j < 8 * k + 8 && planemask[j];
      assert j / 8 == i / 8;
    }
  }

  function RopBits(alu: nat, planemask: Bits, s: Bits, d: Bits): Bits
    requires alu < 16
  {
    seq(32, i requires 0 <= i < 32 => if ChannelOn(planemask, i) then Rop3Bit(Rop3(alu), false, s[i], d[i]) else d[i])
  }

  /** What the driver programs. */
  function RopOf(alu: nat, planemask: Bits): Rop
    requires alu < 16
  {
    (s: Pixel, d: Pixel) => Pixel(RopBits(alu, planemask, s.bits, d.bits))
  }

  predicate AnyChannel(planemask: Bits) {
    exists i :: 0 <= i < 32 && planemask[i]
  }

  /** The mask is made of whole bytes. */
  predicate WholeChannels(planemask: Bits) {
    forall i, j | 0 <= i < 32 && 0 <= j < 32 && i / 8 == j / 8 :: planemask[i] == planemask[j]
  }

  /** Every plane of the one mask is in the other. */
  predicate Within(a: Bits, b: Bits) {
    forall i :: 0 <= i < 32 && a[i] ==> b[i]
  }

  /** Bits that share a byte with a plane of the mask. */
  function Rounded(planemask: Bits): Bits {
    seq(32, i requires 0 <= i < 32 => exists j :: 0 <= j < 32 && j / 8 == i / 8 && planemask[j])
  }

  /** Rounding out to whole bytes gives the least mask of whole bytes that holds the planes. */
  lemma RoundedIsLeast(planemask: Bits, m: Bits)
    ensures WholeChannels(Rounded(planemask)) && Within(planemask, Rounded(planemask))
    ensures WholeChannels(m) && Within(planemask, m) ==> Within(Rounded(planemask), m)
    ensures WholeChannels(planemask) ==> Rounded(planemask) == planemask
  {
    forall i | 0 <= i < 32 && planemask[i] ensures Rounded(planemask)[i] {
      assert i / 8 == i / 8;
    }
    if WholeChannels(planemask) {
      assert forall i :: 0 <= i < 32 ==> Rounded(planemask)[i] == planemask[i];
    }
  }

  /** What the driver programs is the operation asked for, with the plane mask rounded out to whole bytes. */
  lemma DriverRounds(alu: nat, planemask: Bits)
    requires alu < 16
    ensures SameRop(RopOf(alu, planemask), XRop(alu, Rounded(planemask)))
    ensures WholeChannels(planemask) ==> SameRop(RopOf(alu, planemask), XRop(alu, planemask))
  {
    var rop, asked := RopOf(alu, planemask), XRop(alu, Rounded(planemask));
    forall s: Pixel, d: Pixel ensures rop(s, d) == asked(s, d) {
      forall i | 0 <= i < 32 ensures rop(s, d).bits[i] == asked(s, d).bits[i] {
        RopTableCorrect(alu, false, s.bits[i], d.bits[i]);
        ChannelOnIff(planemask, i);
      }
      assert rop(s, d).bits == asked(s, d).bits;
    }
    RoundedIsLeast(planemask, planemask);
  }

  ghost predicate Idempotent(rop: Rop) {
    forall a: Pixel :: rop(a, a) == a
  }

  ghost predicate SameRop(rop: Rop, asked: Rop) {
    forall s: Pixel, d: Pixel :: rop(s, d) == asked(s, d)
  }

  ghost predicate TwiceIsOnce(rop: Rop) {
    forall s: Pixel, t: Pixel, d: Pixel :: rop(rop(s, t), d) == rop(s, d)
  }

  /** Applied twice, first over anything, it is what was asked for. */
  ghost predicate TwiceIs(rop: Rop, asked: Rop) {
    forall s: Pixel, t: Pixel, d: Pixel :: rop(rop(s, t), d) == asked(s, d)
  }

  ghost predicate KeepsDestination(rop: Rop) {
    forall s: Pixel, d: Pixel :: rop(s, d) == d
  }

  function Flood(b: bool): Pixel {
    Pixel(seq(32, i => b))
  }

  /** One bit the driver's operation computes, in a channel that is written. */
  lemma WrittenBit(alu: nat, planemask: Bits, i: nat, s: Pixel, d: Pixel)
    requires alu < 16 && i < 32 && ChannelOn(planemask, i)
    ensures RopOf(alu, planemask)(s, d).bits[i] == XFunction(alu, s.bits[i], d.bits[i])
  {
    RopTableCorrect(alu, false, s.bits[i], d.bits[i]);
  }

  lemma NoChannelKeeps(alu: nat, planemask: Bits, s: Pixel, d: Pixel)
    requires alu < 16 && !AnyChannel(planemask)
    ensures RopOf(alu, planemask)(s, d) == d
  {
    forall i | 0 <= i < 32 {
      ChannelOnIff(planemask, i);
    }
    assert RopOf(alu, planemask)(s, d).bits == d.bits;
  }

  /** Copying a pixel over itself asks for no change with and, copy, noop and or only. */
  lemma IdempotentIff(alu: nat, planemask: Bits)
    requires alu < 16
    ensures Idempotent(XRop(alu, planemask)) <==> !AnyChannel(planemask) || alu in {1, 3, 5, 7}
  {
    var asked := XRop(alu, planemask);
    if !AnyChannel(planemask) || alu in {1, 3, 5, 7} {
      forall a: Pixel ensures asked(a, a) == a {
        assert asked(a, a).bits == a.bits;
      }
    } else {
      var i :| 0 <= i < 32 && planemask[i];
      assert asked(Flood(false), Flood(false)).bits[i] || !asked(Flood(true), Flood(true)).bits[i];
      assert !Flood(false).bits[i] && Flood(true).bits[i];
    }
  }

  /** The driver's operation is the one asked for exactly if the plane mask cuts no channel, or nothing is to change. */
  lemma SameRopIff(alu: nat, planemask: Bits)
    requires alu < 16
    ensures SameRop(RopOf(alu, planemask), XRop(alu, planemask)) <==> alu == 5 || WholeChannels(planemask)
  {
    var rop, asked := RopOf(alu, planemask), XRop(alu, planemask);
    DriverRounds(alu, planemask);
    if WholeChannels(planemask) {
    } else if alu == 5 {
      forall s: Pixel, d: Pixel ensures rop(s, d) == asked(s, d) {
        KeepsDestinationIff(alu, planemask);
        assert asked(s, d).bits == d.bits;
      }
    } else {
      var i := CutBit(planemask);
      var b, c := KeepsFails(alu);
      WrittenBit(alu, planemask, i, Flood(b), Flood(c));
      KeptBit(alu, planemask, i, Flood(b), Flood(c));
      assert rop(Flood(b), Flood(c)).bits[i] != asked(Flood(b), Flood(c)).bits[i];
    }
  }

  /** A plane that is not to change, in a channel that is written. */
  lemma CutBit(planemask: Bits) returns (i: nat)
    requires !WholeChannels(planemask)
    ensures i < 32 && ChannelOn(planemask, i) && !planemask[i] && AnyChannel(planemask)
  {
    var j, k :| 0 <= j < 32 && 0 <= k < 32 && j / 8 == k / 8 && planemask[j] != planemask[k];
    i := if planemask[j] then k else j;
    ChannelOnIff(planemask, i);
  }

  lemma KeepsFails(alu: nat) returns (s: bool, d: bool)
    requires alu < 16 && alu != 5
    ensures XFunction(alu, s, d) != d
  {
    s, d := alu in {4, 6, 7, 12, 14}, alu !in {7, 13, 15};
  }

  /** Applying the operation a second time to its own result changes nothing for
      clear, copy, noop, invert and set only. */
  lemma TwiceIsOnceIff(alu: nat, planemask: Bits)
    requires alu < 16
    ensures TwiceIsOnce(RopOf(alu, planemask)) <==> !AnyChannel(planemask) || alu in {0, 3, 5, 10, 15}
  {
    var rop := RopOf(alu, planemask);
    if !AnyChannel(planemask) {
      forall s: Pixel, t: Pixel, d: Pixel ensures rop(rop(s, t), d) == rop(s, d) {
        NoChannelKeeps(alu, planemask, rop(s, t), d);
        NoChannelKeeps(alu, planemask, s, d);
      }
    } else if alu in {0, 3, 5, 10, 15} {
      forall s: Pixel, t: Pixel, d: Pixel ensures rop(rop(s, t), d) == rop(s, d) {
        forall i | 0 <= i < 32 ensures rop(rop(s, t), d).bits[i] == rop(s, d).bits[i] {
          TwiceOneBit(alu, s.bits[i], t.bits[i], d.bits[i]);
        }
        assert rop(rop(s, t), d).bits == rop(s, d).bits;
      }
    } else {
      var i :| 0 <= i < 32 && planemask[i];
      ChannelOnIff(planemask, i);
      var s, t, d := TwiceFails(alu);
      WrittenBit(alu, planemask, i, Flood(s), Flood(t));
      WrittenBit(alu, planemask, i, Flood(s), Flood(d));
      WrittenBit(alu, planemask, i, rop(Flood(s), Flood(t)), Flood(d));
      assert rop(rop(Flood(s), Flood(t)), Flood(d)) != rop(Flood(s), Flood(d));
    }
  }

  lemma TwiceOneBit(alu: nat, s: bool, t: bool, d: bool)
    requires alu in {0, 3, 5, 10, 15}
    ensures Rop3Bit(Rop3(alu), false, Rop3Bit(Rop3(alu), false, s, t), d) == Rop3Bit(Rop3(alu), false, s, d)
  {
    RopTableCorrect(alu, false, s, t);
    RopTableCorrect(alu, false, s, d);
    RopTableCorrect(alu, false, XFunction(alu, s, t), d);
  }

  lemma TwiceFails(alu: nat) returns (s: bool, t: bool, d: bool)
    requires alu < 16 && alu !in {0, 3, 5, 10, 15}
    ensures XFunction(alu, XFunction(alu, s, t), d) != XFunction(alu, s, d)
  {
    s, t, d := alu in {1, 2, 4, 8}, alu in {2, 6, 7}, alu in {1, 4, 11, 14};
  }

  /** Applying the driver's operation twice is what was asked for: in a cut channel only if nothing is to change. */
  lemma TwiceIsAskedIff(alu: nat, planemask: Bits)
    requires alu < 16
    ensures TwiceIs(RopOf(alu, planemask), XRop(alu, planemask)) <==>
            !AnyChannel(planemask) || alu == 5 || (WholeChannels(planemask) && alu in {0, 3, 10, 15})
  {
    var rop, asked := RopOf(alu, planemask), XRop(alu, planemask);
    SameRopIff(alu, planemask);
    TwiceIsOnceIff(alu, planemask);
    if alu == 5 || WholeChannels(planemask) {
      SameRopTwice(rop, asked);
    } else {
      CutTwice(alu, planemask);
    }
  }

  /** A plane that is not to change but shares its channel with one that is: two rounds of the operation change it. */
  lemma CutTwice(alu: nat, planemask: Bits)
    requires alu < 16 && alu != 5 && !WholeChannels(planemask)
    ensures AnyChannel(planemask) && !TwiceIs(RopOf(alu, planemask), XRop(alu, planemask))
  {
    var i := CutBit(planemask);
    var rop := RopOf(alu, planemask);
    var b := TwiceChanges(alu);
    var s, d := Flood(b), Flood(!b);
    WrittenBit(alu, planemask, i, s, d);
    WrittenBit(alu, planemask, i, rop(s, d), d);
    KeptBit(alu, planemask, i, s, d);
    assert rop(rop(s, d), d) != XRop(alu, planemask)(s, d);
  }

  lemma KeptBit(alu: nat, planemask: Bits, i: nat, s: Pixel, d: Pixel)
    requires i < 32 && !planemask[i]
    ensures XRop(alu, planemask)(s, d).bits[i] == d.bits[i]
  {
  }

  lemma SameRopTwice(rop: Rop, asked: Rop)
    requires SameRop(rop, asked)
    ensures TwiceIs(rop, asked) <==> TwiceIsOnce(rop)
  {
  }

  lemma TwiceChanges(alu: nat) returns (b: bool)
    requires alu < 16 && alu != 5
    ensures XFunction(alu, XFunction(alu, b, !b), !b) != !b
  {
    b := alu in {7, 13, 14, 15};
  }

  lemma KeepsDestinationIff(alu: nat, planemask: Bits)
    requires alu < 16
    ensures KeepsDestination(RopOf(alu, planemask)) <==> !AnyChannel(planemask) || alu == 5
  {
    var rop := RopOf(alu, planemask);
    if !AnyChannel(planemask) {
      forall s: Pixel, d: Pixel ensures rop(s, d) == d { NoChannelKeeps(alu, planemask, s, d); }
    } else if alu == 5 {
      forall s: Pixel, d: Pixel ensures rop(s, d) == d {
        forall i | 0 <= i < 32 { RopTableCorrect(alu, false, s.bits[i], d.bits[i]); }
        assert rop(s, d).bits == d.bits;
      }
    } else {
      var i :| 0 <= i < 32 && planemask[i];
      ChannelOnIff(planemask, i);
      var b, c := KeepsFails(alu);
      WrittenBit(alu, planemask, i, Flood(b), Flood(c));
      assert rop(Flood(b), Flood(c)) != Flood(c);
    }
  }

  // ---- CopyArea ----

  /** What the X protocol asks of CopyArea within one drawable: every destination pixel
      combines the source pixel as it was with the old destination pixel. */
  ghost predicate CopyArea(before: Image, after: Image, srcX: int, srcY: int, dstX: int, dstY: int, w: nat, h: nat,
                           rop: Rop) {
    Drawn(before, before, after, Cells(Rect(dstX, dstY, w, h)), dstX - srcX, dstY - srcY, rop)
  }

  /** The two blits through a spare surface: both apply the raster operation. */
  ghost predicate CopiedThrough(before: Image, spare: Image, mid: Image, after: Image,
                                srcX: int, srcY: int, dstX: int, dstY: int, w: nat, h: nat, rop: Rop) {
    && Drawn(before, spare, mid, Cells(Rect(dstX, dstY, w, h)), dstX - srcX, dstY - srcY, rop)
    && Drawn(mid, before, after, Cells(Rect(dstX, dstY, w, h)), 0, 0, rop)
  }

  /** A surface with a copy prepared on it, and the spare surface when one could be allocated. */
  class CopySession {
    const screen: CopyEngine
    const spare: CopyEngine?

    constructor (screen: CopyEngine, spare: CopyEngine?)
      requires screen != spare
      ensures this.screen == screen && this.spare == spare
    {
      this.screen, this.spare := screen, spare;
    }

    ghost predicate Valid()
      reads this, screen, spare
    {
      && screen.image.Valid()
      && (spare != null ==> spare != screen && SameSize(spare.image, screen.image) && spare.rop == screen.rop)
    }

    method Copy(srcX: int, srcY: int, dstX: int, dstY: int, w: nat, h: nat)
      requires Valid()
      requires screen.image.Inside(Rect(srcX, srcY, w, h)) && screen.image.Inside(Rect(dstX, dstY, w, h))
      modifies screen, spare
      ensures Valid()
      ensures CopyOutcome(old(screen.image), screen.image, spare != null, srcX, srcY, dstX, dstY, w, h, screen.rop)
    {
      if srcX == dstX && srcY == dstY {
        return;
      }
      if IsOverlap(srcX, srcX + w, srcY, srcY + h, dstX, dstX + w, dstY, dstY + h) {
        if spare != null {
          ghost var before, stale := screen.image, spare.image;
          spare.BlitFrom(screen, srcX, srcY, dstX, dstY, w, h);
          screen.BlitFrom(spare, dstX, dstY, dstX, dstY, w, h);
          assert CopiedThrough(before, stale, spare.image, screen.image, srcX, srcY, dstX, dstY, w, h, screen.rop);
        } else {
          screen.OverlapCopy(srcX, srcY, dstX, dstY, w, h);
        }
      } else {
        OverlapTestComplete(srcX, srcY, dstX, dstY, w, h);
        AreaSplit(srcX, srcY, dstX, dstY, w, h);
        screen.Blit(srcX, srcY, dstX, dstY, w, h);
      }
    }
  }

  /** What one call of CopySession.Copy can leave behind, over every content of the spare surface. */
  ghost predicate CopyOutcome(before: Image, after: Image, hasSpare: bool,
                              srcX: int, srcY: int, dstX: int, dstY: int, w: nat, h: nat, rop: Rop) {
    if srcX == dstX && srcY == dstY then
      before.Valid() && after == before
    else if Overlaps(srcX, srcY, dstX, dstY, w, h) && hasSpare then
      exists spare: Image, mid: Image :: CopiedThrough(before, spare, mid, after, srcX, srcY, dstX, dstY, w, h, rop)
    else
      Copied(before, after, srcX, srcY, dstX, dstY, w, h, rop)
  }

  /** When the driver does what CopyArea asks, in terms of the request alone. */
  predicate CopyIsFaithful(alu: nat, planemask: Bits, hasSpare: bool,
                           srcX: int, srcY: int, dstX: int, dstY: int, w: nat, h: nat) {
    || w == 0 || h == 0 || !AnyChannel(planemask)
    || if srcX == dstX && srcY == dstY then alu in {1, 3, 5, 7}
       else if alu == 5 then true
       else if Overlaps(srcX, srcY, dstX, dstY, w, h) && hasSpare then WholeChannels(planemask) && alu in {0, 3, 10, 15}
       else WholeChannels(planemask) && CopyIsExact(srcX, srcY, dstX, dstY, w, h)
  }

  /** Programmed with `rop`, a request leaves what CopyArea with `asked` leaves, over every image. */
  ghost predicate AlwaysCopyArea(iw: nat, ih: nat, hasSpare: bool,
                                 srcX: int, srcY: int, dstX: int, dstY: int, w: nat, h: nat, rop: Rop, asked: Rop) {
    forall before: Image, after: Image |
        before.w == iw && before.h == ih && CopyOutcome(before, after, hasSpare, srcX, srcY, dstX, dstY, w, h, rop) ::
      CopyArea(before, after, srcX, srcY, dstX, dstY, w, h, asked)
  }

  function FlatImage(iw: nat, ih: nat, v: Pixel): (r: Image)
    ensures r.Valid() && forall p :: p in r.pix ==> r.pix[p] == v
  {
    var all := set x, y | 0 <= x < iw && 0 <= y < ih :: Point(x, y);
    Image(iw, ih, map p | p in all :: v)
  }

  /** The image a draw produces. */
  ghost function DrawnImage(from: Image, onto: Image, cells: iset<Point>, dx: int, dy: int, rop: Rop): (r: Image)
    requires SameSize(from, onto)
    ensures Drawn(from, onto, r, cells, dx, dy, rop)
  {
    Image(onto.w, onto.h,
          map p | p in onto.pix ::
            if p in cells then rop(from.pix[Texel(from.w, from.h, p, dx, dy)], onto.pix[p]) else onto.pix[p])
  }

  lemma ZeroOffsetFaithfulIff(iw: nat, ih: nat, hasSpare: bool, x: int, y: int, w: nat, h: nat, rop: Rop, asked: Rop)
    requires 0 <= x && x + w <= iw && 0 <= y && y + h <= ih && w > 0 && h > 0
    ensures AlwaysCopyArea(iw, ih, hasSpare, x, y, x, y, w, h, rop, asked) <==> Idempotent(asked)
  {
    if Idempotent(asked) {
      forall s: Image | s.w == iw && s.h == ih && s.Valid() ensures CopyArea(s, s, x, y, x, y, w, h, asked) {
        forall p | p in s.pix ensures DrawnAt(s, s, s, Cells(Rect(x, y, w, h)), 0, 0, asked, p) {}
      }
    } else {
      var a :| asked(a, a) != a;
      var s := FlatImage(iw, ih, a);
      assert CopyOutcome(s, s, hasSpare, x, y, x, y, w, h, rop);
      assert Point(x, y) in s.pix && !DrawnAt(s, s, s, Cells(Rect(x, y, w, h)), 0, 0, asked, Point(x, y));
    }
  }

  /** The pixel the two blits leave: the operation applied twice, first over the spare surface's old content. */
  lemma ThroughSparePixel(before: Image, spare: Image, mid: Image, after: Image,
                          srcX: int, srcY: int, dstX: int, dstY: int, w: nat, h: nat, rop: Rop, p: Point)
    requires CopiedThrough(before, spare, mid, after, srcX, srcY, dstX, dstY, w, h, rop) && p in before.pix
    ensures after.pix[p] ==
            if Rect(dstX, dstY, w, h).Has(p)
            then rop(rop(before.pix[Texel(before.w, before.h, p, dstX - srcX, dstY - srcY)], spare.pix[p]),
                     before.pix[p])
            else before.pix[p]
  {
    assert DrawnAt(before, spare, mid, Cells(Rect(dstX, dstY, w, h)), dstX - srcX, dstY - srcY, rop, p);
    assert DrawnAt(mid, before, after, Cells(Rect(dstX, dstY, w, h)), 0, 0, rop, p);
  }

  lemma SpareFaithful(before: Image, after: Image, srcX: int, srcY: int, dstX: int, dstY: int, w: nat, h: nat,
                      rop: Rop, asked: Rop)
    requires TwiceIs(rop, asked)
    requires exists spare: Image, mid: Image ::
        CopiedThrough(before, spare, mid, after, srcX, srcY, dstX, dstY, w, h, rop)
    ensures CopyArea(before, after, srcX, srcY, dstX, dstY, w, h, asked)
  {
    var spare: Image, mid: Image :| CopiedThrough(before, spare, mid, after, srcX, srcY, dstX, dstY, w, h, rop);
    forall p | p in before.pix
      ensures DrawnAt(before, before, after, Cells(Rect(dstX, dstY, w, h)), dstX - srcX, dstY - srcY, asked, p)
    {
      ThroughSparePixel(before, spare, mid, after, srcX, srcY, dstX, dstY, w, h, rop, p);
    }
  }

  lemma SpareUnfaithful(iw: nat, ih: nat, srcX: int, srcY: int, dstX: int, dstY: int, w: nat, h: nat, rop: Rop,
                        asked: Rop)
    requires 0 <= srcX && srcX + w <= iw && 0 <= srcY && srcY + h <= ih
    requires 0 <= dstX && dstX + w <= iw && 0 <= dstY && dstY + h <= ih && w > 0 && h > 0
    requires (srcX != dstX || srcY != dstY) && Overlaps(srcX, srcY, dstX, dstY, w, h) && !TwiceIs(rop, asked)
    ensures !AlwaysCopyArea(iw, ih, true, srcX, srcY, dstX, dstY, w, h, rop, asked)
  {
    var s: Pixel, t: Pixel, d: Pixel :| rop(rop(s, t), d) != asked(s, d);
    var p, cells := Point(dstX, dstY), Cells(Rect(dstX, dstY, w, h));
    var before, spare := FlatImage(iw, ih, s), FlatImage(iw, ih, t);
    before := before.(pix := before.pix[p := d]);
    var mid := DrawnImage(before, spare, cells, dstX - srcX, dstY - srcY, rop);
    var after := DrawnImage(mid, before, cells, 0, 0, rop);
    assert CopiedThrough(before, spare, mid, after, srcX, srcY, dstX, dstY, w, h, rop);
    assert CopyOutcome(before, after, true, srcX, srcY, dstX, dstY, w, h, rop);
    ThroughSparePixel(before, spare, mid, after, srcX, srcY, dstX, dstY, w, h, rop, p);
    assert Texel(iw, ih, p, dstX - srcX, dstY - srcY) == Point(srcX, srcY) != p;
    assert !DrawnAt(before, before, after, cells, dstX - srcX, dstY - srcY, asked, p);
  }

  lemma DirectFaithful(before: Image, after: Image, srcX: int, srcY: int, dstX: int, dstY: int, w: nat, h: nat,
                       rop: Rop, asked: Rop)
    requires Copied(before, after, srcX, srcY, dstX, dstY, w, h, rop) && SameRop(rop, asked)
    requires KeepsDestination(rop) || CopyIsExact(srcX, srcY, dstX, dstY, w, h)
    ensures CopyArea(before, after, srcX, srcY, dstX, dstY, w, h, asked)
  {
    var dst, over := Rect(dstX, dstY, w, h), Overrun(srcX, srcY, dstX, dstY, w, h);
    OverrunEmptyIff(srcX, srcY, dstX, dstY, w, h);
    forall p | p in before.pix
      ensures DrawnAt(before, before, after, Cells(dst), dstX - srcX, dstY - srcY, asked, p)
    {
      assert DrawnAt(before, before, after, Cells(dst) + Cells(over), dstX - srcX, dstY - srcY, rop, p);
    }
  }

  /** A pixel of one colour in an image of another, drawn over by a copy. */
  lemma OddPixelOut(iw: nat, ih: nat, hasSpare: bool, srcX: int, srcY: int, dstX: int, dstY: int, w: nat, h: nat,
                    rop: Rop, s: Pixel, d: Pixel, p: Point) returns (before: Image, after: Image)
    requires (srcX != dstX || srcY != dstY) && !(Overlaps(srcX, srcY, dstX, dstY, w, h) && hasSpare)
    requires 0 <= p.x < iw && 0 <= p.y < ih && Texel(iw, ih, p, dstX - srcX, dstY - srcY) != p
    requires Rect(dstX, dstY, w, h).Has(p) || Overrun(srcX, srcY, dstX, dstY, w, h).Has(p)
    ensures before.w == iw && before.h == ih && CopyOutcome(before, after, hasSpare, srcX, srcY, dstX, dstY, w, h, rop)
    ensures SameSize(before, after) && p in before.pix && before.pix[p] == d && after.pix[p] == rop(s, d)
    ensures before.pix[Texel(iw, ih, p, dstX - srcX, dstY - srcY)] == s
  {
    var cells := Cells(Rect(dstX, dstY, w, h)) + Cells(Overrun(srcX, srcY, dstX, dstY, w, h));
    before := FlatImage(iw, ih, s);
    before := before.(pix := before.pix[p := d]);
    after := DrawnImage(before, before, cells, dstX - srcX, dstY - srcY, rop);
    assert DrawnAt(before, before, after, cells, dstX - srcX, dstY - srcY, rop, p);
  }

  lemma DirectUnfaithful(iw: nat, ih: nat, hasSpare: bool, srcX: int, srcY: int, dstX: int, dstY: int, w: nat, h: nat,
                         rop: Rop, asked: Rop)
    requires 0 <= srcX && srcX + w <= iw && 0 <= srcY && srcY + h <= ih
    requires 0 <= dstX && dstX + w <= iw && 0 <= dstY && dstY + h <= ih && w > 0 && h > 0
    requires (srcX != dstX || srcY != dstY) && !(Overlaps(srcX, srcY, dstX, dstY, w, h) && hasSpare)
    requires !SameRop(rop, asked) || (!KeepsDestination(rop) && !CopyIsExact(srcX, srcY, dstX, dstY, w, h))
    ensures !AlwaysCopyArea(iw, ih, hasSpare, srcX, srcY, dstX, dstY, w, h, rop, asked)
  {
    var dst, dx, dy := Cells(Rect(dstX, dstY, w, h)), dstX - srcX, dstY - srcY;
    if !SameRop(rop, asked) {
      var s: Pixel, d: Pixel :| rop(s, d) != asked(s, d);
      var p := Point(dstX, dstY);
      assert Texel(iw, ih, p, dx, dy) == Point(srcX, srcY) != p;
      var before, after := OddPixelOut(iw, ih, hasSpare, srcX, srcY, dstX, dstY, w, h, rop, s, d, p);
      assert !DrawnAt(before, before, after, dst, dx, dy, asked, p);
    } else {
      var s: Pixel, d: Pixel :| rop(s, d) != d;
      OverrunEmptyIff(srcX, srcY, dstX, dstY, w, h);
      OverrunInSource(srcX, srcY, dstX, dstY, w, h);
      var p :| Overrun(srcX, srcY, dstX, dstY, w, h).Has(p);
      OverrunReadsElsewhere(iw, ih, srcX, srcY, dstX, dstY, w, h, p);
      var before, after := OddPixelOut(iw, ih, hasSpare, srcX, srcY, dstX, dstY, w, h, rop, s, d, p);
      assert !DrawnAt(before, before, after, dst, dx, dy, asked, p);
    }
  }

  lemma OverrunReadsElsewhere(iw: nat, ih: nat, srcX: int, srcY: int, dstX: int, dstY: int, w: nat, h: nat, p: Point)
    requires 0 <= srcX && srcX + w <= iw && 0 <= srcY && srcY + h <= ih
    requires Overrun(srcX, srcY, dstX, dstY, w, h).Has(p)
    ensures !Rect(dstX, dstY, w, h).Has(p) && Texel(iw, ih, p, dstX - srcX, dstY - srcY) != p
  {
    OverrunInSource(srcX, srcY, dstX, dstY, w, h);
  }

  /** The whole entry point: over every image, and every content of the spare surface, a request is
      carried out as CopyArea asks, plane by plane, if and only if CopyIsFaithful. */
  lemma CopyFaithfulIff(iw: nat, ih: nat, alu: nat, planemask: Bits, hasSpare: bool,
                        srcX: int, srcY: int, dstX: int, dstY: int, w: nat, h: nat)
    requires alu < 16
    requires 0 <= srcX && srcX + w <= iw && 0 <= srcY && srcY + h <= ih
    requires 0 <= dstX && dstX + w <= iw && 0 <= dstY && dstY + h <= ih
    ensures AlwaysCopyArea(iw, ih, hasSpare, srcX, srcY, dstX, dstY, w, h, RopOf(alu, planemask), XRop(alu, planemask))
       <==> CopyIsFaithful(alu, planemask, hasSpare, srcX, srcY, dstX, dstY, w, h)
  {
    var rop, asked := RopOf(alu, planemask), XRop(alu, planemask);
    if w == 0 || h == 0 {
      EmptyCopyFaithful(iw, ih, hasSpare, srcX, srcY, dstX, dstY, w, h, rop, asked);
    } else if srcX == dstX && srcY == dstY {
      IdempotentIff(alu, planemask);
      ZeroOffsetFaithfulIff(iw, ih, hasSpare, srcX, srcY, w, h, rop, asked);
    } else if Overlaps(srcX, srcY, dstX, dstY, w, h) && hasSpare {
      TwiceIsAskedIff(alu, planemask);
      SpareFaithfulIff(iw, ih, srcX, srcY, dstX, dstY, w, h, rop, asked);
    } else {
      SameRopIff(alu, planemask);
      KeepsDestinationIff(alu, planemask);
      DirectFaithfulIff(iw, ih, hasSpare, srcX, srcY, dstX, dstY, w, h, rop, asked);
    }
  }

  lemma SpareFaithfulIff(iw: nat, ih: nat, srcX: int, srcY: int, dstX: int, dstY: int, w: nat, h: nat, rop: Rop,
                         asked: Rop)
    requires 0 <= srcX && srcX + w <= iw && 0 <= srcY && srcY + h <= ih
    requires 0 <= dstX && dstX + w <= iw && 0 <= dstY && dstY + h <= ih && w > 0 && h > 0
    requires (srcX != dstX || srcY != dstY) && Overlaps(srcX, srcY, dstX, dstY, w, h)
    ensures AlwaysCopyArea(iw, ih, true, srcX, srcY, dstX, dstY, w, h, rop, asked) <==> TwiceIs(rop, asked)
  {
    if TwiceIs(rop, asked) {
      forall before: Image, after: Image | CopyOutcome(before, after, true, srcX, srcY, dstX, dstY, w, h, rop)
        ensures CopyArea(before, after, srcX, srcY, dstX, dstY, w, h, asked)
      {
        SpareFaithful(before, after, srcX, srcY, dstX, dstY, w, h, rop, asked);
      }
    } else {
      SpareUnfaithful(iw, ih, srcX, srcY, dstX, dstY, w, h, rop, asked);
    }
  }

  lemma DirectFaithfulIff(iw: nat, ih: nat, hasSpare: bool, srcX: int, srcY: int, dstX: int, dstY: int, w: nat, h: nat,
                          rop: Rop, asked: Rop)
    requires 0 <= srcX && srcX + w <= iw && 0 <= srcY && srcY + h <= ih
    requires 0 <= dstX && dstX + w <= iw && 0 <= dstY && dstY + h <= ih && w > 0 && h > 0
    requires (srcX != dstX || srcY != dstY) && !(Overlaps(srcX, srcY, dstX, dstY, w, h) && hasSpare)
    ensures AlwaysCopyArea(iw, ih, hasSpare, srcX, srcY, dstX, dstY, w, h, rop, asked)
       <==> SameRop(rop, asked) && (KeepsDestination(rop) || CopyIsExact(srcX, srcY, dstX, dstY, w, h))
  {
    if SameRop(rop, asked) && (KeepsDestination(rop) || CopyIsExact(srcX, srcY, dstX, dstY, w, h)) {
      forall before: Image, after: Image | CopyOutcome(before, after, hasSpare, srcX, srcY, dstX, dstY, w, h, rop)
        ensures CopyArea(before, after, srcX, srcY, dstX, dstY, w, h, asked)
      {
        DirectFaithful(before, after, srcX, srcY, dstX, dstY, w, h, rop, asked);
      }
    } else {
      DirectUnfaithful(iw, ih, hasSpare, srcX, srcY, dstX, dstY, w, h, rop, asked);
    }
  }

  /** With an operation that does not mind being applied twice, both paths for an overlapping request leave
      the same destination, whatever the spare surface held, and the same image if the direct one is exact. */
  lemma PathsAgree(before: Image, a: Image, b: Image,
                   srcX: int, srcY: int, dstX: int, dstY: int, w: nat, h: nat, rop: Rop)
    requires TwiceIsOnce(rop)
    requires CopyOutcome(before, a, true, srcX, srcY, dstX, dstY, w, h, rop)
    requires CopyOutcome(before, b, false, srcX, srcY, dstX, dstY, w, h, rop)
    ensures SameSize(before, a) && SameSize(before, b)
    ensures forall p | p in before.pix && Rect(dstX, dstY, w, h).Has(p) :: a.pix[p] == b.pix[p]
    ensures CopyIsExact(srcX, srcY, dstX, dstY, w, h) ==> a == b
  {
    var dst, over := Cells(Rect(dstX, dstY, w, h)), Cells(Overrun(srcX, srcY, dstX, dstY, w, h));
    var dx, dy := dstX - srcX, dstY - srcY;
    if srcX == dstX && srcY == dstY {
    } else if Overlaps(srcX, srcY, dstX, dstY, w, h) {
      SpareFaithful(before, a, srcX, srcY, dstX, dstY, w, h, rop, rop);
      forall p | p in before.pix && Rect(dstX, dstY, w, h).Has(p) ensures a.pix[p] == b.pix[p] {
        assert DrawnAt(before, before, a, dst, dx, dy, rop, p)
            && DrawnAt(before, before, b, dst + over, dx, dy, rop, p);
      }
      if CopyIsExact(srcX, srcY, dstX, dstY, w, h) {
        DirectFaithful(before, b, srcX, srcY, dstX, dstY, w, h, rop, rop);
        DrawnUnique(before, before, a, b, dst, dx, dy, rop);
      }
    } else {
      DrawnUnique(before, before, a, b, dst + over, dx, dy, rop);
    }
  }

  /** One request from end to end: prepared with its function and plane mask and copied on one surface, with or
      without a spare one. Where the condition holds the image is the one CopyArea asks for. */
  method RequestCopyArea(before: Image, spare: Option<Image>, alu: nat, planemask: Bits,
                         srcX: int, srcY: int, dstX: int, dstY: int, w: nat, h: nat) returns (after: Image)
    requires alu < 16 && before.Valid() && (spare.Some? ==> SameSize(spare.value, before))
    requires before.Inside(Rect(srcX, srcY, w, h)) && before.Inside(Rect(dstX, dstY, w, h))
    ensures SameSize(before, after)
    ensures CopyIsFaithful(alu, planemask, spare.Some?, srcX, srcY, dstX, dstY, w, h) ==>
              CopyArea(before, after, srcX, srcY, dstX, dstY, w, h, XRop(alu, planemask))
  {
    var screen := new CopyEngine(before, RopOf(alu, planemask));
    var other: CopyEngine? := null;
    if spare.Some? {
      other := new CopyEngine(spare.value, RopOf(alu, planemask));
    }
    var session := new CopySession(screen, other);
    session.Copy(srcX, srcY, dstX, dstY, w, h);
    after := screen.image;
    CopyFaithfulIff(before.w, before.h, alu, planemask, spare.Some?, srcX, srcY, dstX, dstY, w, h);
  }

  /** A plain copy of the lowest plane alone, between rectangles that do not even touch: the
      driver overwrites the other planes of the channel too. */
  lemma CutChannelIsNotCopyArea(iw: nat, ih: nat, hasSpare: bool)
    requires iw >= 14 && ih >= 4
    ensures var lowest: Bits := seq(32, i => i == 0);
            !AlwaysCopyArea(iw, ih, hasSpare, 0, 0, 10, 0, 4, 4, RopOf(3, lowest), XRop(3, lowest))
  {
    var lowest: Bits := seq(32, i => i == 0);
    CopyFaithfulIff(iw, ih, 3, lowest, hasSpare, 0, 0, 10, 0, 4, 4);
    assert lowest[0] && !lowest[1] && 0 / 8 == 1 / 8;
  }

  lemma EmptyCopyFaithful(iw: nat, ih: nat, hasSpare: bool, srcX: int, srcY: int, dstX: int, dstY: int, w: nat, h: nat,
                          rop: Rop, asked: Rop)
    requires w == 0 || h == 0
    ensures AlwaysCopyArea(iw, ih, hasSpare, srcX, srcY, dstX, dstY, w, h, rop, asked)
  {
    OverlapTestComplete(srcX, srcY, dstX, dstY, w, h);
    OverrunEmptyIff(srcX, srcY, dstX, dstY, w, h);
    var dst := Cells(Rect(dstX, dstY, w, h));
    forall before: Image, after: Image | CopyOutcome(before, after, hasSpare, srcX, srcY, dstX, dstY, w, h, rop)
      ensures CopyArea(before, after, srcX, srcY, dstX, dstY, w, h, asked)
    {
      forall p | p in before.pix ensures DrawnAt(before, before, after, dst, dstX - srcX, dstY - srcY, asked, p) {
        if srcX == dstX && srcY == dstY {
        } else if Overlaps(srcX, srcY, dstX, dstY, w, h) && hasSpare {
          var spare: Image, mid: Image :| CopiedThrough(before, spare, mid, after, srcX, srcY, dstX, dstY, w, h, rop);
          ThroughSparePixel(before, spare, mid, after, srcX, srcY, dstX, dstY, w, h, rop, p);
        } else {
          assert DrawnAt(before, before, after, dst + Cells(Overrun(srcX, srcY, dstX, dstY, w, h)),
                         dstX - srcX, dstY - srcY, rop, p);
        }
      }
    }
  }
}
