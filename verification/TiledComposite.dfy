/** Compositing with a repeating source on R300 to R500. The sampler wraps only
    sizes that are powers of two; other sizes are repeated by drawing tiles. */
module TiledComposite {
  import opened Arith
  import opened Wrappers

  // ---- The power-of-two test ----

  function BitAnd(a: nat, b: nat): nat {
    if a == 0 || b == 0 then 0 else (a % 2) * (b % 2) + 2 * BitAnd(a / 2, b / 2)
  }

  /** No bit of w is also a bit of w - 1. */
  predicate PotTest(w: nat)
    requires w > 0
  {
    BitAnd(w, w - 1) == 0
  }

  lemma {:induction false} BitAndSelf(a: nat)
    ensures BitAnd(a, a) == a
  {
    if a > 0 {
      BitAndSelf(a / 2);
    }
  }

  lemma {:induction false} PotTestFinds(w: nat) returns (k: nat)
    requires w > 0 && PotTest(w)
    ensures w == Pow2(k)
  {
    if w % 2 == 1 {
      if w > 1 {
        BitAndSelf(w / 2);
      }
      k := 0;
    } else {
      var j := PotTestFinds(w / 2);
      k := j + 1;
    }
  }

  lemma {:induction false} Pow2Passes(k: nat)
    ensures PotTest(Pow2(k))
  {
    if k > 0 {
      Pow2Passes(k - 1);
    }
  }

  ghost predicate IsPow2(w: nat) {
    exists k: nat :: w == Pow2(k)
  }

  /** The test accepts exactly the powers of two. */
  lemma PotTestIff(w: nat)
    requires w > 0
    ensures PotTest(w) <==> IsPow2(w)
  {
    if PotTest(w) {
      var k := PotTestFinds(w);
    }
    if IsPow2(w) {
      var k: nat :| w == Pow2(k);
      Pow2Passes(k);
    }
  }

  lemma InfiniteIsPow2()
    ensures Pow2(16) == INFINITE
  {
    assert Pow2(4) == 16;
    assert Pow2(8) == 16 * Pow2(4);
    assert Pow2(12) == 16 * Pow2(8);
    assert Pow2(16) == 16 * Pow2(12);
  }

  /** A tile of 65536 is a whole number of repeats of any size that passes the test. */
  lemma PotDividesInfinity(w: nat) returns (n: nat)
    requires 0 < w <= INFINITE && PotTest(w)
    ensures INFINITE == w * n
  {
    var k := PotTestFinds(w);
    InfiniteIsPow2();
    if k > 16 {
      Pow2Monotone(17, k);
    }
    n := Pow2(16 - k);
    Pow2Sum(k, 16 - k);
  }

  // ---- Pictures and the acceptance test ----

  datatype Picture = Picture(w: nat, h: nat, repeat: bool, repeatNormal: bool, transformed: bool, pitchMatches: bool) {
    predicate Valid() { w > 0 && h > 0 }
  }

  /** A repeating picture of another size is only accepted where it can be drawn in tiles. */
  predicate CheckTexturePot(p: Picture, canTile: bool)
    requires p.Valid()
  {
    !(p.repeat && (!PotTest(p.w) || !PotTest(p.h)) && !(!p.transformed && canTile))
  }

  predicate CheckTexture(p: Picture, unit: nat, isR500: bool)
    requires p.Valid()
  {
    var max := if isR500 then 4096 else 2048;
    && p.w <= max && p.h <= max
    && CheckTexturePot(p, unit == 0)
    && (p.repeat ==> p.repeatNormal)
  }

  predicate CheckComposite(src: Picture, mask: Option<Picture>, isR500: bool)
    requires src.Valid() && (mask.Some? ==> mask.value.Valid())
  {
    (mask.Some? ==> CheckTexture(mask.value, 1, isR500)) && CheckTexture(src, 0, isR500)
  }

  /** What the hardware and the driver together can draw: nothing too large, and of the repeating pictures those
      whose sizes are powers of two and, in tiles, the untransformed sources. */
  ghost predicate Drawable(p: Picture, isSource: bool, largest: nat) {
    && p.w <= largest && p.h <= largest
    && (p.repeat ==>
          && p.repeatNormal
          && ((isSource && !p.transformed) || (IsPow2(p.w) && IsPow2(p.h))))
  }

  /** Exactly the drawable requests are accepted. */
  lemma AcceptedIffDrawable(src: Picture, mask: Option<Picture>, isR500: bool)
    requires src.Valid() && (mask.Some? ==> mask.value.Valid())
    ensures CheckComposite(src, mask, isR500) <==>
            && Drawable(src, true, if isR500 then 4096 else 2048)
            && (mask.Some? ==> Drawable(mask.value, false, if isR500 then 4096 else 2048))
  {
    PotTestIff(src.w);
    PotTestIff(src.h);
    if mask.Some? {
      PotTestIff(mask.value.w);
      PotTestIff(mask.value.h);
    }
  }

  // ---- The sampler ----

  datatype Addressing = Wrap | Edge

  function SampleCoord(size: nat, mode: Addressing, c: int): int
    requires size > 0
  {
    match mode
    case Wrap => c % size
    case Edge => if c < 0 then 0 else if c >= size then size - 1 else c
  }

  /** The hardware wraps a coordinate only in sizes that are powers of two. */
  predicate Samplable(p: Picture, s: Addressing, t: Addressing)
    requires p.Valid()
  {
    (s.Wrap? ==> PotTest(p.w)) && (t.Wrap? ==> PotTest(p.h))
  }

  /** How source and mask are addressed. */
  datatype Sampling = Sampling(srcS: Addressing, srcT: Addressing, maskS: Addressing, maskT: Addressing)

  /** The texel a picture has for a coordinate: wrapped if it repeats, and the last one of the row if not. */
  function Wanted(p: Picture, size: nat, c: int): int
    requires size > 0
  {
    if p.repeat then c % size else if c < 0 then 0 else if c < size then c else size - 1
  }

  // ---- Tiles ----

  datatype Tile = Tile(srcX: int, srcY: int, maskX: int, maskY: int, dstX: int, dstY: int, w: int, h: int) {
    predicate Has(x: int, y: int) {
      dstX <= x < dstX + w && dstY <= y < dstY + h
    }
  }

  /** How many of the tiles draw pixel (x, y). */
  function Count(tiles: seq<Tile>, x: int, y: int): nat {
    if tiles == [] then 0
    else Count(tiles[..|tiles| - 1], x, y) + if tiles[|tiles| - 1].Has(x, y) then 1 else 0
  }

  lemma CountSnoc(tiles: seq<Tile>, t: Tile, x: int, y: int)
    ensures Count(tiles + [t], x, y) == Count(tiles, x, y) + if t.Has(x, y) then 1 else 0
  {
    assert (tiles + [t])[..|tiles|] == tiles;
  }

  /** A composite request: source and mask origins and the destination rectangle. */
  datatype Request = Request(srcX: int, srcY: int, maskX: int, maskY: int, dstX: int, dstY: int, w: nat, h: nat) {

    /** Tile t lies on the grid of tw by th repeats: it starts where the request is
        modulo the tile size, stays inside one repeat, and moves the mask along. */
    predicate OnGrid(t: Tile, tw: nat, th: nat)
      requires tw > 0 && th > 0
    {
      && t.srcX == (srcX + (t.dstX - dstX)) % tw && t.srcX + t.w <= tw
      && t.srcY == (srcY + (t.dstY - dstY)) % th && t.srcY + t.h <= th
      && t.maskX - t.dstX == maskX - dstX && t.maskY - t.dstY == maskY - dstY
    }

    /** Tile t draws pixel (x, y) from the source and the mask texel the request asks for. What does not
        repeat, or is transformed on the way, gets its coordinates unchanged, and so does the mask. */
    predicate DrawsRight(src: Picture, mask: Option<Picture>, m: Sampling, t: Tile, x: int, y: int)
      requires src.Valid() && (mask.Some? ==> mask.value.Valid())
    {
      && SampleCoord(src.w, m.srcS, t.srcX + (x - t.dstX)) == Wanted(src, src.w, srcX + (x - dstX))
      && SampleCoord(src.h, m.srcT, t.srcY + (y - t.dstY)) == Wanted(src, src.h, srcY + (y - dstY))
      && (!src.repeat || src.transformed ==>
            t.srcX + (x - t.dstX) == srcX + (x - dstX) && t.srcY + (y - t.dstY) == srcY + (y - dstY))
      && t.maskX + (x - t.dstX) == maskX + (x - dstX) && t.maskY + (y - t.dstY) == maskY + (y - dstY)
      && (mask.Some? ==>
            var k := mask.value;
            && SampleCoord(k.w, m.maskS, t.maskX + (x - t.dstX)) == Wanted(k, k.w, maskX + (x - dstX))
            && SampleCoord(k.h, m.maskT, t.maskY + (y - t.dstY)) == Wanted(k, k.h, maskY + (y - dstY)))
    }
  }

  /** One axis: a tile coordinate inside one repeat of the tile size is sampled as the wrapped request coordinate. */
  lemma AxisDrawsRight(size: nat, need: bool, tile: nat, tileCoord: int, c: int, i: nat)
    requires 0 < size <= INFINITE && need == !PotTest(size) && tile == (if need then size else INFINITE)
    requires tileCoord == c % tile && tileCoord + i < tile
    ensures SampleCoord(size, if need then Edge else Wrap, tileCoord + i) == (c + i) % size
  {
    ModStep(c, i, tile);
    if !need {
      var n := PotDividesInfinity(size);
      ModMod(c + i, size, n, INFINITE);
    }
  }

  lemma GridDrawsRight(r: Request, src: Picture, mask: Option<Picture>, m: Sampling, t: Tile, tw: nat, th: nat,
                       x: int, y: int)
    requires src.Valid() && src.w <= INFINITE && src.h <= INFINITE && src.repeat && !src.transformed
    requires tw == (if PotTest(src.w) then INFINITE else src.w) && th == (if PotTest(src.h) then INFINITE else src.h)
    requires m.srcS == (if PotTest(src.w) then Wrap else Edge) && m.srcT == (if PotTest(src.h) then Wrap else Edge)
    requires MaskAddressed(mask, m) && r.OnGrid(t, tw, th) && t.Has(x, y)
    ensures r.DrawsRight(src, mask, m, t, x, y)
  {
    AxisDrawsRight(src.w, !PotTest(src.w), tw, t.srcX, r.srcX + (t.dstX - r.dstX), x - t.dstX);
    AxisDrawsRight(src.h, !PotTest(src.h), th, t.srcY, r.srcY + (t.dstY - r.dstY), y - t.dstY);
  }

  /** A mask is wrapped on both axes if it repeats, and clamped if not. */
  predicate MaskAddressed(mask: Option<Picture>, m: Sampling) {
    mask.Some? ==> mask.value.Valid() && m.maskS == m.maskT == (if mask.value.repeat then Wrap else Edge)
  }

  class Compositor {
    var needTileX: bool
    var needTileY: bool
    var tileWidth: nat
    var tileHeight: nat
    var srcS: Addressing
    var srcT: Addressing
    var maskS: Addressing
    var maskT: Addressing
    var tiles: seq<Tile>

    function Programmed(): Sampling
      reads this
    {
      Sampling(srcS, srcT, maskS, maskT)
    }

    /** The state a successful preparation leaves for source picture p and a mask. */
    ghost predicate Prepared(p: Picture, mask: Option<Picture>)
      reads this
    {
      && MaskAddressed(mask, Programmed())
      && p.Valid() && p.w <= INFINITE && p.h <= INFINITE
      && needTileX == (p.repeat && !p.transformed && !PotTest(p.w))
      && needTileY == (p.repeat && !p.transformed && !PotTest(p.h))
      && tileWidth == (if needTileX then p.w else INFINITE)
      && tileHeight == (if needTileY then p.h else INFINITE)
      && srcS == (if p.repeat && !needTileX then Wrap else Edge)
      && srcT == (if p.repeat && !needTileY then Wrap else Edge)
    }

    constructor ()
      ensures tiles == []
    {
      needTileX, needTileY, tileWidth, tileHeight := false, false, INFINITE, INFINITE;
      srcS, srcT, maskS, maskT := Edge, Edge, Edge, Edge;
      tiles := [];
    }

    method SetupSourceTile(p: Picture, canTile1d: bool, needMatchingPitch: bool) returns (ok: bool)
      requires p.Valid()
      modifies this`needTileX, this`needTileY, this`tileWidth, this`tileHeight
      ensures ok <==> !(p.repeat && p.transformed && needMatchingPitch && !p.pitchMatches)
      ensures ok ==>
                && tileWidth == (if needTileX then p.w else INFINITE)
                && tileHeight == (if needTileY then p.h else INFINITE)
      ensures ok ==>
                var tiled := p.repeat && !p.transformed;
                var x, y := tiled && (!PotTest(p.w) || (needMatchingPitch && !p.pitchMatches)), tiled && !PotTest(p.h);
                if canTile1d then needTileX == x && needTileY == y else needTileX == needTileY == (x || y)
    {
      needTileX, needTileY := false, false;
      tileWidth, tileHeight := INFINITE, INFINITE;
      if p.repeat {
        var badPitch := needMatchingPitch && !p.pitchMatches;
        if p.transformed {
          if badPitch {
            return false;
          }
        } else {
          needTileX := !PotTest(p.w) || badPitch;
          needTileY := !PotTest(p.h);
          if !canTile1d {
            needTileY := needTileX || needTileY;
            needTileX := needTileY;
          }
        }
        if needTileX {
          tileWidth := p.w;
        }
        if needTileY {
          tileHeight := p.h;
        }
      }
      ok := true;
    }

    method SetupTexture(p: Picture, unit: nat)
      requires unit < 2
      modifies this`srcS, this`srcT, this`maskS, this`maskT
      ensures unit == 0 ==>
                && srcS == (if p.repeat && !needTileX then Wrap else Edge)
                && srcT == (if p.repeat && !needTileY then Wrap else Edge)
                && maskS == old(maskS) && maskT == old(maskT)
      ensures unit == 1 ==>
                && maskS == maskT == (if p.repeat then Wrap else Edge)
                && srcS == old(srcS) && srcT == old(srcT)
    {
      var s := if p.repeat && !(unit == 0 && needTileX) then Wrap else Edge;
      var t := if p.repeat && !(unit == 0 && needTileY) then Wrap else Edge;
      if unit == 0 {
        srcS, srcT := s, t;
      } else {
        maskS, maskT := s, t;
      }
    }

    /** What was accepted is set up so that the hardware never wraps a size it cannot wrap. */
    method Prepare(src: Picture, mask: Option<Picture>, isR500: bool)
      requires src.Valid() && (mask.Some? ==> mask.value.Valid()) && CheckComposite(src, mask, isR500)
      modifies this
      ensures Prepared(src, mask) && tiles == old(tiles)
      ensures Samplable(src, srcS, srcT)
      ensures mask.Some? ==> Samplable(mask.value, maskS, maskT)
    {
      var ok := SetupSourceTile(src, true, false);
      SetupTexture(src, 0);
      if mask.Some? {
        SetupTexture(mask.value, 1);
      }
    }

    method CompositeTile(t: Tile)
      modifies this`tiles
      ensures tiles == old(tiles) + [t]
    {
      tiles := tiles + [t];
    }

    /** One row of tiles. */
    method CompositeRow(r: Request, tileSrcY: int, tileMaskY: int, tileDstY: int, h: nat)
      requires tileWidth > 0 && tileHeight > 0 && h > 0
      requires tileSrcY == (r.srcY + (tileDstY - r.dstY)) % tileHeight && tileSrcY + h <= tileHeight
      requires tileMaskY - tileDstY == r.maskY - r.dstY
      modifies this`tiles
      ensures |tiles| >= |old(tiles)| && tiles[..|old(tiles)|] == old(tiles)
      ensures forall i :: |old(tiles)| <= i < |tiles| ==> r.OnGrid(tiles[i], tileWidth, tileHeight)
      ensures forall x, y :: Count(tiles, x, y) == Count(old(tiles), x, y)
                + if r.dstX <= x < r.dstX + r.w && tileDstY <= y < tileDstY + h then 1 else 0
    {
      var remainingWidth: int := r.w;
      var tileSrcX := r.srcX % tileWidth;
      var tileMaskX, tileDstX := r.maskX, r.dstX;
      while remainingWidth > 0
        invariant tileDstX + remainingWidth == r.dstX + r.w && 0 <= remainingWidth
        invariant tileMaskX - tileDstX == r.maskX - r.dstX
        invariant remainingWidth > 0 ==> tileSrcX == (r.srcX + (tileDstX - r.dstX)) % tileWidth
        invariant |tiles| >= |old(tiles)| && tiles[..|old(tiles)|] == old(tiles)
        invariant forall i :: |old(tiles)| <= i < |tiles| ==> r.OnGrid(tiles[i], tileWidth, tileHeight)
        invariant forall x, y :: Count(tiles, x, y) == Count(old(tiles), x, y)
                    + if r.dstX <= x < tileDstX && tileDstY <= y < tileDstY + h then 1 else 0
      {
        var w := tileWidth - tileSrcX;
        if w > remainingWidth {
          w := remainingWidth;
        } else {
          ModWrap(r.srcX + (tileDstX - r.dstX), w, tileWidth);
        }
        remainingWidth := remainingWidth - w;
        ghost var before := tiles;
        var t := Tile(tileSrcX, tileSrcY, tileMaskX, tileMaskY, tileDstX, tileDstY, w, h);
        CompositeTile(t);
        forall x, y ensures Count(tiles, x, y) == Count(before, x, y) + if t.Has(x, y) then 1 else 0 {
          CountSnoc(before, t, x, y);
        }
        tileSrcX := 0;
        tileMaskX := tileMaskX + w;
        tileDstX := tileDstX + w;
      }
    }

    /** Draws every pixel of the destination exactly once and no other, each from the source texel
        and the mask texel the request asks for. */
    method Composite(r: Request, ghost p: Picture, ghost mask: Option<Picture>)
      requires Prepared(p, mask)
      modifies this`tiles
      ensures |tiles| >= |old(tiles)| && tiles[..|old(tiles)|] == old(tiles)
      ensures forall x, y :: Count(tiles, x, y) == Count(old(tiles), x, y)
                + if r.dstX <= x < r.dstX + r.w && r.dstY <= y < r.dstY + r.h then 1 else 0
      ensures forall i, x, y :: |old(tiles)| <= i < |tiles| && tiles[i].Has(x, y) ==>
                r.DrawsRight(p, mask, Programmed(), tiles[i], x, y)
    {
      ghost var n := |tiles|;
      if !needTileX && !needTileY {
        var t := Tile(r.srcX, r.srcY, r.maskX, r.maskY, r.dstX, r.dstY, r.w, r.h);
        forall x, y { CountSnoc(tiles, t, x, y); }
        CompositeTile(t);
        return;
      }
      CompositeGrid(r);
      forall i, x, y | n <= i < |tiles| && tiles[i].Has(x, y)
        ensures r.DrawsRight(p, mask, Programmed(), tiles[i], x, y)
      {
        GridDrawsRight(r, p, mask, Programmed(), tiles[i], tileWidth, tileHeight, x, y);
      }
    }

    /** The rows of the grid, from the top down. */
    method CompositeGrid(r: Request)
      requires tileWidth > 0 && tileHeight > 0
      modifies this`tiles
      ensures |tiles| >= |old(tiles)| && tiles[..|old(tiles)|] == old(tiles)
      ensures forall x, y :: Count(tiles, x, y) == Count(old(tiles), x, y)
                + if r.dstX <= x < r.dstX + r.w && r.dstY <= y < r.dstY + r.h then 1 else 0
      ensures forall i :: |old(tiles)| <= i < |tiles| ==> r.OnGrid(tiles[i], tileWidth, tileHeight)
    {
      ghost var n := |tiles|;
      var remainingHeight: int := r.h;
      var tileSrcY := r.srcY % tileHeight;
      var tileMaskY, tileDstY := r.maskY, r.dstY;
      while remainingHeight > 0
        invariant tileDstY + remainingHeight == r.dstY + r.h && 0 <= remainingHeight
        invariant tileMaskY - tileDstY == r.maskY - r.dstY
        invariant remainingHeight > 0 ==> tileSrcY == (r.srcY + (tileDstY - r.dstY)) % tileHeight
        invariant |tiles| >= n && tiles[..n] == old(tiles)
        invariant forall i :: n <= i < |tiles| ==> r.OnGrid(tiles[i], tileWidth, tileHeight)
        invariant forall x, y :: Count(tiles, x, y) == Count(old(tiles), x, y)
                    + if r.dstX <= x < r.dstX + r.w && r.dstY <= y < tileDstY then 1 else 0
      {
        var h := tileHeight - tileSrcY;
        if h > remainingHeight {
          h := remainingHeight;
        } else {
          ModWrap(r.srcY + (tileDstY - r.dstY), h, tileHeight);
        }
        remainingHeight := remainingHeight - h;
        CompositeRow(r, tileSrcY, tileMaskY, tileDstY, h);
        tileSrcY := 0;
        tileMaskY := tileMaskY + h;
        tileDstY := tileDstY + h;
      }
    }
  }

  /** An accepted request from end to end: no pixel is drawn but those of the destination, each of them by exactly one
      tile, and from the texels asked for; the hardware wraps powers of two only. */
  method RequestComposite(src: Picture, mask: Option<Picture>, isR500: bool, r: Request)
      returns (tiles: seq<Tile>, m: Sampling)
    requires src.Valid() && (mask.Some? ==> mask.value.Valid()) && CheckComposite(src, mask, isR500)
    ensures forall x, y ::
              Count(tiles, x, y) == if r.dstX <= x < r.dstX + r.w && r.dstY <= y < r.dstY + r.h then 1 else 0
    ensures forall i, x, y :: 0 <= i < |tiles| && tiles[i].Has(x, y) ==> r.DrawsRight(src, mask, m, tiles[i], x, y)
    ensures Samplable(src, m.srcS, m.srcT) && (mask.Some? ==> Samplable(mask.value, m.maskS, m.maskT))
  {
    var c := new Compositor();
    c.Prepare(src, mask, isR500);
    c.Composite(r, src, mask);
    tiles, m := c.tiles, c.Programmed();
  }

  const INFINITE := 65536
}
