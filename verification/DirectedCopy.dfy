/** The R5xx 2D engine copies pixel by pixel from a start corner in a programmed
    direction. The driver moves the corner to match the direction EXA asks for. */
module DirectedCopy {
  import opened Raster

  /** What one copy leaves in the engine's registers. */
  datatype Blit = Blit(srcX: int, srcY: int, dstX: int, dstY: int, w: nat, h: nat, leftToRight: bool,
                       topToBottom: bool) {

    function StepX(): int { if leftToRight then 1 else -1 }
    function StepY(): int { if topToBottom then 1 else -1 }

    /** The first n pixels of row y, in the order the engine draws them. */
    function Row(y: int, n: nat): (r: seq<Point>)
      ensures |r| == n
    {
      if n == 0 then [] else Row(y, n - 1) + [Point(dstX + StepX() * (n - 1), y)]
    }

    /** The first m rows, in the order the engine draws them. */
    function Rows(m: nat): seq<Point> {
      if m == 0 then [] else Rows(m - 1) + Row(dstY + StepY() * (m - 1), w)
    }

    /** p is drawn before q. */
    predicate Before(p: Point, q: Point) {
      StepY() * (q.y - p.y) > 0 || (q.y == p.y && StepX() * (q.x - p.x) > 0)
    }

    /** The rectangle that h rows of w pixels from the start corner cover. */
    function Area(m: nat): Rect {
      Rect(if leftToRight then dstX else dstX - w + 1, if topToBottom then dstY else dstY - m + 1, w, m)
    }
  }

  class CopyUnit {
    var xdir: int
    var ydir: int
    var blits: seq<Blit>

    constructor ()
      ensures blits == []
    {
      blits := [];
    }

    method PrepareCopy(xdir: int, ydir: int)
      modifies this`xdir, this`ydir
      ensures this.xdir == xdir && this.ydir == ydir
    {
      this.xdir, this.ydir := xdir, ydir;
    }

    /** Whatever the direction, the blit covers the w by h rectangle at the destination
        and reads each pixel at the displacement from destination to source. */
    method Copy(srcX: int, srcY: int, dstX: int, dstY: int, w: nat, h: nat)
      modifies this`blits
      ensures |blits| == |old(blits)| + 1 && blits[..|old(blits)|] == old(blits)
      ensures var b := blits[|old(blits)|];
              && b.Area(h) == Rect(dstX, dstY, w, h) && b.w == w && b.h == h
              && b.dstX - b.srcX == dstX - srcX && b.dstY - b.srcY == dstY - srcY
              && b.leftToRight == (xdir >= 0) && b.topToBottom == (ydir >= 0)
    {
      var sx, sy, dx, dy := srcX, srcY, dstX, dstY;
      if xdir < 0 {
        sx, dx := sx + (w - 1), dx + (w - 1);
      }
      if ydir < 0 {
        sy, dy := sy + (h - 1), dy + (h - 1);
      }
      blits := blits + [Blit(sx, sy, dx, dy, w, h, xdir >= 0, ydir >= 0)];
    }
  }

  lemma {:induction false} RowSpec(b: Blit, y: int, n: nat)
    ensures forall i :: 0 <= i < n ==> b.Row(y, n)[i] == Point(b.dstX + b.StepX() * i, y)
  {
    if n > 0 {
      RowSpec(b, y, n - 1);
    }
  }

  /** The engine visits exactly the cells of the area, each after the ones before it. */
  lemma {:induction false} RowsSpec(b: Blit, m: nat)
    ensures forall p :: p in b.Rows(m) <==> b.Area(m).Has(p)
    ensures forall i, j :: 0 <= i < j < |b.Rows(m)| ==> b.Before(b.Rows(m)[i], b.Rows(m)[j])
  {
    if m > 0 {
      RowsSpec(b, m - 1);
      var y := b.dstY + b.StepY() * (m - 1);
      RowSpec(b, y, b.w);
      var front, row := b.Rows(m - 1), b.Row(y, b.w);
      forall p
        ensures p in front + row <==> b.Area(m).Has(p)
      {
        var i := b.StepX() * (p.x - b.dstX);
        if p.y == y && 0 <= i < b.w {
          assert row[i] == p;
        }
      }
      forall i, j | 0 <= i < j < |front + row|
        ensures b.Before((front + row)[i], (front + row)[j])
      {
        if i < |front| {
          assert front[i] in front;
        }
      }
    }
  }

  /** The directions suit the displacement: rows away from it first, and within a row too when it is horizontal. */
  predicate DirectionSuits(b: Blit) {
    && b.StepY() * (b.dstY - b.srcY) <= 0
    && (b.dstY == b.srcY ==> b.StepX() * (b.dstX - b.srcX) <= 0)
  }

  /** The rectangle read. */
  function SourceArea(b: Blit): Rect {
    var a := b.Area(b.h);
    Rect(a.x - (b.dstX - b.srcX), a.y - (b.dstY - b.srcY), a.w, a.h)
  }

  /** Source and destination share a cell. */
  predicate SharesCells(b: Blit) {
    b.dstX - b.srcX < b.w && b.srcX - b.dstX < b.w && b.dstY - b.srcY < b.h && b.srcY - b.dstY < b.h
  }

  /** The walk of blit b over image s is the simultaneous copy. */
  ghost predicate WalksAsCopyArea(s: Image, b: Blit, rop: Rop)
    requires s.Valid()
  {
    Drawn(s, s, Walk(s, b.Rows(b.h), b.dstX - b.srcX, b.dstY - b.srcY, rop), Cells(b.Area(b.h)),
          b.dstX - b.srcX, b.dstY - b.srcY, rop)
  }

  lemma SuitableIsCopyArea(s: Image, b: Blit, rop: Rop)
    requires s.Valid() && s.Inside(SourceArea(b)) && (DirectionSuits(b) || !SharesCells(b))
    ensures WalksAsCopyArea(s, b, rop)
  {
    var order, dx, dy := b.Rows(b.h), b.dstX - b.srcX, b.dstY - b.srcY;
    RowsSpec(b, b.h);
    forall i, j | 0 <= i < j < |order| && order[j] in s.pix
      ensures order[i] != order[j] && Texel(s.w, s.h, order[j], dx, dy) != order[i]
    {
      assert b.Before(order[i], order[j]);
      assert order[j] in order && b.Area(b.h).Has(order[j]);
      assert order[i] in order && b.Area(b.h).Has(order[i]);
    }
    WalkDraws(s, order, dx, dy, rop);
    assert (iset p: Point | p in order) == Cells(b.Area(b.h));
  }

  /** The directions the server asks for: away from the source, so that nothing is read after it was drawn. */
  predicate AskedDirections(xdir: int, ydir: int, srcX: int, srcY: int, dstX: int, dstY: int) {
    (srcX < dstX <==> xdir < 0) && (srcY < dstY <==> ydir < 0)
  }

  /** A copy from end to end: with those directions it is the simultaneous one, whatever overlaps. */
  method CopyRectangle(s: Image, rop: Rop, xdir: int, ydir: int, srcX: int, srcY: int, dstX: int, dstY: int,
                       w: nat, h: nat) returns (r: Image)
    requires s.Valid() && Fits(s.w, s.h, Rect(srcX, srcY, w, h))
    requires AskedDirections(xdir, ydir, srcX, srcY, dstX, dstY)
    ensures Drawn(s, s, r, Cells(Rect(dstX, dstY, w, h)), dstX - srcX, dstY - srcY, rop)
  {
    var unit := new CopyUnit();
    unit.PrepareCopy(xdir, ydir);
    ghost var before := unit.blits;
    unit.Copy(srcX, srcY, dstX, dstY, w, h);
    var b := unit.blits[|unit.blits| - 1];
    SuitableIsCopyArea(s, b, rop);
    r := Walk(s, b.Rows(b.h), b.dstX - b.srcX, b.dstY - b.srcY, rop);
  }

  lemma {:induction false} WalkLeaves(s: Image, order: seq<Point>, dx: int, dy: int, rop: Rop, q: Point)
    requires s.Valid() && q in s.pix && q !in order
    ensures q in Walk(s, order, dx, dy, rop).pix && Walk(s, order, dx, dy, rop).pix[q] == s.pix[q]
  {
    if order != [] {
      assert order[|order| - 1] in order;
      WalkLeaves(s, order[..|order| - 1], dx, dy, rop, q);
    }
  }

  /** A cell visited once keeps the value of its visit. */
  lemma {:induction false} WalkAt(s: Image, order: seq<Point>, dx: int, dy: int, rop: Rop, j: nat)
    requires s.Valid() && j < |order| && order[j] in s.pix
    requires forall i, k :: 0 <= i < k < |order| ==> order[i] != order[k]
    ensures var m := Walk(s, order[..j], dx, dy, rop);
            var t := Texel(s.w, s.h, order[j], dx, dy);
            && t in m.pix && order[j] in m.pix && order[j] in Walk(s, order, dx, dy, rop).pix
            && Walk(s, order, dx, dy, rop).pix[order[j]] == rop(m.pix[t], m.pix[order[j]])
  {
    var n := |order| - 1;
    if j < n {
      WalkAt(s, order[..n], dx, dy, rop, j);
      assert order[..n][..j] == order[..j];
    }
  }

  /** A cell that reads a cell drawn before it gets what that one was drawn with. */
  lemma ReadsBack(s: Image, order: seq<Point>, dx: int, dy: int, i: nat, j: nat)
    requires s.Valid() && i < j < |order| && order[i] in s.pix && order[j] in s.pix
    requires forall i, k :: 0 <= i < k < |order| ==> order[i] != order[k]
    requires Texel(s.w, s.h, order[j], dx, dy) == order[i]
    requires var from := Texel(s.w, s.h, order[i], dx, dy); from in s.pix && from !in order
    ensures var r := Walk(s, order, dx, dy, TakeSource);
            order[j] in r.pix && r.pix[order[j]] == s.pix[Texel(s.w, s.h, order[i], dx, dy)]
  {
    WalkAt(s, order, dx, dy, TakeSource, j);
    var before := order[..j];
    assert before[i] == order[i] && before[..i] == order[..i];
    WalkAt(s, before, dx, dy, TakeSource, i);
    WalkLeaves(s, order[..i], dx, dy, TakeSource, Texel(s.w, s.h, order[i], dx, dy));
  }

  function TakeSource(s: Pixel, d: Pixel): Pixel { s }

  /** A corner of the destination whose own source lies outside it. */
  function ExposedCorner(b: Blit): Point {
    var a := b.Area(b.h);
    Point(if b.dstX >= b.srcX then a.x else a.x + a.w - 1, if b.dstY >= b.srcY then a.y else a.y + a.h - 1)
  }

  lemma CornerComesFirst(b: Blit) returns (i: nat, j: nat)
    requires SharesCells(b) && !DirectionSuits(b)
    ensures var a, order := ExposedCorner(b), b.Rows(b.h);
            && i < j < |order| && order[i] == a && order[j] == Point(a.x + (b.dstX - b.srcX), a.y + (b.dstY - b.srcY))
            && Point(a.x - (b.dstX - b.srcX), a.y - (b.dstY - b.srcY)) !in order
            && forall i, k :: 0 <= i < k < |order| ==> order[i] != order[k]
  {
    var order, a := b.Rows(b.h), ExposedCorner(b);
    var e := Point(a.x + (b.dstX - b.srcX), a.y + (b.dstY - b.srcY));
    RowsSpec(b, b.h);
    assert b.Area(b.h).Has(a) && b.Area(b.h).Has(e);
    i :| i < |order| && order[i] == a;
    j :| j < |order| && order[j] == e;
    if j < i {
      assert false;
    }
    forall i, k | 0 <= i < k < |order| ensures order[i] != order[k] {
      assert b.Before(order[i], order[k]);
    }
  }

  /** A walk in the wrong direction over a rectangle that overlaps its source reads back
      a pixel it has already drawn: on an image with one differing pixel it shows. */
  lemma UnsuitableIsNotCopyArea(iw: nat, ih: nat, b: Blit) returns (s: Image)
    requires SharesCells(b) && !DirectionSuits(b)
    requires Fits(iw, ih, SourceArea(b)) && Fits(iw, ih, b.Area(b.h))
    ensures s.Valid() && s.w == iw && s.h == ih && !WalksAsCopyArea(s, b, TakeSource)
  {
    var order, dx, dy, a := b.Rows(b.h), b.dstX - b.srcX, b.dstY - b.srcY, ExposedCorner(b);
    var e := Point(a.x + dx, a.y + dy);
    var i, j := CornerComesFirst(b);
    s := OneSpot(iw, ih, Point(a.x - dx, a.y - dy));
    CornersInside(iw, ih, b);
    ReadsBack(s, order, dx, dy, i, j);
    assert !DrawnAt(s, s, Walk(s, order, dx, dy, TakeSource), Cells(b.Area(b.h)), dx, dy, TakeSource, e);
  }

  /** The corner, its source and the cell that reads it, as texels. */
  lemma CornersInside(iw: nat, ih: nat, b: Blit)
    requires SharesCells(b) && Fits(iw, ih, SourceArea(b)) && Fits(iw, ih, b.Area(b.h))
    ensures var a, dx, dy := ExposedCorner(b), b.dstX - b.srcX, b.dstY - b.srcY;
            var from, e := Point(a.x - dx, a.y - dy), Point(a.x + dx, a.y + dy);
            && 0 <= from.x < iw && 0 <= from.y < ih && 0 <= a.x < iw && 0 <= a.y < ih && 0 <= e.x < iw && 0 <= e.y < ih
            && Texel(iw, ih, a, dx, dy) == from && Texel(iw, ih, e, dx, dy) == a && b.Area(b.h).Has(e)
  {
  }

  /** An image that is clear but for one pixel. */
  function OneSpot(iw: nat, ih: nat, spot: Point): (r: Image)
    ensures r.Valid() && forall p, q :: p in r.pix && q in r.pix && (p == spot) != (q == spot) ==> r.pix[p] != r.pix[q]
  {
    var all := set x, y | 0 <= x < iw && 0 <= y < ih :: Point(x, y);
    var clear, full := Pixel(seq(32, k => false)), Pixel(seq(32, k => true));
    assert clear.bits[0] != full.bits[0];
    Image(iw, ih, map p | p in all :: if p == spot then full else clear)
  }

  predicate Fits(iw: nat, ih: nat, r: Rect) {
    0 <= r.x && r.x + r.w <= iw && 0 <= r.y && r.y + r.h <= ih
  }

  /** The directions that work are exactly the suitable ones, unless nothing is shared. */
  lemma DirectedCopyIff(iw: nat, ih: nat, b: Blit)
    requires Fits(iw, ih, SourceArea(b)) && Fits(iw, ih, b.Area(b.h))
    ensures (forall s: Image, rop: Rop | s.Valid() && s.w == iw && s.h == ih :: WalksAsCopyArea(s, b, rop))
       <==> DirectionSuits(b) || !SharesCells(b)
  {
    if DirectionSuits(b) || !SharesCells(b) {
      forall s: Image, rop: Rop | s.Valid() && s.w == iw && s.h == ih
        ensures WalksAsCopyArea(s, b, rop)
      {
        SuitableIsCopyArea(s, b, rop);
      }
    } else {
      var s := UnsuitableIsNotCopyArea(iw, ih, b);
    }
  }
}
