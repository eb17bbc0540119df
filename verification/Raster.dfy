/** The abstract GPU's view of memory: rectangular images of pixels, and the
    effect of drawing a textured rectangle over a set of cells. */
module Raster {

  /** 32 bits, least significant first: blue, green, red, alpha. */
  type Bits = s: seq<bool> | |s| == 32 witness seq(32, i => false)

  datatype Pixel = Pixel(bits: Bits)

  datatype Point = Point(x: int, y: int)

  /** A half-open rectangle: it holds the points with x <= p.x < x + w and y <= p.y < y + h. */
  datatype Rect = Rect(x: int, y: int, w: int, h: int) {
    predicate Has(p: Point) {
      x <= p.x < x + w && y <= p.y < y + h
    }
  }

  /** A raster operation takes the source and the old destination pixel. */
  type Rop = (Pixel, Pixel) -> Pixel

  function Clamp(v: int, lo: int, hi: int): int {
    if v < lo then lo else if v > hi then hi else v
  }

  /** The texel of a w by h texture read for cell p of a draw displaced by (dx, dy):
      coordinates outside the texture take the last texel of their row or column. */
  function Texel(w: nat, h: nat, p: Point, dx: int, dy: int): Point {
    Point(Clamp(p.x - dx, 0, w - 1), Clamp(p.y - dy, 0, h - 1))
  }

  datatype Image = Image(w: nat, h: nat, pix: map<Point, Pixel>) {
    ghost predicate Valid() {
      forall p :: p in pix <==> InRange(p)
    }

    predicate InRange(p: Point) {
      0 <= p.x < w && 0 <= p.y < h
    }

    predicate Inside(r: Rect) {
      0 <= r.x && r.x + r.w <= w && 0 <= r.y && r.y + r.h <= h
    }
  }

  ghost function Cells(r: Rect): iset<Point> {
    iset p: Point | r.Has(p)
  }

  ghost predicate SameSize(a: Image, b: Image) {
    a.Valid() && b.Valid() && a.w == b.w && a.h == b.h
  }

  /** `after` is `onto` with every cell of `cells` drawn at once: cell p becomes
      rop(texel of `from` displaced by (dx, dy), old p). Cells outside the image are clipped. */
  ghost predicate Drawn(from: Image, onto: Image, after: Image, cells: iset<Point>, dx: int, dy: int, rop: Rop) {
    && SameSize(from, onto) && SameSize(onto, after)
    && forall p {:trigger DrawnAt(from, onto, after, cells, dx, dy, rop, p)} ::
         p in onto.pix ==> DrawnAt(from, onto, after, cells, dx, dy, rop, p)
  }

  ghost predicate DrawnAt(from: Image, onto: Image, after: Image, cells: iset<Point>, dx: int, dy: int, rop: Rop,
                          p: Point)
    requires SameSize(from, onto) && SameSize(onto, after) && p in onto.pix
  {
    after.pix[p] == if p in cells then rop(from.pix[Texel(from.w, from.h, p, dx, dy)], onto.pix[p]) else onto.pix[p]
  }

  lemma DrawnUnique(from: Image, onto: Image, a: Image, b: Image, cells: iset<Point>, dx: int, dy: int, rop: Rop)
    requires Drawn(from, onto, a, cells, dx, dy, rop) && Drawn(from, onto, b, cells, dx, dy, rop)
    ensures a == b
  {
    forall p | p in onto.pix
      ensures a.pix[p] == b.pix[p]
    {
      assert DrawnAt(from, onto, a, cells, dx, dy, rop, p) && DrawnAt(from, onto, b, cells, dx, dy, rop, p);
    }
    assert a.pix == b.pix;
  }

  /** In a w by h image, no cell drawn reads one of the cells in `written`. */
  ghost predicate ReadsAvoid(w: nat, h: nat, cells: iset<Point>, written: iset<Point>, dx: int, dy: int) {
    forall p {:trigger Texel(w, h, p, dx, dy)} ::
      p in cells && 0 <= p.x < w && 0 <= p.y < h ==> Texel(w, h, p, dx, dy) !in written
  }

  /** Two draws compose into one when the second neither redraws nor reads what the first drew. */
  lemma DrawnCompose(s: Image, m: Image, r: Image, first: iset<Point>, second: iset<Point>, all: iset<Point>,
                     dx: int, dy: int, rop: Rop)
    requires Drawn(s, s, m, first, dx, dy, rop) && Drawn(m, m, r, second, dx, dy, rop)
    requires all == first + second
    requires forall p :: p in s.pix ==> !(p in first && p in second)
    requires ReadsAvoid(s.w, s.h, second, first, dx, dy)
    ensures Drawn(s, s, r, all, dx, dy, rop)
  {
    forall p | p in s.pix
      ensures DrawnAt(s, s, r, all, dx, dy, rop, p)
    {
      assert DrawnAt(s, s, m, first, dx, dy, rop, p) && DrawnAt(m, m, r, second, dx, dy, rop, p);
      if p in second {
        assert DrawnAt(s, s, m, first, dx, dy, rop, Texel(s.w, s.h, p, dx, dy));
      }
    }
  }

  /** Draw one cell. */
  function DrawCell(s: Image, p: Point, dx: int, dy: int, rop: Rop): (r: Image)
    requires s.Valid()
    ensures r.Valid() && r.w == s.w && r.h == s.h
  {
    if p in s.pix then s.(pix := s.pix[p := rop(s.pix[Texel(s.w, s.h, p, dx, dy)], s.pix[p])]) else s
  }

  /** The image after drawing the cells of `order` one by one, each reading the
      image as the earlier ones left it. */
  function Walk(s: Image, order: seq<Point>, dx: int, dy: int, rop: Rop): (r: Image)
    requires s.Valid()
    ensures r.Valid() && r.w == s.w && r.h == s.h
  {
    if order == [] then s
    else DrawCell(Walk(s, order[..|order| - 1], dx, dy, rop), order[|order| - 1], dx, dy, rop)
  }

  /** Each cell is visited once and no step reads a cell an earlier step wrote. */
  ghost predicate ReadsBeforeWrites(s: Image, order: seq<Point>, dx: int, dy: int)
    requires s.Valid()
  {
    forall i, j :: 0 <= i < j < |order| && order[j] in s.pix ==>
      order[i] != order[j] && Texel(s.w, s.h, order[j], dx, dy) != order[i]
  }

  /** A pixel-by-pixel walk equals the simultaneous draw of its cells when it
      reads every cell before overwriting it. */
  lemma {:induction false} WalkDraws(s: Image, order: seq<Point>, dx: int, dy: int, rop: Rop)
    requires s.Valid() && ReadsBeforeWrites(s, order, dx, dy)
    ensures Drawn(s, s, Walk(s, order, dx, dy, rop), (iset p: Point | p in order), dx, dy, rop)
  {
    var all := iset p: Point | p in order;
    if order != [] {
      var n := |order| - 1;
      var front := iset p: Point | p in order[..n];
      WalkDraws(s, order[..n], dx, dy, rop);
      assert order == order[..n] + [order[n]];
      var m := Walk(s, order[..n], dx, dy, rop);
      forall p | p in s.pix
        ensures DrawnAt(s, s, Walk(s, order, dx, dy, rop), all, dx, dy, rop, p)
      {
        assert DrawnAt(s, s, m, front, dx, dy, rop, p);
        if p == order[n] {
          assert p !in order[..n] && Texel(s.w, s.h, p, dx, dy) !in order[..n];
          assert DrawnAt(s, s, m, front, dx, dy, rop, Texel(s.w, s.h, p, dx, dy));
        }
      }
    }
  }

  /** The hardware gives no order for the pixels of one rectangle. When the texels
      read lie outside the cells drawn, every order gives the same image: this is
      the condition under which a blit is defined. */
  lemma AnyOrderDraws(s: Image, order: seq<Point>, r: Rect, dx: int, dy: int, rop: Rop)
    requires s.Valid() && (forall p :: p in order <==> r.Has(p))
    requires forall i, j :: 0 <= i < j < |order| ==> order[i] != order[j]
    requires ReadsAvoid(s.w, s.h, Cells(r), Cells(r), dx, dy)
    ensures Drawn(s, s, Walk(s, order, dx, dy, rop), Cells(r), dx, dy, rop)
  {
    forall i, j | 0 <= i < j < |order| && order[j] in s.pix
      ensures Texel(s.w, s.h, order[j], dx, dy) != order[i]
    {
      assert order[j] in Cells(r) && order[i] in Cells(r);
    }
    WalkDraws(s, order, dx, dy, rop);
    assert (iset p: Point | p in order) == Cells(r);
  }
}
