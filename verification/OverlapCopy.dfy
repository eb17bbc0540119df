/** Copying a rectangle onto an overlapping rectangle of the same surface on R6xx.
    The 3D engine may not read what the same rectangle draws, so the driver cuts
    the copy into blits whose sources and destinations are disjoint. */
module OverlapCopy {
  import opened Arith
  import opened Raster

  function Abs(v: int): nat { if v < 0 then -v else v }

  /** The four corners of the closed source rectangle against the closed destination rectangle. */
  predicate IsOverlap(sx1: int, sx2: int, sy1: int, sy2: int, dx1: int, dx2: int, dy1: int, dy2: int) {
    || (sx1 >= dx1 && sx1 <= dx2 && sy1 >= dy1 && sy1 <= dy2)
    || (sx2 >= dx1 && sx2 <= dx2 && sy1 >= dy1 && sy1 <= dy2)
    || (sx1 >= dx1 && sx1 <= dx2 && sy2 >= dy1 && sy2 <= dy2)
    || (sx2 >= dx1 && sx2 <= dx2 && sy2 >= dy1 && sy2 <= dy2)
  }

  predicate Overlaps(srcX: int, srcY: int, dstX: int, dstY: int, w: int, h: int) {
    IsOverlap(srcX, srcX + w, srcY, srcY + h, dstX, dstX + w, dstY, dstY + h)
  }

  /** For two rectangles of one size the corner test is complete: it finds every
      pair that shares a cell, and beyond those only pairs that touch. */
  lemma OverlapTestComplete(srcX: int, srcY: int, dstX: int, dstY: int, w: nat, h: nat)
    ensures Overlaps(srcX, srcY, dstX, dstY, w, h) <==> Abs(dstX - srcX) <= w && Abs(dstY - srcY) <= h
    ensures (exists p :: Rect(srcX, srcY, w, h).Has(p) && Rect(dstX, dstY, w, h).Has(p))
       <==> Abs(dstX - srcX) < w && Abs(dstY - srcY) < h
  {
    if Abs(dstX - srcX) < w && Abs(dstY - srcY) < h {
      var p := Point(if srcX < dstX then dstX else srcX, if srcY < dstY then dstY else srcY);
      assert Rect(srcX, srcY, w, h).Has(p) && Rect(dstX, dstY, w, h).Has(p);
    }
  }

  /** Whether the decomposition ends in the left/right loop, either because the
      offset is horizontal or because a diagonal offset is reduced to one. */
  predicate GoesSideways(srcX: int, srcY: int, dstX: int, dstY: int, w: nat, h: nat) {
    var hchunk, vchunk := Abs(dstX - srcX), Abs(dstY - srcY);
    && Overlaps(srcX, srcY, dstX, dstY, w, h)
    && hchunk != 0
    && (vchunk == 0 || w / hchunk <= h / vchunk)
  }

  /** How many chunks it takes to cover w. */
  function Chunks(w: nat, chunk: nat): nat
    requires chunk > 0
  {
    if w == 0 then 0 else if w <= chunk then 1 else 1 + Chunks(w - chunk, chunk)
  }

  /** How far past w the last of those chunks reaches. */
  function Excess(w: nat, chunk: nat): nat
    requires chunk > 0
  {
    if w == 0 then 0 else if w <= chunk then chunk - w else Excess(w - chunk, chunk)
  }

  /** The chunks end flush exactly when the chunk size divides w. */
  lemma {:induction false} ChunksAndExcess(w: nat, chunk: nat)
    requires chunk > 0
    ensures Chunks(w, chunk) == w / chunk + (if w % chunk == 0 then 0 else 1)
    ensures Excess(w, chunk) == if w % chunk == 0 then 0 else chunk - w % chunk
  {
    if w > chunk {
      ChunksAndExcess(w - chunk, chunk);
      DivModStep(w, chunk);
    } else if w == chunk {
      DivModStep(w, chunk);
    }
  }

  lemma DivModStep(w: nat, chunk: nat)
    requires 0 < chunk <= w
    ensures w / chunk == (w - chunk) / chunk + 1 && w % chunk == (w - chunk) % chunk
  {
    var q, r := (w - chunk) / chunk, (w - chunk) % chunk;
    assert w == (q + 1) * chunk + r;
    DivUnique(w, chunk, q + 1, r);
  }

  /** The cells beside the destination that the left/right loops also draw: they
      do not shorten the last chunk. Empty when the loops end flush. */
  function Overrun(srcX: int, srcY: int, dstX: int, dstY: int, w: nat, h: nat): (r: Rect)
    ensures forall p :: r.Has(p) ==> !Rect(dstX, dstY, w, h).Has(p)
  {
    if !GoesSideways(srcX, srcY, dstX, dstY, w, h) then Rect(dstX, dstY, 0, 0)
    else
      var vchunk := Abs(dstY - srcY);
      var over := Excess(w, Abs(dstX - srcX));
      Rect(if srcX < dstX then dstX - over else dstX + w,
           if srcY > dstY then dstY + vchunk else dstY,
           over, h - vchunk)
  }

  /** What a copy leaves behind: the destination and the overrun beside it drawn at once from `before`. */
  ghost predicate Copied(before: Image, after: Image, srcX: int, srcY: int, dstX: int, dstY: int, w: nat, h: nat,
                         rop: Rop) {
    Drawn(before, before, after, Cells(Rect(dstX, dstY, w, h)) + Cells(Overrun(srcX, srcY, dstX, dstY, w, h)),
          dstX - srcX, dstY - srcY, rop)
  }

  /** The number of blits the decomposition issues. */
  function BlitCount(srcX: int, srcY: int, dstX: int, dstY: int, w: nat, h: nat): nat {
    var hchunk, vchunk := Abs(dstX - srcX), Abs(dstY - srcY);
    if !Overlaps(srcX, srcY, dstX, dstY, w, h) || (hchunk == 0 && vchunk == 0) then
      1
    else
      var peel := if hchunk != 0 && vchunk != 0 then 1 else 0;
      peel + if GoesSideways(srcX, srcY, dstX, dstY, w, h) then Chunks(w, hchunk) else Chunks(h, vchunk)
  }

  /** The next chunk of a copy made of columns: it borders what is drawn so far on the
      side away from the destination's offset, is no wider than that offset, and stays off the image's
      far edge, so that clamped reads miss it too. */
  ghost predicate ColumnStep(s: Image, drawn: Rect, next: Rect, dx: int) {
    && drawn.y == next.y && drawn.h == next.h && next.w >= 0 && drawn.w >= 0
    && ((dx > 0 && next.x + next.w == drawn.x && next.w <= dx && next.x > 0)
        || (dx < 0 && drawn.x + drawn.w == next.x && next.w <= -dx && next.x + next.w < s.w))
  }

  ghost predicate RowStep(s: Image, drawn: Rect, next: Rect, dy: int) {
    && drawn.x == next.x && drawn.w == next.w && next.h >= 0 && drawn.h >= 0
    && ((dy > 0 && next.y + next.h == drawn.y && next.h <= dy && next.y > 0)
        || (dy < 0 && drawn.y + drawn.h == next.y && next.h <= -dy && next.y + next.h < s.h))
  }

  function BesideEachOther(a: Rect, b: Rect): Rect {
    Rect(Min(a.x, b.x), b.y, a.w + b.w, b.h)
  }

  function Stacked(a: Rect, b: Rect): Rect {
    Rect(b.x, Min(a.y, b.y), b.w, a.h + b.h)
  }

  lemma ColumnStepClear(s: Image, drawn: Rect, next: Rect, dx: int, dy: int)
    requires ColumnStep(s, drawn, next, dx)
    ensures ReadsAvoid(s.w, s.h, Cells(next), Cells(next), dx, dy)
        && ReadsAvoid(s.w, s.h, Cells(next), Cells(drawn), dx, dy)
    ensures Cells(BesideEachOther(drawn, next)) == Cells(drawn) + Cells(next)
    ensures forall p :: !(drawn.Has(p) && next.Has(p))
  {
  }

  lemma RowStepClear(s: Image, drawn: Rect, next: Rect, dx: int, dy: int)
    requires RowStep(s, drawn, next, dy)
    ensures ReadsAvoid(s.w, s.h, Cells(next), Cells(next), dx, dy)
        && ReadsAvoid(s.w, s.h, Cells(next), Cells(drawn), dx, dy)
    ensures Cells(Stacked(drawn, next)) == Cells(drawn) + Cells(next)
    ensures forall p :: !(drawn.Has(p) && next.Has(p))
  {
  }

  /** What the loops draw for an offset taken along one axis. */
  ghost function StraightArea(srcX: int, dstX: int, dstY: int, w: nat, h: nat, hchunk: nat, vchunk: nat): Rect
    requires vchunk == 0 ==> hchunk > 0
  {
    if vchunk != 0 then Rect(dstX, dstY, w, h)
    else
      var over := Excess(w, hchunk);
      Rect(if srcX < dstX then dstX - over else dstX, dstY, w + over, h)
  }

  /** The cells a copy draws, without the sum, in the cases that peel no rows. */
  lemma AreaSplit(srcX: int, srcY: int, dstX: int, dstY: int, w: nat, h: nat)
    ensures var dst, over := Rect(dstX, dstY, w, h), Overrun(srcX, srcY, dstX, dstY, w, h);
            && (over.w == 0 ==> Cells(dst) + Cells(over) == Cells(dst))
            && (srcY == dstY && GoesSideways(srcX, srcY, dstX, dstY, w, h) ==>
                  Cells(dst) + Cells(over) == Cells(StraightArea(srcX, dstX, dstY, w, h, Abs(dstX - srcX), 0)))
  {
  }

  /** The remaining rows neither redraw nor read the peeled strip. */
  lemma RowPeelClear(iw: nat, ih: nat, srcX: int, srcY: int, dstX: int, dstY: int, w: nat, h: nat, over: nat)
    requires 0 <= srcY && srcY + h <= ih && 0 < Abs(dstY - srcY) <= h
    ensures var v := Abs(dstY - srcY);
            var x := if srcX < dstX then dstX - over else dstX;
            var peel := Rect(dstX, if srcY > dstY then dstY else dstY + h - v, w, v);
            var rest := Rect(x, if srcY > dstY then dstY + v else dstY, w + over, h - v);
            var beside := Rect(if srcX < dstX then dstX - over else dstX + w, rest.y, over, h - v);
            && ReadsAvoid(iw, ih, Cells(rest), Cells(peel), dstX - srcX, dstY - srcY)
            && (forall p :: !(peel.Has(p) && rest.Has(p)))
            && Cells(Rect(dstX, dstY, w, h)) + Cells(beside) == Cells(peel) + Cells(rest)
  {
  }

  lemma ColumnPeelClear(iw: nat, ih: nat, srcX: int, srcY: int, dstX: int, dstY: int, w: nat, h: nat)
    requires 0 <= srcX && srcX + w <= iw && 0 < Abs(dstX - srcX) <= w
    ensures var c := Abs(dstX - srcX);
            var peel := Rect(if srcX > dstX then dstX else dstX + w - c, dstY, c, h);
            var rest := Rect(if srcX > dstX then dstX + c else dstX, dstY, w - c, h);
            && ReadsAvoid(iw, ih, Cells(rest), Cells(peel), dstX - srcX, dstY - srcY)
            && (forall p :: !(peel.Has(p) && rest.Has(p)))
            && Cells(Rect(dstX, dstY, w, h)) == Cells(peel) + Cells(rest)
  {
  }

  /** One surface of the R6xx engine with the state of a prepared copy. */
  class CopyEngine {
    var image: Image
    const rop: Rop
    /** The destination rectangles of the blits issued so far. */
    var blits: seq<Rect>

    constructor (image: Image, rop: Rop)
      ensures this.image == image && this.rop == rop && blits == []
    {
      this.image, this.rop, blits := image, rop, [];
    }

    /** Prepare, append one rectangle, draw. Defined only when no pixel drawn is
        a texel read; the engine draws the pixels in an order of its own. */
    method Blit(srcX: int, srcY: int, dstX: int, dstY: int, w: nat, h: nat)
      requires image.Valid()
      requires ReadsAvoid(image.w, image.h, Cells(Rect(dstX, dstY, w, h)), Cells(Rect(dstX, dstY, w, h)), dstX - srcX,
                          dstY - srcY)
      modifies this`image, this`blits
      ensures Drawn(old(image), old(image), image, Cells(Rect(dstX, dstY, w, h)), dstX - srcX, dstY - srcY, rop)
      ensures blits == old(blits) + [Rect(dstX, dstY, w, h)]
    {
      var r := Rect(dstX, dstY, w, h);
      var drawn := map p | p in image.pix ::
        if r.Has(p) then rop(image.pix[Texel(image.w, image.h, p, dstX - srcX, dstY - srcY)], image.pix[p])
        else image.pix[p];
      image := Image(image.w, image.h, drawn);
      blits := blits + [r];
    }

    /** Prepare with another surface as the texture, append one rectangle, draw. */
    method BlitFrom(src: CopyEngine, srcX: int, srcY: int, dstX: int, dstY: int, w: nat, h: nat)
      requires src != this && SameSize(src.image, image)
      modifies this`image, this`blits
      ensures Drawn(src.image, old(image), image, Cells(Rect(dstX, dstY, w, h)), dstX - srcX, dstY - srcY, rop)
      ensures blits == old(blits) + [Rect(dstX, dstY, w, h)]
    {
      var r, from := Rect(dstX, dstY, w, h), src.image;
      var drawn := map p | p in image.pix ::
        if r.Has(p) then rop(from.pix[Texel(from.w, from.h, p, dstX - srcX, dstY - srcY)], image.pix[p])
        else image.pix[p];
      image := Image(image.w, image.h, drawn);
      blits := blits + [r];
    }

    /** Blit a chunk of columns next to those already drawn from image s. */
    method BlitColumns(srcX: int, srcY: int, next: Rect, ghost s: Image, ghost drawn: Rect, ghost all: Rect)
      requires all == BesideEachOther(drawn, next)
      requires Drawn(s, s, image, Cells(drawn), next.x - srcX, next.y - srcY, rop)
      requires ColumnStep(s, drawn, next, next.x - srcX) && next.h >= 0
      modifies this`image, this`blits
      ensures Drawn(s, s, image, Cells(all), next.x - srcX, next.y - srcY, rop)
      ensures blits == old(blits) + [next]
    {
      ghost var m := image;
      ColumnStepClear(s, drawn, next, next.x - srcX, next.y - srcY);
      Blit(srcX, srcY, next.x, next.y, next.w, next.h);
      DrawnCompose(s, m, image, Cells(drawn), Cells(next), Cells(all), next.x - srcX, next.y - srcY, rop);
    }

    /** Blit a chunk of rows next to those already drawn from image s. */
    method BlitRows(srcX: int, srcY: int, next: Rect, ghost s: Image, ghost drawn: Rect, ghost all: Rect)
      requires all == Stacked(drawn, next)
      requires Drawn(s, s, image, Cells(drawn), next.x - srcX, next.y - srcY, rop)
      requires RowStep(s, drawn, next, next.y - srcY) && next.w >= 0
      modifies this`image, this`blits
      ensures Drawn(s, s, image, Cells(all), next.x - srcX, next.y - srcY, rop)
      ensures blits == old(blits) + [next]
    {
      ghost var m := image;
      RowStepClear(s, drawn, next, next.x - srcX, next.y - srcY);
      Blit(srcX, srcY, next.x, next.y, next.w, next.h);
      DrawnCompose(s, m, image, Cells(drawn), Cells(next), Cells(all), next.x - srcX, next.y - srcY, rop);
    }

    /** dst right of src: whole chunks from the right edge leftwards. */
    method CopyRightToLeft(srcX: int, srcY: int, dstX: int, dstY: int, w: nat, h: nat, hchunk: nat)
      requires image.Valid() && 0 <= srcX && hchunk > 0 && dstX == srcX + hchunk
      modifies this`image, this`blits
      ensures var over := Excess(w, hchunk);
              Drawn(old(image), old(image), image, Cells(Rect(dstX - over, dstY, w + over, h)), dstX - srcX,
                    dstY - srcY, rop)
      ensures |blits| == |old(blits)| + Chunks(w, hchunk)
    {
      var i: int := w;
      ghost var s, done := image, Rect(dstX + w, dstY, 0, h);
      while i > 0
        invariant i <= w && if i > 0 then Excess(i, hchunk) == Excess(w, hchunk) else i + Excess(w, hchunk) == 0
        invariant done == Rect(dstX + i, dstY, w - i, h)
        invariant Drawn(s, s, image, Cells(done), dstX - srcX, dstY - srcY, rop)
        invariant |blits| + (if i > 0 then Chunks(i, hchunk) else 0) == |old(blits)| + Chunks(w, hchunk)
      {
        BlitColumns(srcX + i - hchunk, srcY, Rect(dstX + i - hchunk, dstY, hchunk, h), s,
                    done, Rect(dstX + i - hchunk, dstY, w - (i - hchunk), h));
        done := Rect(dstX + i - hchunk, dstY, w - (i - hchunk), h);
        i := i - hchunk;
      }
    }

    /** dst left of src: whole chunks from the left edge rightwards. */
    method CopyLeftToRight(srcX: int, srcY: int, dstX: int, dstY: int, w: nat, h: nat, hchunk: nat)
      requires image.Valid() && srcX + w <= image.w && hchunk > 0 && dstX == srcX - hchunk
      modifies this`image, this`blits
      ensures Drawn(old(image), old(image), image, Cells(Rect(dstX, dstY, w + Excess(w, hchunk), h)), dstX - srcX,
                    dstY - srcY, rop)
      ensures |blits| == |old(blits)| + Chunks(w, hchunk)
    {
      var i := 0;
      ghost var s, done := image, Rect(dstX, dstY, 0, h);
      while i < w
        invariant 0 <= i && if i < w then Excess(w - i, hchunk) == Excess(w, hchunk) else i - w == Excess(w, hchunk)
        invariant done == Rect(dstX, dstY, i, h)
        invariant Drawn(s, s, image, Cells(done), dstX - srcX, dstY - srcY, rop)
        invariant |blits| + (if i < w then Chunks(w - i, hchunk) else 0) == |old(blits)| + Chunks(w, hchunk)
      {
        BlitColumns(srcX + i, srcY, Rect(dstX + i, dstY, hchunk, h), s,
                    done, Rect(dstX, dstY, i + hchunk, h));
        done := Rect(dstX, dstY, i + hchunk, h);
        i := i + hchunk;
      }
    }

    /** dst above src: chunks from the top down, the last one shortened. */
    method CopyTopToBottom(srcX: int, srcY: int, dstX: int, dstY: int, w: nat, h: nat, chunkRows: nat)
      requires image.Valid() && 0 <= srcY && srcY + h <= image.h && chunkRows > 0 && dstY == srcY - chunkRows
      modifies this`image, this`blits
      ensures Drawn(old(image), old(image), image, Cells(Rect(dstX, dstY, w, h)), dstX - srcX, dstY - srcY, rop)
      ensures |blits| == |old(blits)| + Chunks(h, chunkRows)
    {
      var i, vchunk := 0, chunkRows;
      ghost var s, done := image, Rect(dstX, dstY, w, 0);
      while i < h
        invariant 0 <= i <= h && (i < h ==> vchunk == chunkRows)
        invariant done == Rect(dstX, dstY, w, i)
        invariant Drawn(s, s, image, Cells(done), dstX - srcX, dstY - srcY, rop)
        invariant |blits| + Chunks(h - i, chunkRows) == |old(blits)| + Chunks(h, chunkRows)
      {
        if vchunk > h - i {
          vchunk := h - i;
        }
        BlitRows(srcX, srcY + i, Rect(dstX, dstY + i, w, vchunk), s,
                 done, Rect(dstX, dstY, w, i + vchunk));
        done := Rect(dstX, dstY, w, i + vchunk);
        i := i + vchunk;
      }
    }

    /** dst below src: chunks from the bottom up, the last one shortened. */
    method CopyBottomToTop(srcX: int, srcY: int, dstX: int, dstY: int, w: nat, h: nat, chunkRows: nat)
      requires image.Valid() && 0 <= srcY && srcY + h <= image.h && chunkRows > 0 && dstY == srcY + chunkRows
      modifies this`image, this`blits
      ensures Drawn(old(image), old(image), image, Cells(Rect(dstX, dstY, w, h)), dstX - srcX, dstY - srcY, rop)
      ensures |blits| == |old(blits)| + Chunks(h, chunkRows)
    {
      var i, vchunk := h, chunkRows;
      ghost var s, done := image, Rect(dstX, dstY + h, w, 0);
      while i > 0
        invariant 0 <= i <= h && (i > 0 ==> vchunk == chunkRows)
        invariant done == Rect(dstX, dstY + i, w, h - i)
        invariant Drawn(s, s, image, Cells(done), dstX - srcX, dstY - srcY, rop)
        invariant |blits| + Chunks(i, chunkRows) == |old(blits)| + Chunks(h, chunkRows)
      {
        if vchunk > i {
          vchunk := i;
        }
        BlitRows(srcX, srcY + i - vchunk, Rect(dstX, dstY + i - vchunk, w, vchunk), s,
                 done, Rect(dstX, dstY + i - vchunk, w, h - (i - vchunk)));
        done := Rect(dstX, dstY + i - vchunk, w, h - (i - vchunk));
        i := i - vchunk;
      }
    }

    /** The four loops, for an offset taken along one axis: along x when vchunk is 0. */
    method CopyStraight(srcX: int, srcY: int, dstX: int, dstY: int, w: nat, h: nat, hchunk: nat, vchunk: nat)
      requires image.Valid() && image.Inside(Rect(srcX, srcY, w, h))
      requires if vchunk == 0 then hchunk == Abs(dstX - srcX) > 0 else vchunk == Abs(dstY - srcY)
      modifies this`image, this`blits
      ensures Drawn(old(image), old(image), image, Cells(StraightArea(srcX, dstX, dstY, w, h, hchunk, vchunk)),
                    dstX - srcX, dstY - srcY, rop)
      ensures |blits| == |old(blits)| + if vchunk == 0 then Chunks(w, hchunk) else Chunks(h, vchunk)
    {
      if vchunk == 0 {
        if srcX < dstX {
          CopyRightToLeft(srcX, srcY, dstX, dstY, w, h, hchunk);
        } else {
          CopyLeftToRight(srcX, srcY, dstX, dstY, w, h, hchunk);
        }
      } else {
        if srcY > dstY {
          CopyTopToBottom(srcX, srcY, dstX, dstY, w, h, vchunk);
        } else {
          CopyBottomToTop(srcX, srcY, dstX, dstY, w, h, vchunk);
        }
      }
    }

    /** Copy the strip of rows that lies outside the source, and give the rows that remain. */
    method PeelRows(srcX: int, srcY: int, dstX: int, dstY: int, w: nat, h: nat, vchunk: nat) returns (sy: int, dy: int)
      requires image.Valid() && image.Inside(Rect(srcX, srcY, w, h)) && 0 < vchunk == Abs(dstY - srcY) <= h
      modifies this`image, this`blits
      ensures dy == (if srcY > dstY then dstY + vchunk else dstY) && dy - sy == dstY - srcY
      ensures Drawn(old(image), old(image), image,
                    Cells(Rect(dstX, if srcY > dstY then dstY else dstY + h - vchunk, w, vchunk)), dstX - srcX,
                    dstY - srcY, rop)
      ensures |blits| == |old(blits)| + 1
    {
      sy, dy := srcY, dstY;
      if srcY > dstY {
        Blit(srcX, srcY, dstX, dstY, w, vchunk);
        sy, dy := sy + vchunk, dy + vchunk;
      } else {
        Blit(srcX, srcY + h - vchunk, dstX, dstY + h - vchunk, w, vchunk);
      }
    }

    /** Copy the strip of columns that lies outside the source, and give the columns that remain. */
    method PeelColumns(srcX: int, srcY: int, dstX: int, dstY: int, w: nat, h: nat, hchunk: nat)
        returns (sx: int, dx: int)
      requires image.Valid() && image.Inside(Rect(srcX, srcY, w, h)) && 0 < hchunk == Abs(dstX - srcX) <= w
      modifies this`image, this`blits
      ensures dx == (if srcX > dstX then dstX + hchunk else dstX) && dx - sx == dstX - srcX
      ensures Drawn(old(image), old(image), image,
                    Cells(Rect(if srcX > dstX then dstX else dstX + w - hchunk, dstY, hchunk, h)), dstX - srcX,
                    dstY - srcY, rop)
      ensures |blits| == |old(blits)| + 1
    {
      sx, dx := srcX, dstX;
      if srcX > dstX {
        Blit(srcX, srcY, dstX, dstY, hchunk, h);
        sx, dx := sx + hchunk, dx + hchunk;
      } else {
        Blit(srcX + w - hchunk, srcY, dstX + w - hchunk, dstY, hchunk, h);
      }
    }

    /** A diagonal offset reduced to a horizontal one. */
    method CopyReducedToHorizontal(srcX: int, srcY: int, dstX: int, dstY: int, w: nat, h: nat, hchunk: nat, vchunk: nat)
      requires image.Valid() && image.Inside(Rect(srcX, srcY, w, h))
      requires 0 < hchunk == Abs(dstX - srcX) && 0 < vchunk == Abs(dstY - srcY) <= h
      modifies this`image, this`blits
      ensures var over := Excess(w, hchunk);
              var beside := Rect(if srcX < dstX then dstX - over else dstX + w,
                                 if srcY > dstY then dstY + vchunk else dstY, over, h - vchunk);
              Drawn(old(image), old(image), image, Cells(Rect(dstX, dstY, w, h)) + Cells(beside), dstX - srcX,
                    dstY - srcY, rop)
      ensures |blits| == |old(blits)| + 1 + Chunks(w, hchunk)
    {
      ghost var s, over := image, Excess(w, hchunk);
      RowPeelClear(image.w, image.h, srcX, srcY, dstX, dstY, w, h, over);
      var sy, dy := PeelRows(srcX, srcY, dstX, dstY, w, h, vchunk);
      ghost var m := image;
      CopyStraight(srcX, sy, dstX, dy, w, h - vchunk, hchunk, 0);
      ghost var peel := Rect(dstX, if srcY > dstY then dstY else dstY + h - vchunk, w, vchunk);
      ghost var rest := Rect(if srcX < dstX then dstX - over else dstX, dy, w + over, h - vchunk);
      assert rest == StraightArea(srcX, dstX, dy, w, h - vchunk, hchunk, 0);
      DrawnCompose(s, m, image, Cells(peel), Cells(rest), Cells(peel) + Cells(rest), dstX - srcX, dstY - srcY, rop);
    }

    /** A diagonal offset reduced to a vertical one. */
    method CopyReducedToVertical(srcX: int, srcY: int, dstX: int, dstY: int, w: nat, h: nat, hchunk: nat, vchunk: nat)
      requires image.Valid() && image.Inside(Rect(srcX, srcY, w, h))
      requires 0 < hchunk == Abs(dstX - srcX) <= w && 0 < vchunk == Abs(dstY - srcY)
      modifies this`image, this`blits
      ensures Drawn(old(image), old(image), image, Cells(Rect(dstX, dstY, w, h)), dstX - srcX, dstY - srcY, rop)
      ensures |blits| == |old(blits)| + 1 + Chunks(h, vchunk)
    {
      ColumnPeelClear(image.w, image.h, srcX, srcY, dstX, dstY, w, h);
      var sx, dx := PeelColumns(srcX, srcY, dstX, dstY, w, h, hchunk);
      ghost var m := image;
      CopyStraight(sx, srcY, dx, dstY, w - hchunk, h, 0, vchunk);
      ghost var peel := Rect(if srcX > dstX then dstX else dstX + w - hchunk, dstY, hchunk, h);
      DrawnCompose(old(image), m, image, Cells(peel), Cells(Rect(dx, dstY, w - hchunk, h)),
                   Cells(Rect(dstX, dstY, w, h)), dstX - srcX, dstY - srcY, rop);
    }

    /** Copy a w by h rectangle onto the same surface at a non-zero offset. */
    method OverlapCopy(srcX: int, srcY: int, dstX: int, dstY: int, w: nat, h: nat)
      requires image.Valid() && (srcX != dstX || srcY != dstY)
      requires image.Inside(Rect(srcX, srcY, w, h)) && image.Inside(Rect(dstX, dstY, w, h))
      modifies this`image, this`blits
      ensures Copied(old(image), image, srcX, srcY, dstX, dstY, w, h, rop)
      ensures |blits| == |old(blits)| + BlitCount(srcX, srcY, dstX, dstY, w, h)
    {
      OverlapTestComplete(srcX, srcY, dstX, dstY, w, h);
      AreaSplit(srcX, srcY, dstX, dstY, w, h);
      if IsOverlap(srcX, srcX + w, srcY, srcY + h, dstX, dstX + w, dstY, dstY + h) {
        var hchunk: nat := if srcX < dstX then dstX - srcX else srcX - dstX;
        var vchunk: nat := if srcY < dstY then dstY - srcY else srcY - dstY;
        if vchunk != 0 && hchunk != 0 {
          if w / hchunk <= h / vchunk {
            CopyReducedToHorizontal(srcX, srcY, dstX, dstY, w, h, hchunk, vchunk);
          } else {
            CopyReducedToVertical(srcX, srcY, dstX, dstY, w, h, hchunk, vchunk);
          }
        } else {
          CopyStraight(srcX, srcY, dstX, dstY, w, h, hchunk, vchunk);
        }
      } else {
        Blit(srcX, srcY, dstX, dstY, w, h);
      }
    }
  }

  // ---- What the drawn cells mean ----

  /** The copy changes nothing but its destination. */
  predicate CopyIsExact(srcX: int, srcY: int, dstX: int, dstY: int, w: nat, h: nat) {
    !GoesSideways(srcX, srcY, dstX, dstY, w, h) || w % Abs(dstX - srcX) == 0 || Abs(dstY - srcY) == h
  }

  /** Every destination pixel becomes rop(source pixel, old pixel) with the source
      pixel as it was before the copy started. */
  lemma DestinationIsMemmove(s: Image, r: Image, srcX: int, srcY: int, dstX: int, dstY: int, w: nat, h: nat, rop: Rop,
                             p: Point)
    requires Copied(s, r, srcX, srcY, dstX, dstY, w, h, rop)
    requires s.Inside(Rect(srcX, srcY, w, h)) && s.Inside(Rect(dstX, dstY, w, h)) && Rect(dstX, dstY, w, h).Has(p)
    ensures var q := Point(p.x - (dstX - srcX), p.y - (dstY - srcY));
            q in s.pix && p in s.pix && r.pix[p] == rop(s.pix[q], s.pix[p])
  {
    assert p in s.pix;
    assert DrawnAt(s, s, r, Cells(Rect(dstX, dstY, w, h)) + Cells(Overrun(srcX, srcY, dstX, dstY, w, h)),
                   dstX - srcX, dstY - srcY, rop, p);
  }

  /** The cells drawn beside the destination are fewer than one chunk of columns and
      lie in the source rectangle: they spoil source pixels the copy should keep. */
  lemma OverrunInSource(srcX: int, srcY: int, dstX: int, dstY: int, w: nat, h: nat)
    ensures var over := Overrun(srcX, srcY, dstX, dstY, w, h);
            (over.w > 0 ==> over.w < Abs(dstX - srcX)) && forall p :: over.Has(p) ==> Rect(srcX, srcY, w, h).Has(p)
  {
    OverlapTestComplete(srcX, srcY, dstX, dstY, w, h);
    if GoesSideways(srcX, srcY, dstX, dstY, w, h) {
      ChunksAndExcess(w, Abs(dstX - srcX));
    }
  }

  lemma OverrunEmptyIff(srcX: int, srcY: int, dstX: int, dstY: int, w: nat, h: nat)
    ensures (forall p :: !Overrun(srcX, srcY, dstX, dstY, w, h).Has(p)) <==> CopyIsExact(srcX, srcY, dstX, dstY, w, h)
  {
    OverlapTestComplete(srcX, srcY, dstX, dstY, w, h);
    if GoesSideways(srcX, srcY, dstX, dstY, w, h) {
      ChunksAndExcess(w, Abs(dstX - srcX));
      var over := Overrun(srcX, srcY, dstX, dstY, w, h);
      if over.w > 0 && over.h > 0 {
        assert over.Has(Point(over.x, over.y));
      }
    }
  }

  /** The exact frame: on every image that holds both rectangles, with every rop, the
      copy leaves the rest of the image alone if and only if CopyIsExact. */
  lemma FrameExactIff(iw: nat, ih: nat, srcX: int, srcY: int, dstX: int, dstY: int, w: nat, h: nat)
    requires 0 <= srcX && srcX + w <= iw && 0 <= srcY && srcY + h <= ih
    ensures var dst, over := Rect(dstX, dstY, w, h), Overrun(srcX, srcY, dstX, dstY, w, h);
            CopyIsExact(srcX, srcY, dstX, dstY, w, h) <==>
            forall s: Image, r: Image, rop: Rop |
                s.w == iw && s.h == ih && Copied(s, r, srcX, srcY, dstX, dstY, w, h, rop) ::
              forall p :: p in s.pix && !dst.Has(p) ==> r.pix[p] == s.pix[p]
  {
    var dst, over := Rect(dstX, dstY, w, h), Overrun(srcX, srcY, dstX, dstY, w, h);
    var dx, dy := dstX - srcX, dstY - srcY;
    OverrunEmptyIff(srcX, srcY, dstX, dstY, w, h);
    if CopyIsExact(srcX, srcY, dstX, dstY, w, h) {
      forall s: Image, r: Image, rop: Rop, p |
        s.w == iw && s.h == ih && Copied(s, r, srcX, srcY, dstX, dstY, w, h, rop) && p in s.pix && !dst.Has(p)
        ensures r.pix[p] == s.pix[p]
      {
        assert DrawnAt(s, s, r, Cells(dst) + Cells(over), dx, dy, rop, p);
      }
    } else {
      var p :| over.Has(p);
      OverrunInSource(srcX, srcY, dstX, dstY, w, h);
      var s, r, rop := Blackened(iw, ih, Cells(dst) + Cells(over), dx, dy);
      assert p in s.pix && !dst.Has(p) && Copied(s, r, srcX, srcY, dstX, dstY, w, h, rop);
      assert DrawnAt(s, s, r, Cells(dst) + Cells(over), dx, dy, rop, p);
    }
  }

  /** An all-clear image and a rop that sets every pixel it draws. */
  lemma Blackened(iw: nat, ih: nat, cells: iset<Point>, dx: int, dy: int) returns (s: Image, r: Image, rop: Rop)
    ensures s.w == iw && s.h == ih && Drawn(s, s, r, cells, dx, dy, rop)
    ensures forall p :: p in s.pix && p in cells ==> r.pix[p] != s.pix[p]
  {
    var all := set x, y | 0 <= x < iw && 0 <= y < ih :: Point(x, y);
    var clear, full := Pixel(seq(32, i => false)), Pixel(seq(32, i => true));
    assert clear.bits[0] != full.bits[0];
    s := Image(iw, ih, map p | p in all :: clear);
    r := Image(iw, ih, map p | p in all :: if p in cells then full else clear);
    rop := (a: Pixel, b: Pixel) => full;
  }

  /** The choice between the two reductions. It never takes more than one blit over the
      better one, and takes the better count except when both quotients agree while
      only the vertical one is exact. */
  lemma StrategyCost(srcX: int, srcY: int, dstX: int, dstY: int, w: nat, h: nat)
    requires Overlaps(srcX, srcY, dstX, dstY, w, h) && srcX != dstX && srcY != dstY
    ensures var hchunk, vchunk := Abs(dstX - srcX), Abs(dstY - srcY);
            var best := 1 + Min(Chunks(w, hchunk), Chunks(h, vchunk));
            var cost := BlitCount(srcX, srcY, dstX, dstY, w, h);
            && best <= cost <= best + 1
            && (!GoesSideways(srcX, srcY, dstX, dstY, w, h) ==> cost == best)
            && (cost == best <==> !(w / hchunk == h / vchunk && w % hchunk != 0 && h % vchunk == 0))
  {
    ChunksAndExcess(w, Abs(dstX - srcX));
    ChunksAndExcess(h, Abs(dstY - srcY));
  }
}
