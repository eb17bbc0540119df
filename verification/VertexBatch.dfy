/** Vertex batching on R6xx: rectangles collect in the upper half of an indirect buffer,
    and a full buffer is drawn and replaced in the middle of a run of calls. */
module VertexBatch {
  import opened Arith
  import opened Wrappers

  // ---- What the GPU makes of a vertex buffer ----

  /** Cut into pieces of n numbers, one for each rectangle. */
  function Pieces(s: seq<real>, n: nat): seq<seq<real>>
    requires n > 0
  {
    if |s| < n then [] else [s[..n]] + Pieces(s[n..], n)
  }

  /** Nothing is left over. */
  predicate Whole(s: seq<real>, n: nat)
    requires n > 0
  {
    s == [] || (|s| >= n && Whole(s[n..], n))
  }

  lemma {:induction false} PiecesAppend(a: seq<real>, b: seq<real>, n: nat)
    requires n > 0 && Whole(a, n)
    ensures Pieces(a + b, n) == Pieces(a, n) + Pieces(b, n)
    ensures Whole(b, n) ==> Whole(a + b, n)
    decreases a
  {
    if a == [] {
      assert a + b == b;
    } else {
      var first, rest := a[..n], a[n..];
      PiecesAppend(rest, b, n);
      assert a + b == first + (rest + b);
      PiecesFirst(first, rest + b);
      PiecesFirst(first, rest);
      assert first + rest == a;
    }
  }

  lemma PiecesFirst(first: seq<real>, rest: seq<real>)
    requires first != []
    ensures Pieces(first + rest, |first|) == [first] + Pieces(rest, |first|)
    ensures Whole(rest, |first|) ==> Whole(first + rest, |first|)
  {
    assert (first + rest)[..|first|] == first && (first + rest)[|first|..] == rest;
  }

  lemma OnePiece(s: seq<real>, n: nat)
    requires n > 0 && |s| == n
    ensures Pieces(s, n) == [s] && Whole(s, n)
  {
    assert s[..n] == s && s[n..] == [];
  }

  /** A draw: so many vertices, fetched from a buffer whose resource says how many bytes it has. */
  datatype Draw = Draw(numIndices: nat, resourceBytes: nat, vertices: seq<real>)

  /** The rectangles of a series of draws, in order. Three vertices of `size` numbers make a rectangle. */
  function Rectangles(draws: seq<Draw>, size: nat): seq<seq<real>>
    requires size > 0
  {
    if draws == [] then [] else Rectangles(draws[..|draws| - 1], size) + Pieces(draws[|draws| - 1].vertices, 3 * size)
  }

  lemma DrawMore(draws: seq<Draw>, d: Draw, size: nat)
    requires size > 0
    ensures Rectangles(draws + [d], size) == Rectangles(draws, size) + Pieces(d.vertices, 3 * size)
  {
    assert (draws + [d])[..|draws|] == draws;
  }

  /** The count and the resource size are those of the vertices stored. */
  predicate DrawOk(d: Draw, size: nat, half: nat) {
    && d.numIndices > 0 && |d.vertices| == Span(d.numIndices, size) && size > 0 && Whole(d.vertices, 3 * size)
    && d.resourceBytes == 4 * |d.vertices| && |d.vertices| <= half
  }

  ghost predicate AllOk(draws: seq<Draw>, size: nat, half: nat) {
    forall i :: 0 <= i < |draws| ==> DrawOk(draws[i], size, half)
  }

  /** index vertices take Span(index, size) numbers, and dividing that out gives the count again. */
  lemma VertexCount(index: nat, size: nat)
    requires size in {2, 4, 6}
    ensures index * (4 * size) == 4 * Span(index, size)
    ensures index * (4 * size) / 4 == Span(index, size) && index * (4 * size) / 4 / size == index
  {
    SpanIs(index, size);
    if size == 2 {
      assert index * 8 / 4 / 2 == index;
    } else if size == 4 {
      assert index * 16 / 4 / 4 == index;
    } else {
      assert index * 24 / 4 / 6 == index;
    }
  }

  lemma ThreeMore(index: nat, size: nat)
    ensures Span(index + 3, size) == Span(index, size) + 3 * size
  {
    assert Span(index + 1, size) == Span(index, size) + size;
    assert Span(index + 2, size) == Span(index + 1, size) + size;
  }

  /** Writing behind the numbers stored adds them and changes nothing below. */
  lemma SliceGrows(before: seq<real>, after: seq<real>, half: nat, mid: nat, data: seq<real>)
    requires half <= mid && mid + |data| <= |before| == |after|
    requires after[..mid] == before[..mid] && after[mid..mid + |data|] == data
    ensures after[half..mid + |data|] == before[half..mid] + data && after[..half] == before[..half]
  {
    forall i | 0 <= i < mid ensures after[i] == before[i] {
      assert after[..mid][i] == before[..mid][i];
    }
  }

  /** One more rectangle is one more piece. */
  lemma OneMorePiece(p: seq<real>, vertices: seq<real>, base: seq<seq<real>>)
    requires vertices != [] && Whole(p, |vertices|)
    ensures Whole(p + vertices, |vertices|)
    ensures base + Pieces(p + vertices, |vertices|) == base + Pieces(p, |vertices|) + [vertices]
  {
    OnePiece(vertices, |vertices|);
    PiecesAppend(p, vertices, |vertices|);
  }

  class Batcher {
    const total: nat
    const half: nat
    const size: nat
    var ib: array<real>
    var vbIndex: nat
    var drawn: seq<Draw>
    ghost var calls: seq<seq<real>>

    /** Prepare: an empty batch. A buffer has `total` bytes, a vertex `size` numbers. */
    constructor (total: nat, size: nat)
      requires total % 8 == 0 && size in {2, 4, 6} && 3 * (4 * size) <= total / 2
      ensures Valid() && calls == [] && drawn == [] && fresh(ib)
      ensures this.half == total / 8 && this.size == size
    {
      this.total, this.half, this.size, vbIndex, drawn, calls := total, total / 8, size, 0, [], [];
      ib := new real[total / 4];
      new;
      assert Pending() == [];
    }

    ghost predicate Valid()
      reads this, ib
    {
      && total == 8 * half && size in {2, 4, 6} && 3 * size <= half
      && AllOk(drawn, size, half)
      && Placed() && Whole(Pending(), 3 * size)
      && calls == Rectangles(drawn, size) + Pieces(Pending(), 3 * size)
    }

    ghost predicate Placed()
      reads this
    {
      ib.Length == 2 * half && Span(vbIndex, size) <= half
    }

    /** The vertices of the current buffer. They lie in its upper half. */
    ghost function Pending(): seq<real>
      reads this, ib
      requires Placed()
    {
      ib[half..half + Span(vbIndex, size)]
    }

    /** Add one rectangle, after drawing a full buffer and taking a new one. */
    method Append(vertices: seq<real>)
      requires Valid() && |vertices| == 3 * size
      modifies this, ib
      ensures Valid() && calls == old(calls) + [vertices] && old(drawn) <= drawn
      ensures if Span(old(vbIndex) + 3, size) > half then fresh(ib) && vbIndex == 3
              else ib == old(ib) && vbIndex == old(vbIndex) + 3 && drawn == old(drawn) && ib[..half] == old(ib[..half])
    {
      var full := Full();
      if full {
        Done();
        Renew();
      }
      Store(vertices);
    }

    /** Whether three more vertices would run past the end. */
    method Full() returns (full: bool)
      requires size in {2, 4, 6} && total == 8 * half
      ensures full <==> Span(vbIndex + 3, size) > half
    {
      VertexCount(vbIndex + 3, size);
      full := (vbIndex + 3) * (4 * size) > total / 2;
    }

    method Renew()
      requires total == 8 * half && size in {2, 4, 6} && 3 * size <= half && AllOk(drawn, size, half)
          && calls == Rectangles(drawn, size)
      modifies `ib, `vbIndex
      ensures Valid() && fresh(ib) && vbIndex == 0 && Span(vbIndex + 3, size) <= half
    {
      vbIndex := 0;
      ib := new real[total / 4];
      assert Pending() == [];
      ThreeMore(0, size);
    }

    /** The vertices go after those stored before, in the upper half. */
    method Store(vertices: seq<real>)
      requires Valid() && |vertices| == 3 * size && Span(vbIndex + 3, size) <= half
      modifies `vbIndex, `calls, ib
      ensures Valid() && calls == old(calls) + [vertices] && vbIndex == old(vbIndex) + 3
      ensures ib[..half] == old(ib[..half])
    {
      ThreeMore(vbIndex, size);
      var vb := Offset(vbIndex, size);
      OneMorePiece(Pending(), vertices, Rectangles(drawn, size));
      AppendAt(ib, half, half + vb, vertices);
      vbIndex := vbIndex + 3;
      calls := calls + [vertices];
    }

    static method Offset(index: nat, size: nat) returns (r: nat)
      requires size in {2, 4, 6}
      ensures r == Span(index, size)
    {
      VertexCount(index, size);
      r := index * (4 * size) / 4;
    }

    static method AppendAt(a: array<real>, ghost half: nat, at: nat, data: seq<real>)
      requires half <= at && at + |data| <= a.Length
      modifies a
      ensures a[half..at + |data|] == old(a[half..at]) + data && a[..half] == old(a[..half])
    {
      ghost var before := a[..];
      WriteAt(a, at, data);
      SliceGrows(before, a[..], half, at, data);
    }

    static method WriteAt(a: array<real>, at: nat, data: seq<real>)
      requires at + |data| <= a.Length
      modifies a
      ensures a[..at] == old(a[..at]) && a[at..at + |data|] == data
    {
      forall k | 0 <= k < |data| {
        a[at + k] := data[k];
      }
    }

    /** Draw what is stored; an empty buffer is discarded instead. */
    method Done()
      requires Valid()
      modifies `drawn
      ensures AllOk(drawn, size, half) && calls == Rectangles(drawn, size)
      ensures old(drawn) <= drawn && |drawn| == |old(drawn)| + if vbIndex == 0 then 0 else 1
    {
      if vbIndex == 0 {
        assert Pending() == [];
        return;
      }
      var d := MakeDraw();
      DrawMore(drawn, d, size);
      drawn := drawn + [d];
    }

    /** The resource and the draw: sizes in bytes, then in numbers, then in vertices. */
    method MakeDraw() returns (d: Draw)
      requires Placed() && size in {2, 4, 6} && Whole(Pending(), 3 * size) && vbIndex > 0
      ensures DrawOk(d, size, half) && d.vertices == Pending()
    {
      VertexCount(vbIndex, size);
      var vbSize := vbIndex * (4 * size);
      var numEntries := vbSize / 4;
      d := Draw(numEntries / size, numEntries * 4, ib[half..half + numEntries]);
    }
  }

  /** A whole run between Prepare and Done: whatever the buffer size, the GPU draws exactly
      the rectangles of the calls, once each and in their order. */
  method Run(total: nat, size: nat, lists: seq<seq<real>>) returns (draws: seq<Draw>)
    requires total % 8 == 0 && size in {2, 4, 6} && 3 * (4 * size) <= total / 2
    requires forall i :: 0 <= i < |lists| ==> |lists[i]| == 3 * size
    ensures Rectangles(draws, size) == lists && AllOk(draws, size, total / 8)
  {
    var b := new Batcher(total, size);
    var i := 0;
    while i < |lists|
      invariant i <= |lists| && b.Valid() && b.calls == lists[..i] && fresh(b) && fresh(b.ib)
    {
      b.Append(lists[i]);
      i := i + 1;
    }
    b.Done();
    assert lists[..i] == lists;
    draws := b.drawn;
  }

  // ---- Rectangles as vertices ----

  datatype Box = Box(x1: real, y1: real, x2: real, y2: real)

  /** What the GPU takes for the k-th pair of numbers of the three vertices: the corners, if the
      second vertex lies below the first and left of the third. Pair 0 is the position. */
  function PairBox(v: seq<real>, size: nat, k: nat): Option<Box>
    requires |v| == 3 * size && 2 * k + 1 < size
  {
    var a, b, c := 2 * k, size + 2 * k, 2 * size + 2 * k;
    if v[a] == v[b] && v[b + 1] == v[c + 1] then Some(Box(v[a], v[a + 1], v[c], v[c + 1])) else None
  }

  function PixelBox(x: int, y: int, w: int, h: int): Box {
    Box(x as real, y as real, (x + w) as real, (y + h) as real)
  }

  function SolidVertices(x1: int, y1: int, x2: int, y2: int): (v: seq<real>) {
    [x1 as real, y1 as real, x1 as real, y2 as real, x2 as real, y2 as real]
  }

  function CopyVertices(srcX: int, srcY: int, dstX: int, dstY: int, w: int, h: int): (v: seq<real>) {
    [dstX as real, dstY as real, srcX as real, srcY as real,
     dstX as real, (dstY + h) as real, srcX as real, (srcY + h) as real,
     (dstX + w) as real, (dstY + h) as real, (srcX + w) as real, (srcY + h) as real]
  }

  function MaskedVertices(srcX: int, srcY: int, maskX: int, maskY: int, dstX: int, dstY: int, w: int, h: int,
                          texW0: real, texH0: real, texW1: real, texH1: real): (v: seq<real>)
    requires texW0 > 0.0 && texH0 > 0.0 && texW1 > 0.0 && texH1 > 0.0
  {
    [dstX as real, dstY as real, srcX as real / texW0, srcY as real / texH0, maskX as real / texW1,
     maskY as real / texH1,
     dstX as real, (dstY + h) as real, srcX as real / texW0, (srcY + h) as real / texH0, maskX as real / texW1,
         (maskY + h) as real / texH1,
     (dstX + w) as real, (dstY + h) as real,
     (srcX + w) as real / texW0, (srcY + h) as real / texH0, (maskX + w) as real / texW1, (maskY + h) as real / texH1]
  }

  function Scaled(b: Box, w: real, h: real): Box {
    Box(b.x1 * w, b.y1 * h, b.x2 * w, b.y2 * h)
  }

  lemma SolidIsRectangle(x1: int, y1: int, x2: int, y2: int)
    ensures PairBox(SolidVertices(x1, y1, x2, y2), 2, 0) == Some(Box(x1 as real, y1 as real, x2 as real, y2 as real))
  {
  }

  /** The vertices of a copy pair each destination pixel with its source pixel. */
  lemma CopyIsRectangles(srcX: int, srcY: int, dstX: int, dstY: int, w: int, h: int)
    ensures var v := CopyVertices(srcX, srcY, dstX, dstY, w, h);
            PairBox(v, 4, 0) == Some(PixelBox(dstX, dstY, w, h)) && PairBox(v, 4, 1) == Some(PixelBox(srcX, srcY, w, h))
  {
  }

  /** Those of a masked composite pair it with a source and a mask pixel, in fractions of the textures. */
  lemma MaskedIsRectangles(srcX: int, srcY: int, maskX: int, maskY: int, dstX: int, dstY: int, w: int, h: int,
                           texW0: real, texH0: real, texW1: real, texH1: real)
    requires texW0 > 0.0 && texH0 > 0.0 && texW1 > 0.0 && texH1 > 0.0
    ensures var v := MaskedVertices(srcX, srcY, maskX, maskY, dstX, dstY, w, h, texW0, texH0, texW1, texH1);
            && PairBox(v, 6, 0) == Some(PixelBox(dstX, dstY, w, h))
            && PairBox(v, 6, 1).Some? && Scaled(PairBox(v, 6, 1).value, texW0, texH0) == PixelBox(srcX, srcY, w, h)
            && PairBox(v, 6, 2).Some? && Scaled(PairBox(v, 6, 2).value, texW1, texH1) == PixelBox(maskX, maskY, w, h)
  {
    FractionBox(srcX, srcY, w, h, texW0, texH0);
    FractionBox(maskX, maskY, w, h, texW1, texH1);
  }

  lemma FractionBox(x: int, y: int, w: int, h: int, texW: real, texH: real)
    requires texW > 0.0 && texH > 0.0
    ensures Scaled(Box(x as real / texW, y as real / texH, (x + w) as real / texW, (y + h) as real / texH), texW,
                   texH) == PixelBox(x, y, w, h)
  {
    Fraction(x as real, texW);
    Fraction(y as real, texH);
    Fraction((x + w) as real, texW);
    Fraction((y + h) as real, texH);
  }

  lemma Fraction(a: real, b: real)
    requires b > 0.0
    ensures a / b * b == a
  {
  }

  // ---- A run of calls ----

  /** What Prepare fixes: the kind of the calls, and the texture sizes of a masked composite. */
  datatype Prepared = ForSolid | ForCopy | ForMasked(texW0: real, texH0: real, texW1: real, texH1: real)

  datatype Call =
    | SolidCall(x1: int, y1: int, x2: int, y2: int)
    | CopyCall(srcX: int, srcY: int, dstX: int, dstY: int, w: int, h: int)
    | MaskedCall(srcX: int, srcY: int, maskX: int, maskY: int, dstX: int, dstY: int, w: int, h: int)

  predicate Matches(p: Prepared, c: Call) {
    match p
    case ForSolid => c.SolidCall?
    case ForCopy => c.CopyCall?
    case ForMasked(texW0, texH0, texW1, texH1) =>
      c.MaskedCall? && texW0 > 0.0 && texH0 > 0.0 && texW1 > 0.0 && texH1 > 0.0
  }

  /** The numbers of a vertex. */
  function Numbers(p: Prepared): nat {
    match p
    case ForSolid => 2
    case ForCopy => 4
    case ForMasked(_, _, _, _) => 6
  }

  function Vertices(p: Prepared, c: Call): (v: seq<real>)
    requires Matches(p, c)
    ensures |v| == 3 * Numbers(p)
  {
    match c
    case SolidCall(x1, y1, x2, y2) => SolidVertices(x1, y1, x2, y2)
    case CopyCall(srcX, srcY, dstX, dstY, w, h) => CopyVertices(srcX, srcY, dstX, dstY, w, h)
    case MaskedCall(srcX, srcY, maskX, maskY, dstX, dstY, w, h) =>
      MaskedVertices(srcX, srcY, maskX, maskY, dstX, dstY, w, h, p.texW0, p.texH0, p.texW1, p.texH1)
  }

  /** The rectangles of a call in pixels: destination, source, mask. */
  function Boxes(c: Call): seq<Box> {
    match c
    case SolidCall(x1, y1, x2, y2) => [Box(x1 as real, y1 as real, x2 as real, y2 as real)]
    case CopyCall(srcX, srcY, dstX, dstY, w, h) => [PixelBox(dstX, dstY, w, h), PixelBox(srcX, srcY, w, h)]
    case MaskedCall(srcX, srcY, maskX, maskY, dstX, dstY, w, h) =>
      [PixelBox(dstX, dstY, w, h), PixelBox(srcX, srcY, w, h), PixelBox(maskX, maskY, w, h)]
  }

  /** How the GPU reads three vertices: their pairs, where it is set up so as fractions of the textures. */
  function ReadBoxes(p: Prepared, v: seq<real>): Option<seq<Box>> {
    if |v| != 3 * Numbers(p) then None
    else
      match p
      case ForSolid => (match PairBox(v, 2, 0) case Some(b) => Some([b]) case None => None)
      case ForCopy =>
        (match (PairBox(v, 4, 0), PairBox(v, 4, 1)) case (Some(b), Some(c)) => Some([b, c]) case _ => None)
      case ForMasked(texW0, texH0, texW1, texH1) =>
        (match (PairBox(v, 6, 0), PairBox(v, 6, 1), PairBox(v, 6, 2))
         case (Some(b), Some(c), Some(d)) => Some([b, Scaled(c, texW0, texH0), Scaled(d, texW1, texH1)])
         case _ => None)
  }

  /** The vertices of a call are read as its rectangles. */
  lemma CallReadsBack(p: Prepared, c: Call)
    requires Matches(p, c)
    ensures ReadBoxes(p, Vertices(p, c)) == Some(Boxes(c))
  {
    match c
    case SolidCall(x1, y1, x2, y2) => SolidIsRectangle(x1, y1, x2, y2);
    case CopyCall(srcX, srcY, dstX, dstY, w, h) => CopyIsRectangles(srcX, srcY, dstX, dstY, w, h);
    case MaskedCall(srcX, srcY, maskX, maskY, dstX, dstY, w, h) =>
      MaskedIsRectangles(srcX, srcY, maskX, maskY, dstX, dstY, w, h, p.texW0, p.texH0, p.texW1, p.texH1);
  }

  /** Between Prepare and Done: whatever the buffer size, the rectangles the GPU reads from all the
      buffers drawn are those of the calls, one after the other. */
  method RunCalls(total: nat, p: Prepared, calls: seq<Call>) returns (draws: seq<Draw>)
    requires total % 8 == 0 && 3 * (4 * Numbers(p)) <= total / 2
    requires forall i :: 0 <= i < |calls| ==> Matches(p, calls[i])
    ensures |Rectangles(draws, Numbers(p))| == |calls| && AllOk(draws, Numbers(p), total / 8)
    ensures forall i :: 0 <= i < |calls| ==> ReadBoxes(p, Rectangles(draws, Numbers(p))[i]) == Some(Boxes(calls[i]))
  {
    var lists := seq(|calls|, i requires 0 <= i < |calls| => Vertices(p, calls[i]));
    draws := Run(total, Numbers(p), lists);
    forall i | 0 <= i < |calls| ensures ReadBoxes(p, lists[i]) == Some(Boxes(calls[i])) {
      CallReadsBack(p, calls[i]);
    }
  }

  // ---- The clip boxes of a video frame ----

  /** Where a destination column at distance p into the picture starts in the source. */
  function SourceAt(p: nat, srcSize: nat, dstSize: nat): nat
    requires dstSize > 0
  {
    p * srcSize / dstSize
  }

  /** It starts at the last source column that is not past the exact place. */
  lemma SourceAtIs(p: nat, srcSize: nat, dstSize: nat)
    requires dstSize > 0
    ensures SourceAt(p, srcSize, dstSize) * dstSize <= p * srcSize < (SourceAt(p, srcSize, dstSize) + 1) * dstSize
  {
    var q := SourceAt(p, srcSize, dstSize);
    assert p * srcSize == q * dstSize + p * srcSize % dstSize;
  }

  lemma FloorSum(a: nat, b: nat, m: nat)
    requires m > 0
    ensures a / m + b / m <= (a + b) / m <= a / m + b / m + 1
  {
    var q, r := a / m + b / m, a % m + b % m;
    assert a + b == q * m + r by {
      assert a == (a / m) * m + a % m && b == (b / m) * m + b % m;
    }
    if r < m {
      DivUnique(a + b, m, q, r);
    } else {
      assert a + b == (q + 1) * m + (r - m);
      DivUnique(a + b, m, q + 1, r - m);
    }
  }

  /** The source span of a clip box stays in the picture; the next starts where it ends or one pixel on. */
  lemma ClipBoxSource(from: nat, width: nat, srcSize: nat, dstSize: nat)
    requires dstSize > 0 && from + width <= dstSize
    ensures SourceAt(from, srcSize, dstSize) + SourceAt(width, srcSize, dstSize) <= srcSize
    ensures var gap := SourceAt(from + width, srcSize, dstSize) - (SourceAt(from, srcSize, dstSize)
          + SourceAt(width, srcSize, dstSize));
            gap == 0 || gap == 1
    ensures SourceAt(dstSize, srcSize, dstSize) == srcSize
  {
    FloorSum(from * srcSize, width * srcSize, dstSize);
    assert (from + width) * srcSize == from * srcSize + width * srcSize;
    DivUnique(dstSize * srcSize, dstSize, srcSize, 0);
    ScaleMonotone(from + width, dstSize, srcSize, dstSize);
  }

  lemma ScaleMonotone(p: nat, q: nat, srcSize: nat, m: nat)
    requires m > 0 && p <= q
    ensures p * srcSize / m <= q * srcSize / m
  {
    var d := (q - p) * srcSize;
    assert q * srcSize == p * srcSize + d;
    FloorSum(p * srcSize, d, m);
  }
}
