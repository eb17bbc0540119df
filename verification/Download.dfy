/** Downloads on R6xx: the GPU blits screen rows into one half of the scratch buffer
    while the CPU has the other half to copy out. */
module Download {
  import opened Arith
  import opened Memory
  import opened Transfer

  function ScreenRow(v: seq<seq<Byte>>, row: nat, x: nat, n: nat): seq<Byte> {
    if row < |v| && x + n <= |v[row]| then v[row][x..x + n] else []
  }

  lemma ScreenRowLength(v: seq<seq<Byte>>, y: nat, x: nat, n: nat, h: nat, j: nat)
    requires OnScreen(Widths(v), y, x, n, h) && j < h
    ensures |ScreenRow(v, y + j, x, n)| == n
  {
    RowOnScreen(v, y, x, n, h, j);
  }

  // ---- What a download leaves in system memory ----

  predicate SlotCaught(scratch: seq<Byte>, offset: nat, pitch: nat, v: seq<seq<Byte>>, y: nat, x: nat, n: nat, j: nat) {
    Holds(scratch, offset, pitch, j, ScreenRow(v, y + j, x, n))
  }

  /** The slots of a buffer hold screen rows y, y + 1, .... */
  ghost predicate Caught(scratch: seq<Byte>, offset: nat, pitch: nat, v: seq<seq<Byte>>, y: nat, x: nat, n: nat,
                         rows: nat) {
    forall j {:trigger SlotCaught(scratch, offset, pitch, v, y, x, n, j)} | 0 <= j < rows ::
      SlotCaught(scratch, offset, pitch, v, y, x, n, j)
  }

  predicate InRow(n: nat, pitch: nat, j: nat, i: nat) {
    Slot(0, pitch, j) <= i < Slot(0, pitch, j) + n
  }

  /** Byte i of the destination belongs to none of the rows. */
  ghost predicate Between(n: nat, pitch: nat, rows: nat, i: nat) {
    forall j :: 0 <= j < rows ==> !InRow(n, pitch, j, i)
  }

  ghost predicate Kept(r: seq<Byte>, d: seq<Byte>, n: nat, pitch: nat, rows: nat, i: nat) {
    i < |r| == |d| && (Between(n, pitch, rows, i) ==> r[i] == d[i])
  }

  /** The bytes between the rows and after them are the old ones. */
  ghost predicate Untouched(r: seq<Byte>, d: seq<Byte>, n: nat, pitch: nat, rows: nat) {
    |r| == |d| && forall i {:trigger Kept(r, d, n, pitch, rows, i)} | 0 <= i < |d| :: Kept(r, d, n, pitch, rows, i)
  }

  /** r is d with the first `rows` screen rows copied over it, one every pitch bytes, and nothing else changed. */
  ghost predicate Pasted(r: seq<Byte>, d: seq<Byte>, v: seq<seq<Byte>>, y: nat, x: nat, n: nat, pitch: nat, rows: nat) {
    Caught(r, 0, pitch, v, y, x, n, rows) && Untouched(r, d, n, pitch, rows)
  }

  lemma NothingPasted(d: seq<Byte>, v: seq<seq<Byte>>, y: nat, x: nat, n: nat, pitch: nat)
    ensures Pasted(d, d, v, y, x, n, pitch, 0)
  {
    forall i | 0 <= i < |d| ensures Kept(d, d, n, pitch, 0, i) {
    }
  }

  lemma PasteOneMore(r: seq<Byte>, d: seq<Byte>, v: seq<seq<Byte>>, y: nat, x: nat, n: nat, pitch: nat, j: nat)
    requires n <= pitch && Pasted(r, d, v, y, x, n, pitch, j)
    requires Slot(0, pitch, j) + n <= |d| && |ScreenRow(v, y + j, x, n)| == n
    ensures Pasted(Splice(r, Slot(0, pitch, j), ScreenRow(v, y + j, x, n)), d, v, y, x, n, pitch, j + 1)
  {
    CaughtOneMore(r, 0, v, y, x, n, pitch, j);
    UntouchedOneMore(r, d, n, pitch, j, ScreenRow(v, y + j, x, n));
  }

  /** Writing one more screen row after the ones already caught. */
  lemma CaughtOneMore(p: seq<Byte>, offset: nat, v: seq<seq<Byte>>, y: nat, x: nat, n: nat, pitch: nat, j: nat)
    requires n <= pitch && Caught(p, offset, pitch, v, y, x, n, j)
    requires Slot(offset, pitch, j) + n <= |p| && |ScreenRow(v, y + j, x, n)| == n
    ensures Caught(Splice(p, Slot(offset, pitch, j), ScreenRow(v, y + j, x, n)), offset, pitch, v, y, x, n, j + 1)
  {
    var at, data := Slot(offset, pitch, j), ScreenRow(v, y + j, x, n);
    SpliceAt(p, at, data);
    forall k | 0 <= k < j + 1 ensures SlotCaught(Splice(p, at, data), offset, pitch, v, y, x, n, k) {
      if k < j {
        assert SlotCaught(p, offset, pitch, v, y, x, n, k);
        SlotsApart(offset, pitch, k, j);
        assert |ScreenRow(v, y + k, x, n)| <= n;
        SlotKept(p, at, data, offset, pitch, k, ScreenRow(v, y + k, x, n));
      }
    }
  }

  lemma UntouchedOneMore(r: seq<Byte>, d: seq<Byte>, n: nat, pitch: nat, j: nat, data: seq<Byte>)
    requires Untouched(r, d, n, pitch, j) && |data| == n && Slot(0, pitch, j) + n <= |d|
    ensures Untouched(Splice(r, Slot(0, pitch, j), data), d, n, pitch, j + 1)
  {
    var s, next := Splice(r, Slot(0, pitch, j), data), j + 1;
    forall i | 0 <= i < |d| ensures Kept(s, d, n, pitch, next, i) {
      assert Kept(r, d, n, pitch, j, i);
      if Between(n, pitch, next, i) {
        assert !InRow(n, pitch, j, i);
        assert Between(n, pitch, j, i);
      }
    }
  }

  /** A downloaded image byte by byte: byte k of row j is that of the screen. */
  lemma PastedByte(r: seq<Byte>, d: seq<Byte>, v: seq<seq<Byte>>, y: nat, x: nat, n: nat, pitch: nat, rows: nat,
                   j: nat, k: nat)
    requires Pasted(r, d, v, y, x, n, pitch, rows) && OnScreen(Widths(v), y, x, n, rows) && j < rows && k < n
    ensures 0 <= j * pitch + k < |r| && y + j < |v| && x + k < |v[y + j]|
    ensures r[j * pitch + k] == v[y + j][x + k]
  {
    assert SlotCaught(r, 0, pitch, v, y, x, n, j);
    RowOnScreen(v, y, x, n, rows, j);
    SpanIs(j, pitch);
    var at := Slot(0, pitch, j);
    assert r[at..at + n][k] == r[at + k] && v[y + j][x..x + n][k] == v[y + j][x + k];
  }

  /** Bytes in none of the rows are as they were. */
  lemma PastedElsewhere(r: seq<Byte>, d: seq<Byte>, v: seq<seq<Byte>>, y: nat, x: nat, n: nat, pitch: nat, rows: nat,
                        i: nat)
    requires Pasted(r, d, v, y, x, n, pitch, rows) && i < |d|
    requires forall j {:trigger InRow(n, pitch, j, i)} | 0 <= j < rows :: !(j * pitch <= i < j * pitch + n)
    ensures |r| == |d| && r[i] == d[i]
  {
    assert Kept(r, d, n, pitch, rows, i);
    forall j | 0 <= j < rows ensures !InRow(n, pitch, j, i) {
      SpanIs(j, pitch);
    }
  }

  /** What was uploaded is what a later download of the same rectangle brings back. */
  lemma UploadThenDownload(v: seq<seq<Byte>>, y: nat, x: nat, n: nat, h: nat, src: seq<Byte>, srcPitch: nat,
                           d: seq<Byte>, r: seq<Byte>, dstPitch: nat, j: nat)
    requires OnScreen(Widths(v), y, x, n, h) && HasRows(src, srcPitch, n, h) && j < h
    requires Pasted(r, d, Uploaded(v, y, x, src, srcPitch, n, 0, h), y, x, n, dstPitch, h)
    ensures Row(r, dstPitch, n, j) == Row(src, srcPitch, n, j)
  {
    assert SlotCaught(r, 0, dstPitch, Uploaded(v, y, x, src, srcPitch, n, 0, h), y, x, n, j);
    UploadedRow(v, y, x, n, h, src, srcPitch, j);
    RowLength(src, srcPitch, n, h, j);
    HeldIsRow(r, dstPitch, j, Row(src, srcPitch, n, j));
  }

  lemma HeldIsRow(r: seq<Byte>, pitch: nat, j: nat, data: seq<Byte>)
    requires Holds(r, 0, pitch, j, data)
    ensures Row(r, pitch, |data|, j) == data
  {
  }

  /** Row y + j of the screen carries source row j after an upload. */
  lemma UploadedRow(v: seq<seq<Byte>>, y: nat, x: nat, n: nat, h: nat, src: seq<Byte>, srcPitch: nat, j: nat)
    requires OnScreen(Widths(v), y, x, n, h) && HasRows(src, srcPitch, n, h) && j < h
    ensures ScreenRow(Uploaded(v, y, x, src, srcPitch, n, 0, h), y + j, x, n) == Row(src, srcPitch, n, j)
  {
    var data := Row(src, srcPitch, n, j);
    RowLength(src, srcPitch, n, h, j);
    RowOnScreen(v, y, x, n, h, j);
    SpliceAt(v[y + j], x, data);
    assert Uploaded(v, y, x, src, srcPitch, n, 0, h)[y + j] == Splice(v[y + j], x, data);
  }

  // ---- One blit from the screen into a half ----

  function DownloadBatch(offset: nat, pitch: nat, y: nat, x: nat, n: nat, rows: nat): (q: seq<RowCopy>)
    ensures |q| == rows && forall j :: 0 <= j < rows ==> q[j] == FromScreen(y + j, x, n, Slot(offset, pitch, j))
  {
    seq(rows, j requires 0 <= j < rows => FromScreen(y + j, x, n, Slot(offset, pitch, j)))
  }

  lemma DownloadBatchFits(m: Mem, offset: nat, half: nat, pitch: nat, y: nat, x: nat, n: nat, rows: nat)
    requires n <= pitch && Span(rows, pitch) <= half && offset + half <= |m.scratch|
        && OnScreen(Widths(m.vram), y, x, n, rows)
    ensures m.AllFit(DownloadBatch(offset, pitch, y, x, n, rows))
  {
    forall j | 0 <= j < rows ensures m.Fits(DownloadBatch(offset, pitch, y, x, n, rows)[j]) {
      SlotFits(offset, pitch, j, rows, half);
      RowOnScreen(m.vram, y, x, n, rows, j);
    }
  }

  lemma {:induction false} DrainedDownloadBatch(m: Mem, offset: nat, half: nat, pitch: nat, y: nat, x: nat, n: nat,
                                                rows: nat)
    requires n <= pitch && Span(rows, pitch) <= half && offset + half <= |m.scratch|
    requires m.AllFit(DownloadBatch(offset, pitch, y, x, n, rows))
    ensures var r := Drained(m, DownloadBatch(offset, pitch, y, x, n, rows));
            && r.vram == m.vram && Caught(r.scratch, offset, pitch, m.vram, y, x, n, rows)
            && SameOutside(m.scratch, r.scratch, offset, half)
    decreases rows
  {
    var q := DownloadBatch(offset, pitch, y, x, n, rows);
    if rows > 0 {
      var last := rows - 1;
      assert q[..last] == DownloadBatch(offset, pitch, y, x, n, last);
      DrainedLast(m, q);
      SpanMonotone(last, rows, pitch);
      DrainedDownloadBatch(m, offset, half, pitch, y, x, n, last);
      SlotFits(offset, pitch, last, rows, half);
      CatchOneMore(Drained(m, q[..last]), offset, half, pitch, y, x, n, last, m.scratch);
    }
  }

  lemma CatchOneMore(m: Mem, offset: nat, half: nat, pitch: nat, y: nat, x: nat, n: nat, j: nat, before: seq<Byte>)
    requires n <= pitch && Slot(offset, pitch, j) + pitch <= offset + half <= |m.scratch|
    requires m.Fits(FromScreen(y + j, x, n, Slot(offset, pitch, j)))
    requires Caught(m.scratch, offset, pitch, m.vram, y, x, n, j) && SameOutside(before, m.scratch, offset, half)
    ensures var r := m.Step(FromScreen(y + j, x, n, Slot(offset, pitch, j)));
            && r.vram == m.vram && Caught(r.scratch, offset, pitch, m.vram, y, x, n, j + 1)
            && SameOutside(before, r.scratch, offset, half)
  {
    OutsideAfterWrite(m.scratch, Slot(offset, pitch, j), ScreenRow(m.vram, y + j, x, n), offset, half);
    CaughtOneMore(m.scratch, offset, m.vram, y, x, n, pitch, j);
  }

  /** A half keeps its rows while a blit fills the other. */
  lemma CaughtOutside(s: seq<Byte>, r: seq<Byte>, offset: nat, other: nat, half: nat, pitch: nat,
                      v: seq<seq<Byte>>, y: nat, x: nat, n: nat, rows: nat)
    requires Caught(s, offset, pitch, v, y, x, n, rows) && SameOutside(s, r, other, half)
    requires n <= pitch && Span(rows, pitch) <= half && (offset + half <= other || other + half <= offset)
    ensures Caught(r, offset, pitch, v, y, x, n, rows)
  {
    forall j | 0 <= j < rows ensures SlotCaught(r, offset, pitch, v, y, x, n, j) {
      assert SlotCaught(s, offset, pitch, v, y, x, n, j);
      SlotFits(offset, pitch, j, rows, half);
      assert |ScreenRow(v, y + j, x, n)| <= n;
      HoldsOutside(s, r, other, half, Slot(offset, pitch, j), offset, pitch, j, ScreenRow(v, y + j, x, n));
    }
  }

  /** Queue a blit from the screen into a half; the other half and the screen are left as they will be. */
  method SubmitDownload(e: Engine, offset: nat, half: nat, pitch: nat, y: nat, x: nat, n: nat, rows: nat)
    requires e.Valid() && n <= pitch && Span(rows, pitch) <= half && offset + half <= |e.mem.scratch|
    requires OnScreen(Widths(e.mem.vram), y, x, n, rows)
    modifies e
    ensures e.Valid() && SameShape(old(e.mem), e.mem) && e.Final().vram == old(e.Final()).vram
    ensures Caught(e.Final().scratch, offset, pitch, old(e.Final()).vram, y, x, n, rows)
    ensures SameOutside(old(e.Final()).scratch, e.Final().scratch, offset, half)
    ensures rows == 0 && NoDownloads(old(e.queue)) ==> NoDownloads(e.queue)
  {
    DownloadBatchFits(e.mem, offset, half, pitch, y, x, n, rows);
    e.Submit(DownloadBatch(offset, pitch, y, x, n, rows));
    DrainedDownloadBatch(old(e.Final()), offset, half, pitch, y, x, n, rows);
    e.MayRun();
  }

  // ---- Copying out ----

  method MemCpy(dst: array<Byte>, at: nat, data: seq<Byte>)
    requires at + |data| <= dst.Length
    modifies dst
    ensures dst[..] == Splice(old(dst[..]), at, data)
  {
    forall k | 0 <= k < |data| {
      dst[at + k] := data[k];
    }
  }

  /** Copy the rows of a half out, while the GPU stands still. */
  method CopyOut(e: Engine, dst: array<Byte>, offset: nat, pitch: nat, n: nat, dstPitch: nat, rows: nat,
                 ghost was: seq<Byte>, first: nat, ghost v: seq<seq<Byte>>, ghost y: nat, ghost x: nat, ghost h: nat)
    requires e.Valid() && e.queue == [] && n <= dstPitch
    requires Caught(e.mem.scratch, offset, pitch, v, y + first, x, n, rows)
    requires first + rows <= h && OnScreen(Widths(v), y, x, n, h) && HasRows(was, dstPitch, n, h)
    requires Pasted(dst[..], was, v, y, x, n, dstPitch, first)
    modifies dst
    ensures Pasted(dst[..], was, v, y, x, n, dstPitch, first + rows)
  {
    var j := 0;
    ghost var mem := e.mem;
    while j < rows
      invariant j <= rows && e.Valid() && e.queue == [] && e.mem == mem
      invariant Pasted(dst[..], was, v, y, x, n, dstPitch, first + j)
    {
      CopyRowOut(e, dst, offset, pitch, n, dstPitch, rows, was, first, v, y, x, h, j);
      j := j + 1;
    }
  }

  method CopyRowOut(e: Engine, dst: array<Byte>, offset: nat, pitch: nat, n: nat, dstPitch: nat, ghost rows: nat,
                    ghost was: seq<Byte>, first: nat, ghost v: seq<seq<Byte>>, ghost y: nat, ghost x: nat, ghost h: nat,
                    j: nat)
    requires e.Valid() && e.queue == [] && j < rows && n <= dstPitch
    requires Caught(e.mem.scratch, offset, pitch, v, y + first, x, n, rows)
    requires first + rows <= h && OnScreen(Widths(v), y, x, n, h) && HasRows(was, dstPitch, n, h)
    requires Pasted(dst[..], was, v, y, x, n, dstPitch, first + j)
    modifies dst
    ensures Pasted(dst[..], was, v, y, x, n, dstPitch, first + j + 1)
  {
    var from, at := Slot(offset, pitch, j), Slot(0, dstPitch, first + j);
    OneRowOut(dst[..], e.mem.scratch, was, offset, pitch, v, y, x, n, dstPitch, rows, first, j, h, from, at);
    var data := e.CpuRead(from, n);
    MemCpy(dst, at, data);
  }

  lemma OneRowOut(d: seq<Byte>, scratch: seq<Byte>, was: seq<Byte>, offset: nat, pitch: nat, v: seq<seq<Byte>>, y: nat,
                  x: nat, n: nat,
                  dstPitch: nat, rows: nat, first: nat, j: nat, h: nat, from: nat, at: nat)
    requires j < rows && Caught(scratch, offset, pitch, v, y + first, x, n, rows) && n <= dstPitch
    requires first + rows <= h && OnScreen(Widths(v), y, x, n, h) && HasRows(was, dstPitch, n, h)
    requires from == Slot(offset, pitch, j) && at == Slot(0, dstPitch, first + j)
    requires Pasted(d, was, v, y, x, n, dstPitch, first + j)
    ensures from + n <= |scratch| && at + n <= |d|
    ensures Pasted(Splice(d, at, scratch[from..from + n]), was, v, y, x, n, dstPitch, first + j + 1)
  {
    var data := CaughtSlot(scratch, offset, pitch, v, y, x, n, rows, first, j, h);
    RowLength(was, dstPitch, n, h, first + j);
    PasteOneMore(d, was, v, y, x, n, dstPitch, first + j);
  }

  /** The row a slot has caught. */
  lemma CaughtSlot(scratch: seq<Byte>, offset: nat, pitch: nat, v: seq<seq<Byte>>, y: nat, x: nat, n: nat, rows: nat,
                   first: nat, j: nat, h: nat)
      returns (data: seq<Byte>)
    requires j < rows && Caught(scratch, offset, pitch, v, y + first, x, n, rows) && first + rows <= h
        && OnScreen(Widths(v), y, x, n, h)
    ensures data == ScreenRow(v, y + (first + j), x, n) && |data| == n
    ensures Slot(offset, pitch, j) + n <= |scratch|
        && scratch[Slot(offset, pitch, j)..Slot(offset, pitch, j) + n] == data
  {
    data := ScreenRow(v, y + (first + j), x, n);
    assert y + first + j == y + (first + j);
    assert SlotCaught(scratch, offset, pitch, v, y + first, x, n, j);
    ScreenRowLength(v, y, x, n, h, first + j);
  }

  /** Download h rows of w pixels of cpp bytes through a buffer of `total` bytes, if there is one.
      Whatever the GPU runs when, each row that reaches the destination is the screen row as
      everything queued before the call leaves it. */
  method DownloadFromScreen(e: Engine, total: nat, rv740: bool, scratchFree: bool, srcPitch: nat, cpp: nat,
                            x: nat, y: nat, w: nat, h: nat, dst: array<Byte>, dstPitch: nat) returns (ok: bool)
    requires e.Valid() && cpp in {1, 2, 4} && w > 0 && w * cpp <= dstPitch
    requires HasRows(dst[..], dstPitch, w * cpp, h) && OnScreen(Widths(e.mem.vram), y, x * cpp, w * cpp, h)
    requires h == 0 || AlignedPitch(dstPitch) <= total / 2
    modifies e, dst
    ensures e.Valid() && e.Final().vram == old(e.Final()).vram && Widths(e.mem.vram) == old(Widths(e.mem.vram))
    ensures NoDownloads(old(e.queue)) ==> NoDownloads(e.queue)
    ensures ok <==> !rv740 && srcPitch % 8 == 0 && scratchFree
    ensures ok ==> Pasted(dst[..], old(dst[..]), old(e.Final()).vram, y, x * cpp, w * cpp, dstPitch, h)
    ensures !ok ==> dst[..] == old(dst[..])
  {
    if rv740 {
      return false;
    }
    if srcPitch % 8 != 0 {
      return false;
    }
    if !scratchFree {
      return false;
    }
    var start := e.Take(total);
    DownloadRows(e, Fetch(start, total / 2, AlignedPitch(dstPitch), x * cpp, y, w * cpp, h), dst, dstPitch);
    ok := true;
  }

  /** What stays fixed during a download: the buffer's start, the size of its halves and the pitch of their
      rows, and the rectangle, x and the row length n in bytes. */
  datatype Fetch = Fetch(start: nat, half: nat, pitch: nat, x: nat, y: nat, n: nat, h: nat)

  /** Screen rows row, row + 1, ... are in a half. */
  ghost predicate Fetched(scratch: seq<Byte>, f: Fetch, v: seq<seq<Byte>>, scratchOffset: nat, row: nat, rows: nat) {
    Caught(scratch, f.start + scratchOffset, f.pitch, v, row, f.x, f.n, rows)
  }

  ghost predicate Halved(e: Engine, f: Fetch, scratchOffset: nat, v: seq<seq<Byte>>)
    reads e
  {
    && (scratchOffset == 0 || scratchOffset == f.half) && f.start + 2 * f.half <= |e.mem.scratch|
    && OnScreen(Widths(e.mem.vram), f.y, f.x, f.n, f.h) && OnScreen(Widths(v), f.y, f.x, f.n, f.h)
    && e.Valid() && e.Final().vram == v
  }

  /** Between passes: rows before p.row are in dst, and the next p.hpass rows are in the half at
      p.scratchOffset or queued for it. */
  ghost predicate Downloading(e: Engine, v: seq<seq<Byte>>, f: Fetch, p: Place)
    requires f.pitch > 0
    reads e
  {
    && p.left <= f.h && p.row == f.y + (f.h - p.left) && p.hpass == PassRows(p.left, f.half, f.pitch)
    && Halved(e, f, p.scratchOffset, v)
    && Fetched(e.Final().scratch, f, v, p.scratchOffset, p.row, p.hpass)
  }

  method DownloadRows(e: Engine, f: Fetch, dst: array<Byte>, dstPitch: nat)
    requires e.Valid() && Halved(e, f, 0, e.Final().vram) && 0 < f.n <= dstPitch <= f.pitch
        && (f.h == 0 || f.pitch <= f.half)
    requires HasRows(dst[..], dstPitch, f.n, f.h)
    modifies e, dst
    ensures e.Valid() && e.Final().vram == old(e.Final()).vram && SameShape(old(e.mem), e.mem)
    ensures NoDownloads(old(e.queue)) ==> NoDownloads(e.queue)
    ensures Pasted(dst[..], old(dst[..]), old(e.Final()).vram, f.y, f.x, f.n, dstPitch, f.h)
  {
    ghost var v, was := e.Final().vram, dst[..];
    NothingPasted(was, v, f.y, f.x, f.n, dstPitch);
    var p := StartDownload(e, f);
    while p.left != 0
      invariant Downloading(e, v, f, p) && SameShape(old(e.mem), e.mem)
      invariant p.left == 0 && NoDownloads(old(e.queue)) ==> NoDownloads(e.queue)
      invariant Pasted(dst[..], was, v, f.y, f.x, f.n, dstPitch, f.h - p.left)
      decreases p.left
    {
      p := DownloadPass(e, v, f, was, dst, dstPitch, p);
    }
  }

  /** Queue the first blit before the loop. */
  method StartDownload(e: Engine, f: Fetch) returns (p: Place)
    requires e.Valid() && Halved(e, f, 0, e.Final().vram) && 0 < f.n <= f.pitch
    modifies e
    ensures p.left == f.h && Downloading(e, old(e.Final()).vram, f, p) && SameShape(old(e.mem), e.mem)
    ensures f.h == 0 && NoDownloads(old(e.queue)) ==> NoDownloads(e.queue)
  {
    var hpass := PassRows(f.h, f.half, f.pitch);
    PassFits(f.half, f.pitch, hpass);
    SubmitDownload(e, f.start, f.half, f.pitch, f.y, f.x, f.n, hpass);
    p := Place(f.h, 0, f.y, hpass);
  }

  /** One pass: queue the next rows into the other half, wait, and copy this half out. */
  method DownloadPass(e: Engine, ghost v: seq<seq<Byte>>, f: Fetch, ghost was: seq<Byte>, dst: array<Byte>,
                      dstPitch: nat, p: Place)
      returns (p': Place)
    requires 0 < f.n <= dstPitch <= f.pitch && HasRows(was, dstPitch, f.n, f.h) && Downloading(e, v, f, p)
    requires Pasted(dst[..], was, v, f.y, f.x, f.n, dstPitch, f.h - p.left)
    modifies e, dst
    ensures p'.left == p.left - PassRows(p.left, f.half, f.pitch)
        && (f.pitch <= f.half && p.left > 0 ==> p'.left < p.left)
    ensures Downloading(e, v, f, p') && SameShape(old(e.mem), e.mem) && e.queue == []
    ensures Pasted(dst[..], was, v, f.y, f.x, f.n, dstPitch, f.h - p'.left)
  {
    p' := QueueNext(e, v, f, p);
    e.Idle();
    CopyOut(e, dst, f.start + p.scratchOffset, f.pitch, f.n, dstPitch, p.hpass, was, f.h - p.left, v, f.y, f.x, f.h);
  }

  /** Queue the next rows; the rows already caught or queued stay. */
  method QueueNext(e: Engine, ghost v: seq<seq<Byte>>, f: Fetch, p: Place) returns (p': Place)
    requires 0 < f.n <= f.pitch && Downloading(e, v, f, p)
    modifies e
    ensures p'.left == p.left - p.hpass && Span(p.hpass, f.pitch) <= f.half
        && (f.pitch <= f.half && p.left > 0 ==> p.hpass > 0)
    ensures Downloading(e, v, f, p') && SameShape(old(e.mem), e.mem)
    ensures Fetched(e.Final().scratch, f, v, p.scratchOffset, p.row, p.hpass)
  {
    var left, row := p.left - p.hpass, p.row + p.hpass;
    var hpass := PassRows(left, f.half, f.pitch);
    PassesFit(f.half, f.pitch, p.left, p.hpass, hpass);
    var offset := p.scratchOffset;
    if hpass != 0 {
      offset := CatchOther(e, f, offset, v, p.row, p.hpass, row, hpass);
    }
    p' := Place(left, offset, row, hpass);
  }

  /** Queue a blit into the other half; this half keeps its rows. */
  method CatchOther(e: Engine, f: Fetch, offset: nat, ghost v: seq<seq<Byte>>, ghost held: nat, ghost heldRows: nat,
                    row: nat, rows: nat) returns (other: nat)
    requires Halved(e, f, offset, v) && Fetched(e.Final().scratch, f, v, offset, held, heldRows)
    requires f.n <= f.pitch && Span(rows, f.pitch) <= f.half && Span(heldRows, f.pitch) <= f.half
    requires f.y <= row && row + rows <= f.y + f.h
    modifies e
    ensures other == f.half - offset && Halved(e, f, other, v) && SameShape(old(e.mem), e.mem)
    ensures Fetched(e.Final().scratch, f, v, offset, held, heldRows)
        && Fetched(e.Final().scratch, f, v, other, row, rows)
  {
    other := f.half - offset;
    SubmitDownload(e, f.start + other, f.half, f.pitch, row, f.x, f.n, rows);
    CaughtOutside(old(e.Final()).scratch, e.Final().scratch, f.start + offset, f.start + other, f.half, f.pitch,
                  v, held, f.x, f.n, heldRows);
  }

  /** An upload and a download of the same rectangle with no wait between them: the rows come back. */
  method RoundTrip(e: Engine, total: nat, screenPitch: nat, mcAddr: nat, cpp: nat, x: nat, y: nat, w: nat, h: nat,
                   src: seq<Byte>, srcPitch: nat, dst: array<Byte>, dstPitch: nat)
    requires e.Valid() && NoDownloads(e.queue) && cpp in {1, 2, 4} && w > 0 && w * cpp <= dstPitch
    requires HasRows(src, srcPitch, w * cpp, h) && HasRows(dst[..], dstPitch, w * cpp, h)
    requires OnScreen(Widths(e.mem.vram), y, x * cpp, w * cpp, h) && screenPitch % 8 == 0 && mcAddr % 256 == 0
    requires h == 0 || (AlignedPitch(w * cpp) <= total / 2 && AlignedPitch(dstPitch) <= total / 2)
    modifies e, dst
    ensures e.Valid() && NoDownloads(e.queue)
    ensures forall j :: 0 <= j < h ==> Row(dst[..], dstPitch, w * cpp, j) == Row(src, srcPitch, w * cpp, j)
  {
    ghost var v, was := e.Final().vram, dst[..];
    var sent := CopyToVram(e, total, true, screenPitch, mcAddr, cpp, x, y, w, h, src, srcPitch);
    var fetched := DownloadFromScreen(e, total, false, true, screenPitch, cpp, x, y, w, h, dst, dstPitch);
    forall j | 0 <= j < h ensures Row(dst[..], dstPitch, w * cpp, j) == Row(src, srcPitch, w * cpp, j) {
      UploadThenDownload(v, y, x * cpp, w * cpp, h, src, srcPitch, was, dst[..], dstPitch, j);
    }
  }
}
