/** Uploads and downloads on R6xx through the two halves of a scratch buffer, with
    the GPU running behind the CPU. */
module Transfer {
  import opened Arith
  import opened Memory

  // ---- Layout of the scratch buffer ----

  /** A row padded to 256 bytes. */
  function AlignedPitch(bytes: nat): (r: nat)
    ensures r >= bytes && r % 256 == 0 && r < bytes + 256
    ensures bytes > 0 ==> r > 0
  {
    (bytes + 255) / 256 * 256
  }

  /** Where row j of a half starts. */
  function Slot(offset: nat, pitch: nat, j: nat): nat {
    offset + Span(j, pitch)
  }

  /** The rows of a half that hold at most `rows` rows stay inside it. */
  lemma SlotFits(offset: nat, pitch: nat, j: nat, rows: nat, half: nat)
    requires j < rows && Span(rows, pitch) <= half
    ensures Slot(offset, pitch, j) + pitch <= offset + half
  {
    SpanMonotone(j + 1, rows, pitch);
  }

  lemma SlotsApart(offset: nat, pitch: nat, j: nat, k: nat)
    requires j < k
    ensures Slot(offset, pitch, j) + pitch <= Slot(offset, pitch, k)
  {
    SpanMonotone(j + 1, k, pitch);
  }

  lemma PerHalfFits(half: nat, pitch: nat)
    requires pitch > 0
    ensures Span(half / pitch, pitch) <= half
  {
    SpanIs(half / pitch, pitch);
    assert half == half / pitch * pitch + half % pitch;
  }

  // ---- Source and destination images ----

  /** Row j of an image in system memory: n bytes, pitch bytes after the row before. */
  function Row(s: seq<Byte>, pitch: nat, n: nat, j: nat): seq<Byte> {
    if Span(j, pitch) + n <= |s| then s[Span(j, pitch)..Span(j, pitch) + n] else []
  }

  predicate HasRows(s: seq<Byte>, pitch: nat, n: nat, rows: nat) {
    rows > 0 ==> Span(rows - 1, pitch) + n <= |s|
  }

  lemma RowLength(s: seq<Byte>, pitch: nat, n: nat, rows: nat, j: nat)
    requires HasRows(s, pitch, n, rows) && j < rows
    ensures Span(j, pitch) + n <= |s| && |Row(s, pitch, n, j)| == n
  {
    SpanMonotone(j, rows - 1, pitch);
  }

  /** Slot j of a half holds `data`. */
  predicate Holds(scratch: seq<Byte>, offset: nat, pitch: nat, j: nat, data: seq<Byte>) {
    var at := Slot(offset, pitch, j);
    at + |data| <= |scratch| && scratch[at..at + |data|] == data
  }

  /** Source rows first, ..., first + rows - 1 lie in slots 0, ..., rows - 1 of a half. */
  ghost predicate Filled(scratch: seq<Byte>, offset: nat, pitch: nat, src: seq<Byte>, srcPitch: nat, n: nat, first: nat,
                         rows: nat) {
    forall j {:trigger SlotFilled(scratch, offset, pitch, src, srcPitch, n, first, j)} | 0 <= j < rows ::
      SlotFilled(scratch, offset, pitch, src, srcPitch, n, first, j)
  }

  predicate SlotFilled(scratch: seq<Byte>, offset: nat, pitch: nat, src: seq<Byte>, srcPitch: nat, n: nat, first: nat,
                       j: nat) {
    Holds(scratch, offset, pitch, j, Row(src, srcPitch, n, first + j))
  }

  // ---- Upload ----

  function Overlay(s: seq<Byte>, at: nat, data: seq<Byte>): seq<Byte> {
    if at + |data| <= |s| then Splice(s, at, data) else s
  }

  /** Video memory with rows lo, ..., hi - 1 of the source laid over rows y + lo, ... from byte x. */
  function Uploaded(v: seq<seq<Byte>>, y: nat, x: nat, src: seq<Byte>, srcPitch: nat, n: nat, lo: nat,
                    hi: nat): seq<seq<Byte>> {
    seq(|v|, i requires 0 <= i < |v| =>
      if y + lo <= i < y + hi then Overlay(v[i], x, Row(src, srcPitch, n, i - y)) else v[i])
  }

  /** The blit of one half, row by row: slot j goes to screen row y + j. */
  function UploadBatch(offset: nat, pitch: nat, y: nat, x: nat, n: nat, rows: nat): (q: seq<RowCopy>)
    ensures |q| == rows && forall j :: 0 <= j < rows ==> q[j] == ToScreen(Slot(offset, pitch, j), y + j, x, n)
  {
    seq(rows, j requires 0 <= j < rows => ToScreen(Slot(offset, pitch, j), y + j, x, n))
  }

  /** The target rectangle lies on the screen. */
  ghost predicate OnScreen(widths: seq<nat>, y: nat, x: nat, n: nat, h: nat) {
    y + h <= |widths| && forall i :: y <= i < y + h ==> x + n <= widths[i]
  }

  lemma RowOnScreen(v: seq<seq<Byte>>, y: nat, x: nat, n: nat, h: nat, j: nat)
    requires OnScreen(Widths(v), y, x, n, h) && j < h
    ensures y + j < |v| && x + n <= |v[y + j]|
  {
    assert Widths(v)[y + j] == |v[y + j]|;
  }

  /** A blit whose half holds source rows first, first + 1, ... lays those rows on the screen. */
  lemma {:induction false} DrainedUploadBatch(m: Mem, offset: nat, pitch: nat, y: nat, x: nat, n: nat, rows: nat,
                                              src: seq<Byte>, srcPitch: nat, first: nat)
    requires m.AllFit(UploadBatch(offset, pitch, y + first, x, n, rows)) && HasRows(src, srcPitch, n, first + rows)
    requires Filled(m.scratch, offset, pitch, src, srcPitch, n, first, rows)
    ensures Drained(m, UploadBatch(offset, pitch, y + first, x, n, rows)) ==
            m.(vram := Uploaded(m.vram, y, x, src, srcPitch, n, first, first + rows))
    decreases rows
  {
    if rows == 0 {
      assert Uploaded(m.vram, y, x, src, srcPitch, n, first, first) == m.vram;
    } else {
      var c, before := LastOfUpload(m, offset, pitch, y + first, x, n, rows);
      FewerRows(m.scratch, offset, pitch, src, srcPitch, n, first, rows);
      DrainedUploadBatch(m, offset, pitch, y, x, n, rows - 1, src, srcPitch, first);
      var data := FilledSlot(m.scratch, offset, pitch, src, srcPitch, n, first, rows, rows - 1);
      UploadOneMore(m, before, y, x, n, src, srcPitch, first, rows, c, data);
    }
  }

  lemma UploadOneMore(m: Mem, before: Mem, y: nat, x: nat, n: nat, src: seq<Byte>, srcPitch: nat, first: nat, rows: nat,
                      c: RowCopy, data: seq<Byte>)
    requires rows > 0 && before == m.(vram := Uploaded(m.vram, y, x, src, srcPitch, n, first, first + (rows - 1)))
    requires c.ToScreen? && before.Fits(c) && m.Fits(c) && c.row == y + first + (rows - 1) && c.x == x
        && c.n == n == |data|
    requires data == Row(src, srcPitch, n, first + (rows - 1)) && m.scratch[c.from..c.from + n] == data
    ensures before.Step(c) == m.(vram := Uploaded(m.vram, y, x, src, srcPitch, n, first, first + rows))
  {
    OneMoreRow(m.vram, y, x, src, srcPitch, n, first, first + (rows - 1), first + rows, c.row, data);
    StepToScreen(m, before, Uploaded(m.vram, y, x, src, srcPitch, n, first, first + rows), c, data);
  }

  /** A batch is a shorter one and one more row copy. */
  lemma LastOfUpload(m: Mem, offset: nat, pitch: nat, y: nat, x: nat, n: nat, rows: nat)
      returns (c: RowCopy, before: Mem)
    requires rows > 0 && m.AllFit(UploadBatch(offset, pitch, y, x, n, rows))
    ensures c == ToScreen(Slot(offset, pitch, rows - 1), y + (rows - 1), x, n) && m.Fits(c)
    ensures m.AllFit(UploadBatch(offset, pitch, y, x, n, rows - 1))
    ensures before == Drained(m, UploadBatch(offset, pitch, y, x, n, rows - 1))
    ensures before.Fits(c) && Drained(m, UploadBatch(offset, pitch, y, x, n, rows)) == before.Step(c)
  {
    var q := UploadBatch(offset, pitch, y, x, n, rows);
    assert q[..rows - 1] == UploadBatch(offset, pitch, y, x, n, rows - 1);
    DrainedLast(m, q);
    c, before := q[rows - 1], Drained(m, q[..rows - 1]);
    assert m.Fits(q[rows - 1]);
  }

  /** The row a filled slot holds. */
  lemma FilledSlot(scratch: seq<Byte>, offset: nat, pitch: nat, src: seq<Byte>, srcPitch: nat, n: nat, first: nat,
                   rows: nat, j: nat)
      returns (data: seq<Byte>)
    requires Filled(scratch, offset, pitch, src, srcPitch, n, first, rows) && HasRows(src, srcPitch, n, first + rows)
        && j < rows
    ensures data == Row(src, srcPitch, n, first + j) && |data| == n
    ensures Slot(offset, pitch, j) + n <= |scratch|
        && scratch[Slot(offset, pitch, j)..Slot(offset, pitch, j) + n] == data
  {
    data := Row(src, srcPitch, n, first + j);
    assert SlotFilled(scratch, offset, pitch, src, srcPitch, n, first, j);
    RowLength(src, srcPitch, n, first + rows, first + j);
  }

  lemma FewerRows(scratch: seq<Byte>, offset: nat, pitch: nat, src: seq<Byte>, srcPitch: nat, n: nat, first: nat,
                  rows: nat)
    requires rows > 0 && HasRows(src, srcPitch, n, first + rows)
    requires Filled(scratch, offset, pitch, src, srcPitch, n, first, rows)
    ensures HasRows(src, srcPitch, n, first + (rows - 1))
    ensures Filled(scratch, offset, pitch, src, srcPitch, n, first, rows - 1)
  {
    if first + rows > 1 {
      RowLength(src, srcPitch, n, first + rows, first + rows - 2);
    }
  }

  lemma StepToScreen(m: Mem, before: Mem, next: seq<seq<Byte>>, c: RowCopy, data: seq<Byte>)
    requires before == m.(vram := before.vram) && c.ToScreen? && before.Fits(c)
    requires c.n == |data| && m.scratch[c.from..c.from + c.n] == data
    requires next == before.vram[c.row := Overlay(before.vram[c.row], c.x, data)]
    ensures before.Step(c) == m.(vram := next)
  {
  }

  lemma OneMoreRow(v: seq<seq<Byte>>, y: nat, x: nat, src: seq<Byte>, srcPitch: nat, n: nat, lo: nat, hi: nat, end: nat,
                   row: nat, data: seq<Byte>)
    requires lo <= hi && end == hi + 1 && row == y + hi < |v| && data == Row(src, srcPitch, n, hi)
    ensures var r := Uploaded(v, y, x, src, srcPitch, n, lo, hi);
            Uploaded(v, y, x, src, srcPitch, n, lo, end) == r[row := Overlay(r[row], x, data)]
  {
  }

  lemma UploadedInParts(v: seq<seq<Byte>>, y: nat, x: nat, src: seq<Byte>, srcPitch: nat, n: nat, mid: nat, hi: nat)
    requires mid <= hi
    ensures Uploaded(Uploaded(v, y, x, src, srcPitch, n, 0, mid), y, x, src, srcPitch, n, mid, hi)
         == Uploaded(v, y, x, src, srcPitch, n, 0, hi)
  {
  }

  /** memcpy `rows` source rows into the slots of a half, while the GPU goes on with its queue. */
  method FillHalf(e: Engine, offset: nat, half: nat, pitch: nat, src: seq<Byte>, srcPitch: nat, n: nat, first: nat,
                  rows: nat)
    requires e.Valid() && NoDownloads(e.queue) && AllMiss(e.queue, offset, half)
    requires offset + half <= |e.mem.scratch| && Span(rows, pitch) <= half && n <= pitch
        && HasRows(src, srcPitch, n, first + rows)
    modifies e
    ensures e.Valid() && NoDownloads(e.queue) && SameShape(old(e.mem), e.mem)
    ensures e.Final().vram == old(e.Final()).vram
    ensures Filled(e.mem.scratch, offset, pitch, src, srcPitch, n, first, rows)
    ensures SameOutside(old(e.mem).scratch, e.mem.scratch, offset, half)
  {
    var j := 0;
    while j < rows
      invariant j <= rows && e.Valid() && NoDownloads(e.queue) && AllMiss(e.queue, offset, half)
      invariant SameShape(old(e.mem), e.mem) && e.Final().vram == old(e.Final()).vram
      invariant Filled(e.mem.scratch, offset, pitch, src, srcPitch, n, first, j)
      invariant SameOutside(old(e.mem).scratch, e.mem.scratch, offset, half)
    {
      FillSlot(e, offset, half, pitch, src, srcPitch, n, first, j, rows);
      j := j + 1;
    }
  }

  method FillSlot(e: Engine, offset: nat, half: nat, pitch: nat, src: seq<Byte>, srcPitch: nat, n: nat, first: nat,
                  j: nat, rows: nat)
    requires e.Valid() && NoDownloads(e.queue) && AllMiss(e.queue, offset, half) && j < rows
    requires offset + half <= |e.mem.scratch| && Span(rows, pitch) <= half && n <= pitch
        && HasRows(src, srcPitch, n, first + rows)
    requires Filled(e.mem.scratch, offset, pitch, src, srcPitch, n, first, j)
    modifies e
    ensures e.Valid() && NoDownloads(e.queue) && AllMiss(e.queue, offset, half) && SameShape(old(e.mem), e.mem)
    ensures e.Final().vram == old(e.Final()).vram
    ensures Filled(e.mem.scratch, offset, pitch, src, srcPitch, n, first, j + 1)
    ensures SameOutside(old(e.mem).scratch, e.mem.scratch, offset, half)
  {
    var at, data := Slot(offset, pitch, j), Row(src, srcPitch, n, first + j);
    SlotReady(e.mem.scratch, offset, half, pitch, src, srcPitch, n, first, j, rows, at, data);
    WriteIntoHalf(e, offset, half, at, data);
  }

  lemma SlotReady(s: seq<Byte>, offset: nat, half: nat, pitch: nat, src: seq<Byte>, srcPitch: nat, n: nat, first: nat,
                  j: nat, rows: nat,
                  at: nat, data: seq<Byte>)
    requires offset + half <= |s| && Span(rows, pitch) <= half && n <= pitch && HasRows(src, srcPitch, n, first + rows)
        && j < rows
    requires Filled(s, offset, pitch, src, srcPitch, n, first, j)
    requires at == Slot(offset, pitch, j) && data == Row(src, srcPitch, n, first + j)
    ensures offset <= at && at + |data| <= offset + half
    ensures Filled(Splice(s, at, data), offset, pitch, src, srcPitch, n, first, j + 1)
  {
    SlotFits(offset, pitch, j, rows, half);
    RowLength(src, srcPitch, n, first + rows, first + j);
    FilledAfterWrite(s, offset, half, pitch, src, srcPitch, n, first, j);
  }

  /** One memcpy into a half no queued copy touches, at a moment of the GPU's choosing. */
  method WriteIntoHalf(e: Engine, offset: nat, half: nat, at: nat, data: seq<Byte>)
    requires e.Valid() && NoDownloads(e.queue) && AllMiss(e.queue, offset, half)
    requires offset <= at && at + |data| <= offset + half <= |e.mem.scratch|
    modifies e
    ensures e.Valid() && NoDownloads(e.queue) && AllMiss(e.queue, offset, half) && SameShape(old(e.mem), e.mem)
    ensures e.Final().vram == old(e.Final()).vram
    ensures e.mem.scratch == Splice(old(e.mem).scratch, at, data)
    ensures SameOutside(old(e.mem).scratch, e.mem.scratch, offset, half)
  {
    ghost var q := e.queue;
    OutsideAfterWrite(e.mem.scratch, at, data, offset, half);
    e.MayRun();
    SuffixMisses(q, |q| - |e.queue|, offset, half);
    PartMisses(e.queue, offset, half, at, |data|);
    e.CpuWrite(at, data);
  }

  lemma OutsideAfterWrite(s: seq<Byte>, at: nat, data: seq<Byte>, offset: nat, half: nat)
    requires offset <= at && at + |data| <= offset + half <= |s|
    ensures SameOutside(s, Splice(s, at, data), offset, half)
  {
  }

  lemma FilledAfterWrite(s: seq<Byte>, offset: nat, half: nat, pitch: nat, src: seq<Byte>, srcPitch: nat, n: nat,
                         first: nat, j: nat)
    requires Filled(s, offset, pitch, src, srcPitch, n, first, j) && |Row(src, srcPitch, n, first + j)| == n <= pitch
    requires Slot(offset, pitch, j) + pitch <= offset + half <= |s|
    ensures Filled(Splice(s, Slot(offset, pitch, j), Row(src, srcPitch, n, first + j)), offset, pitch, src, srcPitch, n,
                   first, j + 1)
  {
    var at, data := Slot(offset, pitch, j), Row(src, srcPitch, n, first + j);
    var r := Splice(s, at, data);
    forall k | 0 <= k < j + 1
      ensures SlotFilled(r, offset, pitch, src, srcPitch, n, first, k)
    {
      if k < j {
        assert SlotFilled(s, offset, pitch, src, srcPitch, n, first, k);
        SlotsApart(offset, pitch, k, j);
        SlotKept(s, at, data, offset, pitch, k, Row(src, srcPitch, n, first + k));
      } else {
        SpliceAt(s, at, data);
      }
    }
  }

  lemma SlotKept(s: seq<Byte>, at: nat, data: seq<Byte>, offset: nat, pitch: nat, k: nat, held: seq<Byte>)
    requires at + |data| <= |s| && Holds(s, offset, pitch, k, held) && Slot(offset, pitch, k) + |held| <= at
    ensures Holds(Splice(s, at, data), offset, pitch, k, held)
  {
    SpliceAway(s, at, data, Slot(offset, pitch, k), Slot(offset, pitch, k) + |held|);
  }

  /** Queue the blit of a filled half; its rows are on the screen once the GPU gets there. */
  method SubmitUpload(e: Engine, offset: nat, pitch: nat, row: nat, x: nat, n: nat, rows: nat,
                      ghost y: nat, ghost src: seq<Byte>, ghost srcPitch: nat, ghost first: nat)
    requires e.Valid() && NoDownloads(e.queue)
    requires e.mem.AllFit(UploadBatch(offset, pitch, row, x, n, rows))
        && NoDownloads(UploadBatch(offset, pitch, row, x, n, rows))
    requires row == y + first && HasRows(src, srcPitch, n, first + rows)
    requires Filled(e.mem.scratch, offset, pitch, src, srcPitch, n, first, rows)
    modifies e
    ensures e.Valid() && NoDownloads(e.queue) && SameShape(old(e.mem), e.mem) && e.mem.scratch == old(e.mem).scratch
    ensures e.Final().vram == Uploaded(old(e.Final()).vram, y, x, src, srcPitch, n, first, first + rows)
  {
    var batch := UploadBatch(offset, pitch, row, x, n, rows);
    DrainedWithoutDownloads(e.mem, e.queue);
    e.Submit(batch);
    DrainedUploadBatch(old(e.Final()), offset, pitch, y, x, n, rows, src, srcPitch, first);
    e.MayRun();
  }

  lemma BatchFits(m: Mem, offset: nat, half: nat, pitch: nat, y: nat, x: nat, n: nat, rows: nat)
    requires n <= pitch && Span(rows, pitch) <= half && offset + half <= |m.scratch|
        && OnScreen(Widths(m.vram), y, x, n, rows)
    ensures m.AllFit(UploadBatch(offset, pitch, y, x, n, rows))
        && NoDownloads(UploadBatch(offset, pitch, y, x, n, rows))
  {
    forall j | 0 <= j < rows ensures m.Fits(UploadBatch(offset, pitch, y, x, n, rows)[j]) {
      SlotFits(offset, pitch, j, rows, half);
      RowOnScreen(m.vram, y, x, n, rows, j);
    }
  }

  /** A half keeps its rows while the other half is written. */
  lemma FilledOutside(s: seq<Byte>, r: seq<Byte>, offset: nat, other: nat, half: nat, pitch: nat,
                      src: seq<Byte>, srcPitch: nat, n: nat, first: nat, rows: nat)
    requires Filled(s, offset, pitch, src, srcPitch, n, first, rows) && SameOutside(s, r, other, half)
    requires n <= pitch && Span(rows, pitch) <= half && HasRows(src, srcPitch, n, first + rows)
    requires offset + half <= other || other + half <= offset
    ensures Filled(r, offset, pitch, src, srcPitch, n, first, rows)
  {
    forall j | 0 <= j < rows
      ensures SlotFilled(r, offset, pitch, src, srcPitch, n, first, j)
    {
      assert SlotFilled(s, offset, pitch, src, srcPitch, n, first, j);
      SlotFits(offset, pitch, j, rows, half);
      RowLength(src, srcPitch, n, first + rows, first + j);
      HoldsOutside(s, r, other, half, Slot(offset, pitch, j), offset, pitch, j, Row(src, srcPitch, n, first + j));
    }
  }

  lemma HoldsOutside(s: seq<Byte>, r: seq<Byte>, at: nat, n: nat, slot: nat, offset: nat, pitch: nat, j: nat,
                     data: seq<Byte>)
    requires SameOutside(s, r, at, n) && slot == Slot(offset, pitch, j) && Holds(s, offset, pitch, j, data)
    requires slot + |data| <= at || at + n <= slot
    ensures Holds(r, offset, pitch, j, data)
  {
    SliceOutside(s, r, at, n, slot, slot + |data|);
  }

  lemma SliceOutside(s: seq<Byte>, r: seq<Byte>, at: nat, n: nat, i: nat, j: nat)
    requires SameOutside(s, r, at, n) && i <= j <= |s| && (j <= at || at + n <= i)
    ensures r[i..j] == s[i..j]
  {
    forall k | i <= k < j ensures r[k] == s[k] {
      if k < at {
        assert s[k] == s[..at][k] && r[k] == r[..at][k];
      } else {
        assert s[k] == s[at + n..][k - (at + n)] && r[k] == r[at + n..][k - (at + n)];
      }
    }
  }

  /** Wait for the GPU, then fill the other half; the half already filled keeps its rows. */
  method RefillOther(e: Engine, start: nat, offset: nat, half: nat, pitch: nat, src: seq<Byte>, srcPitch: nat, n: nat,
                     ghost first: nat, ghost held: nat, next: nat, rows: nat) returns (other: nat)
    requires e.Valid() && NoDownloads(e.queue) && start + 2 * half <= |e.mem.scratch| && (offset == 0 || offset == half)
    requires n <= pitch && Span(rows, pitch) <= half && Span(held, pitch) <= half
    requires HasRows(src, srcPitch, n, first + held) && HasRows(src, srcPitch, n, next + rows)
    requires Filled(e.mem.scratch, start + offset, pitch, src, srcPitch, n, first, held)
    modifies e
    ensures other == half - offset
    ensures e.Valid() && NoDownloads(e.queue) && SameShape(old(e.mem), e.mem)
    ensures e.Final().vram == old(e.Final()).vram
    ensures Filled(e.mem.scratch, start + offset, pitch, src, srcPitch, n, first, held)
    ensures Filled(e.mem.scratch, start + other, pitch, src, srcPitch, n, next, rows)
  {
    other := half - offset;
    DrainedWithoutDownloads(e.mem, e.queue);
    e.Idle();
    ghost var s := e.mem.scratch;
    FillHalf(e, start + other, half, pitch, src, srcPitch, n, next, rows);
    FilledOutside(s, e.mem.scratch, start + offset, start + other, half, pitch, src, srcPitch, n, first, held);
  }

  /** Upload h rows of w pixels of cpp bytes through a buffer of `total` bytes, if there is one. Whatever the GPU
      runs when, once its queue is empty the rectangle holds the source rows and the rest of the screen what was
      drawn before. The queue may still read the buffers of earlier uploads. */
  method CopyToVram(e: Engine, total: nat, scratchFree: bool, dstPitch: nat, dstMcAddr: nat, cpp: nat,
                    x: nat, y: nat, w: nat, h: nat, src: seq<Byte>, srcPitch: nat) returns (ok: bool)
    requires e.Valid() && NoDownloads(e.queue)
    requires cpp in {1, 2, 4} && w > 0
    requires HasRows(src, srcPitch, w * cpp, h) && OnScreen(Widths(e.mem.vram), y, x * cpp, w * cpp, h)
    requires h == 0 || AlignedPitch(w * cpp) <= total / 2
    modifies e
    ensures e.Valid() && NoDownloads(e.queue) && Widths(e.mem.vram) == old(Widths(e.mem.vram))
    ensures ok <==> dstPitch % 8 == 0 && dstMcAddr % 256 == 0 && scratchFree
    ensures e.Final().vram ==
            if ok then Uploaded(old(e.Final()).vram, y, x * cpp, src, srcPitch, w * cpp, 0, h) else old(e.Final()).vram
  {
    if dstPitch % 8 != 0 {
      return false;
    }
    if dstMcAddr % 256 != 0 {
      return false;
    }
    if !scratchFree {
      return false;
    }
    PaddedRow(w, cpp);
    var pitch := AlignedPitch(w * cpp);
    var start := e.Take(total);
    UploadRows(e, Job(start, total / 2, pitch, x * cpp, y, w * cpp, h, src, srcPitch), pitch / cpp * cpp);
    ok := true;
  }

  datatype Request = Request(cpp: nat, x: nat, y: nat, w: nat, h: nat, src: seq<Byte>, srcPitch: nat)

  /** The rectangle is on the screen, the source has its rows, and a row fits half a buffer. */
  ghost predicate Possible(r: Request, widths: seq<nat>, total: nat) {
    && r.cpp in {1, 2, 4} && r.w > 0 && HasRows(r.src, r.srcPitch, r.w * r.cpp, r.h)
    && OnScreen(widths, r.y, r.x * r.cpp, r.w * r.cpp, r.h) && (r.h == 0 || AlignedPitch(r.w * r.cpp) <= total / 2)
  }

  /** The screen after all the uploads, one after the other. */
  function UploadedAll(v: seq<seq<Byte>>, requests: seq<Request>): seq<seq<Byte>> {
    if requests == [] then v
    else
      var before, r := UploadedAll(v, requests[..|requests| - 1]), requests[|requests| - 1];
      Uploaded(before, r.y, r.x * r.cpp, r.src, r.srcPitch, r.w * r.cpp, 0, r.h)
  }

  /** Uploads one after the other, each free to begin while the GPU still reads the buffers of those before. */
  method UploadAll(e: Engine, total: nat, dstPitch: nat, dstMcAddr: nat, requests: seq<Request>)
    requires e.Valid() && NoDownloads(e.queue) && dstPitch % 8 == 0 && dstMcAddr % 256 == 0
    requires forall i :: 0 <= i < |requests| ==> Possible(requests[i], Widths(e.mem.vram), total)
    modifies e
    ensures e.Valid() && NoDownloads(e.queue)
    ensures e.Final().vram == UploadedAll(old(e.Final()).vram, requests)
  {
    var i := 0;
    while i < |requests|
      invariant i <= |requests| && e.Valid() && NoDownloads(e.queue) && Widths(e.mem.vram) == old(Widths(e.mem.vram))
      invariant e.Final().vram == UploadedAll(old(e.Final()).vram, requests[..i])
    {
      var r := requests[i];
      assert Possible(r, Widths(e.mem.vram), total);
      var ok := CopyToVram(e, total, true, dstPitch, dstMcAddr, r.cpp, r.x, r.y, r.w, r.h, r.src, r.srcPitch);
      assert requests[..i + 1][..i] == requests[..i];
      i := i + 1;
    }
    assert requests[..i] == requests;
  }

  /** The pitch in pixels times the pixel size is the pitch in bytes again. */
  lemma PaddedRow(w: nat, cpp: nat)
    requires w > 0 && cpp in {1, 2, 4}
    ensures w * cpp > 0 && AlignedPitch(w * cpp) / cpp * cpp == AlignedPitch(w * cpp)
  {
    PixelsPositive(w, cpp);
    PitchInPixels(AlignedPitch(w * cpp), cpp);
  }

  lemma PixelsPositive(w: nat, cpp: nat)
    requires w > 0 && cpp > 0
    ensures w * cpp > 0
  {
  }

  lemma PitchInPixels(pitch: nat, cpp: nat)
    requires pitch % 256 == 0 && cpp in {1, 2, 4}
    ensures pitch / cpp * cpp == pitch
  {
    HalfAgain(pitch);
    QuarterAgain(pitch);
  }

  lemma HalfAgain(pitch: nat)
    requires pitch % 256 == 0
    ensures pitch / 2 * 2 == pitch
  {
    DivUnique(pitch, 2, 128 * (pitch / 256), 0);
  }

  lemma QuarterAgain(pitch: nat)
    requires pitch % 256 == 0
    ensures pitch / 4 * 4 == pitch
  {
    DivUnique(pitch, 4, 64 * (pitch / 256), 0);
  }

  /** The rows the next pass moves. */
  function PassRows(left: nat, space: nat, pitch: nat): nat
    requires pitch > 0
  {
    Min(left, space / pitch)
  }

  /** What stays fixed during an upload: the buffer's start, the size of its halves and the pitch of their rows; the
      rectangle, x and the row length n in bytes; and the source. */
  datatype Job = Job(start: nat, half: nat, pitch: nat, x: nat, y: nat, n: nat, h: nat, src: seq<Byte>, srcPitch: nat)

  /** What moves: the rows left, the half to be blitted and its rows, and where they go. */
  datatype Place = Place(left: nat, scratchOffset: nat, row: nat, hpass: nat)

  ghost predicate Ready(j: Job) {
    0 < j.n <= j.pitch && HasRows(j.src, j.srcPitch, j.n, j.h)
  }

  /** Rows first, first + 1, ... of the source wait in a half. */
  ghost predicate Waiting(scratch: seq<Byte>, j: Job, scratchOffset: nat, first: nat, rows: nat) {
    Filled(scratch, j.start + scratchOffset, j.pitch, j.src, j.srcPitch, j.n, first, rows)
  }

  /** The screen with the first `rows` rows of the source on it. */
  function RowsSent(v: seq<seq<Byte>>, j: Job, rows: nat): seq<seq<Byte>> {
    Uploaded(v, j.y, j.x, j.src, j.srcPitch, j.n, 0, rows)
  }

  ghost predicate Halves(e: Engine, j: Job, scratchOffset: nat)
    reads e
  {
    && (scratchOffset == 0 || scratchOffset == j.half) && j.start + 2 * j.half <= |e.mem.scratch|
    && e.Valid() && NoDownloads(e.queue) && OnScreen(Widths(e.mem.vram), j.y, j.x, j.n, j.h)
  }

  /** Between passes: the rows before p.row are on the screen or queued, and the next p.hpass
      rows wait in the half at p.scratchOffset. */
  ghost predicate Uploading(e: Engine, base: seq<seq<Byte>>, j: Job, p: Place)
    requires j.pitch > 0
    reads e
  {
    && p.left <= j.h && p.row == j.y + (j.h - p.left) && p.hpass == PassRows(p.left, j.half, j.pitch)
    && Halves(e, j, p.scratchOffset)
    && e.Final().vram == RowsSent(base, j, j.h - p.left)
    && Waiting(e.mem.scratch, j, p.scratchOffset, j.h - p.left, p.hpass)
  }

  method UploadRows(e: Engine, j: Job, blitPitch: nat)
    requires Ready(j) && j.pitch == blitPitch && (j.h == 0 || j.pitch <= j.half)
    requires Halves(e, j, 0) && AllMiss(e.queue, j.start, 2 * j.half)
    modifies e
    ensures e.Valid() && NoDownloads(e.queue) && Widths(e.mem.vram) == old(Widths(e.mem.vram))
    ensures e.Final().vram == RowsSent(old(e.Final()).vram, j, j.h)
  {
    ghost var base := e.Final().vram;
    var p := StartUpload(e, j);
    while p.left != 0
      invariant Uploading(e, base, j, p) && Widths(e.mem.vram) == old(Widths(e.mem.vram))
      decreases p.left
    {
      p := UploadPass(e, base, j, blitPitch, p);
    }
  }

  /** Fill the first half before the loop. */
  method StartUpload(e: Engine, j: Job) returns (p: Place)
    requires Ready(j) && Halves(e, j, 0) && AllMiss(e.queue, j.start, 2 * j.half)
    modifies e
    ensures p.left == j.h && Uploading(e, old(e.Final()).vram, j, p) && SameShape(old(e.mem), e.mem)
  {
    var hpass := PassRows(j.h, j.half, j.pitch);
    PassFits(j.half, j.pitch, hpass);
    PartMisses(e.queue, j.start, 2 * j.half, j.start, j.half);
    FewerSourceRows(j.src, j.srcPitch, j.n, hpass, j.h);
    UploadedNothing(e.Final().vram, j.y, j.x, j.src, j.srcPitch, j.n);
    FillHalf(e, j.start, j.half, j.pitch, j.src, j.srcPitch, j.n, 0, hpass);
    p := Place(j.h, 0, j.y, hpass);
  }

  /** One pass: refill the other half if rows remain, then blit this one. */
  method UploadPass(e: Engine, ghost base: seq<seq<Byte>>, j: Job, blitPitch: nat, p: Place) returns (p': Place)
    requires Ready(j) && j.pitch == blitPitch && Uploading(e, base, j, p)
    modifies e
    ensures p'.left == p.left - PassRows(p.left, j.half, j.pitch)
        && (j.pitch <= j.half && p.left > 0 ==> p'.left < p.left)
    ensures Uploading(e, base, j, p') && SameShape(old(e.mem), e.mem)
  {
    ghost var first := j.h - p.left;
    p' := FillNext(e, j, p);
    FewerSourceRows(j.src, j.srcPitch, j.n, first + p.hpass, j.h);
    UploadHalf(e, base, j, blitPitch, p, first);
  }

  /** Fill the other half with the rows of the next pass, if there are any. */
  method FillNext(e: Engine, j: Job, p: Place) returns (p': Place)
    requires Ready(j) && Halves(e, j, p.scratchOffset) && p.left <= j.h && p.hpass == PassRows(p.left, j.half, j.pitch)
    requires Waiting(e.mem.scratch, j, p.scratchOffset, j.h - p.left, p.hpass)
    modifies e
    ensures p'.left == p.left - p.hpass && p'.row == p.row + p.hpass && p'.hpass == PassRows(p'.left, j.half, j.pitch)
    ensures Span(p.hpass, j.pitch) <= j.half && (j.pitch <= j.half && p.left > 0 ==> p.hpass > 0)
    ensures Halves(e, j, p'.scratchOffset) && SameShape(old(e.mem), e.mem) && e.Final().vram == old(e.Final()).vram
    ensures Waiting(e.mem.scratch, j, p.scratchOffset, j.h - p.left, p.hpass)
    ensures Waiting(e.mem.scratch, j, p'.scratchOffset, j.h - p'.left, p'.hpass)
  {
    var left := p.left - p.hpass;
    var hpass := PassRows(left, j.half, j.pitch);
    PassesFit(j.half, j.pitch, p.left, p.hpass, hpass);
    FewerSourceRows(j.src, j.srcPitch, j.n, j.h - left, j.h);
    FewerSourceRows(j.src, j.srcPitch, j.n, j.h - left + hpass, j.h);
    var offset := p.scratchOffset;
    if hpass != 0 {
      offset := RefillOther(e, j.start, offset, j.half, j.pitch, j.src, j.srcPitch, j.n, j.h - p.left, p.hpass,
                            j.h - left, hpass);
    }
    p' := Place(left, offset, p.row + p.hpass, hpass);
  }

  /** Blit the rows of a half to the screen. */
  method UploadHalf(e: Engine, ghost base: seq<seq<Byte>>, j: Job, pitch: nat, p: Place, ghost first: nat)
    requires j.n <= pitch == j.pitch && Span(p.hpass, pitch) <= j.half && Halves(e, j, p.scratchOffset)
    requires p.row == j.y + first && first + p.hpass <= j.h && HasRows(j.src, j.srcPitch, j.n, first + p.hpass)
    requires e.Final().vram == RowsSent(base, j, first) && Waiting(e.mem.scratch, j, p.scratchOffset, first, p.hpass)
    modifies e
    ensures e.Valid() && NoDownloads(e.queue) && SameShape(old(e.mem), e.mem) && e.mem.scratch == old(e.mem).scratch
    ensures e.Final().vram == RowsSent(base, j, first + p.hpass)
  {
    BatchFits(e.mem, j.start + p.scratchOffset, j.half, pitch, p.row, j.x, j.n, p.hpass);
    UploadedInParts(base, j.y, j.x, j.src, j.srcPitch, j.n, first, first + p.hpass);
    SubmitUpload(e, j.start + p.scratchOffset, pitch, p.row, j.x, j.n, p.hpass, j.y, j.src, j.srcPitch, first);
  }

  lemma PassesFit(half: nat, pitch: nat, left: nat, rows: nat, next: nat)
    requires pitch > 0 && rows == PassRows(left, half, pitch) && next == PassRows(left - rows, half, pitch)
    ensures Span(rows, pitch) <= half && Span(next, pitch) <= half
    ensures pitch <= half && left > 0 ==> rows > 0
  {
    PassFits(half, pitch, rows);
    PassFits(half, pitch, next);
  }

  /** A pass moves as many rows as fit. */
  lemma PassRowsMost(left: nat, space: nat, pitch: nat)
    requires pitch > 0
    ensures var rows := PassRows(left, space, pitch);
            rows <= left && rows * pitch <= space && (rows == left || (rows + 1) * pitch > space)
  {
    var fit, rows := space / pitch, PassRows(left, space, pitch);
    assert space == fit * pitch + space % pitch && (fit + 1) * pitch == fit * pitch + pitch;
    SpanIs(rows, pitch);
    SpanIs(fit, pitch);
    SpanMonotone(rows, fit, pitch);
  }

  lemma PassFits(half: nat, pitch: nat, rows: nat)
    requires pitch > 0 && rows <= half / pitch
    ensures Span(rows, pitch) <= half && (pitch <= half ==> half / pitch > 0)
  {
    PerHalfFits(half, pitch);
    SpanMonotone(rows, half / pitch, pitch);
  }

  lemma FewerSourceRows(src: seq<Byte>, srcPitch: nat, n: nat, rows: nat, h: nat)
    requires rows <= h && HasRows(src, srcPitch, n, h)
    ensures HasRows(src, srcPitch, n, rows)
  {
    if rows > 0 {
      RowLength(src, srcPitch, n, h, rows - 1);
    }
  }

  /** Why the driver waits before it refills a half: if the slot a blit is still to read were rewritten,
      the screen would get the new bytes and not the old ones. */
  lemma EarlyRefillShows(m: Mem, c: RowCopy, data: seq<Byte>)
    requires c.ToScreen? && m.Fits(c) && |data| == c.n
    ensures var refilled := m.(scratch := Splice(m.scratch, c.from, data));
            && refilled.AllFit([c])
            && Drained(refilled, [c]).vram == m.vram[c.row := Splice(m.vram[c.row], c.x, data)]
            && (Drained(refilled, [c]).vram == m.Step(c).vram <==> data == m.scratch[c.from..c.from + c.n])
  {
    var refilled, held := m.(scratch := Splice(m.scratch, c.from, data)), m.scratch[c.from..c.from + c.n];
    assert refilled.Fits([c][0]) && [c][1..] == [];
    assert Drained(refilled, [c]) == refilled.Step(c);
    SpliceAt(m.scratch, c.from, data);
    SpliceAt(m.vram[c.row], c.x, data);
    SpliceAt(m.vram[c.row], c.x, held);
    if Drained(refilled, [c]).vram == m.Step(c).vram {
      assert m.vram[c.row := Splice(m.vram[c.row], c.x, data)][c.row] == m.vram[c.row :=
            Splice(m.vram[c.row], c.x, held)][c.row];
    }
  }

  /** An uploaded screen byte by byte: byte k of screen row i inside the rectangle is that of the source, the
      others are as they were. */
  lemma UploadedByte(v: seq<seq<Byte>>, y: nat, x: nat, src: seq<Byte>, srcPitch: nat, n: nat, h: nat, i: nat, k: nat)
    requires HasRows(src, srcPitch, n, h) && OnScreen(Widths(v), y, x, n, h) && i < |v| && k < |v[i]|
    ensures var r := Uploaded(v, y, x, src, srcPitch, n, 0, h);
            && |r| == |v| && |r[i]| == |v[i]|
            && if y <= i < y + h && x <= k < x + n then
                 0 <= (i - y) * srcPitch + (k - x) < |src| && r[i][k] == src[(i - y) * srcPitch + (k - x)]
               else r[i][k] == v[i][k]
  {
    if y <= i < y + h {
      SpanIs(i - y, srcPitch);
      UploadedRowByte(v, y, x, src, srcPitch, n, h, i, k, Span(i - y, srcPitch));
    }
  }

  lemma UploadedRowByte(v: seq<seq<Byte>>, y: nat, x: nat, src: seq<Byte>, srcPitch: nat, n: nat, h: nat, i: nat,
                        k: nat, at: nat)
    requires HasRows(src, srcPitch, n, h) && OnScreen(Widths(v), y, x, n, h) && y <= i < y + h
    requires i < |v| && k < |v[i]| && at == Span(i - y, srcPitch)
    ensures var r := Uploaded(v, y, x, src, srcPitch, n, 0, h)[i];
            |r| == |v[i]| && at + n <= |src| && r[k] == if x <= k < x + n then src[at + (k - x)] else v[i][k]
  {
    UploadedOverlay(v, y, x, src, srcPitch, n, h, i);
    RowOnScreen(v, y, x, n, h, i - y);
    RowLength(src, srcPitch, n, h, i - y);
    OverlaidByte(v[i], x, src, srcPitch, n, i - y, k);
  }

  lemma UploadedOverlay(v: seq<seq<Byte>>, y: nat, x: nat, src: seq<Byte>, srcPitch: nat, n: nat, h: nat, i: nat)
    requires y <= i < y + h && i < |v|
    ensures Uploaded(v, y, x, src, srcPitch, n, 0, h)[i] == Overlay(v[i], x, Row(src, srcPitch, n, i - y))
  {
  }

  lemma OverlaidByte(row: seq<Byte>, x: nat, src: seq<Byte>, pitch: nat, n: nat, j: nat, k: nat)
    requires x + n <= |row| && Span(j, pitch) + n <= |src| && |Row(src, pitch, n, j)| == n && k < |row|
    ensures var r := Overlay(row, x, Row(src, pitch, n, j));
            |r| == |row| && r[k] == if x <= k < x + n then src[Span(j, pitch) + (k - x)] else row[k]
  {
    SplicedByte(row, x, Row(src, pitch, n, j), k);
    if x <= k < x + n {
      RowByte(src, pitch, n, j, k - x);
    }
  }

  lemma RowByte(s: seq<Byte>, pitch: nat, n: nat, j: nat, k: nat)
    requires Span(j, pitch) + n <= |s| && k < n
    ensures Row(s, pitch, n, j)[k] == s[Span(j, pitch) + k]
  {
  }

  // ---- When the loops end ----

  /** Rows left after so many passes of at most perPass rows each. */
  function LeftAfter(h: nat, perPass: nat, passes: nat): nat {
    if passes == 0 then h else LeftAfter(h - Min(h, perPass), perPass, passes - 1)
  }

  lemma {:induction false} LeftAfterIs(h: nat, perPass: nat, passes: nat)
    ensures perPass == 0 ==> LeftAfter(h, perPass, passes) == h
    ensures perPass > 0 && passes >= h ==> LeftAfter(h, perPass, passes) == 0
    decreases passes
  {
    if passes > 0 {
      LeftAfterIs(h - Min(h, perPass), perPass, passes - 1);
    }
  }

  /** The transfer loops end exactly when there is no row to move or a row fits the space of one pass. */
  lemma PassesEndIff(h: nat, space: nat, pitch: nat)
    requires pitch > 0
    ensures (exists k: nat :: LeftAfter(h, space / pitch, k) == 0) <==> h == 0 || pitch <= space
  {
    LeftAfterIs(h, space / pitch, h);
    if pitch <= space {
      PassFits(space, pitch, 0);
    } else {
      assert space / pitch == 0;
      forall k: nat ensures LeftAfter(h, space / pitch, k) == h {
        LeftAfterIs(h, space / pitch, k);
      }
      if h == 0 {
        assert LeftAfter(h, space / pitch, 0) == 0;
      }
    }
  }

  lemma UploadedNothing(v: seq<seq<Byte>>, y: nat, x: nat, src: seq<Byte>, srcPitch: nat, n: nat)
    ensures Uploaded(v, y, x, src, srcPitch, n, 0, 0) == v
  {
  }
}
