/** Downloads on R5xx: one buffer, so every blit is waited for before its rows are copied out. */
module BlitDownload {
  import opened Arith
  import opened Memory
  import opened Transfer
  import opened Download

  /** A row padded to 64 bytes. */
  function BufferPitch(bytes: nat): (r: nat)
    ensures bytes <= r < bytes + 64 && r % 64 == 0 && (bytes > 0 ==> r > 0)
  {
    (bytes + 63) / 64 * 64
  }

  /** One copy of `rows` rows lying end to end, where the pitches agree, moves what the row loop moves. */
  lemma {:induction false} ContiguousRows(d: seq<Byte>, scratch: seq<Byte>, was: seq<Byte>, v: seq<seq<Byte>>, y: nat,
                                          x: nat, n: nat,
                                          first: nat, rows: nat, h: nat)
    requires Pasted(d, was, v, y, x, n, n, first) && Caught(scratch, 0, n, v, y + first, x, n, rows)
        && first + rows <= h
    requires OnScreen(Widths(v), y, x, n, h) && HasRows(was, n, n, h)
    ensures Span(rows, n) <= |scratch| && Slot(0, n, first) + Span(rows, n) <= |d|
    ensures Pasted(Splice(d, Slot(0, n, first), scratch[..Span(rows, n)]), was, v, y, x, n, n, first + rows)
    decreases rows
  {
    var at := Slot(0, n, first);
    if rows == 0 {
      if first > 0 {
        RowLength(was, n, n, h, first - 1);
      }
      assert Splice(d, at, scratch[..0]) == d;
    } else {
      var last := rows - 1;
      ContiguousRows(d, scratch, was, v, y, x, n, first, last, h);
      SpanSum(first, last, n);
      var d' := Splice(d, at, scratch[..Span(last, n)]);
      OneRowOut(d', scratch, was, 0, n, v, y, x, n, n, rows, first, last, h, Slot(0, n, last),
                Slot(0, n, first + last));
      SpliceMore(d, at, scratch, Span(last, n), n);
    }
  }

  lemma SpliceMore(s: seq<Byte>, at: nat, data: seq<Byte>, k: nat, n: nat)
    requires k + n <= |data| && at + k + n <= |s|
    ensures Splice(s, at, data[..k + n]) == Splice(Splice(s, at, data[..k]), at + k, data[k..k + n])
  {
  }

  /** Download h rows of w pixels: each row that arrives is the screen row as everything queued before leaves it. */
  method DownloadFromScreen(e: Engine, bpp: nat, srcPitch: nat, srcOffset: nat, x: nat, y: nat, w: nat, h: nat,
                            dst: array<Byte>, dstPitch: nat)
      returns (ok: bool)
    requires e.Valid() && w * bpp / 8 <= dstPitch && bpp % 8 == 0
    requires HasRows(dst[..], dstPitch, w * bpp / 8, h)
        && OnScreen(Widths(e.mem.vram), y, x * (bpp / 8), w * bpp / 8, h)
    requires w * h * (bpp / 8) >= 64 ==> BufferPitch(w * bpp / 8) <= |e.mem.scratch|
    modifies e, dst
    ensures e.Valid() && e.Final().vram == old(e.Final()).vram
    ensures ok <==>
            || w * h * (bpp / 8) < 64
            || (bpp in {8, 16, 32} && srcPitch < 0x4000 && srcPitch % 64 == 0 && srcOffset % 0x1000 == 0)
    ensures ok ==> Pasted(dst[..], old(dst[..]), old(e.Final()).vram, y, x * (bpp / 8), w * bpp / 8, dstPitch, h)
    ensures !ok ==> dst[..] == old(dst[..])
  {
    if w * h * (bpp / 8) < 64 {
      DownloadManual(e, x * (bpp / 8), y, w * bpp / 8, h, dst, dstPitch);
      return true;
    }
    if bpp !in {8, 16, 32} {
      return false;
    }
    if srcPitch >= 0x4000 || srcPitch % 64 != 0 {
      return false;
    }
    if srcOffset % 0x1000 != 0 {
      return false;
    }
    SomeBytes(w, h, bpp);
    DownloadRows(e, |e.mem.scratch|, x * (bpp / 8), y, w * bpp / 8, h, dst, dstPitch);
    ok := true;
  }

  lemma SomeBytes(w: nat, h: nat, bpp: nat)
    requires bpp in {8, 16, 32} && w * h * (bpp / 8) >= 64
    ensures w * bpp / 8 > 0
  {
    assert w * h == 0 <== w == 0;
    assert w != 0;
    assert w * bpp >= 8;
  }

  /** A few bytes are read by the CPU, once the GPU is idle. */
  method DownloadManual(e: Engine, x: nat, y: nat, n: nat, h: nat, dst: array<Byte>, dstPitch: nat)
    requires e.Valid() && n <= dstPitch && HasRows(dst[..], dstPitch, n, h) && OnScreen(Widths(e.mem.vram), y, x, n, h)
    modifies e, dst
    ensures e.Valid() && e.Final() == old(e.Final())
    ensures Pasted(dst[..], old(dst[..]), old(e.Final()).vram, y, x, n, dstPitch, h)
  {
    ghost var was := dst[..];
    e.Idle();
    ghost var mem := e.mem;
    NothingPasted(was, mem.vram, y, x, n, dstPitch);
    var j, to := 0, 0;
    while j < h
      invariant j <= h && to == Slot(0, dstPitch, j) && e.Valid() && e.mem == mem && e.queue == []
      invariant Pasted(dst[..], was, mem.vram, y, x, n, dstPitch, j)
    {
      RowLength(was, dstPitch, n, h, j);
      ScreenRowLength(mem.vram, y, x, n, h, j);
      PasteOneMore(dst[..], was, mem.vram, y, x, n, dstPitch, j);
      MemCpy(dst, to, ScreenRow(e.mem.vram, y + j, x, n));
      to, j := to + dstPitch, j + 1;
    }
  }

  method DownloadRows(e: Engine, bufferSize: nat, x: nat, y: nat, n: nat, h: nat, dst: array<Byte>, dstPitch: nat)
    requires e.Valid() && bufferSize == |e.mem.scratch| && 0 < n <= dstPitch && BufferPitch(n) <= bufferSize
    requires HasRows(dst[..], dstPitch, n, h) && OnScreen(Widths(e.mem.vram), y, x, n, h)
    modifies e, dst
    ensures e.Valid() && e.Final().vram == old(e.Final()).vram
    ensures Pasted(dst[..], old(dst[..]), old(e.Final()).vram, y, x, n, dstPitch, h)
  {
    ghost var v, was := e.Final().vram, dst[..];
    NothingPasted(was, v, y, x, n, dstPitch);
    var pitch := BufferPitch(n);
    var hpass: nat, left: nat, row: nat := bufferSize / pitch, h, y;
    while left != 0
      invariant left <= h && row == y + (h - left) && Min(left, hpass) == PassRows(left, bufferSize, pitch)
      invariant e.Valid() && bufferSize == |e.mem.scratch| && e.Final().vram == v && Widths(e.mem.vram) == Widths(v)
      invariant Pasted(dst[..], was, v, y, x, n, dstPitch, h - left)
    {
      hpass := Min(left, hpass);
      PassesFit(bufferSize, pitch, left, hpass, PassRows(left - hpass, bufferSize, pitch));
      OnePass(e, v, pitch, x, y, n, h, was, dst, dstPitch, left, row, hpass);
      row, left := row + hpass, left - hpass;
    }
  }

  /** Blit some rows into the buffer, wait, and copy them out. */
  method OnePass(e: Engine, ghost v: seq<seq<Byte>>, pitch: nat, x: nat, ghost y: nat, n: nat, h: nat,
                 ghost was: seq<Byte>, dst: array<Byte>, dstPitch: nat, left: nat, row: nat, hpass: nat)
    requires e.Valid() && e.Final().vram == v && Widths(e.mem.vram) == Widths(v) && OnScreen(Widths(v), y, x, n, h)
        && HasRows(was, dstPitch, n, h)
    requires 0 < n <= pitch && n <= dstPitch && hpass <= left <= h && row == y + (h - left)
        && Span(hpass, pitch) <= |e.mem.scratch|
    requires Pasted(dst[..], was, v, y, x, n, dstPitch, h - left)
    modifies e, dst
    ensures e.Valid() && SameShape(old(e.mem), e.mem) && e.Final().vram == v
    ensures Pasted(dst[..], was, v, y, x, n, dstPitch, h - left + hpass)
  {
    SubmitDownload(e, 0, |e.mem.scratch|, pitch, row, x, n, hpass);
    e.Idle();
    if n == pitch && n == dstPitch {
      CopyBlockOut(e, dst, n, hpass, was, h - left, v, y, x, h);
    } else {
      CopyOut(e, dst, 0, pitch, n, dstPitch, hpass, was, h - left, v, y, x, h);
    }
  }

  /** All rows of a pass at once. */
  method CopyBlockOut(e: Engine, dst: array<Byte>, n: nat, rows: nat, ghost was: seq<Byte>, first: nat,
                      ghost v: seq<seq<Byte>>, ghost y: nat, ghost x: nat, ghost h: nat)
    requires e.Valid() && e.queue == [] && Caught(e.mem.scratch, 0, n, v, y + first, x, n, rows)
    requires first + rows <= h && OnScreen(Widths(v), y, x, n, h) && HasRows(was, n, n, h)
    requires Pasted(dst[..], was, v, y, x, n, n, first)
    modifies dst
    ensures Pasted(dst[..], was, v, y, x, n, n, first + rows)
  {
    ContiguousRows(dst[..], e.mem.scratch, was, v, y, x, n, first, rows, h);
    SpanIs(rows, n);
    var data := e.CpuRead(0, n * rows);
    MemCpy(dst, Slot(0, n, first), data);
  }
}
