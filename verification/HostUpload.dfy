/** Uploads on R5xx: the source rows travel inside HOSTDATA_BLT packets, as many rows
    to a packet as the command buffer holds. */
module HostUpload {
  import opened Arith
  import opened Memory
  import opened Transfer

  /** A HOSTDATA_BLT packet: it draws `rows` payload rows of widthPixels pixels from
      (x, y) on, clipped to the pixels left of `right` and above `bottom`. */
  datatype HostBlit = HostBlit(x: nat, y: nat, right: nat, bottom: nat, rows: nat, widthPixels: nat, words: nat,
                               payload: seq<Byte>)

  const HEADER_WORDS := 10

  /** The packet is no longer than the command buffer, and its word count covers its payload. */
  predicate WellFormed(b: HostBlit, size: nat, cpp: nat) {
    && HEADER_WORDS + b.words <= size && |b.payload| == 4 * b.words && 4 * b.words == Span(b.rows, b.widthPixels * cpp)
    && b.x <= b.right <= b.x + b.widthPixels && b.bottom == b.y + b.rows
  }

  ghost predicate AllWellFormed(q: seq<HostBlit>, size: nat, cpp: nat) {
    forall i :: 0 <= i < |q| ==> WellFormed(q[i], size, cpp)
  }

  /** What a packet does to the screen. */
  function DrawBlit(v: seq<seq<Byte>>, b: HostBlit, cpp: nat): seq<seq<Byte>> {
    Uploaded(v, b.y, b.x * cpp, b.payload, b.widthPixels * cpp, if b.x <= b.right then (b.right - b.x) * cpp else 0, 0,
             b.rows)
  }

  function DrawAll(v: seq<seq<Byte>>, q: seq<HostBlit>, cpp: nat): seq<seq<Byte>> {
    if q == [] then v else DrawBlit(DrawAll(v, q[..|q| - 1], cpp), q[|q| - 1], cpp)
  }

  lemma DrawOneMore(v: seq<seq<Byte>>, q: seq<HostBlit>, b: HostBlit, cpp: nat)
    ensures DrawAll(v, q + [b], cpp) == DrawBlit(DrawAll(v, q, cpp), b, cpp)
  {
    assert (q + [b])[..|q|] == q;
  }

  // ---- Packing rows into a payload ----

  /** `rows` source rows, each cut to bufPitch bytes, one after the other. */
  function Payload(src: seq<Byte>, srcPitch: nat, bufPitch: nat, first: nat, rows: nat): seq<Byte> {
    if rows == 0 then []
    else Payload(src, srcPitch, bufPitch, first, rows - 1) + Row(src, srcPitch, bufPitch, first + rows - 1)
  }

  lemma {:induction false} PayloadLength(src: seq<Byte>, srcPitch: nat, bufPitch: nat, first: nat, rows: nat, h: nat)
    requires HasRows(src, srcPitch, bufPitch, h) && first + rows <= h
    ensures |Payload(src, srcPitch, bufPitch, first, rows)| == Span(rows, bufPitch)
    decreases rows
  {
    if rows > 0 {
      PayloadLength(src, srcPitch, bufPitch, first, rows - 1, h);
      RowLength(src, srcPitch, bufPitch, h, first + rows - 1);
    }
  }

  /** Row k of the payload begins with source row first + k. */
  lemma {:induction false} PayloadRow(src: seq<Byte>, srcPitch: nat, bufPitch: nat, first: nat, rows: nat, h: nat,
                                      n: nat, k: nat)
    requires HasRows(src, srcPitch, bufPitch, h) && first + rows <= h && n <= bufPitch && k < rows
    ensures Row(Payload(src, srcPitch, bufPitch, first, rows), bufPitch, n, k) == Row(src, srcPitch, n, first + k)
    decreases rows
  {
    var front := Payload(src, srcPitch, bufPitch, first, rows - 1);
    var last := Row(src, srcPitch, bufPitch, first + rows - 1);
    PayloadLength(src, srcPitch, bufPitch, first, rows - 1, h);
    RowLength(src, srcPitch, bufPitch, h, first + rows - 1);
    AppendedRow(front, last, bufPitch, rows - 1, n, k);
    if k < rows - 1 {
      PayloadRow(src, srcPitch, bufPitch, first, rows - 1, h, n, k);
    } else {
      RowShorter(src, srcPitch, bufPitch, n, first + k);
    }
  }

  lemma AppendedRow(front: seq<Byte>, last: seq<Byte>, pitch: nat, rows: nat, n: nat, k: nat)
    requires |front| == Span(rows, pitch) && n <= |last| == pitch && k <= rows
    ensures Row(front + last, pitch, n, k) == if k < rows then Row(front, pitch, n, k) else last[..n]
  {
    if k < rows {
      SpanMonotone(k + 1, rows, pitch);
      RowOfPrefix(front, last, pitch, n, k);
    } else {
      RowAtEnd(front, last, pitch, n, k);
    }
  }

  lemma RowOfPrefix(front: seq<Byte>, more: seq<Byte>, pitch: nat, n: nat, k: nat)
    requires Span(k, pitch) + n <= |front|
    ensures Row(front + more, pitch, n, k) == Row(front, pitch, n, k)
  {
  }

  lemma RowAtEnd(front: seq<Byte>, last: seq<Byte>, pitch: nat, n: nat, k: nat)
    requires |front| == Span(k, pitch) && n <= |last|
    ensures Row(front + last, pitch, n, k) == last[..n]
  {
  }

  lemma RowShorter(s: seq<Byte>, pitch: nat, long: nat, n: nat, k: nat)
    requires n <= long && Span(k, pitch) + long <= |s|
    ensures Row(s, pitch, n, k) == Row(s, pitch, long, k)[..n]
  {
  }

  function Cut(s: seq<Byte>, i: nat, j: nat): seq<Byte> {
    if i <= j <= |s| then s[i..j] else []
  }

  /** Where the pitches agree one copy moves the same bytes as the row loop. */
  lemma {:induction false} ContiguousPayload(src: seq<Byte>, pitch: nat, first: nat, rows: nat, h: nat)
    requires HasRows(src, pitch, pitch, h) && first + rows <= h
    ensures Span(first, pitch) <= Span(first + rows, pitch) <= |src|
    ensures Cut(src, Span(first, pitch), Span(first + rows, pitch)) == Payload(src, pitch, pitch, first, rows)
    decreases rows
  {
    if rows == 0 {
      RowsInside(src, pitch, first, h);
    } else {
      var last := first + rows - 1;
      ContiguousPayload(src, pitch, first, rows - 1, h);
      RowsInside(src, pitch, last + 1, h);
      CutMore(src, Span(first, pitch), pitch, last);
    }
  }

  lemma RowsInside(s: seq<Byte>, pitch: nat, rows: nat, h: nat)
    requires HasRows(s, pitch, pitch, h) && rows <= h
    ensures Span(rows, pitch) <= |s|
    ensures rows > 0 ==> Span(rows - 1, pitch) + pitch <= |s|
  {
    if rows > 0 {
      RowLength(s, pitch, pitch, h, rows - 1);
    }
  }

  lemma CutMore(s: seq<Byte>, from: nat, pitch: nat, last: nat)
    requires from <= Span(last, pitch) && Span(last, pitch) + pitch <= |s|
    ensures Span(last + 1, pitch) == Span(last, pitch) + pitch
    ensures Cut(s, from, Span(last + 1, pitch)) == Cut(s, from, Span(last, pitch)) + Row(s, pitch, pitch, last)
  {
  }

  predicate SameRow(a: seq<Byte>, aPitch: nat, b: seq<Byte>, bPitch: nat, n: nat, first: nat, k: nat) {
    Row(a, aPitch, n, k) == Row(b, bPitch, n, first + k)
  }

  /** Two images whose rows agree upload alike. */
  lemma SameRowsUpload(v: seq<seq<Byte>>, y: nat, x: nat, n: nat, a: seq<Byte>, aPitch: nat, b: seq<Byte>, bPitch: nat,
                       first: nat, rows: nat)
    requires forall k {:trigger SameRow(a, aPitch, b, bPitch, n, first, k)} | 0 <= k < rows ::
        SameRow(a, aPitch, b, bPitch, n, first, k)
    ensures Uploaded(v, y + first, x, a, aPitch, n, 0, rows) == Uploaded(v, y, x, b, bPitch, n, first, first + rows)
  {
    var l, r := Uploaded(v, y + first, x, a, aPitch, n, 0, rows), Uploaded(v, y, x, b, bPitch, n, first, first + rows);
    forall i | 0 <= i < |v| ensures l[i] == r[i] {
      if y + first <= i < y + first + rows {
        assert SameRow(a, aPitch, b, bPitch, n, first, i - (y + first));
        assert first + (i - (y + first)) == i - y;
      }
    }
  }

  /** A packet that carries source rows first, ... lays those rows on the screen. */
  lemma PayloadDraws(v: seq<seq<Byte>>, y: nat, x: nat, n: nat, src: seq<Byte>, srcPitch: nat, bufPitch: nat,
                     first: nat, rows: nat, h: nat)
    requires HasRows(src, srcPitch, bufPitch, h) && first + rows <= h && n <= bufPitch
    ensures Uploaded(v, y + first, x, Payload(src, srcPitch, bufPitch, first, rows), bufPitch, n, 0, rows)
         == Uploaded(v, y, x, src, srcPitch, n, first, first + rows)
  {
    var p := Payload(src, srcPitch, bufPitch, first, rows);
    forall k | 0 <= k < rows ensures SameRow(p, bufPitch, src, srcPitch, n, first, k) {
      PayloadRow(src, srcPitch, bufPitch, first, rows, h, n, k);
    }
    SameRowsUpload(v, y, x, n, p, bufPitch, src, srcPitch, first, rows);
  }

  // ---- The upload ----

  function BufPitch(w: nat, bpp: nat): (r: nat)
    ensures r % 4 == 0 && w * bpp / 8 <= r < w * bpp / 8 + 4
    ensures w * bpp / 8 > 0 ==> r > 0
  {
    (w * bpp / 8 + 3) / 4 * 4
  }

  lemma PixelSizes(w: nat, bpp: nat)
    requires bpp in {8, 16, 32} && w > 0
    ensures w * bpp / 8 == w * (bpp / 8) > 0
    ensures BufPitch(w, bpp) * 8 / bpp * (bpp / 8) == BufPitch(w, bpp)
    ensures w <= BufPitch(w, bpp) * 8 / bpp
  {
    if bpp == 8 {
      WidthAt8(w);
    } else if bpp == 16 {
      WidthAt16(w);
    } else {
      WidthAt32(w);
    }
  }

  lemma WidthAt8(w: nat)
    requires w > 0
    ensures w * 8 / 8 == w
    ensures BufPitch(w, 8) * 8 / 8 * 1 == BufPitch(w, 8) && w <= BufPitch(w, 8) * 8 / 8
  {
  }

  lemma WidthAt16(w: nat)
    requires w > 0
    ensures w * 16 / 8 == w * 2
    ensures BufPitch(w, 16) * 8 / 16 * 2 == BufPitch(w, 16) && w <= BufPitch(w, 16) * 8 / 16
  {
    var q := (w * 2 + 3) / 4;
    assert BufPitch(w, 16) == q * 4 && BufPitch(w, 16) * 8 / 16 == q * 2 by {
      assert w * 16 / 8 == w * 2;
    }
  }

  lemma WidthAt32(w: nat)
    requires w > 0
    ensures w * 32 / 8 == w * 4
    ensures BufPitch(w, 32) * 8 / 32 * 4 == BufPitch(w, 32) && w <= BufPitch(w, 32) * 8 / 32
  {
  }

  class HostBlitter {
    const size: nat
    var packets: seq<HostBlit>

    constructor (size: nat)
      ensures this.size == size && packets == []
    {
      this.size, packets := size, [];
    }

    /** The bytes of one packet, by one copy if the pitches agree and row by row if not. */
    method CopyRows(src: seq<Byte>, from: nat, srcPitch: nat, bufPitch: nat, hpass: nat, ghost first: nat, ghost h: nat)
        returns (payload: seq<Byte>)
      requires HasRows(src, srcPitch, bufPitch, h) && first + hpass <= h && from == Span(first, srcPitch)
      ensures payload == Payload(src, srcPitch, bufPitch, first, hpass)
    {
      if bufPitch == srcPitch {
        ContiguousPayload(src, srcPitch, first, hpass, h);
        SpanSum(first, hpass, srcPitch);
        SpanIs(hpass, srcPitch);
        payload := Cut(src, from, from + hpass * srcPitch);
      } else {
        payload := [];
        var srcBuf, i := from, 0;
        while i < hpass
          invariant i <= hpass && srcBuf == Span(first + i, srcPitch)
          invariant payload == Payload(src, srcPitch, bufPitch, first, i)
        {
          RowLength(src, srcPitch, bufPitch, h, first + i);
          payload := payload + src[srcBuf..srcBuf + bufPitch];
          srcBuf := srcBuf + srcPitch;
          i := i + 1;
        }
      }
    }

    /** Upload h rows of w pixels. The packets emitted draw exactly the source rows. */
    method UploadToScreen(bpp: nat, dstPitch: nat, dstOffset: nat, x: nat, y: nat, w: nat, h: nat, src: seq<Byte>,
                          srcPitch: nat)
        returns (ok: bool)
      requires bpp in {8, 16, 32} ==> HasRows(src, srcPitch, BufPitch(w, bpp), h)
      requires HEADER_WORDS <= size && (bpp in {8, 16, 32} ==> BufPitch(w, bpp) <= (size - HEADER_WORDS) * 4)
      requires AllWellFormed(packets, size, bpp / 8)
      modifies this`packets
      ensures ok <==>
              && w != 0 && h != 0 && srcPitch != 0 && bpp in {8, 16, 32}
              && dstPitch < 0x4000 && dstPitch % 64 == 0 && dstOffset % 0x1000 == 0
      ensures !ok ==> packets == old(packets)
      ensures AllWellFormed(packets, size, bpp / 8)
      ensures ok ==> Sent(old(packets), packets, bpp / 8, x * (bpp / 8), y, w * (bpp / 8), src, srcPitch, h)
    {
      if w == 0 || h == 0 || srcPitch == 0 {
        return false;
      }
      if bpp !in {8, 16, 32} {
        return false;
      }
      var bufPitch := BufPitch(w, bpp);
      if dstPitch >= 0x4000 || dstPitch % 64 != 0 {
        return false;
      }
      if dstOffset % 0x1000 != 0 {
        return false;
      }
      PixelSizes(w, bpp);
      SendRows(bpp, bufPitch, x, y, w, h, src, srcPitch, bpp / 8, x * (bpp / 8), w * (bpp / 8));
      ok := true;
    }

    method SendRows(bpp: nat, bufPitch: nat, x: nat, y: nat, w: nat, h: nat, src: seq<Byte>, srcPitch: nat,
                    ghost cpp: nat, ghost bx: nat, ghost n: nat)
      requires bpp in {8, 16, 32} && w > 0 && bufPitch == BufPitch(w, bpp) && HasRows(src, srcPitch, bufPitch, h)
      requires HEADER_WORDS <= size && 0 < bufPitch <= (size - HEADER_WORDS) * 4
      requires cpp == bpp / 8 && bx == x * cpp && n == w * cpp && AllWellFormed(packets, size, cpp)
      modifies this`packets
      ensures AllWellFormed(packets, size, cpp) && Sent(old(packets), packets, cpp, bx, y, n, src, srcPitch, h)
    {
      var space := (size - HEADER_WORDS) * 4;
      var hpass: nat, left: nat, row: nat, from: nat := space / bufPitch, h, y, 0;
      ghost var before := packets;
      NothingSent(before, cpp, bx, y, n, src, srcPitch);
      while left != 0
        invariant left <= h && row == y + (h - left) && from == Span(h - left, srcPitch)
        invariant Min(left, hpass) == PassRows(left, space, bufPitch)
        invariant AllWellFormed(packets, size, cpp)
        invariant Sent(before, packets, cpp, bx, y, n, src, srcPitch, h - left)
      {
        hpass := Min(left, hpass);
        PassesFit(space, bufPitch, left, hpass, PassRows(left - hpass, space, bufPitch));
        Send(bpp, bufPitch, x, y, w, h, src, srcPitch, cpp, bx, n, before, row, from, hpass, h - left);
        from, row, left := NextRow(from, srcPitch, hpass, h - left), row + hpass, left - hpass;
      }
    }

    /** One packet. */
    method Send(bpp: nat, bufPitch: nat, x: nat, ghost y: nat, w: nat, ghost h: nat, src: seq<Byte>, srcPitch: nat,
                ghost cpp: nat, ghost bx: nat, ghost n: nat, ghost before: seq<HostBlit>, row: nat, from: nat,
                hpass: nat, ghost first: nat)
      requires bpp in {8, 16, 32} && w > 0 && bufPitch == BufPitch(w, bpp) && HasRows(src, srcPitch, bufPitch, h)
      requires HEADER_WORDS <= size && Span(hpass, bufPitch) <= (size - HEADER_WORDS) * 4
      requires cpp == bpp / 8 && bx == x * cpp && n == w * cpp
      requires first + hpass <= h && row == y + first && from == Span(first, srcPitch)
      requires AllWellFormed(packets, size, cpp) && Sent(before, packets, cpp, bx, y, n, src, srcPitch, first)
      modifies this`packets
      ensures AllWellFormed(packets, size, cpp) && Sent(before, packets, cpp, bx, y, n, src, srcPitch, first + hpass)
    {
      var payload := CopyRows(src, from, srcPitch, bufPitch, hpass, first, h);
      PayloadLength(src, srcPitch, bufPitch, first, hpass, h);
      var b := Packet(bpp, bufPitch, x, row, w, hpass, payload);
      PacketFits(bpp, bufPitch, x, row, w, hpass, payload, size, cpp, bx, n);
      OneMoreSent(before, packets, b, cpp, bufPitch, bx, y, n, h, src, srcPitch, first, hpass);
      packets := packets + [b];
    }
  }

  /** The source pointer after a pass. */
  function NextRow(from: nat, srcPitch: nat, hpass: nat, ghost first: nat): (r: nat)
    requires from == Span(first, srcPitch)
    ensures r == Span(first + hpass, srcPitch)
  {
    SpanSum(first, hpass, srcPitch);
    SpanIs(hpass, srcPitch);
    from + hpass * srcPitch
  }

  /** The packet for `rows` rows of w pixels at (x, y). */
  function Packet(bpp: nat, bufPitch: nat, x: nat, y: nat, w: nat, rows: nat, payload: seq<Byte>): HostBlit
    requires bpp > 0
  {
    HostBlit(x, y, x + w, y + rows, rows, bufPitch * 8 / bpp, rows * bufPitch / 4, payload)
  }

  lemma PacketFits(bpp: nat, bufPitch: nat, x: nat, y: nat, w: nat, rows: nat, payload: seq<Byte>, size: nat, cpp: nat,
                   bx: nat, n: nat)
    requires bpp in {8, 16, 32} && w > 0 && bufPitch == BufPitch(w, bpp) && cpp == bpp / 8 && bx == x * cpp
        && n == w * cpp
    requires HEADER_WORDS <= size && |payload| == Span(rows, bufPitch) <= (size - HEADER_WORDS) * 4
    ensures WellFormed(Packet(bpp, bufPitch, x, y, w, rows, payload), size, cpp)
    ensures n <= bufPitch && DrawsBytes(Packet(bpp, bufPitch, x, y, w, rows, payload), cpp, bx, n, bufPitch)
  {
    var b := Packet(bpp, bufPitch, x, y, w, rows, payload);
    PixelSizes(w, bpp);
    WholeWords(rows, bufPitch);
    forall v ensures DrawBlit(v, b, cpp) == Uploaded(v, b.y, bx, b.payload, bufPitch, n, 0, b.rows) {
      BlitBytes(v, b, cpp, bx, n, bufPitch);
    }
  }

  lemma WholeWords(rows: nat, pitch: nat)
    requires pitch % 4 == 0
    ensures rows * pitch / 4 * 4 == Span(rows, pitch)
  {
    SpanIs(rows, pitch);
    var k := pitch / 4;
    assert rows * pitch == rows * k * 4;
  }

  /** The packet in bytes instead of pixels. */
  lemma BlitBytes(v: seq<seq<Byte>>, b: HostBlit, cpp: nat, x: nat, n: nat, bufPitch: nat)
    requires b.x <= b.right && b.x * cpp == x && (b.right - b.x) * cpp == n && b.widthPixels * cpp == bufPitch
    ensures DrawBlit(v, b, cpp) == Uploaded(v, b.y, x, b.payload, bufPitch, n, 0, b.rows)
  {
  }

  /** The packet lays its payload, rows of bufPitch bytes, on the screen n bytes wide from byte x. */
  ghost predicate DrawsBytes(b: HostBlit, cpp: nat, x: nat, n: nat, bufPitch: nat) {
    forall v {:trigger DrawBlit(v, b, cpp)} ::
        DrawBlit(v, b, cpp) == Uploaded(v, b.y, x, b.payload, bufPitch, n, 0, b.rows)
  }

  /** On every screen the packets draw what `before` draws, then the first `rows` source rows from byte x. */
  ghost predicate Sent(before: seq<HostBlit>, packets: seq<HostBlit>, cpp: nat, x: nat, y: nat, n: nat, src: seq<Byte>,
                       srcPitch: nat, rows: nat) {
    forall v {:trigger DrawAll(v, packets, cpp)} ::
      DrawAll(v, packets, cpp) == Uploaded(DrawAll(v, before, cpp), y, x, src, srcPitch, n, 0, rows)
  }

  lemma NothingSent(before: seq<HostBlit>, cpp: nat, x: nat, y: nat, n: nat, src: seq<Byte>, srcPitch: nat)
    ensures Sent(before, before, cpp, x, y, n, src, srcPitch, 0)
  {
    forall v ensures DrawAll(v, before, cpp) == Uploaded(DrawAll(v, before, cpp), y, x, src, srcPitch, n, 0, 0) {
      UploadedNothing(DrawAll(v, before, cpp), y, x, src, srcPitch, n);
    }
  }

  lemma OneMoreSent(before: seq<HostBlit>, packets: seq<HostBlit>, b: HostBlit, cpp: nat, bufPitch: nat, x: nat, y: nat,
                    n: nat, h: nat,
                    src: seq<Byte>, srcPitch: nat, first: nat, rows: nat)
    requires Sent(before, packets, cpp, x, y, n, src, srcPitch, first) && HasRows(src, srcPitch, bufPitch, h)
        && first + rows <= h
    requires n <= bufPitch && DrawsBytes(b, cpp, x, n, bufPitch)
    requires b.y == y + first && b.rows == rows && b.payload == Payload(src, srcPitch, bufPitch, first, rows)
    ensures Sent(before, packets + [b], cpp, x, y, n, src, srcPitch, first + rows)
  {
    forall v
      ensures DrawAll(v, packets + [b], cpp) == Uploaded(DrawAll(v, before, cpp), y, x, src, srcPitch, n, 0, first
                                                         + rows) {
      DrawOneMore(v, packets, b, cpp);
      AfterOneMore(DrawAll(v, before, cpp), DrawAll(v, packets, cpp), y, x, n, src, srcPitch, bufPitch, first, rows, h);
    }
  }

  lemma AfterOneMore(v: seq<seq<Byte>>, u: seq<seq<Byte>>, y: nat, x: nat, n: nat, src: seq<Byte>, srcPitch: nat,
                     bufPitch: nat,
                     first: nat, rows: nat, h: nat)
    requires u == Uploaded(v, y, x, src, srcPitch, n, 0, first)
    requires HasRows(src, srcPitch, bufPitch, h) && first + rows <= h && n <= bufPitch
    ensures Uploaded(u, y + first, x, Payload(src, srcPitch, bufPitch, first, rows), bufPitch, n, 0, rows)
         == Uploaded(v, y, x, src, srcPitch, n, 0, first + rows)
  {
    PayloadDraws(u, y, x, n, src, srcPitch, bufPitch, first, rows, h);
    UploadedInParts(v, y, x, src, srcPitch, n, first, first + rows);
  }
}
