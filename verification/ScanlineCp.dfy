/** XAA scanlines through the command buffer: the X server writes each line straight into
    a slot of a HOSTDATA_BLT packet, and a call per line moves on to the next slot or packet. */
module ScanlineCp {
  import opened Arith
  import opened Wrappers

  const HEADER := 10

  /** The R5xx command buffer. What was submitted and what waits in the buffer make up one stream. */
  class CommandBuffer {
    const size: nat
    var buffer: array<int>
    var flushed: nat
    var wptr: nat
    var sent: seq<int>

    constructor (size: nat)
      ensures Valid() && Stream() == [] && this.size == size && fresh(buffer)
    {
      this.size, buffer, flushed, wptr, sent := size, new int[size], 0, 0, [];
    }

    ghost predicate Valid()
      reads this
    {
      buffer.Length == size && flushed <= wptr <= size
    }

    ghost function Stream(): seq<int>
      reads this, buffer
      requires Valid()
    {
      sent + buffer[flushed..wptr]
    }

    /** The stream up to a place in the buffer. */
    ghost function StreamTo(p: nat): seq<int>
      reads this, buffer
      requires Valid() && flushed <= p <= wptr
    {
      sent + buffer[flushed..p]
    }

    /** Room for `count` words: submit the buffer and take a new one if there is none. */
    method Grab(count: nat)
      requires Valid() && count <= size
      modifies this
      ensures Valid() && Stream() == old(Stream()) && wptr + count <= size
      ensures buffer == old(buffer) || fresh(buffer)
    {
      if size - wptr < count {
        sent := sent + buffer[flushed..wptr];
        buffer := new int[size];
        flushed, wptr := 0, 0;
      }
    }

    method Write(value: int)
      requires Valid() && wptr < size
      modifies `wptr, buffer
      ensures Valid() && wptr == old(wptr) + 1 && Stream() == old(Stream()) + [value]
    {
      buffer[wptr] := value;
      wptr := wptr + 1;
    }

    method WriteAll(values: seq<int>)
      requires Valid() && wptr + |values| <= size
      modifies `wptr, buffer
      ensures Valid() && wptr == old(wptr) + |values| && Stream() == old(Stream()) + values
    {
      var i := 0;
      while i < |values|
        invariant i <= |values| && Valid() && wptr == old(wptr) + i && Stream() == old(Stream()) + values[..i]
      {
        Write(values[i]);
        assert values[..i + 1] == values[..i] + [values[i]];
        i := i + 1;
      }
      assert values[..i] == values;
    }

    /** Leave room for words somebody else writes. */
    method Reserve(count: nat)
      requires Valid() && wptr + count <= size
      modifies `wptr
      ensures Valid() && wptr == old(wptr) + count && StreamTo(old(wptr)) == old(Stream())
    {
      wptr := wptr + count;
    }

    /** The X server writes into room left before. */
    method Poke(at: nat, data: seq<int>)
      requires Valid() && flushed <= at && at + |data| <= wptr
      modifies buffer
      ensures StreamTo(at + |data|) == old(StreamTo(at)) + data
    {
      forall k | 0 <= k < |data| {
        buffer[at + k] := data[k];
      }
    }
  }

  // ---- What the packets mean ----

  /** A line of words for a row of the screen, drawn as a rectangle setup says. */
  datatype Row = Row(y: int, setup: Setup, words: seq<int>)

  /** The words of a packet's header. The last gives the length of the payload. */
  function PacketHeader(s: Setup, y: nat, rows: nat, chunk: nat): seq<int> {
    [0xC000_0000 + 0x9400 + (chunk + HEADER - 2) * 0x1_0000, s.control, s.pitchOffset,
     y * 0x1_0000 + s.x1clip % 0x1_0000, (y + rows) * 0x1_0000 + s.x2clip % 0x1_0000, s.fg, s.bg,
     y * 0x1_0000 + s.x % 0x1_0000, rows * 0x1_0000 + s.w % 0x1_0000, chunk]
  }

  /** What a rectangle setup fixes for all packets. */
  datatype Setup = Setup(control: int, pitchOffset: int, x: int, w: int, x1clip: int, x2clip: int, fg: int, bg: int) {
    /** The coordinates as the 16 bits a packet has for them. */
    function Low(): Setup {
      this.(x := x % 0x1_0000, w := w % 0x1_0000, x1clip := x1clip % 0x1_0000, x2clip := x2clip % 0x1_0000)
    }
  }

  /** The setup in a packet's header. */
  function ReadSetup(p: seq<int>): Setup
    requires |p| >= HEADER
  {
    Setup(p[1], p[2], p[7] % 0x1_0000, p[8] % 0x1_0000, p[3] % 0x1_0000, p[4] % 0x1_0000, p[5], p[6])
  }

  /** A mono rectangle: its width is padded to whole words of 32 pixels. */
  function MonoSetup(control: int, pitchOffset: int, x: int, w: nat, skipleft: int, fg: int, bg: int): Setup {
    Setup(control, pitchOffset, x, (w + 31) / 32 * 32, x + skipleft, x + w, fg, bg)
  }

  function MonoWords(w: nat): nat {
    (w + 31) / 32 * 32 / 32
  }

  /** The padding in pixels that the depth asks for. */
  function PaddedWidth(w: nat, bpp: nat): nat {
    if bpp == 8 then (w + 3) / 4 * 4 else if bpp == 16 then (w + 1) / 2 * 2 else w
  }

  function ImageSetup(control: int, pitchOffset: int, x: int, w: nat, skipleft: int, fg: int, bg: int,
                      bpp: nat): Setup {
    Setup(control, pitchOffset, x, PaddedWidth(w, bpp), x + skipleft, x + w, fg, bg)
  }

  function ImageWords(w: nat, bpp: nat): nat {
    (w * bpp + 31) / 32
  }

  /** The width in the packet and the words the driver counts for a line agree, and the line holds the
      w pixels asked for with less than a word to spare. */
  lemma WidthsAgree(w: nat, bpp: nat)
    requires bpp in {8, 16, 32}
    ensures (w + 31) / 32 * 32 == 32 * MonoWords(w) && w <= 32 * MonoWords(w) < w + 32
    ensures PaddedWidth(w, bpp) * bpp == 32 * ImageWords(w, bpp) && w * bpp <= 32 * ImageWords(w, bpp) < w * bpp + 32
    ensures w > 0 ==> MonoWords(w) > 0 && ImageWords(w, bpp) > 0
  {
    if bpp == 8 {
      assert (w * 8 + 31) / 32 == (w + 3) / 4;
    } else if bpp == 16 {
      assert (w * 16 + 31) / 32 == (w + 1) / 2;
    } else {
      assert (w * 32 + 31) / 32 == w;
    }
  }

  /** `rows` lines of `words` words each, for the rows from y down. */
  function Lines(payload: seq<int>, setup: Setup, y: int, rows: nat, words: nat): seq<Row>
    requires Span(rows, words) <= |payload|
  {
    if rows == 0 then []
    else
      Lines(payload, setup, y, rows - 1, words)
          + [Row(y + rows - 1, setup, payload[Span(rows - 1, words)..Span(rows, words)])]
  }

  /** The length of the packet at the front, 0 if it is not whole or its counts disagree. */
  function PacketLength(s: seq<int>, words: nat): nat {
    if |s| < HEADER then 0
    else
      var total, y, rows, chunk := (s[0] / 0x1_0000) % 0x4000 + 2, s[7] / 0x1_0000, s[8] / 0x1_0000, s[9];
      if total == chunk + HEADER && total <= |s| && rows >= 0 && Span(rows, words) == chunk && s[3] / 0x1_0000 == y
          && s[4] / 0x1_0000 == y + rows
      then total else 0
  }

  function PacketRows(p: seq<int>, words: nat): seq<Row>
    requires PacketLength(p, words) == |p| > 0
  {
    Lines(p[HEADER..], ReadSetup(p), p[7] / 0x1_0000, p[8] / 0x1_0000, words)
  }

  /** How the card reads a stream of packets whose lines have `words` words: the rows it draws, or
      None if a packet is cut short or its counts disagree. */
  function Rows(s: seq<int>, words: nat): Option<seq<Row>> {
    if s == [] then Some([])
    else
      var n := PacketLength(s, words);
      if n == 0 then None
      else
        assert PacketLength(s[..n], words) == n;
        Join(Some(PacketRows(s[..n], words)), Rows(s[n..], words))
  }

  lemma RowsFirst(p: seq<int>, rest: seq<int>, words: nat)
    requires PacketLength(p, words) == |p| > 0
    ensures Rows(p + rest, words) == Join(Some(PacketRows(p, words)), Rows(rest, words))
  {
    var s := p + rest;
    assert s[..|p|] == p && s[|p|..] == rest;
    assert s[0] == p[0] && s[3] == p[3] && s[4] == p[4] && s[7] == p[7] && s[8] == p[8] && s[9] == p[9];
  }

  lemma {:induction false} RowsAppend(a: seq<int>, b: seq<int>, words: nat)
    requires Rows(a, words).Some?
    ensures Rows(a + b, words) == Join(Rows(a, words), Rows(b, words))
    decreases a
  {
    if a == [] {
      assert a + b == b;
      JoinNothing(Rows(b, words));
    } else {
      var n := PacketLength(a, words);
      var first, rest := a[..n], a[n..];
      assert PacketLength(first, words) == n;
      assert a + b == first + (rest + b);
      RowsFirst(first, rest + b, words);
      RowsAppend(rest, b, words);
      JoinAssociates(Some(PacketRows(first, words)), Rows(rest, words), Rows(b, words));
    }
  }

  /** A packet as the driver writes it is read as its lines. */
  lemma PacketReads(s: Setup, y: nat, rows: nat, payload: seq<int>, words: nat)
    requires |payload| == Span(rows, words) && |payload| + 8 < 0x4000
    ensures Rows(PacketHeader(s, y, rows, |payload|) + payload, words) == Some(Lines(payload, s.Low(), y, rows, words))
  {
    var header := PacketHeader(s, y, rows, |payload|);
    var p := header + payload;
    HeaderReads(s, y, rows, |payload|);
    assert p[0] == header[0] && p[3] == header[3] && p[4] == header[4] && p[7] == header[7] && p[8] == header[8]
        && p[9] == header[9];
    assert ReadSetup(p) == ReadSetup(header);
    assert p[HEADER..] == payload && p + [] == p;
    RowsFirst(p, [], words);
    JoinNothing(Some(PacketRows(p, words)));
  }

  lemma HeaderReads(s: Setup, y: nat, rows: nat, chunk: nat)
    requires chunk + 8 < 0x4000
    ensures var h := PacketHeader(s, y, rows, chunk);
            && (h[0] / 0x1_0000) % 0x4000 + 2 == chunk + HEADER && h[4] / 0x1_0000 == y + rows
            && h[3] / 0x1_0000 == y && h[7] / 0x1_0000 == y && h[8] / 0x1_0000 == rows && h[9] == chunk
            && ReadSetup(h) == s.Low()
  {
    assert (0xC000_0000 + 0x9400 + (chunk + 8) * 0x1_0000) / 0x1_0000 == 0xC000 + (chunk + 8);
    Fields(y, s.x1clip);
    Fields(y + rows, s.x2clip);
    Fields(y, s.x);
    Fields(rows, s.w);
  }

  lemma Fields(high: nat, low: int)
    ensures (high * 0x1_0000 + low % 0x1_0000) / 0x1_0000 == high
    ensures (high * 0x1_0000 + low % 0x1_0000) % 0x1_0000 == low % 0x1_0000
  {
  }

  lemma {:induction false} LinesMore(payload: seq<int>, line: seq<int>, setup: Setup, y: int, rows: nat, words: nat)
    requires |payload| == Span(rows, words) && |line| == words
    ensures Span(rows + 1, words) == |payload + line|
    ensures Lines(payload + line, setup, y, rows + 1, words) == Lines(payload, setup, y, rows, words)
        + [Row(y + rows, setup, line)]
  {
    LinesOfPrefix(payload, line, setup, y, rows, words);
    assert (payload + line)[|payload|..|payload| + words] == line;
  }

  lemma {:induction false} LinesOfPrefix(payload: seq<int>, more: seq<int>, setup: Setup, y: int, rows: nat, words: nat)
    requires Span(rows, words) <= |payload|
    ensures Lines(payload + more, setup, y, rows, words) == Lines(payload, setup, y, rows, words)
    decreases rows
  {
    if rows > 0 {
      LinesOfPrefix(payload, more, setup, y, rows - 1, words);
      assert (payload + more)[Span(rows - 1, words)..Span(rows, words)] ==
          payload[Span(rows - 1, words)..Span(rows, words)];
    }
  }

  /** The lines that fit a packet. */
  function LinesPerPacket(h: nat, size: nat, words: nat): nat
    requires words > 0 && size >= HEADER
  {
    Min(h, (size - HEADER) / words)
  }

  /** A packet holds a line exactly if there is one and it fits the buffer with the header. */
  lemma LinesPerPacketIff(h: nat, size: nat, words: nat)
    requires words > 0 && size >= HEADER
    ensures LinesPerPacket(h, size, words) > 0 <==> h > 0 && words + HEADER <= size
    ensures Span(LinesPerPacket(h, size, words), words) + HEADER <= size
  {
    var fit := (size - HEADER) / words;
    SpanIs(fit, words);
    assert size - HEADER == fit * words + (size - HEADER) % words;
    SpanMonotone(LinesPerPacket(h, size, words), fit, words);
    if words + HEADER <= size && fit == 0 {
      assert false;
    }
  }

  /** And it holds as many as fit. */
  lemma LinesPerPacketMost(h: nat, size: nat, words: nat)
    requires words > 0 && size >= HEADER
    ensures LinesPerPacket(h, size, words) <= h
    ensures LinesPerPacket(h, size, words) == h || Span(LinesPerPacket(h, size, words) + 1, words) + HEADER > size
  {
    var fit := (size - HEADER) / words;
    SpanIs(fit, words);
    assert size - HEADER == fit * words + (size - HEADER) % words;
  }

  /** The driver's counters: lines not yet in a packet, and lines still to come for the packet that is open. */
  datatype Counters = Counters(h: nat, hpass: int)

  function OpenPass(h: nat, size: nat, words: nat): Counters
    requires words > 0 && size >= HEADER
  {
    var n := LinesPerPacket(h, size, words);
    Counters(h - n, n)
  }

  /** A call: the line before it is counted off, and the next packet is opened if that was the packet's last. */
  function AfterLine(c: Counters, size: nat, words: nat): Counters
    requires words > 0 && size >= HEADER
  {
    if c.hpass - 1 != 0 then Counters(c.h, c.hpass - 1)
    else if c.h != 0 then OpenPass(c.h, size, words)
    else Counters(c.h, 0)
  }

  /** The counters of a rectangle of h lines after k calls. */
  function AfterLines(h: nat, size: nat, words: nat, k: nat): Counters
    requires words > 0 && size >= HEADER
  {
    if k == 0 then OpenPass(h, size, words) else AfterLine(AfterLines(h, size, words, k - 1), size, words)
  }

  /** After a call for each line every line is in a packet that is full, exactly if a line fits a buffer
      with its header. If it does not, no call ever opens another packet, and the one that is open has no line. */
  lemma AllGivenIff(h: nat, size: nat, words: nat)
    requires words > 0 && h > 0 && size >= HEADER
    ensures AfterLines(h, size, words, h) == Counters(0, 0) <==> words + HEADER <= size
    ensures words + HEADER > size ==> forall k: nat :: AfterLines(h, size, words, k) == Counters(h, -(k as int))
  {
    if words + HEADER <= size {
      GivenInOrder(h, size, words, h);
    } else {
      forall k: nat ensures AfterLines(h, size, words, k) == Counters(h, -(k as int)) {
        NoneGiven(h, size, words, k);
      }
    }
  }

  lemma {:induction false} GivenInOrder(h: nat, size: nat, words: nat, k: nat)
    requires words > 0 && h > 0 && words + HEADER <= size && k <= h
    ensures var c := AfterLines(h, size, words, k);
            c.h + c.hpass == h - k && if k < h then c.hpass > 0 else c.hpass == 0
  {
    if k == 0 {
      LinesPerPacketIff(h, size, words);
    } else {
      GivenInOrder(h, size, words, k - 1);
      LinesPerPacketIff(AfterLines(h, size, words, k - 1).h, size, words);
    }
  }

  lemma {:induction false} NoneGiven(h: nat, size: nat, words: nat, k: nat)
    requires words > 0 && h > 0 && words + HEADER > size >= HEADER
    ensures AfterLines(h, size, words, k) == Counters(h, -(k as int))
  {
    LinesPerPacketIff(h, size, words);
    if k > 0 {
      NoneGiven(h, size, words, k - 1);
    }
  }

  /** The packet without a line draws nothing. */
  lemma EmptyPacketReads(s: Setup, y: nat, words: nat)
    ensures Rows(PacketHeader(s, y, 0, 0), words) == Some([])
  {
    PacketReads(s, y, 0, [], words);
    assert PacketHeader(s, y, 0, 0) + [] == PacketHeader(s, y, 0, 0);
  }

  /** With any payload of the right length behind it the header makes a packet for `rows` rows from y. */
  ghost predicate Opens(header: seq<int>, setup: Setup, y: int, rows: nat, words: nat) {
    forall p {:trigger Rows(header + p, words)} | |p| == Span(rows, words) ::
        Rows(header + p, words) == Some(Lines(p, setup, y, rows, words))
  }

  lemma HeaderOpens(s: Setup, y: nat, rows: nat, words: nat)
    requires Span(rows, words) + 8 < 0x4000
    ensures Opens(PacketHeader(s, y, rows, Span(rows, words)), s.Low(), y, rows, words)
  {
    var header := PacketHeader(s, y, rows, Span(rows, words));
    forall p: seq<int> | |p| == Span(rows, words)
        ensures Rows(header + p, words) == Some(Lines(p, s.Low(), y, rows, words)) {
      PacketReads(s, y, rows, p, words);
    }
  }

  /** A full packet after whole packets. */
  lemma WholePacket(full: seq<int>, fullRows: seq<Row>, header: seq<int>, payload: seq<int>, setup: Setup, y: int,
                    rows: nat, words: nat)
    requires Rows(full, words) == Some(fullRows) && Opens(header, setup, y, rows, words)
        && |payload| == Span(rows, words)
    ensures Rows(full + (header + payload), words) == Some(fullRows + Lines(payload, setup, y, rows, words))
  {
    RowsAppend(full, header + payload, words);
  }

  /** The image's share of the stream while a packet is being filled: whole packets that draw
      fullRows, the header of a packet for `rows` rows from y, and the lines it has so far. */
  datatype Text = Text(setup: Setup, base: seq<int>, full: seq<int>, fullRows: seq<Row>, header: seq<int>, y: nat,
                       rows: nat, payload: seq<int>)

  /** `text` is all of it, `left` lines of the packet are missing, and `done` is what has been given. */
  ghost predicate Partial(t: Text, text: seq<int>, left: nat, words: nat, done: seq<Row>) {
    && text == t.base + t.full + t.header + t.payload
    && Rows(t.full, words) == Some(t.fullRows) && Opens(t.header, t.setup, t.y, t.rows, words)
    && left <= t.rows && |t.payload| == Span(t.rows - left, words)
    && done == t.fullRows + Lines(t.payload, t.setup, t.y, t.rows - left, words)
  }

  /** `text` is whole packets that draw `done`. */
  ghost predicate Complete(t: Text, text: seq<int>, words: nat, done: seq<Row>) {
    text == t.base + t.full && Rows(t.full, words) == Some(done)
  }

  lemma OpenText(t: Text, text: seq<int>, words: nat, done: seq<Row>, header: seq<int>, y: nat, rows: nat)
    requires Complete(t, text, words, done) && Opens(header, t.setup, y, rows, words)
    ensures Partial(t.(fullRows := done, header := header, y := y, rows := rows, payload := []), text + header, rows,
                    words, done)
  {
    assert t.base + t.full + header + [] == t.base + t.full + header;
    assert done + [] == done;
  }

  lemma GrowText(t: Text, text: seq<int>, left: nat, words: nat, done: seq<Row>, line: seq<int>, row: int)
    requires Partial(t, text, left, words, done) && left > 0 && |line| == words && row == t.y + t.rows - left
    ensures Partial(t.(payload := t.payload + line), text + line, left - 1, words, done + [Row(row, t.setup, line)])
  {
    var k := t.rows - left;
    LinesMore(t.payload, line, t.setup, t.y, k, words);
    assert t.base + t.full + t.header + t.payload + line == t.base + t.full + t.header + (t.payload + line);
    assert t.fullRows + (Lines(t.payload, t.setup, t.y, k, words) + [Row(row, t.setup, line)])
        == done + [Row(row, t.setup, line)];
  }

  lemma CloseText(t: Text, text: seq<int>, words: nat, done: seq<Row>)
    requires Partial(t, text, 0, words, done)
    ensures Complete(t.(full := t.full + (t.header + t.payload)), text, words, done)
  {
    WholePacket(t.full, t.fullRows, t.header, t.payload, t.setup, t.y, t.rows, words);
    Regroup(t.base, t.full, t.header, t.payload);
  }

  lemma Regroup(a: seq<int>, b: seq<int>, c: seq<int>, d: seq<int>)
    ensures a + b + c + d == a + (b + (c + d))
  {
  }

  lemma CompleteTail(t: Text, text: seq<int>, words: nat, done: seq<Row>)
    requires Complete(t, text, words, done)
    ensures t.base <= text && Rows(text[|t.base|..], words) == Some(done)
  {
    assert text[|t.base|..] == t.full;
  }

  // ---- The driver ----

  class Scanlines {
    const cs: CommandBuffer
    const setup: Setup
    const words: nat
    var scanlineH: nat
    var scanlineHpass: nat
    var scanlineY: nat
    var hook: nat

    ghost var t: Text

    ghost predicate Sizes()
      reads this
    {
      0 < words && words + HEADER <= cs.size <= 0x4000 && t.setup == setup.Low()
    }

    /** Between packets: every line given so far is in the stream, for its own row. */
    ghost predicate Between(done: seq<Row>)
      reads this, cs, cs.buffer
    {
      Sizes() && cs.Valid() && Complete(t, cs.Stream(), words, done)
    }

    /** Where the slots are: `left` of them from `at` to the end of the buffer's contents. */
    ghost predicate Slots(at: nat, left: nat)
      reads this, cs
    {
      && Sizes() && cs.Valid() && cs.flushed <= at && at + Span(left, words) == cs.wptr
      && scanlineY == t.y + t.rows
    }

    /** While a packet is being filled: its slots up to `at` hold the lines given, and `left` slots follow. */
    ghost predicate Filling(done: seq<Row>, at: nat, left: nat)
      reads this, cs, cs.buffer
    {
      Slots(at, left) && Partial(t, cs.StreamTo(at), left, words, done)
    }

    ghost predicate Ready(done: seq<Row>)
      reads this, cs, cs.buffer
    {
      scanlineHpass > 0 && Filling(done, hook, scanlineHpass)
    }

    constructor (cs: CommandBuffer, setup: Setup, words: nat, y: nat, h: nat)
      requires cs.Valid() && 0 < words && words + HEADER <= cs.size <= 0x4000
      ensures this.cs == cs && this.setup == setup && this.words == words && scanlineY == y && scanlineH == h
          && scanlineHpass == 0
      ensures Between([]) && t.base == cs.Stream()
    {
      this.cs, this.setup, this.words, scanlineY, scanlineH, scanlineHpass, hook := cs, setup, words, y, h, 0, 0;
      t := Text(setup.Low(), cs.Stream(), [], [], [], 0, 0, []);
    }

    function Counted(): Counters
      reads this
    {
      Counters(scanlineH, scanlineHpass)
    }

    /** Open the next packet: its header, and room for its lines. */
    method Packet(ghost done: seq<Row>)
      requires Between(done) && 0 < scanlineHpass <= scanlineH && Span(scanlineHpass, words) + HEADER <= cs.size
      modifies this, cs, cs.buffer
      ensures Ready(done) && t.base == old(t.base) && (cs.buffer == old(cs.buffer) || fresh(cs.buffer))
      ensures scanlineHpass == old(scanlineHpass) && scanlineH == old(scanlineH) - scanlineHpass
      ensures scanlineY == old(scanlineY) + scanlineHpass
    {
      var chunk := Words(scanlineHpass);
      cs.Grab(chunk + HEADER);
      WriteHeader(chunk, done);
      hook := cs.wptr;
      cs.Reserve(chunk);
      scanlineY := scanlineY + scanlineHpass;
      scanlineH := scanlineH - scanlineHpass;
    }

    method WriteHeader(chunk: nat, ghost done: seq<Row>)
      requires Between(done) && chunk == Span(scanlineHpass, words) && cs.wptr + chunk + HEADER <= cs.size
      modifies `t, cs`wptr, cs.buffer
      ensures cs.Valid() && cs.wptr == old(cs.wptr) + HEADER && t.base == old(t.base) && t.setup == old(t.setup)
          && t.y == scanlineY && t.rows == scanlineHpass
      ensures Partial(t, cs.Stream(), scanlineHpass, words, done)
    {
      HeaderOpens(setup, scanlineY, scanlineHpass, words);
      OpenText(t, cs.Stream(), words, done, PacketHeader(setup, scanlineY, scanlineHpass, chunk), scanlineY,
               scanlineHpass);
      t := t.(fullRows := done, header := PacketHeader(setup, scanlineY, scanlineHpass, chunk),
              y := scanlineY, rows := scanlineHpass, payload := []);
      cs.WriteAll(PacketHeader(setup, scanlineY, scanlineHpass, chunk));
    }

    method Words(lines: nat) returns (n: nat)
      ensures n == Span(lines, words)
    {
      SpanIs(lines, words);
      n := lines * words;
    }

    /** Ready for the next line, which is for row `row`, with `left` lines to come; or at the end. */
    ghost predicate AtLine(done: seq<Row>, left: nat, row: nat)
      reads this, cs, cs.buffer
    {
      && scanlineH + scanlineHpass == left && scanlineY - scanlineHpass == row
      && if left > 0 then Ready(done) else Between(done)
    }

    /** The end of a rectangle setup: the first packet. */
    method SetupRectangle()
      requires Between([]) && scanlineHpass == 0 < scanlineH
      modifies this, cs, cs.buffer
      ensures Counted() == AfterLines(old(scanlineH), cs.size, words, 0)
      ensures AtLine([], old(scanlineH), old(scanlineY)) && t.base == old(t.base)
          && (cs.buffer == old(cs.buffer) || fresh(cs.buffer))
    {
      LinesPerPacketIff(scanlineH, cs.size, words);
      scanlineHpass := LinesPerPacket(scanlineH, cs.size, words);
      Packet([]);
    }

    /** The server fills a slot and calls. */
    method Line(line: seq<int>, ghost done: seq<Row>, ghost left: nat, ghost row: nat)
      requires AtLine(done, left, row) && left > 0 && |line| == words
      modifies this, cs, cs.buffer
      ensures AtLine(done + [Row(row, t.setup, line)], left - 1, row + 1)
      ensures t.base == old(t.base) && (cs.buffer == old(cs.buffer) || fresh(cs.buffer))
    {
      Fill(line, done, row);
      SubsequentScanline(0, done + [Row(row, t.setup, line)]);
    }

    /** The server writes the next line into the slot at the hook. */
    method Fill(line: seq<int>, ghost done: seq<Row>, ghost row: nat)
      requires Ready(done) && |line| == words && row == scanlineY - scanlineHpass
      modifies `t, cs.buffer
      ensures Filling(done + [Row(row, t.setup, line)], hook + words, scanlineHpass - 1) && t.base == old(t.base)
    {
      GrowText(t, cs.StreamTo(hook), scanlineHpass, words, done, line, row);
      SlotsAfter(hook, scanlineHpass);
      cs.Poke(hook, line);
      t := t.(payload := t.payload + line);
    }

    lemma SlotsAfter(at: nat, left: nat)
      requires Slots(at, left) && left > 0
      ensures Slots(at + words, left - 1) && at + words <= cs.wptr
    {
      assert Span(left, words) == Span(left - 1, words) + words;
    }

    /** Called after each line: on to the next slot, or the next packet, or nothing if that was the last. */
    method SubsequentScanline(bufno: int, ghost done: seq<Row>)
      requires scanlineHpass > 0 && Filling(done, hook + words, scanlineHpass - 1)
      modifies this, cs, cs.buffer
      ensures t.base == old(t.base) && (cs.buffer == old(cs.buffer) || fresh(cs.buffer))
      ensures bufno != 0 ==> scanlineHpass == old(scanlineHpass) && Filling(done, hook + words, scanlineHpass - 1)
      ensures bufno == 0 ==> scanlineH + scanlineHpass == old(scanlineH) + old(scanlineHpass) - 1
      ensures bufno == 0 ==> scanlineY - scanlineHpass == old(scanlineY) - old(scanlineHpass) + 1
      ensures bufno == 0 ==> if scanlineHpass > 0 then Ready(done) else scanlineH == 0 && Between(done)
      ensures bufno == 0 ==> Counted() == AfterLine(old(Counted()), cs.size, words)
    {
      if bufno != 0 {
        return;
      }
      scanlineHpass := scanlineHpass - 1;
      if scanlineHpass != 0 {
        hook := hook + words;
      } else {
        ClosePacket(done);
        if scanlineH != 0 {
          LinesPerPacketIff(scanlineH, cs.size, words);
          scanlineHpass := LinesPerPacket(scanlineH, cs.size, words);
          Packet(done);
        }
      }
    }

    /** A full packet joins the whole ones. */
    ghost method ClosePacket(done: seq<Row>)
      requires Filling(done, hook + words, 0)
      modifies `t
      ensures Between(done) && t.base == old(t.base)
    {
      CloseText(t, cs.Stream(), words, done);
      t := t.(full := t.full + (t.header + t.payload));
    }
  }

  /** The lines of an image, each on its own row. */
  function Image(y: int, setup: Setup, lines: seq<seq<int>>): (r: seq<Row>)
    ensures |r| == |lines| && forall k :: 0 <= k < |lines| ==> r[k] == Row(y + k, setup, lines[k])
  {
    seq(|lines|, k requires 0 <= k < |lines| => Row(y + k, setup, lines[k]))
  }

  lemma ImageMore(y: int, setup: Setup, lines: seq<seq<int>>, k: nat, done: seq<Row>)
    requires k < |lines| && done == Image(y, setup, lines)[..k]
    ensures done + [Row(y + k, setup, lines[k])] == Image(y, setup, lines)[..k + 1]
  {
    assert Image(y, setup, lines)[k] == Row(y + k, setup, lines[k]);
  }

  method GiveLine(s: Scanlines, lines: seq<seq<int>>, ghost y: nat, k: nat, ghost done: seq<Row>, ghost left: nat,
                  ghost row: nat)
      returns (ghost next: seq<Row>)
    requires s.AtLine(done, left, row) && k < |lines| && |lines[k]| == s.words
    requires k + left == |lines| && row == y + k && done == Image(y, s.setup.Low(), lines)[..k]
    modifies s, s.cs, s.cs.buffer
    ensures left > 0 && s.AtLine(next, left - 1, row + 1) && next == Image(y, s.setup.Low(), lines)[..k + 1]
    ensures s.t.base == old(s.t.base) && (s.cs.buffer == old(s.cs.buffer) || fresh(s.cs.buffer))
  {
    ImageMore(y, s.setup.Low(), lines, k, done);
    next := done + [Row(row, s.setup.Low(), lines[k])];
    s.Line(lines[k], done, left, row);
  }

  /** The server gives all the lines. */
  method GiveLines(s: Scanlines, lines: seq<seq<int>>, ghost y: nat)
    requires s.AtLine([], |lines|, y) && forall k :: 0 <= k < |lines| ==> |lines[k]| == s.words
    modifies s, s.cs, s.cs.buffer
    ensures s.Between(Image(y, s.setup.Low(), lines)) && s.t.base == old(s.t.base)
  {
    var k := 0;
    ghost var done, left: nat, row: nat := [], |lines|, y;
    while k < |lines|
      invariant s.t.base == old(s.t.base) && (s.cs.buffer == old(s.cs.buffer) || fresh(s.cs.buffer))
      invariant s.AtLine(done, left, row)
      invariant k + left == |lines| && row == y + k && done == Image(y, s.setup.Low(), lines)[..k]
    {
      done := GiveLine(s, lines, y, k, done, left, row);
      k, left, row := k + 1, left - 1, row + 1;
    }
    assert Image(y, s.setup.Low(), lines)[..k] == Image(y, s.setup.Low(), lines);
  }

  /** A rectangle of h lines: whatever the buffer holds and however many packets it takes, the words
      emitted are whole packets, and the card reads line k for row y + k, every line once. */
  method DrawImage(cs: CommandBuffer, setup: Setup, words: nat, y: nat, lines: seq<seq<int>>)
    requires cs.Valid() && 0 < words && words + HEADER <= cs.size <= 0x4000 && lines != []
    requires forall k :: 0 <= k < |lines| ==> |lines[k]| == words
    modifies cs, cs.buffer
    ensures cs.Valid() && old(cs.Stream()) <= cs.Stream()
    ensures Rows(cs.Stream()[|old(cs.Stream())|..], words) == Some(Image(y, setup.Low(), lines))
  {
    var s := new Scanlines(cs, setup, words, y, |lines|);
    s.SetupRectangle();
    GiveLines(s, lines, y);
    CompleteTail(s.t, cs.Stream(), words, Image(y, setup.Low(), lines));
  }

  // ---- The two kinds of rectangles ----

  /** A coordinate from its 16 bits. */
  function Signed(v: int): int {
    if v < 0x8000 then v else v - 0x1_0000
  }

  /** The card draws column c of a row: it lies in the rectangle and in the clip, and its pixel is in the line. */
  predicate Draws(r: Row, bpp: nat, c: int) {
    && Signed(r.setup.x) <= c < Signed(r.setup.x) + r.setup.w
    && Signed(r.setup.x1clip) <= c < Signed(r.setup.x2clip)
    && (c - Signed(r.setup.x) + 1) * bpp <= 32 * |r.words|
  }

  lemma ColumnsDrawn(s: Setup, y: int, line: seq<int>, bpp: nat, x: int, w: nat, skipleft: nat, c: int)
    requires bpp in {1, 8, 16, 32} && s.w * bpp == 32 * |line| && 0 <= w <= s.w && skipleft <= w
    requires -0x8000 <= x && x + s.w < 0x8000 && s.x == x && s.x1clip == x + skipleft && s.x2clip == x + w
    ensures Draws(Row(y, s.Low(), line), bpp, c) <==> x + skipleft <= c < x + w
  {
    SignedLow(x);
    SignedLow(x + skipleft);
    SignedLow(x + w);
    if x <= c < x + s.w {
      assert (c - x + 1) * bpp <= s.w * bpp;
    }
  }

  lemma SignedLow(v: int)
    requires -0x8000 <= v < 0x8000
    ensures Signed(v % 0x1_0000) == v
  {
  }

  /** A line fits the buffer exactly if the rectangle is not wider than the buffer without a header has room for. */
  lemma WidthFitsIff(w: nat, bpp: nat, size: nat)
    requires bpp in {8, 16, 32} && size >= HEADER
    ensures MonoWords(w) + HEADER <= size <==> w <= 32 * (size - HEADER)
    ensures ImageWords(w, bpp) + HEADER <= size <==> w * bpp <= 32 * (size - HEADER)
  {
    WidthsAgree(w, bpp);
  }

  /** Bit i of a line: the lowest bit of its first word comes first. */
  predicate BitOf(words: seq<int>, i: nat) {
    i / 32 < |words| && words[i / 32] / Pow2(i % 32) % 2 == 1
  }

  /** The colour the card gives column c of a mono row. */
  function Colour(r: Row, c: int): int
    requires Signed(r.setup.x) <= c
  {
    if BitOf(r.words, c - Signed(r.setup.x)) then r.setup.fg else r.setup.bg
  }

  /** A row of a mono rectangle with its left edge at x is drawn from column `from` to `to`: in the foreground
      colour where the line has a bit set, in the background colour elsewhere, under the given control and target. */
  ghost predicate MonoRow(r: Row, row: int, line: seq<int>, control: int, pitchOffset: int, fg: int, bg: int,
                          x: int, from: int, to: int) {
    && r.y == row && r.setup.control == control && r.setup.pitchOffset == pitchOffset
    && Signed(r.setup.x) == x <= from
    && (forall c :: Draws(r, 1, c) <==> from <= c < to)
    && forall c :: from <= c < to ==> Colour(r, c) == if BitOf(line, c - x) then fg else bg
  }

  /** A mono rectangle: line k is read for row y + k, and of it the columns from x + skipleft to x + w are drawn. */
  method DrawMono(cs: CommandBuffer, control: int, pitchOffset: int, fg: int, bg: int,
                  x: int, y: nat, w: nat, skipleft: nat, lines: seq<seq<int>>) returns (ghost rows: seq<Row>)
    requires cs.Valid() && cs.size <= 0x4000 && 0 < w <= 32 * (cs.size - HEADER) && lines != []
    requires skipleft <= w && -0x8000 <= x && x + w + 31 < 0x8000
    requires forall k :: 0 <= k < |lines| ==> |lines[k]| == (w + 31) / 32
    modifies cs, cs.buffer
    ensures cs.Valid() && old(cs.Stream()) <= cs.Stream()
    ensures Rows(cs.Stream()[|old(cs.Stream())|..], (w + 31) / 32) == Some(rows) && |rows| == |lines|
    ensures forall k :: 0 <= k < |lines| ==>
              MonoRow(rows[k], y + k, lines[k], control, pitchOffset, fg, bg, x, x + skipleft, x + w)
  {
    var setup := MonoSetup(control, pitchOffset, x, w, skipleft, fg, bg);
    WidthFitsIff(w, 8, cs.size);
    WidthsAgree(w, 8);
    rows := Image(y, setup.Low(), lines);
    MonoRowsDrawn(control, pitchOffset, fg, bg, x, y, w, skipleft, lines, rows);
    DrawImage(cs, setup, MonoWords(w), y, lines);
  }

  lemma MonoRowsDrawn(control: int, pitchOffset: int, fg: int, bg: int, x: int, y: nat, w: nat, skipleft: nat,
                      lines: seq<seq<int>>, rows: seq<Row>)
    requires 0 < w && skipleft <= w && -0x8000 <= x && x + w + 31 < 0x8000
    requires forall k :: 0 <= k < |lines| ==> |lines[k]| == MonoWords(w)
    requires rows == Image(y, MonoSetup(control, pitchOffset, x, w, skipleft, fg, bg).Low(), lines)
    ensures forall k :: 0 <= k < |lines| ==>
              MonoRow(rows[k], y + k, lines[k], control, pitchOffset, fg, bg, x, x + skipleft, x + w)
  {
    forall k | 0 <= k < |lines|
      ensures MonoRow(rows[k], y + k, lines[k], control, pitchOffset, fg, bg, x, x + skipleft, x + w)
    {
      MonoRowDrawn(control, pitchOffset, fg, bg, x, w, skipleft, y + k, lines[k]);
    }
  }

  lemma MonoRowDrawn(control: int, pitchOffset: int, fg: int, bg: int, x: int, w: nat, skipleft: nat,
                     row: int, line: seq<int>)
    requires 0 < w && skipleft <= w && -0x8000 <= x && x + w + 31 < 0x8000 && |line| == MonoWords(w)
    ensures var setup := MonoSetup(control, pitchOffset, x, w, skipleft, fg, bg);
            MonoRow(Row(row, setup.Low(), line), row, line, control, pitchOffset, fg, bg, x, x + skipleft, x + w)
  {
    var setup := MonoSetup(control, pitchOffset, x, w, skipleft, fg, bg);
    WidthsAgree(w, 8);
    SignedLow(x);
    forall c ensures Draws(Row(row, setup.Low(), line), 1, c) <==> x + skipleft <= c < x + w {
      ColumnsDrawn(setup, row, line, 1, x, w, skipleft, c);
    }
  }

  /** Pixel i of a line, if the line is that long: the lowest bits of the first word come first. */
  function PixelOf(words: seq<int>, bpp: nat, i: int): Option<int>
    requires bpp in {8, 16, 32}
  {
    if i < 0 || (i + 1) * bpp > 32 * |words| then None
    else
      PixelInside(words, bpp, i);
      Some(words[i * bpp / 32] / Pow2(i * bpp % 32) % Pow2(bpp))
  }

  lemma PixelInside(words: seq<int>, bpp: nat, i: nat)
    requires bpp in {8, 16, 32} && (i + 1) * bpp <= 32 * |words|
    ensures 0 <= i * bpp / 32 < |words|
  {
  }

  /** What the card draws in column c of a row. */
  function PixelAt(r: Row, bpp: nat, c: int): Option<int>
    requires bpp in {8, 16, 32}
  {
    PixelOf(r.words, bpp, c - Signed(r.setup.x))
  }

  /** A row of a rectangle of pixels: the columns from `from` to `to` are drawn, each with its pixel of the line. */
  ghost predicate PixelRow(r: Row, row: int, line: seq<int>, control: int, pitchOffset: int, bpp: nat,
                           x: int, from: int, to: int) {
    && bpp in {8, 16, 32} && r.y == row && r.setup.control == control && r.setup.pitchOffset == pitchOffset
    && Signed(r.setup.x) == x <= from
    && (forall c :: Draws(r, bpp, c) <==> from <= c < to)
    && forall c :: from <= c < to ==> PixelAt(r, bpp, c).Some? && PixelAt(r, bpp, c) == PixelOf(line, bpp, c - x)
  }

  /** A rectangle of pixels: line k is for row y + k, and of it the columns from x + skipleft to x + w are drawn. */
  method DrawPixels(cs: CommandBuffer, control: int, pitchOffset: int, fg: int, bg: int, bpp: nat,
                    x: int, y: nat, w: nat, skipleft: nat, lines: seq<seq<int>>) returns (ghost rows: seq<Row>)
    requires cs.Valid() && HEADER <= cs.size <= 0x4000 && lines != []
    requires bpp in {8, 16, 32} && 0 < w && w * bpp <= 32 * (cs.size - HEADER)
    requires skipleft <= w && -0x8000 <= x && x + w + 3 < 0x8000
    requires forall k :: 0 <= k < |lines| ==> |lines[k]| == ImageWords(w, bpp)
    modifies cs, cs.buffer
    ensures cs.Valid() && old(cs.Stream()) <= cs.Stream()
    ensures Rows(cs.Stream()[|old(cs.Stream())|..], ImageWords(w, bpp)) == Some(rows) && |rows| == |lines|
    ensures forall k :: 0 <= k < |lines| ==>
              PixelRow(rows[k], y + k, lines[k], control, pitchOffset, bpp, x, x + skipleft, x + w)
  {
    var setup := ImageSetup(control, pitchOffset, x, w, skipleft, fg, bg, bpp);
    ghost var words := PixelWordsFit(w, bpp, cs.size);
    rows := Image(y, setup.Low(), lines);
    PixelRowsDrawn(control, pitchOffset, fg, bg, bpp, x, y, w, skipleft, lines, rows);
    DrawImage(cs, setup, ImageWords(w, bpp), y, lines);
  }

  lemma PixelThere(r: Row, bpp: nat, c: int)
    requires bpp in {8, 16, 32} && Draws(r, bpp, c)
    ensures PixelAt(r, bpp, c).Some?
  {
  }

  lemma PixelWordsFit(w: nat, bpp: nat, size: nat) returns (words: nat)
    requires bpp in {8, 16, 32} && 0 < w && HEADER <= size && w * bpp <= 32 * (size - HEADER)
    ensures words == ImageWords(w, bpp) && words > 0 && words + HEADER <= size
  {
    words := ImageWords(w, bpp);
    WidthFitsIff(w, bpp, size);
    WidthsAgree(w, bpp);
  }

  lemma PixelRowsDrawn(control: int, pitchOffset: int, fg: int, bg: int, bpp: nat, x: int, y: nat, w: nat,
                       skipleft: nat, lines: seq<seq<int>>, rows: seq<Row>)
    requires bpp in {8, 16, 32} && 0 < w && skipleft <= w && -0x8000 <= x && x + w + 3 < 0x8000
    requires forall k :: 0 <= k < |lines| ==> |lines[k]| == ImageWords(w, bpp)
    requires rows == Image(y, ImageSetup(control, pitchOffset, x, w, skipleft, fg, bg, bpp).Low(), lines)
    ensures forall k :: 0 <= k < |lines| ==>
              PixelRow(rows[k], y + k, lines[k], control, pitchOffset, bpp, x, x + skipleft, x + w)
  {
    forall k | 0 <= k < |lines|
      ensures PixelRow(rows[k], y + k, lines[k], control, pitchOffset, bpp, x, x + skipleft, x + w)
    {
      PixelRowDrawn(control, pitchOffset, fg, bg, bpp, x, w, skipleft, y + k, lines[k]);
    }
  }

  lemma PixelRowDrawn(control: int, pitchOffset: int, fg: int, bg: int, bpp: nat, x: int, w: nat, skipleft: nat,
                      row: int, line: seq<int>)
    requires bpp in {8, 16, 32} && 0 < w && skipleft <= w && -0x8000 <= x && x + w + 3 < 0x8000
    requires |line| == ImageWords(w, bpp)
    ensures var setup := ImageSetup(control, pitchOffset, x, w, skipleft, fg, bg, bpp);
            PixelRow(Row(row, setup.Low(), line), row, line, control, pitchOffset, bpp, x, x + skipleft, x + w)
  {
    var setup := ImageSetup(control, pitchOffset, x, w, skipleft, fg, bg, bpp);
    WidthsAgree(w, bpp);
    SignedLow(x);
    forall c ensures Draws(Row(row, setup.Low(), line), bpp, c) <==> x + skipleft <= c < x + w {
      ColumnsDrawn(setup, row, line, bpp, x, w, skipleft, c);
    }
    forall c | x + skipleft <= c < x + w ensures PixelAt(Row(row, setup.Low(), line), bpp, c).Some? {
      PixelThere(Row(row, setup.Low(), line), bpp, c);
    }
  }
}
