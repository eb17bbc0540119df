/** Memory shared by the CPU and a GPU that runs its queue late: video memory as rows
    of bytes, a scratch buffer both sides reach, and a queue of row copies. */
module Memory {

  newtype Byte = x: int | 0 <= x < 256

  /** s with `data` written over it from position `at`. */
  function Splice(s: seq<Byte>, at: nat, data: seq<Byte>): (r: seq<Byte>)
    requires at + |data| <= |s|
    ensures |r| == |s|
  {
    s[..at] + data + s[at + |data|..]
  }

  lemma SpliceAt(s: seq<Byte>, at: nat, data: seq<Byte>)
    requires at + |data| <= |s|
    ensures Splice(s, at, data)[at..at + |data|] == data
  {
  }

  lemma SpliceAway(s: seq<Byte>, at: nat, data: seq<Byte>, i: nat, j: nat)
    requires at + |data| <= |s| && i <= j <= |s| && (j <= at || at + |data| <= i)
    ensures Splice(s, at, data)[i..j] == s[i..j]
  {
  }

  lemma SplicedByte(s: seq<Byte>, at: nat, data: seq<Byte>, k: nat)
    requires at + |data| <= |s| && k < |s|
    ensures Splice(s, at, data)[k] == if at <= k < at + |data| then data[k - at] else s[k]
  {
  }

  /** What the GPU does to one row. A fill stands for drawing queued earlier, which does not depend
      on the scratch buffer. */
  datatype RowCopy =
    | Fill(row: nat, x: nat, data: seq<Byte>)
    | ToScreen(from: nat, row: nat, x: nat, n: nat)
    | FromScreen(row: nat, x: nat, n: nat, to: nat)

  datatype Mem = Mem(vram: seq<seq<Byte>>, scratch: seq<Byte>) {

    predicate Fits(c: RowCopy) {
      match c
      case Fill(row, x, data) => row < |vram| && x + |data| <= |vram[row]|
      case ToScreen(from, row, x, n) => row < |vram| && x + n <= |vram[row]| && from + n <= |scratch|
      case FromScreen(row, x, n, to) => row < |vram| && x + n <= |vram[row]| && to + n <= |scratch|
    }

    function Step(c: RowCopy): (r: Mem)
      requires Fits(c)
      ensures SameShape(this, r)
    {
      match c
      case Fill(row, x, data) =>
        WidthsKept(vram, row, Splice(vram[row], x, data));
        this.(vram := vram[row := Splice(vram[row], x, data)])
      case ToScreen(from, row, x, n) =>
        WidthsKept(vram, row, Splice(vram[row], x, scratch[from..from + n]));
        this.(vram := vram[row := Splice(vram[row], x, scratch[from..from + n])])
      case FromScreen(row, x, n, to) => this.(scratch := Splice(scratch, to, vram[row][x..x + n]))
    }

    ghost predicate AllFit(q: seq<RowCopy>) {
      forall i :: 0 <= i < |q| ==> Fits(q[i])
    }
  }

  /** The length of every row. */
  function Widths(v: seq<seq<Byte>>): (r: seq<nat>) {
    seq(|v|, i requires 0 <= i < |v| => |v[i]|)
  }

  lemma WidthsKept(v: seq<seq<Byte>>, row: nat, s: seq<Byte>)
    requires row < |v| && |s| == |v[row]|
    ensures Widths(v[row := s]) == Widths(v)
  {
  }

  predicate SameShape(a: Mem, b: Mem) {
    |a.scratch| == |b.scratch| && Widths(a.vram) == Widths(b.vram)
  }

  lemma SameShapeFits(a: Mem, b: Mem, q: seq<RowCopy>)
    requires SameShape(a, b) && a.AllFit(q)
    ensures b.AllFit(q)
  {
    forall i | 0 <= i < |q| ensures b.Fits(q[i]) {
      assert a.Fits(q[i]) && |Widths(a.vram)| == |Widths(b.vram)|;
      assert Widths(a.vram)[q[i].row] == Widths(b.vram)[q[i].row];
    }
  }

  /** The memory once the whole queue has run. */
  function Drained(m: Mem, q: seq<RowCopy>): (r: Mem)
    requires m.AllFit(q)
    ensures SameShape(m, r)
    decreases q
  {
    if q == [] then m
    else
      assert m.Fits(q[0]);
      SameShapeFits(m, m.Step(q[0]), q[1..]);
      Drained(m.Step(q[0]), q[1..])
  }

  lemma {:induction false} DrainedAppend(m: Mem, p: seq<RowCopy>, q: seq<RowCopy>)
    requires m.AllFit(p + q)
    ensures m.AllFit(p) && Drained(m, p).AllFit(q)
    ensures Drained(m, p + q) == Drained(Drained(m, p), q)
    decreases p
  {
    assert forall i :: 0 <= i < |p| ==> p[i] == (p + q)[i];
    assert forall i :: 0 <= i < |q| ==> q[i] == (p + q)[|p| + i];
    SameShapeFits(m, Drained(m, p), q);
    if p == [] {
      assert p + q == q;
    } else {
      var m' := m.Step(p[0]);
      assert (p + q)[1..] == p[1..] + q && (p + q)[0] == p[0];
      SameShapeFits(m, m', p[1..] + q);
      DrainedAppend(m', p[1..], q);
    }
  }

  /** The last copy of a queue runs on what the rest of it leaves. */
  lemma DrainedLast(m: Mem, q: seq<RowCopy>)
    requires m.AllFit(q) && q != []
    ensures var front, last := q[..|q| - 1], q[|q| - 1];
            && m.AllFit(front) && Drained(m, front).Fits(last)
            && Drained(m, q) == Drained(m, front).Step(last)
  {
    var front, last := q[..|q| - 1], q[|q| - 1];
    assert q == front + [last];
    DrainedAppend(m, front, [last]);
    var f := Drained(m, front);
    assert [last][0] == last && f.AllFit([last]) && f.Fits([last][0]);
    assert Drained(f, [last]) == f.Step(last);
  }

  /** The copy neither reads nor writes the n scratch bytes from `at`. */
  predicate Misses(c: RowCopy, at: nat, n: nat) {
    match c
    case Fill(_, _, _) => true
    case ToScreen(from, _, _, m) => from + m <= at || at + n <= from
    case FromScreen(_, _, m, to) => to + m <= at || at + n <= to
  }

  ghost predicate AllMiss(q: seq<RowCopy>, at: nat, n: nat) {
    forall i :: 0 <= i < |q| ==> Misses(q[i], at, n)
  }

  lemma SuffixMisses(q: seq<RowCopy>, k: nat, at: nat, n: nat)
    requires k <= |q| && AllMiss(q, at, n)
    ensures AllMiss(q[k..], at, n)
  {
    forall i | 0 <= i < |q| - k ensures Misses(q[k..][i], at, n) {
      assert q[k..][i] == q[k + i];
    }
  }

  lemma PartMisses(q: seq<RowCopy>, at: nat, n: nat, at': nat, n': nat)
    requires AllMiss(q, at, n) && at <= at' && at' + n' <= at + n
    ensures AllMiss(q, at', n')
  {
    forall i | 0 <= i < |q| ensures Misses(q[i], at', n') {
      assert Misses(q[i], at, n);
    }
  }

  /** Bytes outside the n from `at` agree. */
  predicate SameOutside(a: seq<Byte>, b: seq<Byte>, at: nat, n: nat) {
    |a| == |b| && at + n <= |a| && a[..at] == b[..at] && a[at + n..] == b[at + n..]
  }

  /** A CPU write to scratch bytes no queued copy touches could as well come after the queue has run. */
  lemma {:induction false} DrainedAfterWrite(m: Mem, q: seq<RowCopy>, at: nat, data: seq<Byte>)
    requires m.AllFit(q) && at + |data| <= |m.scratch| && AllMiss(q, at, |data|)
    ensures var m' := m.(scratch := Splice(m.scratch, at, data));
            && m'.AllFit(q)
            && Drained(m', q) == Drained(m, q).(scratch := Splice(Drained(m, q).scratch, at, data))
    decreases q
  {
    var m' := m.(scratch := Splice(m.scratch, at, data));
    SameShapeFits(m, m', q);
    if q != [] {
      assert m.Fits(q[0]) && m'.Fits(q[0]) && Misses(q[0], at, |data|);
      StepAfterWrite(m, q[0], at, data);
      SameShapeFits(m, m.Step(q[0]), q[1..]);
      DrainedAfterWrite(m.Step(q[0]), q[1..], at, data);
    }
  }

  lemma StepAfterWrite(m: Mem, c: RowCopy, at: nat, data: seq<Byte>)
    requires m.Fits(c) && at + |data| <= |m.scratch| && Misses(c, at, |data|)
    ensures var m' := m.(scratch := Splice(m.scratch, at, data));
            m'.Fits(c) && m'.Step(c) == m.Step(c).(scratch := Splice(m.Step(c).scratch, at, data))
  {
    if c.FromScreen? {
      var d := m.vram[c.row][c.x..c.x + c.n];
      SpliceCommutes(m.scratch, at, data, c.to, d);
    } else if c.ToScreen? {
      SpliceAway(m.scratch, at, data, c.from, c.from + c.n);
    }
  }

  lemma SpliceCommutes(s: seq<Byte>, a: nat, d: seq<Byte>, b: nat, e: seq<Byte>)
    requires a + |d| <= |s| && b + |e| <= |s| && (a + |d| <= b || b + |e| <= a)
    ensures Splice(Splice(s, a, d), b, e) == Splice(Splice(s, b, e), a, d)
  {
  }

  /** Scratch bytes no queued copy touches keep their value while the queue runs. */
  lemma {:induction false} DrainedKeeps(m: Mem, q: seq<RowCopy>, at: nat, n: nat)
    requires m.AllFit(q) && at + n <= |m.scratch| && AllMiss(q, at, n)
    ensures Drained(m, q).scratch[at..at + n] == m.scratch[at..at + n]
    decreases q
  {
    if q != [] {
      assert m.Fits(q[0]) && Misses(q[0], at, n);
      SameShapeFits(m, m.Step(q[0]), q[1..]);
      DrainedKeeps(m.Step(q[0]), q[1..], at, n);
    }
  }

  /** Bytes added behind the scratch memory do not matter to a queue. */
  lemma {:induction false} DrainedGrown(m: Mem, q: seq<RowCopy>, more: seq<Byte>)
    requires m.AllFit(q)
    ensures var m' := m.(scratch := m.scratch + more);
            m'.AllFit(q) && Drained(m', q) == Drained(m, q).(scratch := Drained(m, q).scratch + more)
    decreases q
  {
    var m' := m.(scratch := m.scratch + more);
    forall i | 0 <= i < |q| ensures m'.Fits(q[i]) { assert m.Fits(q[i]); }
    if q != [] {
      assert m.Fits(q[0]) && m'.Fits(q[0]);
      StepGrown(m, q[0], more);
      SameShapeFits(m, m.Step(q[0]), q[1..]);
      DrainedGrown(m.Step(q[0]), q[1..], more);
    }
  }

  lemma StepGrown(m: Mem, c: RowCopy, more: seq<Byte>)
    requires m.Fits(c)
    ensures var m' := m.(scratch := m.scratch + more);
            m'.Fits(c) && m'.Step(c) == m.Step(c).(scratch := m.Step(c).scratch + more)
  {
    if c.ToScreen? {
      assert (m.scratch + more)[c.from..c.from + c.n] == m.scratch[c.from..c.from + c.n];
    } else if c.FromScreen? {
      SpliceGrown(m.scratch, c.to, m.vram[c.row][c.x..c.x + c.n], more);
    }
  }

  lemma SpliceGrown(s: seq<Byte>, at: nat, data: seq<Byte>, more: seq<Byte>)
    requires at + |data| <= |s|
    ensures Splice(s + more, at, data) == Splice(s, at, data) + more
  {
  }

  /** What fits the old scratch memory touches nothing behind it. */
  lemma FreshMissed(m: Mem, q: seq<RowCopy>, n: nat)
    requires m.AllFit(q)
    ensures AllMiss(q, |m.scratch|, n)
  {
    forall i | 0 <= i < |q| ensures Misses(q[i], |m.scratch|, n) { assert m.Fits(q[i]); }
  }

  predicate WritesScratch(c: RowCopy) { c.FromScreen? }

  ghost predicate NoDownloads(q: seq<RowCopy>) {
    forall i :: 0 <= i < |q| ==> !WritesScratch(q[i])
  }

  lemma {:induction false} DrainedWithoutDownloads(m: Mem, q: seq<RowCopy>)
    requires m.AllFit(q) && NoDownloads(q)
    ensures Drained(m, q).scratch == m.scratch
    decreases q
  {
    if q != [] {
      assert m.Fits(q[0]) && !WritesScratch(q[0]);
      SameShapeFits(m, m.Step(q[0]), q[1..]);
      DrainedWithoutDownloads(m.Step(q[0]), q[1..]);
    }
  }

  class Engine {
    var mem: Mem
    var queue: seq<RowCopy>

    constructor (mem: Mem)
      ensures this.mem == mem && queue == []
    {
      this.mem, queue := mem, [];
    }

    ghost predicate Valid()
      reads this
    {
      mem.AllFit(queue)
    }

    /** The memory the GPU will have produced once it is idle. */
    ghost function Final(): Mem
      reads this
      requires Valid()
    {
      Drained(mem, queue)
    }

    /** A fresh buffer with anything in it. Buffers are handed out when nothing queued refers to them
        any more, so each is memory of its own. */
    method Take(total: nat) returns (start: nat)
      requires Valid()
      modifies `mem
      ensures Valid() && start == |old(mem).scratch| && |mem.scratch| == start + total && mem.vram == old(mem).vram
      ensures Final().vram == old(Final()).vram && AllMiss(queue, start, total)
    {
      start := |mem.scratch|;
      assert |seq(total, i => 0 as Byte)| == total;
      var bytes: seq<Byte> :| |bytes| == total;
      FreshMissed(mem, queue, total);
      DrainedGrown(mem, queue, bytes);
      mem := mem.(scratch := mem.scratch + bytes);
    }

    /** The GPU may run any part of its queue at any moment. */
    method MayRun()
      requires Valid()
      modifies this
      ensures Valid() && Final() == old(Final()) && SameShape(old(mem), mem)
      ensures |queue| <= |old(queue)| && queue == old(queue)[|old(queue)| - |queue|..]
      ensures NoDownloads(old(queue)) ==> NoDownloads(queue) && mem.scratch == old(mem).scratch
    {
      var k :| 0 <= k <= |queue|;
      assert queue == queue[..k] + queue[k..];
      DrainedAppend(mem, queue[..k], queue[k..]);
      if NoDownloads(queue) {
        DrainedWithoutDownloads(mem, queue[..k]);
      }
      mem, queue := Drained(mem, queue[..k]), queue[k..];
    }

    /** Wait until the queue is empty. */
    method Idle()
      requires Valid()
      modifies this
      ensures Valid() && queue == [] && mem == Final() == old(Final())
    {
      mem, queue := Drained(mem, queue), [];
    }

    method Submit(batch: seq<RowCopy>)
      requires Valid() && mem.AllFit(batch)
      modifies this`queue
      ensures Valid() && queue == old(queue) + batch
      ensures old(Final()).AllFit(batch) && Final() == Drained(old(Final()), batch)
    {
      assert mem.AllFit(queue + batch);
      DrainedAppend(mem, queue, batch);
      queue := queue + batch;
    }

    /** A CPU copy into the scratch buffer: no queued copy may touch the bytes. */
    method CpuWrite(at: nat, data: seq<Byte>)
      requires Valid() && at + |data| <= |mem.scratch| && AllMiss(queue, at, |data|)
      modifies this`mem
      ensures Valid() && mem == old(mem).(scratch := Splice(old(mem).scratch, at, data))
      ensures Final() == old(Final()).(scratch := Splice(old(Final()).scratch, at, data))
    {
      DrainedAfterWrite(mem, queue, at, data);
      mem := mem.(scratch := Splice(mem.scratch, at, data));
    }

    /** A CPU copy out of the scratch buffer: no queued copy may touch the bytes. */
    method CpuRead(at: nat, n: nat) returns (data: seq<Byte>)
      requires Valid() && at + n <= |mem.scratch| && AllMiss(queue, at, n)
      ensures data == mem.scratch[at..at + n] == Final().scratch[at..at + n]
    {
      DrainedKeeps(mem, queue, at, n);
      data := mem.scratch[at..at + n];
    }
  }
}
