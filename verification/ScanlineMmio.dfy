/** XAA scanlines by register writes: the words of every line go to the eight host data
    registers, and the very last word of the image to a ninth that ends it. */
module ScanlineMmio {
  import opened Arith
  import opened Wrappers

  const HOST_DATA0 := 0x17c0
  const HOST_DATA7 := 0x17dc
  const HOST_DATA_LAST := 0x17e0

  datatype RegWrite = Write(reg: nat, value: int)

  // ---- What a line should do ----

  /** The line goes to host data registers only, its words in order. */
  ghost predicate CarriesWords(w: seq<RegWrite>, line: seq<int>) {
    |w| == |line| && forall i :: 0 <= i < |line| ==> w[i].value == line[i] && IsHostData(w[i].reg)
  }

  predicate IsHostData(reg: nat) {
    HOST_DATA0 <= reg <= HOST_DATA_LAST && reg % 4 == 0
  }

  /** The register that ends the image is written by the last word and no other. */
  ghost predicate EndsImage(w: seq<RegWrite>) {
    w != [] && forall i :: 0 <= i < |w| ==> (w[i].reg == HOST_DATA_LAST <==> i == |w| - 1)
  }

  ghost predicate EndsLine(w: seq<RegWrite>) {
    w != [] && w[|w| - 1].reg == HOST_DATA7 && forall i :: 0 <= i < |w| ==> w[i].reg != HOST_DATA_LAST
  }

  /** Each register follows the one before it, except that a new group may start after the eighth. */
  ghost predicate InTurn(w: seq<RegWrite>) {
    forall i :: 0 < i < |w| ==> w[i].reg == w[i - 1].reg + 4 || w[i - 1].reg == HOST_DATA7
  }

  /** The register of word i of a line of n: whole groups of eight fill the eight registers in order, and what is left
      is put so that it ends on the eighth, or in the last line on the ninth. */
  function Place(i: nat, n: nat, last: bool): int
    requires i < n
  {
    if i < (n - 1) / 8 * 8 then 0x17c0 + 4 * (i % 8) else (if last then 0x17e0 else 0x17dc) - 4 * (n - 1 - i)
  }

  /** Every word of the line goes out, in order, each to the register of its place. */
  ghost predicate Placed(w: seq<RegWrite>, line: seq<int>, last: bool) {
    |w| == |line| && forall i :: 0 <= i < |line| ==> w[i].reg == Place(i, |line|, last) && w[i].value == line[i]
  }

  ghost predicate LineOk(w: seq<RegWrite>, line: seq<int>, last: bool) {
    CarriesWords(w, line) && InTurn(w) && Placed(w, line, last) && if last then EndsImage(w) else EndsLine(w)
  }

  // ---- The driver ----

  class Scanlines {
    var scanlineH: nat
    var scanlineWords: nat
    var written: seq<RegWrite>

    constructor (h: nat, words: nat)
      ensures scanlineH == h && scanlineWords == words && written == []
    {
      scanlineH, scanlineWords, written := h, words, [];
    }

    method WriteReg(reg: nat, value: int)
      modifies `written
      ensures written == old(written) + [Write(reg, value)]
    {
      written := written + [Write(reg, value)];
    }

    /** Write the registers from `reg` up with the next words of the line. */
    method RegRun(reg: nat, line: seq<int>, p: nat, n: nat)
      requires p + n <= |line|
      modifies `written
      ensures written == old(written) + Run(reg, line[p..p + n])
    {
      var i := 0;
      while i < n
        invariant i <= n && written == old(written) + Run(reg, line[p..p + i])
      {
        WriteReg(reg + 4 * i, line[p + i]);
        assert line[p..p + i + 1] == line[p..p + i] + [line[p + i]];
        RunMore(reg, line[p..p + i], line[p + i]);
        i := i + 1;
      }
    }

    /** One line. */
    method Subsequent(line: seq<int>)
      requires scanlineH > 0 && scanlineWords == |line| > 0
      modifies `scanlineH, `written
      ensures scanlineH == old(scanlineH) - 1
      ensures old(written) <= written && LineOk(written[|old(written)|..], line, scanlineH == 0)
    {
      ghost var before := written;
      var left, p: nat := scanlineWords, 0;
      scanlineH := scanlineH - 1;
      var remainder := if scanlineH != 0 then 8 else 9;
      while left > remainder
        invariant 0 < left && p + left == |line| && p % 8 == 0 && scanlineH == old(scanlineH) - 1
        invariant written == before + Blocks(line[..p])
      {
        RegRun(HOST_DATA0, line, p, 8);
        BlocksMore(line, p, before);
        left, p := left - 8, p + 8;
      }
      Tail(line, p, left, before);
    }

    /** The words that are left, so placed that they end on the right register. */
    method Tail(line: seq<int>, p: nat, left: nat, ghost before: seq<RegWrite>)
      requires p + left == |line| && p % 8 == 0 && 0 < left <= (if scanlineH == 0 then 9 else 8)
      requires written == before + Blocks(line[..p])
      modifies `written
      ensures before <= written && LineOk(written[|before|..], line, scanlineH == 0)
    {
      var reg := if scanlineH != 0 then HOST_DATA7 else HOST_DATA_LAST;
      reg := reg - 4 * (left - 1);
      RegRun(reg, line, p, left);
      assert line[p..p + left] == line[p..];
      TailOk(line, p, reg, scanlineH == 0);
      assert written == before + (Blocks(line[..p]) + Run(reg, line[p..]));
    }
  }

  function Run(reg: nat, words: seq<int>): (r: seq<RegWrite>)
    ensures |r| == |words| && forall i :: 0 <= i < |words| ==> r[i] == Write(reg + 4 * i, words[i])
  {
    seq(|words|, i requires 0 <= i < |words| => Write(reg + 4 * i, words[i]))
  }

  lemma RunMore(reg: nat, words: seq<int>, word: int)
    ensures Run(reg, words) + [Write(reg + 4 * |words|, word)] == Run(reg, words + [word])
  {
  }

  /** Whole blocks of eight words. */
  function Blocks(words: seq<int>): (r: seq<RegWrite>)
    ensures |r| == |words| && forall i :: 0 <= i < |words| ==> r[i] == Write(HOST_DATA0 + 4 * (i % 8), words[i])
  {
    seq(|words|, i requires 0 <= i < |words| => Write(HOST_DATA0 + 4 * (i % 8), words[i]))
  }

  lemma BlocksMore(line: seq<int>, p: nat, before: seq<RegWrite>)
    requires p % 8 == 0 && p + 8 <= |line|
    ensures before + Blocks(line[..p]) + Run(HOST_DATA0, line[p..p + 8]) == before + Blocks(line[..p + 8])
  {
    OneBlock(line, p);
    Associates(before, Blocks(line[..p]), Run(HOST_DATA0, line[p..p + 8]));
  }

  lemma OneBlock(line: seq<int>, p: nat)
    requires p % 8 == 0 && p + 8 <= |line|
    ensures Blocks(line[..p]) + Run(HOST_DATA0, line[p..p + 8]) == Blocks(line[..p + 8])
  {
    var l, r := Blocks(line[..p]) + Run(HOST_DATA0, line[p..p + 8]), Blocks(line[..p + 8]);
    forall i | 0 <= i < p + 8 ensures l[i] == r[i] {
      if i >= p {
        assert i % 8 == i - p;
      }
    }
  }

  /** Word i of a line goes out as part of a block up to p and of the tail after it. */
  ghost predicate Laid(w: seq<RegWrite>, line: seq<int>, p: nat, reg: nat) {
    && |w| == |line|
    && forall i :: 0 <= i < |line| ==>
         w[i] == Write(if i < p then HOST_DATA0 + 4 * (i % 8) else reg + 4 * (i - p), line[i])
  }

  /** Blocks and then a tail that is aligned to the end make a good line. */
  lemma TailOk(line: seq<int>, p: nat, reg: nat, last: bool)
    requires p % 8 == 0 && p < |line| && |line| - p <= (if last then 9 else 8)
    requires reg == (if last then HOST_DATA_LAST else HOST_DATA7) - 4 * (|line| - p - 1)
    ensures LineOk(Blocks(line[..p]) + Run(reg, line[p..]), line, last)
  {
    var w := Blocks(line[..p]) + Run(reg, line[p..]);
    assert Laid(w, line, p, reg);
    LaidCarries(w, line, p, reg, last);
    LaidInTurn(w, line, p, reg);
    forall i | 0 <= i < |line| ensures w[i].reg == Place(i, |line|, last) && w[i].value == line[i] {
      LaidPlace(|line|, p, last, i);
    }
  }

  /** Blocks up to p and a tail behind them are the places of the words. */
  lemma LaidPlace(n: nat, p: nat, last: bool, i: nat)
    requires p % 8 == 0 && p < n && n - p <= (if last then 9 else 8) && i < n
    ensures Place(i, n, last) ==
            if i < p then HOST_DATA0 + 4 * (i % 8) else (if last then HOST_DATA_LAST else HOST_DATA7) - 4 * (n - 1 - i)
  {
    var k := p / 8;
    assert p == 8 * k;
    if n - p == 9 {
      DivUnique(n - 1, 8, k + 1, 0);
      if i >= p && i < p + 8 {
        DivUnique(i, 8, k, i - p);
      }
    } else {
      DivUnique(n - 1, 8, k, n - 1 - p);
    }
  }

  lemma LaidCarries(w: seq<RegWrite>, line: seq<int>, p: nat, reg: nat, last: bool)
    requires Laid(w, line, p, reg) && p < |line| && |line| - p <= (if last then 9 else 8)
    requires reg == (if last then HOST_DATA_LAST else HOST_DATA7) - 4 * (|line| - p - 1)
    ensures CarriesWords(w, line) && if last then EndsImage(w) else EndsLine(w)
  {
    forall i | 0 <= i < |line|
      ensures w[i].value == line[i] && IsHostData(w[i].reg)
      ensures w[i].reg == HOST_DATA_LAST <==> last && i == |line| - 1
    {
      assert 0 <= i % 8 < 8;
    }
    assert w[|line| - 1].reg == if last then HOST_DATA_LAST else HOST_DATA7;
  }

  lemma LaidInTurn(w: seq<RegWrite>, line: seq<int>, p: nat, reg: nat)
    requires Laid(w, line, p, reg) && p % 8 == 0 && p < |line|
    ensures InTurn(w)
  {
    forall i | 0 < i < |w| ensures w[i].reg == w[i - 1].reg + 4 || w[i - 1].reg == HOST_DATA7 {
      NextInGroup(i - 1, p);
    }
  }

  lemma NextInGroup(i: nat, p: nat)
    requires p % 8 == 0
    ensures i % 8 == 7 || (i + 1) % 8 == i % 8 + 1
    ensures i + 1 == p ==> i % 8 == 7
  {
  }

  // ---- A whole image ----

  /** The words of an image, line after line. */
  function Flat(lines: seq<seq<int>>): seq<int> {
    if lines == [] then [] else Flat(lines[..|lines| - 1]) + lines[|lines| - 1]
  }

  /** The writes of all lines. */
  function Joined(parts: seq<seq<RegWrite>>): seq<RegWrite> {
    if parts == [] then [] else Joined(parts[..|parts| - 1]) + parts[|parts| - 1]
  }

  lemma JoinedMore(parts: seq<seq<RegWrite>>, part: seq<RegWrite>)
    ensures Joined(parts + [part]) == Joined(parts) + part
  {
    assert (parts + [part])[..|parts|] == parts;
  }

  /** Every line width and height: the lines go out one after the other, each word to the register of its
      place; so all words go out in order, and the register that ends the image is written once, by the last. */
  method Image(lines: seq<seq<int>>, words: nat) returns (written: seq<RegWrite>, ghost parts: seq<seq<RegWrite>>)
    requires words > 0 && lines != [] && forall k :: 0 <= k < |lines| ==> |lines[k]| == words
    ensures written == Joined(parts) && |parts| == |lines|
    ensures forall k :: 0 <= k < |lines| ==> Placed(parts[k], lines[k], k == |lines| - 1)
    ensures CarriesWords(written, Flat(lines)) && InTurn(written) && EndsImage(written)
  {
    var s := new Scanlines(|lines|, words);
    var k := 0;
    parts := [];
    while k < |lines|
      invariant k <= |lines| && s.scanlineH == |lines| - k && s.scanlineWords == words && fresh(s)
      invariant Partial(s.written, Flat(lines[..k]), k == |lines|)
      invariant s.written == Joined(parts) && |parts| == k
      invariant forall j :: 0 <= j < k ==> Placed(parts[j], lines[j], j == |lines| - 1)
    {
      ghost var part := AddLine(s, lines[k], Flat(lines[..k]));
      JoinedMore(parts, part);
      parts := parts + [part];
      FlatMore(lines, k);
      k := k + 1;
    }
    assert lines[..k] == lines;
    written := s.written;
  }

  lemma FlatMore(lines: seq<seq<int>>, k: nat)
    requires k < |lines|
    ensures Flat(lines[..k + 1]) == Flat(lines[..k]) + lines[k]
  {
    assert lines[..k + 1][..k] == lines[..k];
  }

  method AddLine(s: Scanlines, line: seq<int>, ghost words: seq<int>) returns (ghost part: seq<RegWrite>)
    requires s.scanlineH > 0 && s.scanlineWords == |line| > 0 && Partial(s.written, words, false)
    modifies s
    ensures s.scanlineH == old(s.scanlineH) - 1 && s.scanlineWords == old(s.scanlineWords)
    ensures Partial(s.written, words + line, s.scanlineH == 0)
    ensures s.written == old(s.written) + part && Placed(part, line, s.scanlineH == 0)
  {
    ghost var before := s.written;
    s.Subsequent(line);
    part := s.written[|before|..];
    assert s.written == before + part;
    OneMoreLine(before, s.written[|before|..], words, line, s.scanlineH == 0);
  }

  /** Some lines are out; after the last of them the image has ended. */
  ghost predicate Partial(w: seq<RegWrite>, words: seq<int>, done: bool) {
    && CarriesWords(w, words) && InTurn(w)
    && if done then EndsImage(w) else w == [] || EndsLine(w)
  }

  lemma OneMoreLine(w: seq<RegWrite>, v: seq<RegWrite>, words: seq<int>, line: seq<int>, last: bool)
    requires Partial(w, words, false) && LineOk(v, line, last) && line != []
    ensures Partial(w + v, words + line, last)
  {
    JoinInTurn(w, v);
    JoinCarries(w, v, words, line);
    JoinEnds(w, v, last);
  }

  lemma JoinInTurn(w: seq<RegWrite>, v: seq<RegWrite>)
    requires InTurn(w) && InTurn(v) && (w == [] || w[|w| - 1].reg == HOST_DATA7)
    ensures InTurn(w + v)
  {
    var r := w + v;
    forall i | 0 < i < |r| ensures r[i].reg == r[i - 1].reg + 4 || r[i - 1].reg == HOST_DATA7 {
      if i > |w| {
        assert r[i] == v[i - |w|] && r[i - 1] == v[i - |w| - 1];
      }
    }
  }

  lemma JoinCarries(w: seq<RegWrite>, v: seq<RegWrite>, words: seq<int>, line: seq<int>)
    requires CarriesWords(w, words) && CarriesWords(v, line)
    ensures CarriesWords(w + v, words + line)
  {
  }

  lemma JoinEnds(w: seq<RegWrite>, v: seq<RegWrite>, last: bool)
    requires w == [] || EndsLine(w)
    requires if last then EndsImage(v) else EndsLine(v)
    ensures if last then EndsImage(w + v) else EndsLine(w + v)
  {
    var r := w + v;
    assert r[|r| - 1] == v[|v| - 1];
    forall i | 0 <= i < |r| ensures r[i].reg == HOST_DATA_LAST <==> last && i == |r| - 1 {
      if i < |w| {
        assert r[i] == w[i];
      } else {
        assert r[i] == v[i - |w|];
      }
    }
  }
}
