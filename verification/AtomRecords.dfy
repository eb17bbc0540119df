/** Tables of the video BIOS whose records say how long they are. */
module AtomRecords {

  /** The memory from the start of a table on, where its records begin and must end, and where
      in a record its size is: two bytes, low byte first, or one. */
  datatype Table = Table(bytes: nat -> nat, first: nat, limit: nat, field: nat, wide: bool)

  function U16(bytes: nat -> nat, p: nat): nat {
    bytes(p) % 256 + 256 * (bytes(p + 1) % 256)
  }

  /** The memory modules: the records end where the adjustment table begins. */
  function VramInfoV3(bytes: nat -> nat): Table {
    Table(bytes, 20, U16(bytes, 4), 4, true)
  }

  /** The voltage objects: the records end where the table ends. */
  function VoltageObjectInfo(bytes: nat -> nat): Table {
    Table(bytes, 4, U16(bytes, 0), 1, false)
  }

  function SizeAt(t: Table, p: nat): nat {
    if t.wide then U16(t.bytes, p + t.field) else t.bytes(p + t.field) % 256
  }

  /** Where record i starts. */
  function Position(t: Table, i: nat): nat {
    if i == 0 then t.first else Position(t, i - 1) + SizeAt(t, Position(t, i - 1))
  }

  /** The records met on one walk from p on. A record without a size is the last. */
  function Walk(t: Table, p: nat): nat
    decreases if p < t.limit then t.limit - p else 0
  {
    if p >= t.limit then 0 else if SizeAt(t, p) == 0 then 1 else 1 + Walk(t, p + SizeAt(t, p))
  }

  lemma {:induction false} PositionMonotone(t: Table, i: nat, j: nat)
    requires i <= j
    ensures Position(t, i) <= Position(t, j)
    decreases j
  {
    if i < j {
      PositionMonotone(t, i, j - 1);
    }
  }

  method Offset(t: Table, i: int) returns (r: nat)
    ensures r == if i < 0 then t.first else Position(t, i)
  {
    r := t.first;
    var left := i;
    while left > 0
      invariant left <= i && (0 <= i ==> 0 <= left && r == Position(t, i - left)) && (i < 0 ==> r == t.first)
    {
      r := r + SizeAt(t, r);
      left := left - 1;
    }
  }

  /** The record whose start is not the start of the one before. */
  predicate Fresh(t: Table, i: nat) {
    i == 0 || SizeAt(t, Position(t, i - 1)) != 0
  }

  predicate Counted(t: Table, k: nat) {
    Position(t, k) < t.limit && Fresh(t, k)
  }

  /** i records are below the limit, and what is left to count is what a walk from the next one meets. */
  ghost predicate Counting(t: Table, i: nat) {
    && (forall k :: 0 <= k < i ==> Counted(t, k))
    && Walk(t, t.first) == i + if Fresh(t, i) then Walk(t, Position(t, i)) else 0
  }

  lemma OneMoreRecord(t: Table, i: nat)
    requires Counting(t, i) && Counted(t, i)
    ensures Counting(t, i + 1)
    ensures if Fresh(t, i + 1) then Position(t, i + 1) > Position(t, i) else Position(t, i + 1) == Position(t, i)
  {
    assert Position(t, i + 1) == Position(t, i) + SizeAt(t, Position(t, i));
  }

  /** Counting walks from the start again for every record, and still ends whatever the sizes are, with
      the number that one walk gives. */
  method Count(t: Table) returns (i: nat)
    ensures i == Walk(t, t.first)
    ensures forall k :: 0 <= k < i ==> Counted(t, k)
    ensures !Counted(t, i)
  {
    i := 0;
    var last: int := -1;
    var next: nat := Offset(t, i);
    while next < t.limit && next != last
      invariant next == Position(t, i) && (next == last <==> !Fresh(t, i)) && Counting(t, i)
      decreases if next == last then 0 else 1, t.limit - next
    {
      OneMoreRecord(t, i);
      last := next;
      i := i + 1;
      next := Offset(t, i);
    }
  }

  /** The records counted lie one behind the other, below the limit. */
  lemma {:induction false} RecordsInOrder(t: Table, i: nat, j: nat)
    requires i < j < Walk(t, t.first)
    ensures Position(t, i) + SizeAt(t, Position(t, i)) <= Position(t, j) < t.limit && SizeAt(t, Position(t, i)) > 0
  {
    WalkReaches(t, 0, j);
    PositionMonotone(t, i + 1, j);
  }

  lemma {:induction false} WalkReaches(t: Table, from: nat, k: nat)
    requires from <= k < from + Walk(t, Position(t, from))
    ensures Position(t, k) < t.limit
    ensures forall m :: from <= m < k ==> SizeAt(t, Position(t, m)) > 0
    decreases k - from
  {
    if from < k {
      WalkReaches(t, from + 1, k);
    }
  }

  /** A number in memory: two bytes, low byte first, or one. */
  function Number(bytes: nat -> nat, p: nat, wide: bool): nat {
    if wide then bytes(p) + 256 * bytes(p + 1) else bytes(p)
  }

  /** Record k lies right behind record k - 1, whose size is in the byte or the two from `field` on. */
  predicate Follows(starts: seq<nat>, bytes: nat -> nat, field: nat, wide: bool, k: nat)
    requires 0 < k < |starts|
  {
    starts[k] == starts[k - 1] + Number(bytes, starts[k - 1] + field, wide)
    && Number(bytes, starts[k - 1] + field, wide) > 0
  }

  /** These are all the records from `first` to the limit, up to one without a size. */
  ghost predicate AllRecords(starts: seq<nat>, bytes: nat -> nat, field: nat, wide: bool, first: nat, limit: nat) {
    && (forall k :: 0 <= k < |starts| ==> starts[k] < limit)
    && (starts != [] ==> starts[0] == first)
    && (forall k {:trigger Follows(starts, bytes, field, wide, k)} | 0 < k < |starts| ::
          Follows(starts, bytes, field, wide, k))
    && if starts == [] then first >= limit
       else
         var last := starts[|starts| - 1];
         Number(bytes, last + field, wide) == 0 || last + Number(bytes, last + field, wide) >= limit
  }

  /** Where the records counted start. */
  function Starts(t: Table, n: nat): (r: seq<nat>)
    ensures |r| == n && forall k :: 0 <= k < n ==> r[k] == Position(t, k)
  {
    seq(n, k requires 0 <= k < n => Position(t, k))
  }

  ghost predicate Memory(bytes: nat -> nat) {
    forall p :: bytes(p) < 256
  }

  lemma SizeRead(t: Table, p: nat)
    requires Memory(t.bytes)
    ensures SizeAt(t, p) == Number(t.bytes, p + t.field, t.wide)
  {
  }

  lemma NextRecord(t: Table, k: nat)
    requires k > 0 && Memory(t.bytes)
    ensures Position(t, k) == Position(t, k - 1) + Number(t.bytes, Position(t, k - 1) + t.field, t.wide)
    ensures Fresh(t, k) <==> Number(t.bytes, Position(t, k - 1) + t.field, t.wide) > 0
  {
    SizeRead(t, Position(t, k - 1));
  }

  lemma CountedAll(t: Table, n: nat)
    requires Memory(t.bytes) && (forall k :: 0 <= k < n ==> Counted(t, k)) && !Counted(t, n)
    ensures AllRecords(Starts(t, n), t.bytes, t.field, t.wide, t.first, t.limit)
  {
    var starts := Starts(t, n);
    forall k | 0 <= k < n ensures starts[k] < t.limit {
      assert Counted(t, k);
    }
    forall k | 0 < k < n ensures Follows(starts, t.bytes, t.field, t.wide, k) {
      assert Counted(t, k);
      NextRecord(t, k);
    }
    if n > 0 {
      NextRecord(t, n);
    }
  }

  method CountTable(t: Table) returns (n: nat, ghost starts: seq<nat>)
    requires Memory(t.bytes)
    ensures n == |starts| && AllRecords(starts, t.bytes, t.field, t.wide, t.first, t.limit)
  {
    n := Count(t);
    starts := Starts(t, n);
    CountedAll(t, n);
  }

  lemma TablesRead(bytes: nat -> nat)
    requires Memory(bytes)
    ensures VramInfoV3(bytes) == Table(bytes, 20, bytes(4) + 256 * bytes(5), 4, true)
    ensures VoltageObjectInfo(bytes) == Table(bytes, 4, bytes(0) + 256 * bytes(1), 1, false)
  {
  }

  /** The memory modules of a VRAM table lie from byte 20 to the offset in bytes 4 and 5, low byte first;
      the size of each is in its own bytes 4 and 5. */
  method CountVramModules(bytes: nat -> nat) returns (n: nat, ghost starts: seq<nat>)
    requires Memory(bytes)
    ensures n == |starts| && AllRecords(starts, bytes, 4, true, 20, bytes(4) + 256 * bytes(5))
  {
    TablesRead(bytes);
    n, starts := CountTable(VramInfoV3(bytes));
  }

  /** The objects of a voltage table lie from byte 4 to the length in its first two bytes; the size of each
      is in its byte 1. */
  method CountVoltageObjects(bytes: nat -> nat) returns (n: nat, ghost starts: seq<nat>)
    requires Memory(bytes)
    ensures n == |starts| && AllRecords(starts, bytes, 1, false, 4, bytes(0) + 256 * bytes(1))
  {
    TablesRead(bytes);
    n, starts := CountTable(VoltageObjectInfo(bytes));
  }
}
