/** What the card has after some effects: the last value of each register, and the last packet of each kind. */
module Card {
  import opened CommandWords
  import opened Wrappers

  /** What a register was last set to. */
  function RegAfter(log: seq<Effect>, reg: nat): Option<Word> {
    if log == [] then None
    else
      var e := log[|log| - 1];
      if e.Write? && e.reg == reg then Some(e.value) else RegAfter(log[..|log| - 1], reg)
  }

  /** The body of the last packet with an opcode. */
  function LastBody(log: seq<Effect>, op: nat): Option<seq<Word>> {
    if log == [] then None
    else
      var e := log[|log| - 1];
      if e.Command? && e.op == op then Some(e.body) else LastBody(log[..|log| - 1], op)
  }

  lemma OneMore(log: seq<Effect>, e: Effect, reg: nat, op: nat)
    ensures RegAfter(log + [e], reg) == if e.Write? && e.reg == reg then Some(e.value) else RegAfter(log, reg)
    ensures LastBody(log + [e], op) == if e.Command? && e.op == op then Some(e.body) else LastBody(log, op)
  {
    assert (log + [e])[..|log|] == log;
  }

  /** Later effects override earlier ones. */
  lemma {:induction false} RegAfterBoth(a: seq<Effect>, b: seq<Effect>, reg: nat)
    ensures RegAfter(a + b, reg) == if RegAfter(b, reg).Some? then RegAfter(b, reg) else RegAfter(a, reg)
    decreases b
  {
    if b == [] {
      assert a + b == a;
    } else {
      var n := |b| - 1;
      RegAfterBoth(a, b[..n], reg);
      assert (a + b)[..|a| + n] == a + b[..n] && (a + b)[|a| + n] == b[n];
    }
  }

  /** A run sets its registers to its values, and no other. */
  lemma {:induction false} RegAfterRun(first: nat, values: seq<Word>, reg: nat)
    ensures RegAfter(Writes(first, values), reg) ==
            if first <= reg < first + 4 * |values| && (reg - first) % 4 == 0 then Some(values[(reg - first) / 4])
            else None
    decreases values
  {
    if values != [] {
      var n := |values| - 1;
      RegAfterRun(first, values[..n], reg);
      assert Writes(first, values)[..n] == Writes(first, values[..n]);
      assert Writes(first, values)[n] == Write(first + 4 * n, values[n]);
    }
  }
}
