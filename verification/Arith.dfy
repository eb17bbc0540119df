/** The few facts about division that the solver does not find by itself. */
module Arith {

  function Min(a: int, b: int): int { if a < b then a else b }

  function Pow2(k: nat): (r: nat)
    ensures r > 0
  {
    if k == 0 then 1 else 2 * Pow2(k - 1)
  }

  lemma {:induction false} Pow2Sum(a: nat, b: nat)
    ensures Pow2(a + b) == Pow2(a) * Pow2(b)
    decreases b
  {
    if b > 0 {
      Pow2Sum(a, b - 1);
      assert Pow2(a) * Pow2(b) == 2 * (Pow2(a) * Pow2(b - 1));
    }
  }

  lemma {:induction false} Pow2Monotone(a: nat, b: nat)
    requires a <= b
    ensures Pow2(a) <= Pow2(b)
    decreases b
  {
    if a < b {
      Pow2Monotone(a, b - 1);
    }
  }

  /** rows * pitch, by the steps a pointer takes over that many rows. */
  function Span(rows: nat, pitch: nat): nat {
    if rows == 0 then 0 else Span(rows - 1, pitch) + pitch
  }

  lemma {:induction false} SpanIs(rows: nat, pitch: nat)
    ensures Span(rows, pitch) == rows * pitch
    decreases rows
  {
    if rows > 0 {
      SpanIs(rows - 1, pitch);
      assert rows * pitch == (rows - 1) * pitch + pitch;
    }
  }

  lemma {:induction false} SpanMonotone(a: nat, b: nat, pitch: nat)
    requires a <= b
    ensures Span(a, pitch) <= Span(b, pitch)
    decreases b
  {
    if a < b {
      SpanMonotone(a, b - 1, pitch);
    }
  }

  lemma {:induction false} SpanSum(a: nat, b: nat, pitch: nat)
    ensures Span(a + b, pitch) == Span(a, pitch) + Span(b, pitch)
    decreases b
  {
    if b > 0 {
      SpanSum(a, b - 1, pitch);
    }
  }

  lemma MultipleAtLeast(d: int, b: nat)
    ensures d >= 1 ==> d * b >= b
    ensures d <= -1 ==> d * b + b <= 0
  {
  }

  /** Quotient and remainder are the only way to write a as q * b + r with r below b. */
  lemma DivUnique(a: int, b: nat, q: int, r: nat)
    requires b > 0 && a == q * b + r && r < b
    ensures a / b == q && a % b == r
  {
    var d := a / b - q;
    assert d * b == r - a % b by {
      assert a == (a / b) * b + a % b;
    }
    MultipleAtLeast(d, b);
  }

  /** Stepping on from c without passing a multiple of m. */
  lemma ModStep(c: int, i: nat, m: nat)
    requires m > 0 && c % m + i < m
    ensures (c + i) % m == c % m + i
  {
    DivUnique(c + i, m, c / m, c % m + i);
  }

  /** Stepping on from c to the next multiple of m. */
  lemma ModWrap(c: int, i: nat, m: nat)
    requires m > 0 && c % m + i == m
    ensures (c + i) % m == 0
  {
    assert (c / m + 1) * m == (c / m) * m + m;
    DivUnique(c + i, m, c / m + 1, 0);
  }

  /** A remainder by a multiple of w keeps the remainder by w. */
  lemma ModMod(c: int, w: nat, n: nat, m: nat)
    requires w > 0 && m == w * n && m > 0
    ensures (c % m) % w == c % w
  {
    var r := c % m;
    assert c == (c / m) * (w * n) + r && r == (r / w) * w + r % w;
    assert (c / m) * (w * n) == ((c / m) * n) * w;
    assert ((c / m) * n) * w + (r / w) * w == ((c / m) * n + r / w) * w;
    DivUnique(c, w, (c / m) * n + r / w, r % w);
  }
}
