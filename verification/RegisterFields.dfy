/** Registers made of bit fields: how the emitters put them together, and what the GPU reads. */
module RegisterFields {
  import opened Arith

  /** A value in so many bits from a bit on. */
  datatype Field = Field(shift: nat, width: nat, value: nat)

  function Bit(b: bool): nat {
    if b then 1 else 0
  }

  /** The fields shifted to their places and put together. */
  function Packed(fs: seq<Field>): nat {
    if fs == [] then 0
    else
      var f := fs[|fs| - 1];
      Packed(fs[..|fs| - 1]) + f.value * Pow2(f.shift)
  }

  /** How the GPU reads a field. */
  function Extract(word: nat, shift: nat, width: nat): nat {
    word / Pow2(shift) % Pow2(width)
  }

  /** Every value fits its field. */
  ghost predicate InRange(fs: seq<Field>) {
    forall i :: 0 <= i < |fs| ==> fs[i].value < Pow2(fs[i].width)
  }

  /** The fields lie one after the other, all of them in 32 bits. */
  ghost predicate Apart(fs: seq<Field>) {
    && (forall i :: 0 <= i < |fs| - 1 ==> fs[i].shift + fs[i].width <= fs[i + 1].shift)
    && (fs != [] ==> fs[|fs| - 1].shift + fs[|fs| - 1].width <= 32)
  }

  type Layout = fs: seq<Field> | Apart(fs) witness []

  /** Every field is read as it was put in. */
  ghost predicate ReadsBack(word: nat, fs: seq<Field>) {
    forall i :: 0 <= i < |fs| ==> Extract(word, fs[i].shift, fs[i].width) == fs[i].value
  }

  lemma Pow2Of32()
    ensures Pow2(32) == 0x1_0000_0000
  {
    assert Pow2(8) == 256;
    Pow2Sum(8, 8);
    Pow2Sum(16, 16);
  }

  /** A value on top of the bits below stays below the next bit. */
  lemma Stacked(low: nat, value: nat, shift: nat, width: nat)
    requires low < Pow2(shift) && value < Pow2(width)
    ensures low + value * Pow2(shift) < Pow2(shift + width)
  {
    Pow2Sum(shift, width);
    assert value * Pow2(shift) + Pow2(shift) == (value + 1) * Pow2(shift);
    assert (value + 1) * Pow2(shift) <= Pow2(width) * Pow2(shift) by {
      MultiplyKeeps(value + 1, Pow2(width), Pow2(shift));
    }
  }

  lemma MultiplyKeeps(a: nat, b: nat, m: nat)
    requires a <= b
    ensures a * m <= b * m
  {
  }

  /** Without its last field a word is still well laid out, and lies below that field. */
  lemma {:induction false} Front(fs: seq<Field>)
    requires InRange(fs) && Apart(fs) && fs != []
    ensures InRange(fs[..|fs| - 1]) && Apart(fs[..|fs| - 1])
    ensures forall i :: 0 <= i < |fs| - 1 ==> fs[i].shift + fs[i].width <= fs[|fs| - 1].shift
    decreases |fs|
  {
    var n := |fs| - 1;
    if n > 0 {
      var front := fs[..n];
      assert fs[n - 1].shift + fs[n - 1].width <= fs[n - 1 + 1].shift;
      Front(front);
      assert forall i :: 0 <= i < n - 1 ==> front[i] == fs[i];
    }
  }

  lemma {:induction false} PackedBelow(fs: seq<Field>)
    requires InRange(fs) && Apart(fs)
    ensures fs == [] ==> Packed(fs) == 0
    ensures fs != [] ==> Packed(fs) < Pow2(fs[|fs| - 1].shift + fs[|fs| - 1].width)
    decreases |fs|, 1
  {
    if fs != [] {
      var n, f := |fs| - 1, fs[|fs| - 1];
      FrontBelow(fs);
      Stacked(Packed(fs[..n]), f.value, f.shift, f.width);
    }
  }

  lemma {:induction false} FrontBelow(fs: seq<Field>)
    requires InRange(fs) && Apart(fs) && fs != []
    ensures Packed(fs[..|fs| - 1]) < Pow2(fs[|fs| - 1].shift)
    decreases |fs|, 0
  {
    var n := |fs| - 1;
    Front(fs);
    PackedBelow(fs[..n]);
    if n > 0 {
      Pow2Monotone(fs[n - 1].shift + fs[n - 1].width, fs[n].shift);
    }
  }

  /** What is added from a bit on does not reach a field below it. */
  lemma BelowUntouched(low: nat, value: nat, top: nat, shift: nat, width: nat)
    requires shift + width <= top
    ensures Extract(low + value * Pow2(top), shift, width) == Extract(low, shift, width)
  {
    var rest := top - shift - width;
    Pow2Sum(shift, width);
    Pow2Sum(shift + width, rest);
    MultipleAbove(low, value, Pow2(shift), Pow2(width), Pow2(rest));
  }

  lemma MultipleAbove(low: nat, value: nat, s: nat, w: nat, k: nat)
    requires s > 0 && w > 0
    ensures (low + value * ((s * w) * k)) / s % w == low / s % w
  {
    Regroup(value, s, w, k);
    Shifted(low, s, value * k * w);
    Wrapped(low / s, w, value * k);
  }

  lemma Regroup(a: nat, b: nat, c: nat, d: nat)
    ensures a * ((b * c) * d) == (a * d * c) * b
  {
  }

  lemma Shifted(low: nat, s: nat, high: nat)
    requires s > 0
    ensures (low + high * s) / s == low / s + high
  {
    assert low + high * s == (low / s + high) * s + low % s;
    DivUnique(low + high * s, s, low / s + high, low % s);
  }

  lemma Wrapped(q: nat, w: nat, high: nat)
    requires w > 0
    ensures (q + high * w) % w == q % w
  {
    assert q + high * w == (q / w + high) * w + q % w;
    DivUnique(q + high * w, w, q / w + high, q % w);
  }

  lemma TopRead(low: nat, f: Field)
    requires low < Pow2(f.shift) && f.value < Pow2(f.width)
    ensures Extract(low + f.value * Pow2(f.shift), f.shift, f.width) == f.value
  {
    DivUnique(low + f.value * Pow2(f.shift), Pow2(f.shift), f.value, low);
    DivUnique(f.value, Pow2(f.width), 0, f.value);
  }

  lemma PackedLast(fs: seq<Field>) returns (low: nat, f: Field)
    requires InRange(fs) && Apart(fs) && fs != []
    ensures f == fs[|fs| - 1] && low == Packed(fs[..|fs| - 1]) && Packed(fs) == low + f.value * Pow2(f.shift)
    ensures low < Pow2(f.shift) && f.value < Pow2(f.width)
  {
    low, f := Packed(fs[..|fs| - 1]), fs[|fs| - 1];
    FrontBelow(fs);
  }

  lemma {:induction false} FieldRead(fs: seq<Field>, i: nat)
    requires InRange(fs) && Apart(fs) && i < |fs|
    ensures Extract(Packed(fs), fs[i].shift, fs[i].width) == fs[i].value
    decreases |fs|
  {
    var low, f := PackedLast(fs);
    if i == |fs| - 1 {
      TopRead(low, f);
    } else {
      Front(fs);
      FieldRead(fs[..|fs| - 1], i);
      BelowUntouched(low, f.value, f.shift, fs[i].shift, fs[i].width);
    }
  }

  /** A well laid out word has 32 bits, and every field of it is read as it was put in. */
  lemma PackedReads(fs: seq<Field>)
    requires InRange(fs) && Apart(fs)
    ensures Packed(fs) < 0x1_0000_0000 && ReadsBack(Packed(fs), fs)
  {
    PackedBelow(fs);
    Pow2Of32();
    if fs != [] {
      Pow2Monotone(fs[|fs| - 1].shift + fs[|fs| - 1].width, 32);
    }
    forall i | 0 <= i < |fs| ensures Extract(Packed(fs), fs[i].shift, fs[i].width) == fs[i].value {
      FieldRead(fs, i);
    }
  }
}
