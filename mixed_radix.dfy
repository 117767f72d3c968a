/** Mixed-radix numbers: a combination of cursors, one per set, read as a
    number whose digit i is the index of cursor i and whose radix i is the
    size of set i. Digit 0 (set 0) is the least significant one. */
module MixedRadix {

  /** The number of combinations in the Cartesian product of sets of these sizes. */
  function Product(sizes: seq<nat>): nat
  {
    if |sizes| == 0 then 1 else sizes[0] * Product(sizes[1..])
  }

  /** Every set has at least one element. */
  predicate AllNonEmpty(sizes: seq<nat>)
  {
    forall i :: 0 <= i < |sizes| ==> sizes[i] > 0
  }

  /** One cursor per set, and every cursor refers to an element of its set
      (index below the set's size, so not at the set's end). */
  predicate InRange(c: seq<nat>, sizes: seq<nat>)
  {
    |c| == |sizes| && forall i :: 0 <= i < |c| ==> c[i] < sizes[i]
  }

  /** The number a combination stands for. */
  function Value(c: seq<nat>, sizes: seq<nat>): nat
    requires |c| == |sizes|
  {
    if |c| == 0 then 0 else c[0] + sizes[0] * Value(c[1..], sizes[1..])
  }

  /** The combination that stands for the number v (the digits of v). */
  function Digits(v: nat, sizes: seq<nat>): (c: seq<nat>)
    requires AllNonEmpty(sizes)
    ensures InRange(c, sizes)
    decreases |sizes|
  {
    if |sizes| == 0 then []
    else
      NonEmptyTail(sizes);
      [v % sizes[0]] + Digits(v / sizes[0], sizes[1..])
  }

  lemma NonEmptyTail(sizes: seq<nat>)
    requires AllNonEmpty(sizes) && |sizes| > 0
    ensures AllNonEmpty(sizes[1..])
  {
    forall i | 0 <= i < |sizes| - 1 ensures sizes[1..][i] > 0 {
      assert sizes[1..][i] == sizes[i + 1];
    }
  }

  lemma InRangeTail(c: seq<nat>, sizes: seq<nat>)
    requires InRange(c, sizes) && |c| > 0
    ensures InRange(c[1..], sizes[1..])
  {
    forall i | 0 <= i < |c| - 1 ensures c[1..][i] < sizes[1..][i] {
      assert c[1..][i] == c[i + 1];
    }
  }

  /** A product of non-empty sets is non-empty. */
  lemma {:induction false} ProductPositive(sizes: seq<nat>)
    requires AllNonEmpty(sizes)
    ensures Product(sizes) > 0
  {
    if |sizes| > 0 {
      ProductPositive(sizes[1..]);
    }
  }

  /** Every in-range combination stands for a number below the product. */
  lemma {:induction false} ValueBound(c: seq<nat>, sizes: seq<nat>)
    requires InRange(c, sizes)
    ensures Value(c, sizes) < Product(sizes)
  {
    if |c| > 0 {
      InRangeTail(c, sizes);
      ValueBound(c[1..], sizes[1..]);
      var n, v, p := sizes[0], Value(c[1..], sizes[1..]), Product(sizes[1..]);
      MulMonotone(n, v, p - 1);
      assert n * (p - 1) == n * p - n;
    }
  }

  /** Digits and Value are inverse: reading back the digits of v gives v. */
  lemma {:induction false} ValueOfDigits(v: nat, sizes: seq<nat>)
    requires AllNonEmpty(sizes) && v < Product(sizes)
    ensures Value(Digits(v, sizes), sizes) == v
    decreases |sizes|
  {
    if |sizes| > 0 {
      NonEmptyTail(sizes);
      var n, p := sizes[0], Product(sizes[1..]);
      var q, r := v / n, v % n;
      assert v == n * q + r;
      if q >= p {
        MulMonotone(n, p, q);
        assert false;
      }
      ValueOfDigits(q, sizes[1..]);
      var c := Digits(v, sizes);
      assert c[0] == r && c[1..] == Digits(q, sizes[1..]);
      assert Value(c, sizes) == r + n * Value(c[1..], sizes[1..]);
    }
  }

  /** Value and Digits are inverse: the digits of a combination's number are
      the combination itself, so no two in-range combinations share a number. */
  lemma {:induction false} DigitsOfValue(c: seq<nat>, sizes: seq<nat>)
    requires InRange(c, sizes)
    ensures AllNonEmpty(sizes) && Digits(Value(c, sizes), sizes) == c
  {
    if |c| > 0 {
      InRangeTail(c, sizes);
      DigitsOfValue(c[1..], sizes[1..]);
      DivModOf(c[0], sizes[0], Value(c[1..], sizes[1..]));
    }
  }

  /** Two in-range combinations are equal exactly when their numbers are. */
  lemma ValueInjective(c: seq<nat>, d: seq<nat>, sizes: seq<nat>)
    requires InRange(c, sizes) && InRange(d, sizes)
    ensures Value(c, sizes) == Value(d, sizes) <==> c == d
  {
    DigitsOfValue(c, sizes);
    DigitsOfValue(d, sizes);
  }

  lemma MulMonotone(n: nat, a: nat, b: nat)
    requires a <= b
    ensures n * a <= n * b
  {
    assert n * b - n * a == n * (b - a);
  }

  lemma DivModOf(r: nat, n: nat, q: nat)
    requires r < n
    ensures (r + n * q) / n == q && (r + n * q) % n == r
  {
    var x := r + n * q;
    var d, m := x / n, x % n;
    assert x == n * d + m;
    if d < q {
      MulMonotone(n, d + 1, q);
      assert false;
    } else if d > q {
      MulMonotone(n, q + 1, d);
      assert false;
    }
  }
}
