/** The odometer step of next_combination and the all-begin combination of
    first_combination, as functions on index combinations, with what they
    promise: bounds are kept, a successful step adds one to the combination's
    mixed-radix number, an exhausted step wraps to the all-begin combination,
    and a sweep from the first combination visits every combination once. */
module Odometer {
  import opened MixedRadix

  /** What one call of next_combination reports and the combination it leaves. */
  datatype Step = Step(more: bool, comb: seq<nat>)

  /** The all-begin combination: cursor i at the first element of set i. */
  function Start(sizes: seq<nat>): seq<nat>
  {
    seq(|sizes|, _ => 0)
  }

  /** The number of leading cursors that sit on their set's last element,
      that is, the index of the first cursor that can step without
      reaching its set's end (or |c| when there is none). */
  function Carries(c: seq<nat>, sizes: seq<nat>): (j: nat)
    requires |c| == |sizes|
    ensures j <= |c|
    ensures forall i :: 0 <= i < j ==> c[i] + 1 == sizes[i]
    ensures j < |c| ==> c[j] + 1 != sizes[j]
  {
    if |c| == 0 || c[0] + 1 != sizes[0] then 0 else 1 + Carries(c[1..], sizes[1..])
  }

  /** One call of next_combination: step cursor 0; if it reaches its set's
      end, put it back at begin and carry into cursor 1, and so on. */
  function Next(c: seq<nat>, sizes: seq<nat>): (s: Step)
    requires InRange(c, sizes)
    ensures InRange(s.comb, sizes)
    ensures !s.more ==> s.comb == Start(sizes)
  {
    if |c| == 0 then Step(false, [])
    else if c[0] + 1 != sizes[0] then Step(true, [c[0] + 1] + c[1..])
    else
      InRangeTail(c, sizes);
      var rest := Next(c[1..], sizes[1..]);
      Step(rest.more, [0] + rest.comb)
  }

  /** The all-begin combination stands for 0, and it is in range exactly
      when no set is empty. */
  lemma StartFacts(sizes: seq<nat>)
    ensures |Start(sizes)| == |sizes|
    ensures Value(Start(sizes), sizes) == 0
    ensures InRange(Start(sizes), sizes) <==> AllNonEmpty(sizes)
  {
    StartValue(sizes);
  }

  lemma {:induction false} StartValue(sizes: seq<nat>)
    ensures Value(Start(sizes), sizes) == 0
  {
    if |sizes| > 0 {
      StartValue(sizes[1..]);
      assert Start(sizes)[1..] == Start(sizes[1..]);
    }
  }

  /** The shape of a step: the carried cursors are back at begin; the step
      succeeds exactly when some cursor could advance, and then that cursor
      advanced by one and every later cursor is unchanged. */
  lemma NextShape(c: seq<nat>, sizes: seq<nat>)
    requires InRange(c, sizes)
    ensures var s, j := Next(c, sizes), Carries(c, sizes);
      && |s.comb| == |c|
      && (s.more <==> j < |c|)
      && (forall i :: 0 <= i < j ==> s.comb[i] == 0)
      && (s.more ==> s.comb[j] == c[j] + 1 < sizes[j])
      && (s.more ==> forall i :: j < i < |c| ==> s.comb[i] == c[i])
  {
    NextCarried(c, sizes);
    NextAdvanced(c, sizes);
    NextKeepsAbove(c, sizes);
  }

  /** The cursors a step carries through are back at begin, and the step
      reports exhaustion exactly when it carried through every cursor. */
  lemma {:induction false} NextCarried(c: seq<nat>, sizes: seq<nat>)
    requires InRange(c, sizes)
    ensures var s, j := Next(c, sizes), Carries(c, sizes);
      && (s.more <==> j < |c|)
      && (forall i :: 0 <= i < j ==> s.comb[i] == 0)
  {
    if |c| > 0 && c[0] + 1 == sizes[0] {
      InRangeTail(c, sizes);
      NextCarried(c[1..], sizes[1..]);
      var s, rest := Next(c, sizes), Next(c[1..], sizes[1..]);
      var j := Carries(c, sizes);
      forall i | 0 < i < j ensures s.comb[i] == 0 {
        assert s.comb[i] == rest.comb[i - 1];
      }
    }
  }

  /** A successful step advanced the first cursor that was not carried
      through by one. */
  lemma {:induction false} NextAdvanced(c: seq<nat>, sizes: seq<nat>)
    requires InRange(c, sizes)
    ensures var s, j := Next(c, sizes), Carries(c, sizes);
      s.more ==> j < |c| && s.comb[j] == c[j] + 1
  {
    if |c| > 0 && c[0] + 1 == sizes[0] {
      InRangeTail(c, sizes);
      NextAdvanced(c[1..], sizes[1..]);
      var s, rest := Next(c, sizes), Next(c[1..], sizes[1..]);
      if s.more {
        var j, j' := Carries(c, sizes), Carries(c[1..], sizes[1..]);
        assert j == j' + 1;
        assert s.comb[j] == rest.comb[j'];
        assert c[j] == c[1..][j'];
      }
    }
  }

  /** A successful step leaves every cursor after the advanced one alone. */
  lemma {:induction false} NextKeepsAbove(c: seq<nat>, sizes: seq<nat>)
    requires InRange(c, sizes)
    ensures var s, j := Next(c, sizes), Carries(c, sizes);
      s.more ==> forall i :: j < i < |c| ==> s.comb[i] == c[i]
  {
    if |c| > 0 && c[0] + 1 == sizes[0] {
      InRangeTail(c, sizes);
      NextKeepsAbove(c[1..], sizes[1..]);
      var s := Next(c, sizes);
      if s.more {
        var j := Carries(c, sizes);
        assert j == Carries(c[1..], sizes[1..]) + 1;
        TailShift(s.comb, c, j);
      }
    }
  }

  lemma TailShift(a: seq<nat>, c: seq<nat>, j: nat)
    requires |a| == |c| && 0 < j
    requires forall i :: j - 1 < i < |c| - 1 ==> a[1..][i] == c[1..][i]
    ensures forall i :: j < i < |c| ==> a[i] == c[i]
  {
    forall i | j < i < |c| ensures a[i] == c[i] {
      assert a[1..][i - 1] == c[1..][i - 1];
    }
  }

  /** Read as mixed-radix numbers, a successful step maps v to v + 1 and
      an exhausted step maps the largest number, product - 1, to 0. */
  lemma {:induction false} NextSuccessor(c: seq<nat>, sizes: seq<nat>)
    requires InRange(c, sizes)
    ensures var s := Next(c, sizes);
      && (s.more <==> Value(c, sizes) + 1 < Product(sizes))
      && (s.more ==> Value(s.comb, sizes) == Value(c, sizes) + 1)
      && (!s.more ==> Value(s.comb, sizes) == 0 && Value(c, sizes) + 1 == Product(sizes))
  {
    if |c| > 0 {
      InRangeTail(c, sizes);
      ValueBound(c[1..], sizes[1..]);
      var s := Next(c, sizes);
      var n, v, p := sizes[0], Value(c[1..], sizes[1..]), Product(sizes[1..]);
      if c[0] + 1 != sizes[0] {
        assert s.comb[1..] == c[1..];
        NoCarryBound(c[0], n, v, p);
      } else {
        NextSuccessor(c[1..], sizes[1..]);
        var rest := Next(c[1..], sizes[1..]);
        assert s.comb[1..] == rest.comb;
        CarryValue(n, v, p);
      }
    }
  }

  lemma NoCarryBound(d: nat, n: nat, v: nat, p: nat)
    requires d + 1 < n && v < p
    ensures d + 1 + n * v < n * p
  {
    MulMonotone(n, v, p - 1);
    assert n * (p - 1) == n * p - n;
  }

  lemma CarryValue(n: nat, v: nat, p: nat)
    requires 0 < n && v < p
    ensures n - 1 + n * v + 1 == n * (v + 1)
    ensures v + 1 < p <==> n * (v + 1) < n * p
    ensures v + 1 == p ==> n * (v + 1) == n * p
  {
    if v + 1 < p {
      MulMonotone(n, v + 2, p);
    }
  }

  /** Carry pattern: cursor 0 changes on every call exactly when set 0 has
      more than one element (over a one-element set it is stepped to the end
      and put back at begin), and a later cursor changes only when every
      cursor before it sat on its set's last element. */
  lemma {:induction false} CarryPattern(c: seq<nat>, sizes: seq<nat>)
    requires InRange(c, sizes)
    ensures var s := Next(c, sizes);
      && (|c| > 0 ==> (s.comb[0] != c[0] <==> sizes[0] > 1))
      && (forall i :: 0 < i < |c| && s.comb[i] != c[i] ==>
            forall k :: 0 <= k < i ==> c[k] + 1 == sizes[k])
  {
    NextShape(c, sizes);
  }

  /** The k-th combination visited when next_combination is called over and
      over from the all-begin combination of non-empty sets. */
  function Visit(sizes: seq<nat>, k: nat): (c: seq<nat>)
    requires AllNonEmpty(sizes)
    ensures InRange(c, sizes)
  {
    if k == 0 then
      StartFacts(sizes);
      Start(sizes)
    else
      Next(Visit(sizes, k - 1), sizes).comb
  }

  /** The sweep counts: the k-th visited combination is the combination of
      number k, for every k below the product of the set sizes. */
  lemma {:induction false} SweepInOrder(sizes: seq<nat>, k: nat)
    requires AllNonEmpty(sizes) && k < Product(sizes)
    ensures Value(Visit(sizes, k), sizes) == k
    ensures Visit(sizes, k) == Digits(k, sizes)
  {
    if k == 0 {
      StartFacts(sizes);
    } else {
      SweepInOrder(sizes, k - 1);
      NextSuccessor(Visit(sizes, k - 1), sizes);
    }
    DigitsOfValue(Visit(sizes, k), sizes);
  }

  /** Full sweep count: along the sweep next_combination returns true for
      the first product - 1 calls and false on the next, which leaves the
      all-begin combination again. */
  lemma SweepReturns(sizes: seq<nat>, k: nat)
    requires AllNonEmpty(sizes) && k < Product(sizes)
    ensures Next(Visit(sizes, k), sizes).more <==> k + 1 < Product(sizes)
    ensures k + 1 == Product(sizes) ==> Next(Visit(sizes, k), sizes).comb == Start(sizes)
  {
    SweepInOrder(sizes, k);
    NextSuccessor(Visit(sizes, k), sizes);
  }

  /** No combination is visited twice before the sweep ends. */
  lemma SweepDistinct(sizes: seq<nat>, i: nat, j: nat)
    requires AllNonEmpty(sizes) && i < j < Product(sizes)
    ensures Visit(sizes, i) != Visit(sizes, j)
  {
    SweepInOrder(sizes, i);
    SweepInOrder(sizes, j);
  }

  /** Every in-range combination is visited: the one of number v at step v. */
  lemma SweepComplete(c: seq<nat>, sizes: seq<nat>)
    requires InRange(c, sizes)
    ensures AllNonEmpty(sizes) && Value(c, sizes) < Product(sizes)
    ensures Visit(sizes, Value(c, sizes)) == c
  {
    ValueBound(c, sizes);
    DigitsOfValue(c, sizes);
    SweepInOrder(sizes, Value(c, sizes));
  }

  /** The first k + 1 combinations of a sweep, followed by the next one,
      are the first k + 2. */
  lemma VisitedExtend(sizes: seq<nat>, seen: seq<seq<nat>>, c: seq<nat>)
    requires AllNonEmpty(sizes)
    requires forall k :: 0 <= k < |seen| ==> seen[k] == Visit(sizes, k)
    requires c == Visit(sizes, |seen|)
    ensures forall k :: 0 <= k < |seen| + 1 ==> (seen + [c])[k] == Visit(sizes, k)
  {
  }

  /** The combinations of a whole sweep, in the order visited, are the
      combinations of numbers 0, 1, ..., product - 1, all different. */
  lemma SweepSeen(sizes: seq<nat>, seen: seq<seq<nat>>)
    requires AllNonEmpty(sizes) && |seen| == Product(sizes)
    requires forall k :: 0 <= k < |seen| ==> seen[k] == Visit(sizes, k)
    ensures forall k :: 0 <= k < |seen| ==> seen[k] == Digits(k, sizes)
    ensures forall i, j :: 0 <= i < j < |seen| ==> seen[i] != seen[j]
  {
    forall k | 0 <= k < |seen| ensures seen[k] == Digits(k, sizes) {
      SweepInOrder(sizes, k);
    }
    forall i, j | 0 <= i < j < |seen| ensures seen[i] != seen[j] {
      SweepDistinct(sizes, i, j);
    }
  }
}
