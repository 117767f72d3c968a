/** next_combination and first_combination as the C++ header writes them:
    a loop that updates the combination in place, and a loop that builds
    the all-begin combination one cursor per set. A set is represented by
    its size and a cursor by its index in the set (begin is 0, end is the
    size); the sets themselves are values and are never changed. */
module EnumerateCombinations {
  import opened MixedRadix
  import opened Odometer

  /** Step the combination to the next one, set 0 least significant.
      Returns false, with every cursor back at begin, when the carry
      runs past the last set; otherwise true. */
  method NextCombination(comb: array<nat>, sizes: seq<nat>) returns (more: bool)
    requires InRange(comb[..], sizes)
    modifies comb
    ensures Step(more, comb[..]) == Next(old(comb[..]), sizes)
    ensures InRange(comb[..], sizes)
    ensures !more ==> comb[..] == Start(sizes)
    ensures |sizes| == 0 ==> !more && comb[..] == old(comb[..])
  {
    ghost var c := comb[..];
    var i := 0;
    while i < |sizes|
      invariant 0 <= i <= |sizes|
      invariant forall k :: 0 <= k < i ==> c[k] + 1 == sizes[k] && comb[k] == 0
      invariant forall k :: i <= k < comb.Length ==> comb[k] == c[k]
    {
      comb[i] := comb[i] + 1;
      if comb[i] != sizes[i] {
        NextShape(c, sizes);
        assert Carries(c, sizes) == i;
        assert comb[..] == Next(c, sizes).comb;
        return true;
      }
      comb[i] := 0;
      i := i + 1;
    }
    NextShape(c, sizes);
    assert Carries(c, sizes) == |c|;
    assert comb[..] == Next(c, sizes).comb;
    return false;
  }

  /** The first combination: one cursor per set, in set order, each at its
      set's begin. */
  method FirstCombination(sizes: seq<nat>) returns (comb: seq<nat>)
    ensures |comb| == |sizes|
    ensures forall i :: 0 <= i < |comb| ==> comb[i] == 0
    ensures comb == Start(sizes)
    ensures Value(comb, sizes) == 0
    ensures InRange(comb, sizes) <==> AllNonEmpty(sizes)
  {
    comb := [];
    var i := 0;
    while i < |sizes|
      invariant 0 <= i <= |sizes|
      invariant comb == Start(sizes[..i])
    {
      comb := comb + [0];
      i := i + 1;
    }
    assert sizes[..i] == sizes;
    StartFacts(sizes);
  }

  /** A full sweep over non-empty sets: start from the first combination
      and call NextCombination until it returns false. Returns how many
      calls returned true, the combinations seen (the first one included)
      and the combination left after the final call. */
  method Sweep(sizes: seq<nat>) returns (trues: nat, seen: seq<seq<nat>>, last: seq<nat>)
    requires AllNonEmpty(sizes)
    ensures trues == Product(sizes) - 1
    ensures |seen| == Product(sizes)
    ensures forall k :: 0 <= k < |seen| ==> seen[k] == Digits(k, sizes)
    ensures forall i, j :: 0 <= i < j < |seen| ==> seen[i] != seen[j]
    ensures last == Start(sizes)
  {
    ProductPositive(sizes);
    var first := FirstCombination(sizes);
    var comb := new nat[|first|](i requires 0 <= i < |first| => first[i]);
    assert comb[..] == first;
    trues, seen := 0, [first];
    var more := NextCombination(comb, sizes);
    while more
      invariant trues < Product(sizes)
      invariant |seen| == trues + 1
      invariant forall k :: 0 <= k < |seen| ==> seen[k] == Visit(sizes, k)
      invariant more == Next(Visit(sizes, trues), sizes).more
      invariant comb[..] == Next(Visit(sizes, trues), sizes).comb
      decreases Product(sizes) - trues
    {
      SweepReturns(sizes, trues);
      var cur := comb[..];
      assert cur == Visit(sizes, trues + 1);
      VisitedExtend(sizes, seen, cur);
      trues := trues + 1;
      seen := seen + [cur];
      more := NextCombination(comb, sizes);
    }
    SweepReturns(sizes, trues);
    last := comb[..];
    SweepSeen(sizes, seen);
  }
}
