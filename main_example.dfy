/** The three sets of the demonstration program and the order in which a
    forward sweep from first_combination visits their combinations. */
module MainExample {
  import opened MixedRadix
  import opened Odometer

  /** The demonstration program's sets, set 0 first. */
  const Data: seq<seq<int>> := [[2, 4], [1, 3, 8], [7, 5]]

  /** The elements of the forward sweep's combinations, in visiting order. */
  const Forward: seq<seq<int>> := [
    [2, 1, 7], [4, 1, 7], [2, 3, 7], [4, 3, 7], [2, 8, 7], [4, 8, 7],
    [2, 1, 5], [4, 1, 5], [2, 3, 5], [4, 3, 5], [2, 8, 5], [4, 8, 5]]

  function Sizes(sets: seq<seq<int>>): seq<nat>
  {
    seq(|sets|, i requires 0 <= i < |sets| => |sets[i]|)
  }

  /** The elements a combination's cursors refer to, set by set. */
  function Deref(sets: seq<seq<int>>, c: seq<nat>): (elems: seq<int>)
    requires InRange(c, Sizes(sets))
    ensures |elems| == |sets|
    ensures forall i :: 0 <= i < |elems| ==> elems[i] in sets[i]
  {
    seq(|c|, i requires 0 <= i < |c| => sets[i][c[i]])
  }

  /** The sweep over the demonstration sets visits their 12 combinations in
      this order: 11 calls of next_combination return true, the 12th returns
      false and leaves the first combination. */
  lemma ForwardSweep()
    ensures Sizes(Data) == [2, 3, 2] && Product(Sizes(Data)) == 12
    ensures forall k :: 0 <= k < 12 ==> Deref(Data, Visit(Sizes(Data), k)) == Forward[k]
    ensures forall k :: 0 <= k < 11 ==> Next(Visit(Sizes(Data), k), Sizes(Data)).more
    ensures !Next(Visit(Sizes(Data), 11), Sizes(Data)).more
  {
    var sizes := Sizes(Data);
    assert sizes == [2, 3, 2];
    assert Product([2, 3, 2]) == 12;
    forall k | 0 <= k < 12
      ensures Deref(Data, Visit(sizes, k)) == Forward[k]
      ensures Next(Visit(sizes, k), sizes).more <==> k < 11
    {
      SweepInOrder(sizes, k);
      SweepReturns(sizes, k);
      DigitsOfThree(k, sizes);
      ForwardEntry(k);
    }
  }

  lemma DigitsOfThree(k: nat, sizes: seq<nat>)
    requires sizes == [2, 3, 2]
    ensures Digits(k, sizes) == [k % 2, k / 2 % 3, k / 2 / 3 % 2]
  {
    assert sizes[1..] == [3, 2] && [3, 2][1..] == [2] && [2][1..] == [];
    assert Digits(k / 2 / 3, [2]) == [k / 2 / 3 % 2] + Digits(k / 2 / 3 / 2, []);
    assert Digits(k / 2, [3, 2]) == [k / 2 % 3] + Digits(k / 2 / 3, [2]);
    assert Digits(k, sizes) == [k % 2] + Digits(k / 2, [3, 2]);
  }

  lemma ForwardEntry(k: nat)
    requires k < 12
    ensures Forward[k] == [Data[0][k % 2], Data[1][k / 2 % 3], Data[2][k / 2 / 3 % 2]]
  {
  }
}
