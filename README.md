# Odometer over a Cartesian product of finite sets

This project models the two routines of `enumerate_combinations.hpp` that step
through the Cartesian product of an ordered sequence of finite sets. A
*combination* holds one cursor per set, and set 0 is the least significant
digit:

- `next_combination` steps the combination to the next one in place. It
  advances cursor 0. If that reaches the end of set 0, it resets the cursor
  to the set's begin (a carry) and tries cursor 1, and so on. It returns
  `true` at the first cursor that advances without reaching its set's end.
  It returns `false` once the carry has passed the last set, and then every
  cursor is back at begin.
- `first_combination` builds the all-begin combination, one cursor per set,
  in set order.

Representation:

- A set is represented by its size `n_i`.
- A cursor is an index into its set: begin is 0, end is `n_i`.
- A combination is an `array<nat>` (in place) or a `seq<nat>` (as a value).
- The sets are `seq` values, so nothing can change them.

Modules:

- `MixedRadix` (`mixed_radix.dfy`): reads a combination as a mixed-radix
  number with digit `i` = `comb[i]` and radix `n_i`. It gives `Value`, its
  inverse `Digits`, `Product` (the number of combinations) and the round-trip
  lemmas.
- `Odometer` (`odometer.dfy`): `Next` is one call of `next_combination` as a
  function, and `Start` is the all-begin combination. The module proves:
  - bounds are kept;
  - the exact shape of a step (`Carries` is the index of the first cursor
    that can still advance);
  - the successor property: a `true` return maps `v` to `v + 1`, and a
    `false` return maps `product - 1` to `0`, the all-begin combination;
  - the carry pattern;
  - the full sweep: `Visit(sizes, k)` is the combination reached after `k`
    calls from the first combination. A sweep visits every combination once,
    in numeric order, and returns `true` exactly `product - 1` times.
- `EnumerateCombinations` (`enumerate_combinations.dfy`): the two routines as
  imperative methods, in the form of the C++ code.
  - `NextCombination` is the carry loop over an array, proved equal to `Next`.
  - `FirstCombination` is the appending loop.
  - `Sweep` is a client that calls `NextCombination` until it returns
    `false`. It counts the `true` returns and collects the combinations it
    sees.
- `MainExample` (`main_example.dfy`): the demonstration program's sets
  `{2,4}`, `{1,3,8}`, `{7,5}`. It lists the twelve combinations in the order
  the forward sweep visits them. The demonstration program iterates through
  the `combinations<...>` range class, which is not part of this model. The
  order is therefore stated for repeated calls of `next_combination` starting
  from `first_combination`.

Preconditions: the C++ code increments every cursor it reaches and compares
it with the set's end. On an empty set, or on a cursor already at the end,
that is undefined behaviour. So `Next` and `NextCombination` require every
cursor to be below its set's size. This also means no set is empty.

Code versus comment: the comment at `enumerate_combinations.hpp:8` says
"increment last increment-able combination element". The loop increments the
*first* cursor that does not carry, because set 0 is the least significant.
The model follows the loop.

## Model

| member | source | states |
|---|---|---|
| `EnumerateCombinations.NextCombination` | enumerate_combinations.hpp:9-22 | the in-place carry loop leaves exactly the combination `Next` gives and returns its flag; cursors stay in range; on `false` every cursor is at begin; with zero sets it returns `false` and changes nothing |
| `EnumerateCombinations.FirstCombination` | enumerate_combinations.hpp:25-35 | the built combination has one cursor per set, in set order, each at its set's begin; it stands for number 0 and is valid exactly when no set is empty |
| `EnumerateCombinations.Sweep` | enumerate_combinations.hpp:9-35 | starting from the first combination of non-empty sets and calling next_combination until `false`: `true` comes back exactly `product(n_i) - 1` times; the combinations seen are those of numbers 0 .. product - 1 in order, pairwise different; the final state is the first combination |
| `Odometer.Next` | enumerate_combinations.hpp:15-21 | one step keeps every cursor in range (bounds preserved), and a `false` step leaves the all-begin combination |
| `Odometer.Carries` | enumerate_combinations.hpp:17-19 | the number of carries is the index of the first cursor not on its set's last element: every cursor before it is on the last element |
| `Odometer.NextShape` | enumerate_combinations.hpp:15-19 | a step succeeds exactly when some cursor can advance. The carried cursors before that index are reset to begin. On success that cursor advanced by exactly one and is still before its set's end, and every later cursor is unchanged |
| `Odometer.NextCarried` | enumerate_combinations.hpp:15-21 | every cursor the step carried through is back at begin, and the step returns `false` exactly when it carried through all of them |
| `Odometer.NextAdvanced` | enumerate_combinations.hpp:17-18 | on `true`, the first cursor not carried through advanced by exactly one |
| `Odometer.NextKeepsAbove` | enumerate_combinations.hpp:17-18 | on `true`, every cursor after the advanced one is unchanged |
| `Odometer.NextSuccessor` | enumerate_combinations.hpp:7-21 | read as a mixed-radix number, a step returns `true` exactly when `v + 1 < product`, and then the new number is `v + 1`; on `false` the old number was `product - 1` and the new one is 0 |
| `Odometer.CarryPattern` | enumerate_combinations.hpp:17-19 | cursor 0 changes on a call exactly when set 0 has more than one element; cursor `i > 0` changes only if every cursor before it was on its set's last element |
| `Odometer.StartFacts` | enumerate_combinations.hpp:31-34 | the all-begin combination has one cursor per set, stands for number 0, and is in range exactly when every set is non-empty |
| `Odometer.Visit` | enumerate_combinations.hpp:15-21 | every combination reached by repeated steps from the first one is in range |
| `Odometer.SweepInOrder` | enumerate_combinations.hpp:15-21 | the combination reached after `k` steps from the first one stands for `k` and is the digit sequence of `k`, for every `k < product` |
| `Odometer.SweepReturns` | enumerate_combinations.hpp:15-21 | along the sweep, a step returns `true` exactly for the first `product - 1` calls; the call that returns `false` leaves the first combination again |
| `Odometer.SweepDistinct` | enumerate_combinations.hpp:15-21 | no combination is visited twice before the sweep ends |
| `Odometer.SweepComplete` | enumerate_combinations.hpp:15-21 | every in-range combination is visited, the one of number `v` after `v` steps |
| `Odometer.SweepSeen` | enumerate_combinations.hpp:15-21 | the combinations of a whole sweep, in order, are the digit sequences of 0 .. product - 1, all different |
| `MixedRadix.Digits` | enumerate_combinations.hpp:7-8 | the digit sequence of any number over non-empty sets is a valid combination |
| `MixedRadix.ValueBound` | enumerate_combinations.hpp:7-8 | every valid combination stands for a number below the product of the set sizes |
| `MixedRadix.ValueOfDigits` | enumerate_combinations.hpp:7-8 | round trip: the number of the digit sequence of `v < product` is `v` |
| `MixedRadix.DigitsOfValue` | enumerate_combinations.hpp:7-8 | round trip: the digit sequence of a valid combination's number is the combination itself |
| `MixedRadix.ValueInjective` | enumerate_combinations.hpp:7-8 | two valid combinations are equal exactly when their numbers are equal |
| `MainExample.Deref` | main.cpp:20-21 | the elements a valid combination refers to: one per set, each a member of its set |
| `MainExample.ForwardSweep` | main.cpp:11-23 | for the sets `{2,4}`, `{1,3,8}`, `{7,5}` the sweep visits (2,1,7) (4,1,7) (2,3,7) (4,3,7) (2,8,7) (4,8,7) (2,1,5) (4,1,5) (2,3,5) (4,3,5) (2,8,5) (4,8,5) in this order; the first 11 steps return `true` and the 12th returns `false` |

## Left out

- The `combinations<...>` range class with `begin`, `end`, `crbegin`, `crend`, its position type, dereference, equality and the `Combination` typedef. It lives in `combinations.hpp`, which is not part of this model.
- Retreat (the borrow step) and a last combination. No such routine appears in `enumerate_combinations.hpp`; reverse traversal goes through `combinations.hpp`. Reverse-order properties are therefore not stated.
- The demonstration program's printing (`main.cpp`). It is console output only. Its reversal of a copied combination (`std::reverse`) is library code on the consumer side.
- Generic C++ iterators and `iterator_traits`. Cursors are indices and sets are their sizes, so dereferencing is not modelled apart from `MainExample.Deref`.
- Calling `next_combination` on an empty set or on a cursor at its set's end. This is undefined behaviour in C++, so it is excluded by a precondition rather than modelled.
- A combination longer than the sequence of sets. `next_combination` only needs the combination to have at least one cursor per set; the model requires exactly one per set, as `first_combination` builds it.
