/** The two "top 2" strategies of the max2 library (src/lib.rs): `sort_max2`,
    which sorts a copy of the input and pops its last two elements, and
    `fold_max2`, which seeds a pair from the first two elements and folds a
    three-way step over the rest. Element values are integers; the input is a
    sequence. Both Rust functions panic (an `unwrap` on `None`) when the
    input has fewer than two elements, so here that is a precondition. */
module Max2 {
  import Sorting

  /** `Pair(high, low)`: the largest value found and the runner-up. */
  datatype Pair = Pair(hi: int, lo: int)

  // ---------------------------------------------------------------------------
  // What "the top 2" means
  // ---------------------------------------------------------------------------

  /** `p` holds the two largest elements of the multiset `m`: `p.hi` is a
      maximum of `m`, and `p.lo` is a maximum of what is left once one
      occurrence of `p.hi` is taken out. A maximum that occurs twice therefore
      fills both slots. */
  ghost predicate IsTop2Of(m: multiset<int>, p: Pair) {
    && p.hi in m
    && (forall x | x in m :: x <= p.hi)
    && p.lo in m - multiset{p.hi}
    && (forall x | x in m - multiset{p.hi} :: x <= p.lo)
  }

  /** `p` holds the two largest elements of the sequence `s`. Only the
      multiset of `s` matters, so the order of the input never does. */
  ghost predicate IsTop2(s: seq<int>, p: Pair) {
    IsTop2Of(multiset(s), p)
  }

  /** A top-2 pair exists only for two or more values, is ordered high-first,
      and is determined by the values alone: two pairs that are both top-2 of
      the same multiset are equal. */
  lemma Top2Determined(m: multiset<int>, p: Pair, q: Pair)
    requires IsTop2Of(m, p) && IsTop2Of(m, q)
    ensures |m| >= 2
    ensures p.hi >= p.lo
    ensures p == q
  {
    assert p.hi in m && p.lo in m - multiset{p.hi};
    assert |m - multiset{p.hi}| == |m| - 1;
  }

  /** The last element of a nonempty ascending sequence is its maximum. */
  lemma SortedLastIsMax(s: seq<int>)
    requires Sorting.Sorted(s) && |s| >= 1
    ensures forall x | x in multiset(s) :: x <= s[|s| - 1]
  {
    forall x | x in multiset(s) ensures x <= s[|s| - 1] {
      var k :| 0 <= k < |s| && s[k] == x;
    }
  }

  /** A sequence sorted ascending has its two largest elements at the end,
      which is what the two `pop` calls of `sort_max2` take. */
  lemma SortedEndsAreTop2(s: seq<int>)
    requires Sorting.Sorted(s) && |s| >= 2
    ensures IsTop2(s, Pair(s[|s| - 1], s[|s| - 2]))
  {
    var n := |s|;
    var front := s[..n - 1];
    assert s == front + [s[n - 1]];
    assert multiset(s) - multiset{s[n - 1]} == multiset(front);
    assert Sorting.Sorted(front);
    SortedLastIsMax(s);
    SortedLastIsMax(front);
    assert front[n - 2] == s[n - 2];
  }

  // ---------------------------------------------------------------------------
  // sort_max2 (src/lib.rs:7-17)
  // ---------------------------------------------------------------------------

  /** Collects the input into a fresh vector, sorts it ascending in place and
      pops the last element as `high`, then the next one as `low`. The result
      is the top 2 of the input, and it is the same pair the corrected fold
      computes. */
  method SortMax2(input: seq<int>) returns (p: Pair)
    requires |input| >= 2
    ensures IsTop2(input, p)
    ensures p == FoldMax2Ordered(input)
  {
    var sorted := new int[|input|](i requires 0 <= i < |input| => input[i]);
    assert sorted[..] == input;
    Sorting.SortInPlace(sorted);
    var len := sorted.Length;
    len := len - 1;
    var x := sorted[len];
    len := len - 1;
    var y := sorted[len];
    p := Pair(x, y);
    SortedEndsAreTop2(sorted[..]);
    FoldMax2OrderedIsTop2(input);
    Top2Determined(multiset(input), p, FoldMax2Ordered(input));
  }

  /** Permuting the input does not change what `sort_max2` returns: the pair
      it is tied to, `FoldMax2Ordered`, is the same for any two inputs with the
      same values. */
  lemma SortMax2PermutationInvariant(s: seq<int>, t: seq<int>)
    requires |s| >= 2 && multiset(s) == multiset(t)
    ensures |t| >= 2
    ensures FoldMax2Ordered(s) == FoldMax2Ordered(t)
  {
    assert |t| == |multiset(t)| == |multiset(s)| == |s|;
    FoldMax2OrderedIsTop2(s);
    FoldMax2OrderedIsTop2(t);
    Top2Determined(multiset(s), FoldMax2Ordered(s), FoldMax2Ordered(t));
  }

  // ---------------------------------------------------------------------------
  // fold_max2 (src/lib.rs:19-39)
  // ---------------------------------------------------------------------------

  /** The closure folded by `fold_max2`: a value that beats `high` pushes
      `high` down into `low`; one that only beats `low` replaces `low`; any
      other value is discarded. From a pair ordered high-first, the result is
      again ordered (`StepKeepsTopTwoOfThree` says which values it keeps). */
  function Step(current: Pair, next: int): (r: Pair)
    ensures current.hi >= current.lo ==> r.hi >= r.lo
  {
    if next > current.hi then Pair(next, current.hi)
    else if next > current.lo then Pair(current.hi, next)
    else current
  }

  /** `Iterator::fold` with `Step`: the pair after consuming `rest` from the
      front, starting from `acc`. An accumulator ordered high-first stays
      ordered. */
  function Fold(acc: Pair, rest: seq<int>): (r: Pair)
    ensures acc.hi >= acc.lo ==> r.hi >= r.lo
    decreases |rest|
  {
    if rest == [] then acc else Fold(Step(acc, rest[0]), rest[1..])
  }

  /** Folding over a concatenation folds over the first part, then carries on
      from that pair over the second: `fold` consumes its input front to back. */
  lemma {:induction false} FoldAppend(acc: Pair, front: seq<int>, back: seq<int>)
    ensures Fold(acc, front + back) == Fold(Fold(acc, front), back)
    decreases |front|
  {
    if front == [] {
      assert front + back == back;
    } else {
      assert (front + back)[1..] == front[1..] + back;
      FoldAppend(Step(acc, front[0]), front[1..], back);
    }
  }

  /** `fold_max2` as written: the seed is the first two elements in input
      order, not reordered. Its result is ordered high-first when the seed
      was. */
  function FoldMax2(s: seq<int>): (r: Pair)
    requires |s| >= 2
    ensures s[0] >= s[1] ==> r.hi >= r.lo
  {
    Fold(Pair(s[0], s[1]), s[2..])
  }

  /** `fold_max2` with the seed put in order, high first, so that it is the top
      2 of the first two elements. Its result is always ordered high-first. */
  function FoldMax2Ordered(s: seq<int>): (r: Pair)
    requires |s| >= 2
    ensures r.hi >= r.lo
  {
    Fold(if s[0] >= s[1] then Pair(s[0], s[1]) else Pair(s[1], s[0]), s[2..])
  }

  /** Whatever the order of the pair, a step keeps two of the three values in
      play, as distinct occurrences, and drops the third. */
  lemma StepKeepsTwoOfThree(current: Pair, next: int)
    ensures multiset{Step(current, next).hi, Step(current, next).lo}
              <= multiset{current.hi, current.lo, next}
  {
  }

  /** Whatever the seed, the fold only ever holds values in play: the two slots
      of its result are two distinct occurrences among the accumulator it
      started from and the consumed values, so `fold_max2` as written returns
      two input elements. */
  lemma {:induction false} FoldKeepsValuesInPlay(acc: Pair, rest: seq<int>)
    ensures multiset{Fold(acc, rest).hi, Fold(acc, rest).lo}
              <= multiset{acc.hi, acc.lo} + multiset(rest)
    decreases |rest|
  {
    if rest != [] {
      var next := Step(acc, rest[0]);
      StepKeepsTwoOfThree(acc, rest[0]);
      FoldKeepsValuesInPlay(next, rest[1..]);
      assert rest == [rest[0]] + rest[1..];
      assert multiset(rest) == multiset{rest[0]} + multiset(rest[1..]);
    }
  }

  /** One step turns the top 2 of `m` into the top 2 of `m` plus the new value. */
  lemma StepExtendsTop2(m: multiset<int>, p: Pair, x: int)
    requires IsTop2Of(m, p)
    ensures IsTop2Of(m + multiset{x}, Step(p, x))
  {
    var m' := m + multiset{x};
    if x > p.hi {
      assert m' - multiset{x} == m;
    } else {
      assert m' - multiset{p.hi} == (m - multiset{p.hi}) + multiset{x};
    }
  }

  /** From a pair ordered high-first, a step keeps the top two of the three
      values in play: the result is two of them, and the one dropped is no
      larger than either. */
  lemma StepKeepsTopTwoOfThree(current: Pair, next: int)
    requires current.hi >= current.lo
    ensures IsTop2Of(multiset{current.hi, current.lo, next}, Step(current, next))
  {
    var m := multiset{current.hi, current.lo};
    assert m - multiset{current.hi} == multiset{current.lo};
    StepExtendsTop2(m, current, next);
  }

  /** Folding over `rest` from the top 2 of `m` gives the top 2 of `m` together
      with every value of `rest`. */
  lemma {:induction false} FoldExtendsTop2(m: multiset<int>, p: Pair, rest: seq<int>)
    requires IsTop2Of(m, p)
    ensures IsTop2Of(m + multiset(rest), Fold(p, rest))
    decreases |rest|
  {
    if rest == [] {
      assert m + multiset(rest) == m;
    } else {
      StepExtendsTop2(m, p, rest[0]);
      FoldExtendsTop2(m + multiset{rest[0]}, Step(p, rest[0]), rest[1..]);
      assert rest == [rest[0]] + rest[1..];
      assert m + multiset(rest) == m + multiset{rest[0]} + multiset(rest[1..]);
    }
  }

  /** With its seed ordered, the fold computes the top 2 of any input of two or
      more values. */
  lemma FoldMax2OrderedIsTop2(s: seq<int>)
    requires |s| >= 2
    ensures IsTop2(s, FoldMax2Ordered(s))
  {
    var seed := if s[0] >= s[1] then Pair(s[0], s[1]) else Pair(s[1], s[0]);
    var m := multiset{s[0], s[1]};
    assert m - multiset{seed.hi} == multiset{seed.lo};
    assert IsTop2Of(m, seed);
    FoldExtendsTop2(m, seed, s[2..]);
    assert s == [s[0], s[1]] + s[2..];
    assert multiset(s) == m + multiset(s[2..]);
  }

  /** When the first element is at least the second, `fold_max2` as written
      computes the top 2, and so returns exactly what `sort_max2` returns. */
  lemma FoldMax2AgreesWithSortMax2(s: seq<int>, bySort: Pair)
    requires |s| >= 2 && s[0] >= s[1]
    requires IsTop2(s, bySort)
    ensures IsTop2(s, FoldMax2(s))
    ensures FoldMax2(s) == bySort
  {
    assert FoldMax2(s) == FoldMax2Ordered(s);
    FoldMax2OrderedIsTop2(s);
    Top2Determined(multiset(s), FoldMax2(s), bySort);
  }

  /** Without that condition `fold_max2` as written is wrong: on [1, 9, 2] it
      loses 9, and on [1, 9] it returns a pair whose `high` is below its `low`.
      Its result even depends on the order of the input: [9, 1, 2] gives
      (9, 2). The corrected fold returns the top 2 on all of them. */
  lemma FoldMax2UnorderedSeed()
    ensures FoldMax2([1, 9, 2]) == Pair(2, 1)
    ensures !IsTop2([1, 9, 2], FoldMax2([1, 9, 2]))
    ensures FoldMax2Ordered([1, 9, 2]) == Pair(9, 2)
    ensures FoldMax2([1, 9]) == Pair(1, 9)
    ensures FoldMax2([1, 9]).hi < FoldMax2([1, 9]).lo
    ensures FoldMax2Ordered([1, 9]) == Pair(9, 1)
    ensures FoldMax2([9, 1, 2]) == Pair(9, 2)
  {
    assert 9 in multiset([1, 9, 2]);
  }
}
