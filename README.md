# max2 in Dafny

A verified model of the max2 Rust library. The library offers two ways of
picking the "top 2" (the largest and the second-largest value) from a finite
collection of totally ordered values, and returns them as `Pair(high, low)`:

- `sort_max2` collects the input into a vector, sorts it ascending in place,
  and pops the last element as `high` and the next one as `low`;
- `fold_max2` seeds a pair from the first two elements, in input order, and
  folds a three-way step over the rest. A value that beats `high` pushes it
  down into `low`; a value that only beats `low` replaces it; any other value
  is discarded.

The model has three modules:

- `Sorting` (sorting.dfy): the in-place ascending sort that `sort_max2` calls
  on its vector. It is a verified insertion sort on an `array<int>`, specified
  as sorted and a permutation.
- `Max2` (max2.dfy): the library itself. It holds the `Pair` datatype; the
  specification `IsTop2Of` / `IsTop2`, which says "the two largest elements
  of the multiset"; `SortMax2` as a method over a freshly allocated array;
  and `fold_max2` as the functions `Step`, `Fold` (a left fold) and
  `FoldMax2`. The fold functions are pure, as the Rust closure is.
- `Demo` (demo.dfy): the demonstration program's fixed array, a longer
  input of 25 values, and the duplicated-maximum case.

Values are modelled as `int`, whose order is total, as `T: Ord` requires.
Both Rust functions call `unwrap()` on an empty `Option` when the input has
fewer than two elements, and so panic. The model turns this into the
precondition `|s| >= 2` on each of them.

## Model

| member | source | states |
|---|---|---|
| `Sorting.SortInPlace` | src/lib.rs:13 | `sorted.sort()`: afterwards the array is in ascending order and is a permutation of what it held before |
| `Max2.Pair` | src/lib.rs:2-4 | the couple `Pair(high, low)` that both functions return |
| `Max2.Top2Determined` | src/lib.rs:2-4 | a property of the top-2 specification `IsTop2Of` that the `Pair(high, low)` results are judged by: a top-2 pair needs at least two values, has `high >= low`, and is unique, so two top-2 pairs of the same values are equal |
| `Max2.SortedEndsAreTop2` | src/lib.rs:13-16 | in an ascending sequence of two or more values, the last element and the one before it are the top 2, which is what the two `pop` calls take |
| `Max2.SortMax2` | src/lib.rs:7-17 | `sort_max2` (for two or more values) returns the top 2 of its input; that pair is the one the corrected fold computes |
| `Max2.SortMax2PermutationInvariant` | src/lib.rs:12-15 | the result of `sort_max2` depends only on the multiset of the input: `FoldMax2Ordered`, which `SortMax2` returns, gives the same pair on any two inputs with the same values |
| `Max2.Step` | src/lib.rs:30-38 | the fold step keeps a pair ordered high-first |
| `Max2.StepKeepsTopTwoOfThree` | src/lib.rs:31-37 | from an ordered pair, a step returns the top two of the three values in play; the value dropped is no larger than either kept one |
| `Max2.StepKeepsTwoOfThree` | src/lib.rs:31-37 | whatever the order of the pair, a step returns two of the three values in play as distinct occurrences (`multiset{hi, lo}` is a sub-multiset of `{current.0, current.1, next}`) |
| `Max2.StepExtendsTop2` | src/lib.rs:30-38 | if the pair is the top 2 of the values seen so far, then after a step it is the top 2 of those values plus the new one |
| `Max2.Fold` | src/lib.rs:30 | the fold over the remaining elements keeps an ordered accumulator ordered |
| `Max2.FoldKeepsValuesInPlay` | src/lib.rs:30-38 | whatever the seed, the two slots of the fold's result are two distinct occurrences among the seed and the consumed elements (a sub-multiset), so the result is two input elements |
| `Max2.FoldAppend` | src/lib.rs:30 | `fold` consumes its input front to back: folding over a concatenation folds the first part and carries on from that pair over the second |
| `Max2.FoldExtendsTop2` | src/lib.rs:30-38 | folding from the top 2 of some values gives the top 2 of those values together with all the consumed elements |
| `Max2.FoldMax2` | src/lib.rs:19-39 | `fold_max2` as written returns a pair ordered high-first whenever `s[0] >= s[1]` |
| `Max2.FoldMax2Ordered` | src/lib.rs:25-38 | the fold with its seed put high-first always returns an ordered pair |
| `Max2.FoldMax2OrderedIsTop2` | src/lib.rs:25-38 | the fold with its seed put high-first returns the top 2 of every input of two or more values |
| `Max2.FoldMax2AgreesWithSortMax2` | src/lib.rs:7-39 | when `s[0] >= s[1]`, `fold_max2` as written returns the top 2, and so the same pair as `sort_max2` |
| `Max2.FoldMax2UnorderedSeed` | src/lib.rs:25-29 | without `s[0] >= s[1]`, `fold_max2` as written fails: `[1, 9, 2]` gives `(2, 1)`, which is not the top 2; `[1, 9]` gives `(1, 9)` with `high < low`; `[9, 1, 2]` gives `(9, 2)`, so the input order matters. The corrected fold gives `(9, 2)` and `(9, 1)` |
| `Demo.DemoFoldMax2` | src/bin/main.rs:4-7 | `fold_max2` on the demo array returns `(1829, 32)` |
| `Demo.DemoTop2` | src/bin/main.rs:4-6 | every top-2 pair of the demo array, and so the result of `sort_max2`, is `(1829, 32)` |
| `Demo.LongerFoldMax2` | src/lib.rs:7-39 | on the 25-value input `[98, 20, 65, …, 21, 61]`, `fold_max2` and the ordered-seed fold that `sort_max2` agrees with both return `(98, 89)` |
| `Demo.RunLonger` | src/lib.rs:7-39 | both strategies applied to the 25-value input return `(98, 89)` |
| `Demo.Run` | src/bin/main.rs:3-8 | the demo program's two calls both return `(1829, 32)` |
| `Demo.DuplicatedMaximum` | src/lib.rs:12-16 | a maximum that occurs twice fills both slots: `[5, 5, 1]` gives `(5, 5)` from both functions |

## Findings

| source | as written | input that shows it | evidently intended | confidence | as-written member | corrected member |
|---|---|---|---|---|---|---|
| src/lib.rs:25-29 | the fold's seed is `Pair(first, second)` in input order, with no swap when the second element is larger | `[1, 9, 2]` returns `Pair(2, 1)` (9 is lost); `[1, 9]` returns `Pair(1, 9)` | seed `Pair(max(first, second), min(first, second))`, so that `high >= low` holds from the start and the fold returns the top 2 | high (not executed) | `Max2.FoldMax2UnorderedSeed` (on `Max2.FoldMax2`) | `Max2.FoldMax2OrderedIsTop2` (on `Max2.FoldMax2Ordered`) |

`SortMax2` is stated against the corrected fold, `FoldMax2Ordered`. The
as-written `FoldMax2` is proved correct only under its precondition
`s[0] >= s[1]`, in `FoldMax2AgreesWithSortMax2`.

## Left out

- `transform_max2` (src/lib.rs:41-47): its body is `unimplemented!()`, so it has no behaviour to model.
- The panics: inputs with fewer than two elements are excluded by preconditions rather than modelled as a panic or as an error value.
- Generic `T: Ord` and `IntoIterator` inputs: values are `int` and the input is a `seq<int>`. Moving versus cloning values makes no difference to the result.
- `Vec::sort` is a stable merge sort. Here it is an insertion sort with the same contract: ascending order and a permutation. Stability cannot be observed on `int`.
- Printing in src/bin/main.rs: the demo's `println!` output and the `Debug` formatting of `Pair` are not modelled; `Demo.Run` returns the two pairs instead.
- benches/race.rs: timing scaffolding with random input, over integers and floating point. No behaviour is modelled from it. Floating point and a policy for incomparable values (NaN) are outside this model.
- `loop_max2` and `par_max2`: benches/race.rs:3 imports them, but src/lib.rs does not define them, so there is nothing to model.
