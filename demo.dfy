/** The demonstration program (src/bin/main.rs), which runs both strategies
    on one fixed array, and the duplicated-maximum case. Printing is not
    modelled: `Run` returns the two pairs that the program would print. */
module Demo {
  import opened Max2

  /** The literal array of src/bin/main.rs:4. */
  const DemoInput: seq<int> := [8, 4, 1, 9, 2, 3, 6, 32, 12, 11, 19, 1829]

  /** `fold_max2` finds 1829 and 32 in the demo array. */
  lemma DemoFoldMax2()
    ensures FoldMax2(DemoInput) == Pair(1829, 32)
  {
    // the pair after each remaining suffix, from the last element back
    assert Fold(Pair(32, 19), [1829]) == Pair(1829, 32);
    assert Fold(Pair(32, 12), [19, 1829]) == Pair(1829, 32);
    assert Fold(Pair(32, 12), [11, 19, 1829]) == Pair(1829, 32);
    assert Fold(Pair(32, 9), [12, 11, 19, 1829]) == Pair(1829, 32);
    assert Fold(Pair(9, 8), [32, 12, 11, 19, 1829]) == Pair(1829, 32);
    assert Fold(Pair(9, 8), [6, 32, 12, 11, 19, 1829]) == Pair(1829, 32);
    assert Fold(Pair(9, 8), [3, 6, 32, 12, 11, 19, 1829]) == Pair(1829, 32);
    assert Fold(Pair(9, 8), [2, 3, 6, 32, 12, 11, 19, 1829]) == Pair(1829, 32);
    assert Fold(Pair(8, 4), [9, 2, 3, 6, 32, 12, 11, 19, 1829]) == Pair(1829, 32);
    assert Fold(Pair(8, 4), [1, 9, 2, 3, 6, 32, 12, 11, 19, 1829]) == Pair(1829, 32);
    assert DemoInput[2..] == [1, 9, 2, 3, 6, 32, 12, 11, 19, 1829];
  }

  /** Any top-2 pair of the demo array, in particular the one `sort_max2`
      returns, is (1829, 32). */
  lemma DemoTop2(p: Pair)
    requires IsTop2(DemoInput, p)
    ensures p == Pair(1829, 32)
  {
    FoldMax2AgreesWithSortMax2(DemoInput, p);
    DemoFoldMax2();
  }

  /** A longer input whose first two elements are already high-first. */
  const LongerInput: seq<int> :=
    [98, 20, 65, 10, 72, 25, 70, 60, 40, 77, 64, 46, 3, 42, 33, 50, 83, 36, 41, 32, 89, 88, 23, 21, 61]

  /** Both strategies find 98 and 89 in the longer input: `fold_max2`, and the
      ordered-seed fold that `SortMax2` is proved to agree with. */
  lemma LongerFoldMax2()
    ensures FoldMax2(LongerInput) == Pair(98, 89)
    ensures FoldMax2Ordered(LongerInput) == Pair(98, 89)
  {
    assert LongerInput[..2] == [98, 20];
    assert LongerInput[2..] == [65, 10, 72, 25, 70, 60] + [40, 77, 64, 46, 3, 42]
                               + [33, 50, 83, 36, 41, 32] + [89, 88, 23, 21, 61];
    FoldMax2OfLongerInput(LongerInput);
  }

  /** `fold_max2` on any input laid out as the longer one: the seed, then the
      four pieces that `LongerChunk1` to `LongerChunk4` fold. */
  lemma FoldMax2OfLongerInput(s: seq<int>)
    requires |s| >= 2 && s[..2] == [98, 20]
    requires s[2..] == [65, 10, 72, 25, 70, 60] + [40, 77, 64, 46, 3, 42]
                       + [33, 50, 83, 36, 41, 32] + [89, 88, 23, 21, 61]
    ensures FoldMax2(s) == Pair(98, 89)
    ensures FoldMax2Ordered(s) == Pair(98, 89)
  {
    var c1, c2, c3, c4 := [65, 10, 72, 25, 70, 60], [40, 77, 64, 46, 3, 42],
      [33, 50, 83, 36, 41, 32], [89, 88, 23, 21, 61];
    assert s[0] == 98 && s[1] == 20;
    LongerChunk1();
    LongerChunk2();
    LongerChunk3();
    LongerChunk4();
    FoldThroughChunks(Pair(98, 20), c1, c2, c3, c4, Pair(98, 72), Pair(98, 77), Pair(98, 83));
  }

  /** Both strategies applied to the longer input; both return (98, 89). */
  method RunLonger() returns (bySort: Pair, byFold: Pair)
    ensures bySort == byFold == Pair(98, 89)
  {
    bySort := SortMax2(LongerInput);
    byFold := FoldMax2(LongerInput);
    LongerFoldMax2();
  }

  /** A fold over four consecutive pieces, given the pair after each piece. */
  lemma FoldThroughChunks(acc: Pair, c1: seq<int>, c2: seq<int>, c3: seq<int>, c4: seq<int>,
                          p1: Pair, p2: Pair, p3: Pair)
    requires Fold(acc, c1) == p1 && Fold(p1, c2) == p2 && Fold(p2, c3) == p3
    ensures Fold(acc, c1 + c2 + c3 + c4) == Fold(p3, c4)
  {
    FoldAppend(acc, c1 + c2 + c3, c4);
    FoldAppend(acc, c1 + c2, c3);
    FoldAppend(acc, c1, c2);
  }

  // The fold over the longer input, six elements at a time.

  lemma LongerChunk1()
    ensures Fold(Pair(98, 20), [65, 10, 72, 25, 70, 60]) == Pair(98, 72)
  {
    assert Fold(Pair(98, 72), [60]) == Pair(98, 72);
    assert Fold(Pair(98, 72), [70, 60]) == Pair(98, 72);
    assert Fold(Pair(98, 72), [25, 70, 60]) == Pair(98, 72);
    assert Fold(Pair(98, 65), [72, 25, 70, 60]) == Pair(98, 72);
    assert Fold(Pair(98, 65), [10, 72, 25, 70, 60]) == Pair(98, 72);
  }

  lemma LongerChunk2()
    ensures Fold(Pair(98, 72), [40, 77, 64, 46, 3, 42]) == Pair(98, 77)
  {
    assert Fold(Pair(98, 77), [42]) == Pair(98, 77);
    assert Fold(Pair(98, 77), [3, 42]) == Pair(98, 77);
    assert Fold(Pair(98, 77), [46, 3, 42]) == Pair(98, 77);
    assert Fold(Pair(98, 77), [64, 46, 3, 42]) == Pair(98, 77);
    assert Fold(Pair(98, 72), [77, 64, 46, 3, 42]) == Pair(98, 77);
  }

  lemma LongerChunk3()
    ensures Fold(Pair(98, 77), [33, 50, 83, 36, 41, 32]) == Pair(98, 83)
  {
    assert Fold(Pair(98, 83), [32]) == Pair(98, 83);
    assert Fold(Pair(98, 83), [41, 32]) == Pair(98, 83);
    assert Fold(Pair(98, 83), [36, 41, 32]) == Pair(98, 83);
    assert Fold(Pair(98, 77), [83, 36, 41, 32]) == Pair(98, 83);
    assert Fold(Pair(98, 77), [50, 83, 36, 41, 32]) == Pair(98, 83);
  }

  lemma LongerChunk4()
    ensures Fold(Pair(98, 83), [89, 88, 23, 21, 61]) == Pair(98, 89)
  {
    assert Fold(Pair(98, 89), [61]) == Pair(98, 89);
    assert Fold(Pair(98, 89), [21, 61]) == Pair(98, 89);
    assert Fold(Pair(98, 89), [23, 21, 61]) == Pair(98, 89);
    assert Fold(Pair(98, 89), [88, 23, 21, 61]) == Pair(98, 89);
  }

  /** Both strategies applied to the demo array, as the program does; both
      return (1829, 32). */
  method Run() returns (bySort: Pair, byFold: Pair)
    ensures bySort == byFold == Pair(1829, 32)
  {
    bySort := SortMax2(DemoInput);
    DemoTop2(bySort);
    byFold := FoldMax2(DemoInput);
    DemoFoldMax2();
  }

  /** A maximum that occurs twice fills both slots: both strategies return
      (5, 5) on [5, 5, 1]. */
  lemma DuplicatedMaximum(p: Pair)
    requires IsTop2([5, 5, 1], p)
    ensures p == Pair(5, 5)
    ensures FoldMax2([5, 5, 1]) == Pair(5, 5)
  {
    FoldMax2AgreesWithSortMax2([5, 5, 1], p);
  }
}
