/** The heap view of the data-structure panel (app.js, `renderHeap`): the array is
    drawn as the levels of a binary tree, level `k` holding the next `2^k` items. */
module HeapView {

  function Pow2(k: nat): (r: nat)
    ensures r >= 1
  {
    if k == 0 then 1 else 2 * Pow2(k - 1)
  }

  function Min(a: int, b: int): int {
    if a < b then a else b
  }

  /** The items of level `k`: heap positions `2^k - 1` up to `2^(k+1) - 1`, cut at the end. */
  ghost predicate LevelHolds<T>(arr: seq<T>, k: nat, row: seq<T>) {
    Pow2(k) - 1 <= |arr| && row == arr[Pow2(k) - 1..Min(Pow2(k + 1) - 1, |arr|)]
  }

  /** The level loop: `levelSize = 2^level` items per row until the array runs out. */
  method HeapLevels<T>(arr: seq<T>) returns (levels: seq<seq<T>>)
    ensures forall k :: 0 <= k < |levels| ==> LevelHolds(arr, k, levels[k])
    ensures |arr| == 0 <==> |levels| == 0
    ensures |levels| > 0 ==> Pow2(|levels| - 1) - 1 < |arr| <= Pow2(|levels|) - 1
  {
    levels := [];
    var level := 0;
    var idx := 0;
    while idx < |arr|
      invariant idx == Min(Pow2(level) - 1, |arr|) && |levels| == level
      invariant forall k :: 0 <= k < level ==> LevelHolds(arr, k, levels[k])
      invariant level > 0 ==> Pow2(level - 1) - 1 < |arr|
      decreases |arr| - idx
    {
      var levelSize := Pow2(level);
      var row := [];
      var i := 0;
      while i < levelSize && idx < |arr|
        invariant 0 <= i <= levelSize && idx == Pow2(level) - 1 + i <= |arr|
        invariant row == arr[Pow2(level) - 1..idx]
      {
        row := row + [arr[idx]];
        i := i + 1;
        idx := idx + 1;
      }
      levels := levels + [row];
      level := level + 1;
    }
  }

  function Flatten<T>(levels: seq<seq<T>>): seq<T> {
    if levels == [] then [] else Flatten(levels[..|levels| - 1]) + levels[|levels| - 1]
  }

  /** Read level by level, the rows give back the whole array in order. */
  lemma {:induction false} LevelsCover<T>(arr: seq<T>, levels: seq<seq<T>>, n: nat)
    requires n <= |levels|
    requires forall k :: 0 <= k < |levels| ==> LevelHolds(arr, k, levels[k])
    ensures Flatten(levels[..n]) == arr[..Min(Pow2(n) - 1, |arr|)]
  {
    if n > 0 {
      LevelsCover(arr, levels, n - 1);
      assert levels[..n][..n - 1] == levels[..n - 1];
      assert LevelHolds(arr, n - 1, levels[n - 1]);
      assert Flatten(levels[..n]) == Flatten(levels[..n - 1]) + levels[n - 1];
      assert Pow2(n) == 2 * Pow2(n - 1);
    }
  }

  /** Together the levels are exactly the array. */
  lemma LevelsFlatten<T>(arr: seq<T>, levels: seq<seq<T>>)
    requires forall k :: 0 <= k < |levels| ==> LevelHolds(arr, k, levels[k])
    requires |levels| > 0 ==> |arr| <= Pow2(|levels|) - 1
    requires |arr| == 0 <==> |levels| == 0
    ensures Flatten(levels) == arr
  {
    var n := |levels|;
    assert Flatten(levels[..n]) == arr[..Min(Pow2(n) - 1, |arr|)] by {
      LevelsCover(arr, levels, n);
    }
    assert levels[..n] == levels;
    assert Min(Pow2(n) - 1, |arr|) == |arr|;
    assert arr[..|arr|] == arr;
  }

  /** Each level is full except possibly the last, which is not empty. */
  lemma LevelSizes<T>(arr: seq<T>, levels: seq<seq<T>>)
    requires forall k :: 0 <= k < |levels| ==> LevelHolds(arr, k, levels[k])
    requires |levels| > 0 ==> Pow2(|levels| - 1) - 1 < |arr| <= Pow2(|levels|) - 1
    ensures forall k :: 0 <= k < |levels| - 1 ==> |levels[k]| == Pow2(k)
    ensures |levels| > 0 ==> 1 <= |levels[|levels| - 1]| <= Pow2(|levels| - 1)
  {
    forall k | 0 <= k < |levels| - 1
      ensures |levels[k]| == Pow2(k)
    {
      FullLevel(arr, levels[k], k, |levels| - 1);
    }
    if |levels| > 0 {
      var j := |levels| - 1;
      assert LevelHolds(arr, j, levels[j]);
      assert Pow2(j + 1) == 2 * Pow2(j);
    }
  }

  /** A level before the last one is full. */
  lemma FullLevel<T>(arr: seq<T>, row: seq<T>, k: nat, last: nat)
    requires LevelHolds(arr, k, row) && k < last && Pow2(last) - 1 < |arr|
    ensures |row| == Pow2(k)
  {
    Pow2Mono(k + 1, last);
    assert Pow2(k + 1) == 2 * Pow2(k);
  }

  lemma {:induction false} Pow2Mono(a: nat, b: nat)
    requires a <= b
    ensures Pow2(a) <= Pow2(b)
    decreases b
  {
    if a < b {
      Pow2Mono(a, b - 1);
    }
  }

  /** The children `2i + 1` and `2i + 2` of the item at heap position `i` of level `k`
      sit on level `k + 1`: the rows are the tree's levels. */
  lemma ChildrenOnNextLevel(i: nat, k: nat)
    requires Pow2(k) - 1 <= i < Pow2(k + 1) - 1
    ensures Pow2(k + 1) - 1 <= 2 * i + 1 && 2 * i + 2 < Pow2(k + 2) - 1
  {
    assert Pow2(k + 2) == 2 * Pow2(k + 1);
    assert Pow2(k + 1) == 2 * Pow2(k);
  }
}
