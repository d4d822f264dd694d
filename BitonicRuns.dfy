/// Bitonic runs: the index triples the natural merge sort keeps for each
/// stretch of a buffer that rises to a high point and then falls, and the
/// order in which its directed merge takes the elements of one run.
module BitonicRuns {
  import opened Ordering

  /** A run of a buffer, all three indices inclusive: non-decreasing from
      `left` to `highPoint`, non-increasing from `highPoint` to `right`.
      Built once and never changed, like the source's readonly struct. */
  datatype BitonicSequence = BitonicSequence(left: int, highPoint: int, right: int)

  /** `run` lies inside `s` and is bitonic there, judged pair by adjacent
      pair with `compare` exactly as the run scan judges it. */
  ghost predicate BitonicRun<T>(s: seq<T>, run: BitonicSequence, compare: (T, T) -> int) {
    && 0 <= run.left <= run.highPoint <= run.right < |s|
    && Ascending(s, run.left, run.highPoint, compare)
    && Descending(s, run.highPoint, run.right, compare)
  }

  ghost predicate AllBitonic<T>(s: seq<T>, runs: seq<BitonicSequence>, compare: (T, T) -> int) {
    forall k :: 0 <= k < |runs| ==> BitonicRun(s, runs[k], compare)
  }

  /** `runs` partition [0, n) in order: the first starts at 0, each later one
      starts just after the previous one ends, the last ends at n - 1, and
      each has its high point between its ends. No runs for n == 0. */
  ghost predicate Tiles(runs: seq<BitonicSequence>, n: int) {
    && (|runs| == 0 <==> n == 0)
    && (forall k :: 0 <= k < |runs| ==> 0 <= runs[k].left <= runs[k].highPoint <= runs[k].right < n)
    && (|runs| > 0 ==> runs[0].left == 0 && runs[|runs| - 1].right == n - 1)
    && (forall k :: 0 < k < |runs| ==> runs[k].left == runs[k - 1].right + 1)
  }

  /** The run can be grown neither way the scan grows it: its rising part
      stops at the end of `s` or before a strict fall, and the run stops at
      the end of `s` or before a strict rise. */
  ghost predicate Maximal<T>(s: seq<T>, run: BitonicSequence, compare: (T, T) -> int) {
    && 0 <= run.highPoint <= run.right < |s|
    && (run.highPoint == |s| - 1 || !StepUp(s, run.highPoint, compare))
    && (run.right == |s| - 1 || !StepDown(s, run.right, compare))
  }

  ghost predicate AllMaximal<T>(s: seq<T>, runs: seq<BitonicSequence>, compare: (T, T) -> int) {
    forall k :: 0 <= k < |runs| ==> Maximal(s, runs[k], compare)
  }

  /** A bitonic run that neither scan could grow is fixed by where it
      starts: a shorter rise would stop before a step that does not fall,
      and a shorter fall before a step that does not rise. */
  lemma MaximalRunIsUnique<T>(s: seq<T>, r1: BitonicSequence, r2: BitonicSequence, compare: (T, T) -> int)
    requires BitonicRun(s, r1, compare) && Maximal(s, r1, compare)
    requires BitonicRun(s, r2, compare) && Maximal(s, r2, compare)
    requires r1.left == r2.left
    ensures r1 == r2
  {
  }

  /** Two tilings of `s` by maximal bitonic runs agree run by run. */
  lemma {:induction false} MaximalTilingsAgreeUpTo<T>(s: seq<T>, r1: seq<BitonicSequence>, r2: seq<BitonicSequence>,
                                                      compare: (T, T) -> int, k: int)
    requires Tiles(r1, |s|) && AllBitonic(s, r1, compare) && AllMaximal(s, r1, compare)
    requires Tiles(r2, |s|) && AllBitonic(s, r2, compare) && AllMaximal(s, r2, compare)
    requires 0 <= k < |r1| && k < |r2|
    ensures r1[k] == r2[k]
    decreases k
  {
    if k > 0 {
      MaximalTilingsAgreeUpTo(s, r1, r2, compare, k - 1);
    }
    MaximalRunIsUnique(s, r1[k], r2[k], compare);
  }

  /** In a tiling of [0, n) the last run, and only the last, ends at n - 1. */
  lemma TilingEnd(runs: seq<BitonicSequence>, n: int, k: int)
    requires Tiles(runs, n) && 0 <= k < |runs|
    ensures runs[k].right == n - 1 <==> k == |runs| - 1
  {
    if k < |runs| - 1 {
      assert runs[k + 1].left == runs[k].right + 1;
    }
  }

  /** There is only one way to tile `s` with bitonic runs none of which the
      run scan could grow: the runs the scan finds are determined by `s`. */
  lemma MaximalTilingIsUnique<T>(s: seq<T>, r1: seq<BitonicSequence>, r2: seq<BitonicSequence>, compare: (T, T) -> int)
    requires Tiles(r1, |s|) && AllBitonic(s, r1, compare) && AllMaximal(s, r1, compare)
    requires Tiles(r2, |s|) && AllBitonic(s, r2, compare) && AllMaximal(s, r2, compare)
    ensures r1 == r2
  {
    forall k | 0 <= k < |r1| && k < |r2| ensures r1[k] == r2[k] {
      MaximalTilingsAgreeUpTo(s, r1, r2, compare, k);
    }
    var m := if |r1| < |r2| then |r1| else |r2|;
    if m > 0 {
      TilingEnd(r1, |s|, m - 1);
      TilingEnd(r2, |s|, m - 1);
    }
  }

  /** A sequence that never falls is a single run, rising to its last
      element, in any tiling by maximal runs. */
  lemma AscendingInputIsOneRun<T>(s: seq<T>, runs: seq<BitonicSequence>, compare: (T, T) -> int)
    requires |s| > 0 && Tiles(runs, |s|) && AllMaximal(s, runs, compare)
    requires Ascending(s, 0, |s| - 1, compare)
    ensures runs == [BitonicSequence(0, |s| - 1, |s| - 1)]
  {
    assert Maximal(s, runs[0], compare);
    TilingEnd(runs, |s|, 0);
  }

  /** Whether the directed merge, with cursors at `left` and `right`, takes
      the element at the right cursor next: always once the left cursor
      stands on the high point; never once only the right cursor does;
      otherwise when the right element sorts strictly first, so that a tie
      goes to the left cursor. */
  predicate TakesRight<T>(s: seq<T>, left: int, highPoint: int, right: int, compare: (T, T) -> int)
    requires 0 <= left <= right < |s|
  {
    if left == highPoint then true
    else if right == highPoint then false
    else compare(s[left], s[right]) > 0
  }

  /** The elements of the run [left, right] of `s` in the order the directed
      merge takes them, one cursor at each end walking inwards. */
  ghost function Merged<T>(s: seq<T>, left: int, highPoint: int, right: int, compare: (T, T) -> int): (m: seq<T>)
    requires 0 <= left <= right + 1 <= |s| && 0 <= highPoint < |s|
    requires left <= right ==> left <= highPoint <= right
    ensures |m| == right - left + 1
    decreases right - left
  {
    if left > right then []
    else if TakesRight(s, left, highPoint, right, compare) then [s[right]] + Merged(s, left, highPoint, right - 1, compare)
    else [s[left]] + Merged(s, left + 1, highPoint, right, compare)
  }

  /** Unfolding of Merged when the element at the right cursor comes next. */
  lemma MergedTakesRight<T>(s: seq<T>, left: int, highPoint: int, right: int, compare: (T, T) -> int)
    requires 0 <= left <= highPoint <= right < |s|
    requires TakesRight(s, left, highPoint, right, compare)
    ensures Merged(s, left, highPoint, right, compare) == [s[right]] + Merged(s, left, highPoint, right - 1, compare)
  {
  }

  /** Unfolding of Merged when the element at the left cursor comes next. */
  lemma MergedTakesLeft<T>(s: seq<T>, left: int, highPoint: int, right: int, compare: (T, T) -> int)
    requires 0 <= left <= highPoint <= right < |s|
    requires !TakesRight(s, left, highPoint, right, compare)
    ensures Merged(s, left, highPoint, right, compare) == [s[left]] + Merged(s, left + 1, highPoint, right, compare)
  {
  }

  lemma MultisetTakeRight<T>(s: seq<T>, left: int, right: int, m: seq<T>, rest: seq<T>)
    requires 0 <= left <= right < |s|
    requires m == [s[right]] + rest && multiset(rest) == multiset(s[left..right])
    ensures multiset(m) == multiset(s[left..right + 1])
  {
    assert s[left..right + 1] == s[left..right] + [s[right]];
  }

  lemma MultisetTakeLeft<T>(s: seq<T>, left: int, right: int, m: seq<T>, rest: seq<T>)
    requires 0 <= left <= right < |s|
    requires m == [s[left]] + rest && multiset(rest) == multiset(s[left + 1..right + 1])
    ensures multiset(m) == multiset(s[left..right + 1])
  {
    assert s[left..right + 1] == [s[left]] + s[left + 1..right + 1];
  }

  /** MergedPermutation when the right cursor's element comes first. */
  lemma {:induction false} PermutationStepRight<T>(s: seq<T>, left: int, highPoint: int, right: int, compare: (T, T) -> int)
    requires 0 <= left <= highPoint <= right < |s|
    requires TakesRight(s, left, highPoint, right, compare)
    ensures multiset(Merged(s, left, highPoint, right, compare)) == multiset(s[left..right + 1])
    decreases right - left, 0
  {
    MergedPermutation(s, left, highPoint, right - 1, compare);
    MergedTakesRight(s, left, highPoint, right, compare);
    MultisetTakeRight(s, left, right, Merged(s, left, highPoint, right, compare), Merged(s, left, highPoint, right - 1, compare));
  }

  /** MergedPermutation when the left cursor's element comes first. */
  lemma {:induction false} PermutationStepLeft<T>(s: seq<T>, left: int, highPoint: int, right: int, compare: (T, T) -> int)
    requires 0 <= left <= highPoint <= right < |s|
    requires !TakesRight(s, left, highPoint, right, compare)
    ensures multiset(Merged(s, left, highPoint, right, compare)) == multiset(s[left..right + 1])
    decreases right - left, 0
  {
    MergedPermutation(s, left + 1, highPoint, right, compare);
    MergedTakesLeft(s, left, highPoint, right, compare);
    MultisetTakeLeft(s, left, right, Merged(s, left, highPoint, right, compare), Merged(s, left + 1, highPoint, right, compare));
  }

  /** The merge takes every element of the run exactly once. */
  lemma {:induction false} MergedPermutation<T>(s: seq<T>, left: int, highPoint: int, right: int, compare: (T, T) -> int)
    requires 0 <= left <= right + 1 <= |s| && 0 <= highPoint < |s|
    requires left <= right ==> left <= highPoint <= right
    ensures multiset(Merged(s, left, highPoint, right, compare)) == multiset(s[left..right + 1])
    decreases right - left, 1
  {
    if left > right {
    } else if TakesRight(s, left, highPoint, right, compare) {
      PermutationStepRight(s, left, highPoint, right, compare);
    } else {
      PermutationStepLeft(s, left, highPoint, right, compare);
    }
  }

  /** A bound on every element of the run bounds everything the merge emits. */
  lemma {:induction false} MergedLowerBound<T>(s: seq<T>, left: int, highPoint: int, right: int, compare: (T, T) -> int, x: T)
    requires 0 <= left <= right + 1 <= |s| && 0 <= highPoint < |s|
    requires left <= right ==> left <= highPoint <= right
    requires forall i :: left <= i <= right ==> compare(x, s[i]) <= 0
    ensures forall j :: 0 <= j < right - left + 1 ==> compare(x, Merged(s, left, highPoint, right, compare)[j]) <= 0
    decreases right - left
  {
    if left > right {
    } else if TakesRight(s, left, highPoint, right, compare) {
      MergedLowerBound(s, left, highPoint, right - 1, compare, x);
    } else {
      MergedLowerBound(s, left + 1, highPoint, right, compare, x);
    }
  }

  lemma SortedCons<T>(x: T, t: seq<T>, compare: (T, T) -> int)
    requires Sorted(t, compare)
    requires forall j :: 0 <= j < |t| ==> compare(x, t[j]) <= 0
    ensures Sorted([x] + t, compare)
  {
    var u := [x] + t;
    forall i, j | 0 <= i < j < |u| ensures compare(u[i], u[j]) <= 0 {
      if i > 0 {
        assert u[i] == t[i - 1] && u[j] == t[j - 1];
      }
    }
  }

  /** When the merge takes the right cursor's element, that element sorts
      no later than anything else still in the run. */
  lemma RightSortsFirst<T(!new)>(s: seq<T>, left: int, highPoint: int, right: int, compare: (T, T) -> int)
    requires IsTotalPreorder(compare)
    requires 0 <= left <= highPoint <= right < |s|
    requires forall i, j :: left <= i <= j <= highPoint ==> compare(s[i], s[j]) <= 0
    requires forall i, j :: highPoint <= i <= j <= right ==> compare(s[j], s[i]) <= 0
    requires TakesRight(s, left, highPoint, right, compare)
    ensures forall i :: left <= i <= right - 1 ==> compare(s[right], s[i]) <= 0
  {
    forall i | left <= i <= right - 1 ensures compare(s[right], s[i]) <= 0 {
      if i < highPoint {
        assert compare(s[right], s[left]) <= 0 && compare(s[left], s[i]) <= 0;
      }
    }
  }

  /** When the merge takes the left cursor's element, that element sorts
      no later than anything else still in the run. */
  lemma LeftSortsFirst<T(!new)>(s: seq<T>, left: int, highPoint: int, right: int, compare: (T, T) -> int)
    requires IsTotalPreorder(compare)
    requires 0 <= left <= highPoint <= right < |s|
    requires forall i, j :: left <= i <= j <= highPoint ==> compare(s[i], s[j]) <= 0
    requires forall i, j :: highPoint <= i <= j <= right ==> compare(s[j], s[i]) <= 0
    requires !TakesRight(s, left, highPoint, right, compare)
    ensures forall i :: left + 1 <= i <= right ==> compare(s[left], s[i]) <= 0
  {
    forall i | left + 1 <= i <= right ensures compare(s[left], s[i]) <= 0 {
      if i > highPoint {
        assert compare(s[left], s[right]) <= 0 && compare(s[right], s[i]) <= 0;
      }
    }
  }

  /** One step of MergedSorted: taking the right cursor's element. */
  lemma SortedStepRight<T>(s: seq<T>, left: int, highPoint: int, right: int, compare: (T, T) -> int)
    requires 0 <= left <= highPoint <= right < |s|
    requires TakesRight(s, left, highPoint, right, compare)
    requires forall i :: left <= i <= right - 1 ==> compare(s[right], s[i]) <= 0
    requires Sorted(Merged(s, left, highPoint, right - 1, compare), compare)
    ensures Sorted(Merged(s, left, highPoint, right, compare), compare)
  {
    MergedLowerBound(s, left, highPoint, right - 1, compare, s[right]);
    MergedTakesRight(s, left, highPoint, right, compare);
    SortedCons(s[right], Merged(s, left, highPoint, right - 1, compare), compare);
  }

  /** One step of MergedSorted: taking the left cursor's element. */
  lemma SortedStepLeft<T>(s: seq<T>, left: int, highPoint: int, right: int, compare: (T, T) -> int)
    requires 0 <= left <= highPoint <= right < |s|
    requires !TakesRight(s, left, highPoint, right, compare)
    requires forall i :: left + 1 <= i <= right ==> compare(s[left], s[i]) <= 0
    requires Sorted(Merged(s, left + 1, highPoint, right, compare), compare)
    ensures Sorted(Merged(s, left, highPoint, right, compare), compare)
  {
    MergedLowerBound(s, left + 1, highPoint, right, compare, s[left]);
    MergedTakesLeft(s, left, highPoint, right, compare);
    SortedCons(s[left], Merged(s, left + 1, highPoint, right, compare), compare);
  }

  /** MergedSorted when the right cursor's element comes first. */
  lemma {:induction false} MergedSortedRight<T(!new)>(s: seq<T>, left: int, highPoint: int, right: int, compare: (T, T) -> int)
    requires IsTotalPreorder(compare)
    requires 0 <= left <= highPoint <= right < |s|
    requires forall i, j :: left <= i <= j <= highPoint ==> compare(s[i], s[j]) <= 0
    requires forall i, j :: highPoint <= i <= j <= right ==> compare(s[j], s[i]) <= 0
    requires TakesRight(s, left, highPoint, right, compare)
    ensures Sorted(Merged(s, left, highPoint, right, compare), compare)
    decreases right - left, 0
  {
    MergedSorted(s, left, highPoint, right - 1, compare);
    RightSortsFirst(s, left, highPoint, right, compare);
    SortedStepRight(s, left, highPoint, right, compare);
  }

  /** MergedSorted when the left cursor's element comes first. */
  lemma {:induction false} MergedSortedLeft<T(!new)>(s: seq<T>, left: int, highPoint: int, right: int, compare: (T, T) -> int)
    requires IsTotalPreorder(compare)
    requires 0 <= left <= highPoint <= right < |s|
    requires forall i, j :: left <= i <= j <= highPoint ==> compare(s[i], s[j]) <= 0
    requires forall i, j :: highPoint <= i <= j <= right ==> compare(s[j], s[i]) <= 0
    requires !TakesRight(s, left, highPoint, right, compare)
    ensures Sorted(Merged(s, left, highPoint, right, compare), compare)
    decreases right - left, 0
  {
    MergedSorted(s, left + 1, highPoint, right, compare);
    LeftSortsFirst(s, left, highPoint, right, compare);
    SortedStepLeft(s, left, highPoint, right, compare);
  }

  /** Merging a run whose rising part and falling part are each ordered
      (pairwise) yields a sorted sequence: each step takes an element that
      sorts no later than anything still left in the run. */
  lemma {:induction false} MergedSorted<T(!new)>(s: seq<T>, left: int, highPoint: int, right: int, compare: (T, T) -> int)
    requires IsTotalPreorder(compare)
    requires 0 <= left <= right + 1 <= |s| && 0 <= highPoint < |s|
    requires left <= right ==> left <= highPoint <= right
    requires forall i, j :: left <= i <= j <= highPoint ==> compare(s[i], s[j]) <= 0
    requires forall i, j :: highPoint <= i <= j <= right ==> compare(s[j], s[i]) <= 0
    ensures Sorted(Merged(s, left, highPoint, right, compare), compare)
    decreases right - left, 1
  {
    if left > right {
    } else if TakesRight(s, left, highPoint, right, compare) {
      MergedSortedRight(s, left, highPoint, right, compare);
    } else {
      MergedSortedLeft(s, left, highPoint, right, compare);
    }
  }

  /** Once the right cursor stands on the high point, the merge is the
      remaining rising part read left to right. */
  lemma {:induction false} MergedRisingRest<T>(s: seq<T>, left: int, highPoint: int, right: int, compare: (T, T) -> int)
    requires 0 <= left <= highPoint == right < |s|
    ensures Merged(s, left, highPoint, right, compare) == s[left..right + 1]
    decreases right - left
  {
    if left < highPoint {
      MergedRisingRest(s, left + 1, highPoint, right, compare);
      assert s[left..right + 1] == [s[left]] + s[left + 1..right + 1];
    }
  }

  /** Once the left cursor stands on the high point, the merge is the
      remaining falling part read right to left. */
  lemma {:induction false} MergedFallingRest<T>(s: seq<T>, left: int, highPoint: int, right: int, compare: (T, T) -> int)
    requires 0 <= left == highPoint <= right + 1 <= |s| && highPoint < |s|
    ensures Merged(s, left, highPoint, right, compare) == Reverse(s[left..right + 1])
    decreases right - left
  {
    if left <= right {
      MergedFallingRest(s, left, highPoint, right - 1, compare);
      assert Reverse(s[left..right + 1]) == [s[right]] + Reverse(s[left..right]);
    }
  }

  /** Where the `t`-th write of a bulk copy lands when it starts at `start`
      and moves by `increment` (1 or -1) after each write. */
  function Advance(start: int, increment: int, t: int): int {
    if increment == 1 then start + t else start - t
  }

  /** The step between successive writes of a merge in the given direction. */
  function Direction(ascending: bool): int {
    if ascending then 1 else -1
  }

  /** Where a directed merge of `run` puts the j-th element it takes:
      counting up from `left` when it writes ascending, down from `right`
      when it writes descending. */
  function Slot(run: BitonicSequence, ascending: bool, j: int): int {
    Advance(if ascending then run.left else run.right, Direction(ascending), j)
  }

  /** A range filled slot by slot from `m` holds exactly the elements of `m`. */
  lemma SlotsPermutation<T>(d: seq<T>, run: BitonicSequence, ascending: bool, m: seq<T>)
    requires 0 <= run.left && run.right < |d| && |m| == run.right - run.left + 1
    requires forall j :: 0 <= j < |m| ==> d[Slot(run, ascending, j)] == m[j]
    ensures multiset(d[run.left..run.right + 1]) == multiset(m)
  {
    if ascending {
      assert d[run.left..run.right + 1] == m;
    } else {
      forall i | 0 <= i < |m| ensures d[run.left..run.right + 1][i] == Reverse(m)[i] {
        assert d[Slot(run, ascending, |m| - 1 - i)] == m[|m| - 1 - i];
      }
      assert d[run.left..run.right + 1] == Reverse(m);
      ReverseMultiset(m);
    }
  }

  /** A range filled slot by slot with the merge of its run holds exactly
      the run's elements. */
  lemma SlotsMergePermutation<T>(s: seq<T>, d: seq<T>, run: BitonicSequence, ascending: bool, compare: (T, T) -> int)
    requires 0 <= run.left <= run.highPoint <= run.right < |s| && run.right < |d|
    requires forall j :: 0 <= j <= run.right - run.left ==>
      d[Slot(run, ascending, j)] == Merged(s, run.left, run.highPoint, run.right, compare)[j]
    ensures multiset(d[run.left..run.right + 1]) == multiset(s[run.left..run.right + 1])
  {
    MergedPermutation(s, run.left, run.highPoint, run.right, compare);
    SlotsPermutation(d, run, ascending, Merged(s, run.left, run.highPoint, run.right, compare));
  }

  /** A range filled slot by slot from a sorted `m` is non-decreasing when
      filled ascending and non-increasing when filled descending. */
  lemma SlotsOrder<T(!new)>(d: seq<T>, run: BitonicSequence, ascending: bool, m: seq<T>, compare: (T, T) -> int)
    requires IsTotalPreorder(compare)
    requires 0 <= run.left && run.right < |d| && |m| == run.right - run.left + 1
    requires forall j :: 0 <= j < |m| ==> d[Slot(run, ascending, j)] == m[j]
    requires Sorted(m, compare)
    ensures ascending ==> Ascending(d, run.left, run.right, compare)
    ensures !ascending ==> Descending(d, run.left, run.right, compare)
  {
    forall i | run.left <= i < run.right
      ensures if ascending then compare(d[i], d[i + 1]) <= 0 else compare(d[i], d[i + 1]) >= 0
    {
      if ascending {
        assert d[Slot(run, ascending, i - run.left)] == m[i - run.left];
        assert d[Slot(run, ascending, i + 1 - run.left)] == m[i + 1 - run.left];
      } else {
        assert d[Slot(run, ascending, run.right - i)] == m[run.right - i];
        assert d[Slot(run, ascending, run.right - i - 1)] == m[run.right - i - 1];
        assert compare(d[i + 1], d[i]) <= 0;
      }
    }
  }

  /** An ascending range followed at once by a descending one is one bitonic
      run, whose high point is whichever of the two meeting elements sorts
      later (the ascending side's on a tie). */
  lemma JoinedRunIsBitonic<T>(d: seq<T>, left: int, middle: int, right: int, compare: (T, T) -> int)
    requires 0 <= left <= middle < right < |d|
    requires Ascending(d, left, middle, compare) && Descending(d, middle + 1, right, compare)
    ensures BitonicRun(d, BitonicSequence(left, if compare(d[middle], d[middle + 1]) >= 0 then middle else middle + 1, right), compare)
  {
  }
}
