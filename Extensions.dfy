/// The natural merge sort of `Collections.Extensions`: the array is split
/// into its maximal bitonic runs, successive pairs of runs are merged into a
/// second buffer (the first of each pair ascending, the second descending,
/// which makes each pair one bitonic run again), the two buffers swap roles,
/// and this repeats until one run is left, which a last ascending merge
/// sorts.
module Extensions {
  import opened Ordering
  import opened BitonicRuns

  /** Whether writing `count` values from `start` in steps of `increment`
      writes index `i`. */
  predicate Reached(i: int, start: int, increment: int, count: int) {
    if increment == 1 then start <= i < start + count else start - count < i <= start
  }

  /** How many writes a bulk copy from `start` in steps of `increment`
      makes before it reaches index `i`: the inverse of Advance. */
  function Distance(start: int, increment: int, i: int): int {
    if increment == 1 then i - start else start - i
  }

  /** `d` after writing `values` one by one, the first at `start` and each
      next one `increment` further on. */
  function Placed<T>(d: seq<T>, start: int, increment: int, values: seq<T>): seq<T> {
    seq(|d|, i requires 0 <= i < |d| =>
      if Reached(i, start, increment, |values|) then values[Distance(start, increment, i)] else d[i])
  }

  /** Writing one value more extends the writes by one index. */
  lemma PlacedSnoc<T>(d: seq<T>, start: int, increment: int, values: seq<T>, x: T)
    requires 0 <= Advance(start, increment, |values|) < |d|
    ensures Placed(d, start, increment, values + [x]) == Placed(d, start, increment, values)[Advance(start, increment, |values|) := x]
  {
  }

  /** Writing `a` and then, from where it stopped, `b` is writing a + b. */
  lemma PlacedAppend<T>(d: seq<T>, start: int, increment: int, a: seq<T>, b: seq<T>)
    ensures Placed(Placed(d, start, increment, a), Advance(start, increment, |a|), increment, b) == Placed(d, start, increment, a + b)
  {
  }

  /** Copies source[left..right] into `destination`, reading left to right
      and writing from `destinationIndex` in steps of `increment`: the rest
      of a rising side, already in order, needs no comparison. */
  method MergeLeftSideOfBitonicSequence<T>(source: array<T>, destination: array<T>, left: int, right: int, destinationIndex: int, increment: int)
    requires source != destination
    requires increment == 1 || increment == -1
    requires left <= right ==> 0 <= left && right < source.Length
    requires left <= right ==> 0 <= destinationIndex < destination.Length
    requires left <= right ==> 0 <= Advance(destinationIndex, increment, right - left) < destination.Length
    modifies destination
    ensures left <= right ==> destination[..] == Placed(old(destination[..]), destinationIndex, increment, source[left..right + 1])
    ensures left > right ==> destination[..] == old(destination[..])
  {
    var cursor, index := left, destinationIndex;
    while cursor <= right
      invariant left <= right ==> left <= cursor <= right + 1
      invariant left > right ==> cursor == left
      invariant index == Advance(destinationIndex, increment, cursor - left)
      invariant left <= right ==> destination[..] == Placed(old(destination[..]), destinationIndex, increment, source[left..cursor])
      invariant left > right ==> destination[..] == old(destination[..])
    {
      assert source[left..cursor + 1] == source[left..cursor] + [source[cursor]];
      PlacedSnoc(old(destination[..]), destinationIndex, increment, source[left..cursor], source[cursor]);
      destination[index] := source[cursor];
      cursor := cursor + 1;
      index := index + increment;
    }
  }

  /** Copies source[left..right] into `destination`, reading right to left
      and writing from `destinationIndex` in steps of `increment`: the rest
      of a falling side, already in order, needs no comparison. */
  method MergeRightSideOfBitonicSequence<T>(source: array<T>, destination: array<T>, left: int, right: int, destinationIndex: int, increment: int)
    requires source != destination
    requires increment == 1 || increment == -1
    requires left <= right ==> 0 <= left && right < source.Length
    requires left <= right ==> 0 <= destinationIndex < destination.Length
    requires left <= right ==> 0 <= Advance(destinationIndex, increment, right - left) < destination.Length
    modifies destination
    ensures left <= right ==> destination[..] == Placed(old(destination[..]), destinationIndex, increment, Reverse(source[left..right + 1]))
    ensures left > right ==> destination[..] == old(destination[..])
  {
    var cursor, index := right, destinationIndex;
    while left <= cursor
      invariant left <= right ==> left - 1 <= cursor <= right
      invariant left > right ==> cursor == right
      invariant index == Advance(destinationIndex, increment, right - cursor)
      invariant left <= right ==> destination[..] == Placed(old(destination[..]), destinationIndex, increment, Reverse(source[cursor + 1..right + 1]))
      invariant left > right ==> destination[..] == old(destination[..])
    {
      assert Reverse(source[cursor..right + 1]) == Reverse(source[cursor + 1..right + 1]) + [source[cursor]];
      PlacedSnoc(old(destination[..]), destinationIndex, increment, Reverse(source[cursor + 1..right + 1]), source[cursor]);
      destination[index] := source[cursor];
      cursor := cursor - 1;
      index := index + increment;
    }
  }

  /** Taking the first element off the part of `m` from index k on. */
  lemma SuffixStep<T>(m: seq<T>, k: int, x: T, rest: seq<T>)
    requires 0 <= k < |m| && m[k..] == [x] + rest
    ensures m[k] == x && m[k + 1..] == rest && m[..k + 1] == m[..k] + [x]
  {
    assert m[k] == m[k..][0];
    assert m[k + 1..] == m[k..][1..];
  }

  /** One comparison of the merge: writes whichever element at the two
      cursors sorts first, the left one on a tie, and moves that cursor
      inwards. */
  method MergeNext<T>(source: array<T>, destination: array<T>, left: int, highPoint: int, right: int,
                      destinationIndex: int, increment: int, compare: (T, T) -> int,
                      ghost d0: seq<T>, ghost start: int, ghost m: seq<T>, ghost k: int)
    returns (left': int, right': int)
    requires source != destination && source.Length == destination.Length
    requires 0 <= left < highPoint < right < source.Length
    requires 0 <= destinationIndex < destination.Length
    requires 0 <= k <= |m| && destinationIndex == Advance(start, increment, k)
    requires m[k..] == Merged(source[..], left, highPoint, right, compare)
    requires destination[..] == Placed(d0, start, increment, m[..k])
    modifies destination
    ensures (left' == left + 1 && right' == right) || (left' == left && right' == right - 1)
    ensures k < |m| && m[k + 1..] == Merged(source[..], left', highPoint, right', compare)
    ensures destination[..] == Placed(d0, start, increment, m[..k + 1])
  {
    ghost var s := source[..];
    left', right' := left, right;
    if compare(source[left], source[right]) <= 0 {
      MergedTakesLeft(s, left, highPoint, right, compare);
      SuffixStep(m, k, s[left], Merged(s, left + 1, highPoint, right, compare));
      PlacedSnoc(d0, start, increment, m[..k], s[left]);
      destination[destinationIndex] := source[left];
      left' := left + 1;
    } else {
      MergedTakesRight(s, left, highPoint, right, compare);
      SuffixStep(m, k, s[right], Merged(s, left, highPoint, right - 1, compare));
      PlacedSnoc(d0, start, increment, m[..k], s[right]);
      destination[destinationIndex] := source[right];
      right' := right - 1;
    }
  }

  /** Ends a merge once a cursor stands on the high point: the rest of the
      run, m[k..], is the other side in order, copied as it is, reversed
      when it is the falling side. */
  method MergeRemainder<T>(source: array<T>, destination: array<T>, left: int, highPoint: int, right: int,
                           destinationIndex: int, increment: int, compare: (T, T) -> int,
                           ghost d0: seq<T>, ghost start: int, ghost m: seq<T>, ghost k: int)
    requires source != destination && source.Length == destination.Length
    requires 0 <= left <= highPoint <= right < source.Length && (left == highPoint || right == highPoint)
    requires increment == 1 || increment == -1
    requires 0 <= destinationIndex < destination.Length
    requires 0 <= Advance(destinationIndex, increment, right - left) < destination.Length
    requires 0 <= k <= |m| && destinationIndex == Advance(start, increment, k)
    requires m[k..] == Merged(source[..], left, highPoint, right, compare)
    requires destination[..] == Placed(d0, start, increment, m[..k])
    modifies destination
    ensures destination[..] == Placed(d0, start, increment, m)
  {
    ghost var s := source[..];
    if left == highPoint {
      MergedFallingRest(s, left, highPoint, right, compare);
      MergeRightSideOfBitonicSequence(source, destination, left, right, destinationIndex, increment);
    } else {
      MergedRisingRest(s, left, highPoint, right, compare);
      MergeLeftSideOfBitonicSequence(source, destination, left, right, destinationIndex, increment);
    }
    PlacedAppend(d0, start, increment, m[..k], m[k..]);
    assert m[..k] + m[k..] == m;
  }

  /** Merges the bitonic run `sequence` of `source` into the same index
      range of `destination`, ascending or descending as asked: one cursor
      at each end of the run walks inwards, the element that sorts first is
      written next (the left one on a tie), and once either cursor stands on
      the high point the rest of the other side is copied as it is. The
      new contents are the old ones with Merged written from the run's
      ascending or descending end. */
  method MergeSort<T>(source: array<T>, destination: array<T>, sequence: BitonicSequence, compare: (T, T) -> int, ascending: bool)
    requires source != destination && source.Length == destination.Length
    requires 0 <= sequence.left <= sequence.highPoint <= sequence.right < source.Length
    modifies destination
    ensures destination[..] == Placed(old(destination[..]), Slot(sequence, ascending, 0), Direction(ascending),
      Merged(source[..], sequence.left, sequence.highPoint, sequence.right, compare))
  {
    var left := sequence.left;
    var highPoint := sequence.highPoint;
    var right := sequence.right;

    var destinationIndex := if ascending then left else right;
    var increment := if ascending then 1 else -1;

    ghost var s, d0, start := source[..], destination[..], destinationIndex;
    ghost var m := Merged(s, left, highPoint, right, compare);
    ghost var k := 0;
    while left <= right
      invariant sequence.left <= left <= right + 1 && right <= sequence.right
      invariant left <= right ==> left <= highPoint <= right
      invariant k == (left - sequence.left) + (sequence.right - right)
      invariant destinationIndex == Advance(start, increment, k)
      invariant m[k..] == Merged(s, left, highPoint, right, compare)
      invariant destination[..] == Placed(d0, start, increment, m[..k])
    {
      if left == highPoint || right == highPoint {
        MergeRemainder(source, destination, left, highPoint, right, destinationIndex, increment, compare, d0, start, m, k);
        return;
      }

      left, right := MergeNext(source, destination, left, highPoint, right, destinationIndex, increment, compare, d0, start, m, k);
      k := k + 1;
      destinationIndex := destinationIndex + increment;
    }
    assert m[..k] == m;
  }

  /** Writing a merge of `run` into place from its ascending or descending
      end puts the j-th merged element on the j-th slot and leaves every
      index outside the run alone. */
  lemma PlacedRun<T>(d: seq<T>, run: BitonicSequence, ascending: bool, m: seq<T>)
    requires 0 <= run.left <= run.right < |d| && |m| == run.right - run.left + 1
    ensures forall j :: 0 <= j < |m| ==> Placed(d, Slot(run, ascending, 0), Direction(ascending), m)[Slot(run, ascending, j)] == m[j]
    ensures forall i :: 0 <= i < |d| && !(run.left <= i <= run.right) ==> Placed(d, Slot(run, ascending, 0), Direction(ascending), m)[i] == d[i]
  {
  }

  /** Writing a merge of `run` into place leaves everything outside the run. */
  lemma PlacedFrame<T>(d: seq<T>, run: BitonicSequence, ascending: bool, m: seq<T>)
    requires 0 <= run.left <= run.right < |d| && |m| == run.right - run.left + 1
    ensures Placed(d, Slot(run, ascending, 0), Direction(ascending), m)[..run.left] == d[..run.left]
    ensures Placed(d, Slot(run, ascending, 0), Direction(ascending), m)[run.right + 1..] == d[run.right + 1..]
  {
    PlacedRun(d, run, ascending, m);
    var d1 := Placed(d, Slot(run, ascending, 0), Direction(ascending), m);
    assert d1[..run.left] == d[..run.left];
    assert d1[run.right + 1..] == d[run.right + 1..];
  }

  /** Writing a merge of `run` into place puts exactly the run's elements
      into the run's range. */
  lemma PlacedMergePermutation<T>(s: seq<T>, d: seq<T>, run: BitonicSequence, ascending: bool, compare: (T, T) -> int)
    requires |s| == |d| && 0 <= run.left <= run.highPoint <= run.right < |s|
    ensures multiset(Placed(d, Slot(run, ascending, 0), Direction(ascending), Merged(s, run.left, run.highPoint, run.right, compare))[run.left..run.right + 1])
         == multiset(s[run.left..run.right + 1])
  {
    var m := Merged(s, run.left, run.highPoint, run.right, compare);
    PlacedRun(d, run, ascending, m);
    SlotsMergePermutation(s, Placed(d, Slot(run, ascending, 0), Direction(ascending), m), run, ascending, compare);
  }

  /** Writing a merge of a bitonic run into place orders the run's range
      in the direction asked for. */
  lemma PlacedMergeOrder<T(!new)>(s: seq<T>, d: seq<T>, run: BitonicSequence, ascending: bool, compare: (T, T) -> int)
    requires |s| == |d| && IsTotalPreorder(compare) && BitonicRun(s, run, compare)
    ensures var d1 := Placed(d, Slot(run, ascending, 0), Direction(ascending), Merged(s, run.left, run.highPoint, run.right, compare));
      if ascending then Ascending(d1, run.left, run.right, compare) else Descending(d1, run.left, run.right, compare)
  {
    var m := Merged(s, run.left, run.highPoint, run.right, compare);
    PlacedRun(d, run, ascending, m);
    AscendingPairs(s, run.left, run.highPoint, compare);
    DescendingPairs(s, run.highPoint, run.right, compare);
    MergedSorted(s, run.left, run.highPoint, run.right, compare);
    SlotsOrder(Placed(d, Slot(run, ascending, 0), Direction(ascending), m), run, ascending, m, compare);
  }

  /** Where one pass has got to after combining the first i runs: the left
      end of run i, or n once every run is done. */
  function Frontier(runs: seq<BitonicSequence>, i: int, n: int): int
    requires 0 <= i
  {
    if i < |runs| then runs[i].left else n
  }

  /** The high point a pass gives to the run made of A merged ascending and
      B merged descending into `d`: whichever of the two elements where
      they meet sorts later, A's on a tie. */
  function PairHighPoint<T>(d: seq<T>, a: BitonicSequence, b: BitonicSequence, compare: (T, T) -> int): int
    requires 0 <= a.right < |d| && 0 <= b.left < |d|
  {
    if compare(d[a.right], d[b.left]) >= 0 then a.right else b.left
  }

  /** Appending a run that starts where the tiling stops extends it. */
  lemma TilesSnoc(runs: seq<BitonicSequence>, n: int, run: BitonicSequence)
    requires Tiles(runs, n) && run.left == n && 0 <= run.left <= run.highPoint <= run.right
    ensures Tiles(runs + [run], run.right + 1)
  {
  }

  /** Runs that lie below `n` stay bitonic when only indices from n on change. */
  lemma AllBitonicFrame<T>(d: seq<T>, d1: seq<T>, runs: seq<BitonicSequence>, n: int, compare: (T, T) -> int)
    requires |d| == |d1| && 0 <= n <= |d| && d1[..n] == d[..n]
    requires forall k :: 0 <= k < |runs| ==> runs[k].right < n
    requires AllBitonic(d, runs, compare)
    ensures AllBitonic(d1, runs, compare)
  {
    forall k | 0 <= k < |runs| ensures BitonicRun(d1, runs[k], compare) {
      forall i | runs[k].left <= i <= runs[k].right ensures d[i] == d1[i] {
        assert d1[..n][i] == d[..n][i];
      }
      AscendingFrame(d, d1, runs[k].left, runs[k].highPoint, compare);
      DescendingFrame(d, d1, runs[k].highPoint, runs[k].right, compare);
    }
  }

  /** The range of `run` in `d` holds exactly the elements the same range
      of `s` holds. */
  ghost predicate HoldsOwnElements<T>(s: seq<T>, d: seq<T>, run: BitonicSequence) {
    && |d| == |s| && 0 <= run.left <= run.right < |s|
    && multiset(d[run.left..run.right + 1]) == multiset(s[run.left..run.right + 1])
  }

  ghost predicate AllHoldOwnElements<T>(s: seq<T>, d: seq<T>, runs: seq<BitonicSequence>) {
    forall k :: 0 <= k < |runs| ==> HoldsOwnElements(s, d, runs[k])
  }

  /** Runs that lie below `n` keep their elements when only indices from n
      on change. */
  lemma AllHoldOwnElementsFrame<T>(s: seq<T>, d: seq<T>, d1: seq<T>, runs: seq<BitonicSequence>, n: int)
    requires |d| == |d1| && 0 <= n <= |d| && d1[..n] == d[..n]
    requires forall k :: 0 <= k < |runs| ==> runs[k].right < n
    requires AllHoldOwnElements(s, d, runs)
    ensures AllHoldOwnElements(s, d1, runs)
  {
    forall k | 0 <= k < |runs| ensures HoldsOwnElements(s, d1, runs[k]) {
      var run := runs[k];
      assert d1[run.left..run.right + 1] == d1[..n][run.left..run.right + 1];
      assert d[run.left..run.right + 1] == d[..n][run.left..run.right + 1];
    }
  }

  /** Writing the merge order of a run into place, as MergeSort does, has
      the effect MergedRun describes. */
  lemma MergedIntoPlace<T(!new)>(s: seq<T>, d: seq<T>, d1: seq<T>, run: BitonicSequence, ascending: bool, compare: (T, T) -> int)
    requires |s| == |d| && 0 <= run.left <= run.highPoint <= run.right < |s|
    requires d1 == Placed(d, Slot(run, ascending, 0), Direction(ascending), Merged(s, run.left, run.highPoint, run.right, compare))
    ensures MergedRun(s, d, d1, run, ascending, compare)
  {
    PlacedFrame(d, run, ascending, Merged(s, run.left, run.highPoint, run.right, compare));
    PlacedMergePermutation(s, d, run, ascending, compare);
    if IsTotalPreorder(compare) && BitonicRun(s, run, compare) {
      PlacedMergeOrder(s, d, run, ascending, compare);
    }
  }

  /** Two adjacent ranges that each hold their own elements together hold
      their own elements. */
  lemma SplitPermutation<T>(s: seq<T>, d: seq<T>, lo: int, m: int, hi: int)
    requires |d| == |s| && 0 <= lo <= m <= hi <= |s|
    requires multiset(d[lo..m]) == multiset(s[lo..m]) && multiset(d[m..hi]) == multiset(s[m..hi])
    ensures multiset(d[lo..hi]) == multiset(s[lo..hi])
  {
    assert d[lo..hi] == d[lo..m] + d[m..hi];
    assert s[lo..hi] == s[lo..m] + s[m..hi];
  }

  /** Two adjacent runs merged one after the other, `d` to `da` to `d1`,
      together hold exactly their own elements, whatever the high point of
      the run they now form, and nothing before them changes. */
  lemma PairPermutation<T>(s: seq<T>, d: seq<T>, da: seq<T>, d1: seq<T>, a: BitonicSequence, b: BitonicSequence, highPoint: int)
    requires |s| == |d| == |da| == |d1|
    requires b.left == a.right + 1
    requires HoldsOwnElements(s, da, a) && da[..a.left] == d[..a.left]
    requires HoldsOwnElements(s, d1, b) && d1[..b.left] == da[..b.left]
    ensures d1[..a.left] == d[..a.left]
    ensures HoldsOwnElements(s, d1, BitonicSequence(a.left, highPoint, b.right))
  {
    assert d1[..a.left] == da[..b.left][..a.left];
    assert d1[a.left..b.left] == da[..b.left][a.left..b.left];
    SplitPermutation(s, d1, a.left, b.left, b.right + 1);
  }

  /** Two adjacent runs merged one after the other change nothing outside
      the span of the two. */
  lemma PairFrame<T>(d: seq<T>, da: seq<T>, d1: seq<T>, a: BitonicSequence, b: BitonicSequence)
    requires |d| == |da| == |d1|
    requires 0 <= a.left <= a.right && b.left == a.right + 1 && b.left <= b.right < |d|
    requires da[..a.left] == d[..a.left] && da[a.right + 1..] == d[a.right + 1..]
    requires d1[..b.left] == da[..b.left] && d1[b.right + 1..] == da[b.right + 1..]
    ensures forall j :: 0 <= j < |d| && !(a.left <= j <= b.right) ==> d1[j] == d[j]
  {
  }

  /** Two adjacent runs merged one after the other, the first ascending and
      the second descending, form one bitonic run at PairHighPoint, and the
      runs already formed below them stay bitonic. */
  lemma PairBitonic<T>(d: seq<T>, da: seq<T>, d1: seq<T>, a: BitonicSequence, b: BitonicSequence, compare: (T, T) -> int, runs: seq<BitonicSequence>)
    requires |d| == |da| == |d1|
    requires 0 <= a.left <= a.right && b.left == a.right + 1 && b.left <= b.right < |d|
    requires forall k :: 0 <= k < |runs| ==> runs[k].right < a.left
    requires AllBitonic(d, runs, compare)
    requires da[..a.left] == d[..a.left] && Ascending(da, a.left, a.right, compare)
    requires d1[..b.left] == da[..b.left] && Descending(d1, b.left, b.right, compare)
    ensures AllBitonic(d1, runs + [BitonicSequence(a.left, PairHighPoint(d1, a, b, compare), b.right)], compare)
  {
    AllBitonicFrame(d, da, runs, a.left, compare);
    assert d1[..a.left] == da[..b.left][..a.left];
    AllBitonicFrame(da, d1, runs, a.left, compare);
    forall i | a.left <= i <= a.right ensures da[i] == d1[i] {
      assert d1[..b.left][i] == da[..b.left][i];
    }
    AscendingFrame(da, d1, a.left, a.right, compare);
    JoinedRunIsBitonic(d1, a.left, a.right, b.right, compare);
  }

  /** The last run of an odd count, merged ascending, is a bitonic run with
      its high point at its right end, and the runs already formed below it
      stay bitonic. */
  lemma LastRunBitonic<T>(d: seq<T>, d1: seq<T>, a: BitonicSequence, compare: (T, T) -> int, runs: seq<BitonicSequence>)
    requires |d| == |d1| && 0 <= a.left <= a.right < |d|
    requires forall k :: 0 <= k < |runs| ==> runs[k].right < a.left
    requires AllBitonic(d, runs, compare)
    requires d1[..a.left] == d[..a.left] && Ascending(d1, a.left, a.right, compare)
    ensures AllBitonic(d1, runs + [BitonicSequence(a.left, a.right, a.right)], compare)
  {
    AllBitonicFrame(d, d1, runs, a.left, compare);
  }

  /** What merging one run from `s` changes when `d` becomes `d1`: the
      run's own elements fill its slots, in the chosen direction when the
      run was bitonic, and nothing outside it changes. */
  ghost predicate MergedRun<T(!new)>(s: seq<T>, d: seq<T>, d1: seq<T>, run: BitonicSequence, ascending: bool, compare: (T, T) -> int) {
    && |s| == |d| == |d1| && 0 <= run.left <= run.right < |s|
    && d1[..run.left] == d[..run.left] && d1[run.right + 1..] == d[run.right + 1..]
    && HoldsOwnElements(s, d1, run)
    && (IsTotalPreorder(compare) && BitonicRun(s, run, compare) && ascending ==> Ascending(d1, run.left, run.right, compare))
    && (IsTotalPreorder(compare) && BitonicRun(s, run, compare) && !ascending ==> Descending(d1, run.left, run.right, compare))
  }

  /** MergeSort as one pass uses it, stated without the merge itself. */
  method MergeRun<T(!new)>(source: array<T>, destination: array<T>, run: BitonicSequence, compare: (T, T) -> int, ascending: bool,
                           ghost s: seq<T>)
    requires source != destination && source.Length == destination.Length && s == source[..]
    requires 0 <= run.left <= run.highPoint <= run.right < source.Length
    modifies destination
    ensures MergedRun(s, old(destination[..]), destination[..], run, ascending, compare)
  {
    ghost var d := destination[..];
    MergeSort(source, destination, run, compare, ascending);
    MergedIntoPlace(s, d, destination[..], run, ascending, compare);
  }

  /** Run k of a pass spans source runs 2k and 2k + 1, or run 2k alone
      when that one is last. */
  ghost predicate Pairs(sourceRuns: seq<BitonicSequence>, runs: seq<BitonicSequence>) {
    forall k :: 0 <= k < |runs| ==>
      && 2 * k < |sourceRuns|
      && runs[k].left == sourceRuns[2 * k].left
      && runs[k].right == sourceRuns[if 2 * k + 1 < |sourceRuns| then 2 * k + 1 else 2 * k].right
  }

  lemma PairsSnoc(sourceRuns: seq<BitonicSequence>, runs: seq<BitonicSequence>, run: BitonicSequence)
    requires Pairs(sourceRuns, runs) && 2 * |runs| < |sourceRuns|
    requires run.left == sourceRuns[2 * |runs|].left
    requires run.right == sourceRuns[if 2 * |runs| + 1 < |sourceRuns| then 2 * |runs| + 1 else 2 * |runs|].right
    ensures Pairs(sourceRuns, runs + [run])
  {
  }

  /** Along a tiling, the frontier after run i is just past its right end. */
  lemma FrontierStep(runs: seq<BitonicSequence>, i: int, n: int)
    requires Tiles(runs, n) && 0 <= i < |runs|
    ensures Frontier(runs, i, n) == runs[i].left
    ensures Frontier(runs, i + 1, n) == runs[i].right + 1
  {
  }

  /** The shape of a pass after its first i source runs: `runs` pairs them
      up and tiles their span; after a last unpaired run, i is odd and the
      run it became has its high point at its right end. */
  ghost predicate PassShape(sourceRuns: seq<BitonicSequence>, i: int, runs: seq<BitonicSequence>, n: int) {
    && Tiles(sourceRuns, n)
    && 0 <= i <= |sourceRuns| && (2 * |runs| == i || 2 * |runs| == i + 1)
    && (i == 2 * |runs| - 1 ==> i == |sourceRuns| && runs[|runs| - 1].highPoint == runs[|runs| - 1].right)
    && Pairs(sourceRuns, runs)
    && Tiles(runs, Frontier(sourceRuns, i, n))
  }

  /** The contents after the first i source runs: each new run's range
      holds exactly what that range of `s` held, and the runs are bitonic
      in `d` if the
      source runs were bitonic in `s` under a total preorder (`good`). */
  ghost predicate PassContents<T(!new)>(s: seq<T>, d: seq<T>, sourceRuns: seq<BitonicSequence>, i: int,
                                       runs: seq<BitonicSequence>, compare: (T, T) -> int, good: bool)
    requires 0 <= i
  {
    && |d| == |s| && 0 <= Frontier(sourceRuns, i, |s|) <= |s|
    && AllHoldOwnElements(s, d, runs)
    && good == (IsTotalPreorder(compare) && AllBitonic(s, sourceRuns, compare))
    && (good ==> AllBitonic(d, runs, compare))
  }

  ghost predicate PassInvariant<T(!new)>(s: seq<T>, d: seq<T>, sourceRuns: seq<BitonicSequence>, i: int,
                                        runs: seq<BitonicSequence>, compare: (T, T) -> int, good: bool) {
    PassShape(sourceRuns, i, runs, |s|) && PassContents(s, d, sourceRuns, i, runs, compare, good)
  }

  lemma PassStart<T(!new)>(s: seq<T>, sourceRuns: seq<BitonicSequence>, compare: (T, T) -> int, good: bool)
    requires Tiles(sourceRuns, |s|) && good == (IsTotalPreorder(compare) && AllBitonic(s, sourceRuns, compare))
    ensures PassInvariant(s, s, sourceRuns, 0, [], compare, good)
  {
    if 0 < |sourceRuns| {
      FrontierStep(sourceRuns, 0, |s|);
    }
  }

  /** The shape carried over a pair of source runs i and i + 1 that became
      one run peaking at either of the ends where they meet. */
  lemma PairShape(sourceRuns: seq<BitonicSequence>, i: int, runs: seq<BitonicSequence>, n: int, highPoint: int)
    requires PassShape(sourceRuns, i, runs, n) && i + 1 < |sourceRuns|
    requires highPoint == sourceRuns[i].right || highPoint == sourceRuns[i + 1].left
    ensures PassShape(sourceRuns, i + 2, runs + [BitonicSequence(sourceRuns[i].left, highPoint, sourceRuns[i + 1].right)], n)
  {
    var a, b := sourceRuns[i], sourceRuns[i + 1];
    var run := BitonicSequence(a.left, highPoint, b.right);
    FrontierStep(sourceRuns, i, n);
    FrontierStep(sourceRuns, i + 1, n);
    PairsSnoc(sourceRuns, runs, run);
    TilesSnoc(runs, a.left, run);
  }

  /** The contents carried over a pair of source runs i and i + 1 merged
      from `d` through `da` into `d1`. */
  lemma PairContents<T(!new)>(s: seq<T>, d: seq<T>, da: seq<T>, d1: seq<T>, sourceRuns: seq<BitonicSequence>, i: int,
                              runs: seq<BitonicSequence>, compare: (T, T) -> int, good: bool)
    requires PassShape(sourceRuns, i, runs, |s|) && i + 1 < |sourceRuns|
    requires PassContents(s, d, sourceRuns, i, runs, compare, good)
    requires MergedRun(s, d, da, sourceRuns[i], true, compare) && MergedRun(s, da, d1, sourceRuns[i + 1], false, compare)
    ensures PassContents(s, d1, sourceRuns, i + 2,
      runs + [BitonicSequence(sourceRuns[i].left, PairHighPoint(d1, sourceRuns[i], sourceRuns[i + 1], compare), sourceRuns[i + 1].right)],
      compare, good)
  {
    var a, b := sourceRuns[i], sourceRuns[i + 1];
    FrontierStep(sourceRuns, i, |s|);
    FrontierStep(sourceRuns, i + 1, |s|);
    PairPermutation(s, d, da, d1, a, b, PairHighPoint(d1, a, b, compare));
    AllHoldOwnElementsFrame(s, d, da, runs, a.left);
    AllHoldOwnElementsFrame(s, da, d1, runs, b.left);
    if good {
      assert BitonicRun(s, a, compare) && BitonicRun(s, b, compare);
      PairBitonic(d, da, d1, a, b, compare, runs);
    }
  }

  /** The same for a last, unpaired run (source run i) merged from `d`
      into `d1`: the pass then covers the whole array. */
  lemma LastStep<T(!new)>(s: seq<T>, d: seq<T>, d1: seq<T>, sourceRuns: seq<BitonicSequence>, i: int,
                          runs: seq<BitonicSequence>, compare: (T, T) -> int, good: bool)
    requires PassInvariant(s, d, sourceRuns, i, runs, compare, good) && i + 1 == |sourceRuns|
    requires MergedRun(s, d, d1, sourceRuns[i], true, compare)
    ensures PassInvariant(s, d1, sourceRuns, i + 1,
      runs + [BitonicSequence(sourceRuns[i].left, sourceRuns[i].right, sourceRuns[i].right)], compare, good)
  {
    var a := sourceRuns[i];
    var run := BitonicSequence(a.left, a.right, a.right);
    FrontierStep(sourceRuns, i, |s|);
    AllHoldOwnElementsFrame(s, d, d1, runs, a.left);
    assert HoldsOwnElements(s, d1, run);
    if good {
      LastRunBitonic(d, d1, a, compare, runs);
    }
    PairsSnoc(sourceRuns, runs, run);
    TilesSnoc(runs, a.left, run);
  }

  /** In a tiling every run ends before any later run starts. */
  lemma {:induction false} TilesBelow(runs: seq<BitonicSequence>, n: int, k: int)
    requires Tiles(runs, n) && 0 <= k < |runs|
    ensures forall j :: 0 <= j < k ==> runs[j].right < runs[k].left
    decreases k
  {
    if k > 0 {
      TilesBelow(runs, n, k - 1);
    }
  }

  /** Runs that tile [0, n), each holding its own elements, leave [0, n)
      holding exactly its own elements. */
  lemma {:induction false} TiledPermutation<T>(s: seq<T>, d: seq<T>, runs: seq<BitonicSequence>, n: int)
    requires |d| == |s| && 0 <= n <= |s|
    requires Tiles(runs, n) && AllHoldOwnElements(s, d, runs)
    ensures multiset(d[..n]) == multiset(s[..n])
    decreases |runs|
  {
    if |runs| > 0 {
      var last := runs[|runs| - 1];
      var prefix := runs[..|runs| - 1];
      TilesBelow(runs, n, |runs| - 1);
      if |prefix| > 0 {
        assert prefix[|prefix| - 1].right + 1 == last.left;
      }
      assert Tiles(prefix, last.left);
      assert AllHoldOwnElements(s, d, prefix) by {
        forall k | 0 <= k < |prefix| ensures HoldsOwnElements(s, d, prefix[k]) {
          assert prefix[k] == runs[k];
        }
      }
      TiledPermutation(s, d, prefix, last.left);
      assert HoldsOwnElements(s, d, last);
      assert d[..last.left] == d[0..last.left] && s[..last.left] == s[0..last.left];
      SplitPermutation(s, d, 0, last.left, n);
      assert d[..n] == d[0..n] && s[..n] == s[0..n];
    }
  }

  /** A pass that has gone through every source run has merged them all. */
  lemma PassComplete<T(!new)>(s: seq<T>, d: seq<T>, sourceRuns: seq<BitonicSequence>, i: int, runs: seq<BitonicSequence>,
                              compare: (T, T) -> int, good: bool)
    requires PassInvariant(s, d, sourceRuns, i, runs, compare, good) && i == |sourceRuns|
    ensures |runs| == (|sourceRuns| + 1) / 2
    ensures Tiles(runs, |s|)
    ensures Pairs(sourceRuns, runs)
    ensures |sourceRuns| == 2 * |runs| - 1 ==> runs[|runs| - 1].highPoint == runs[|runs| - 1].right
    ensures multiset(d) == multiset(s)
    ensures AllHoldOwnElements(s, d, runs)
    ensures IsTotalPreorder(compare) && AllBitonic(s, sourceRuns, compare) ==> AllBitonic(d, runs, compare)
  {
    TiledPermutation(s, d, runs, |s|);
    assert d[..|s|] == d && s[..|s|] == s;
  }

  /** The body of a pass for one pair of runs: merges source run i
      ascending and run i + 1 descending into the same places in
      `destination`, and returns where the new bitonic run peaks, that is
      the larger of the two ends that now meet. */
  method MergePair<T(!new)>(source: array<T>, destination: array<T>, sourceBitonicSequences: seq<BitonicSequence>, i: int,
                            compare: (T, T) -> int, ghost s: seq<T>, ghost runs: seq<BitonicSequence>, ghost good: bool)
    returns (highPoint: int)
    requires source != destination && source.Length == destination.Length && s == source[..]
    requires PassInvariant(s, destination[..], sourceBitonicSequences, i, runs, compare, good) && i + 1 < |sourceBitonicSequences|
    modifies destination
    ensures highPoint == PairHighPoint(destination[..], sourceBitonicSequences[i], sourceBitonicSequences[i + 1], compare)
    ensures forall j :: 0 <= j < destination.Length && !(sourceBitonicSequences[i].left <= j <= sourceBitonicSequences[i + 1].right) ==>
      destination[j] == old(destination[j])
    ensures PassInvariant(s, destination[..], sourceBitonicSequences, i + 2,
      runs + [BitonicSequence(sourceBitonicSequences[i].left, highPoint, sourceBitonicSequences[i + 1].right)], compare, good)
  {
    var currentSequence, nextSequence := sourceBitonicSequences[i], sourceBitonicSequences[i + 1];
    ghost var d := destination[..];
    MergeRun(source, destination, currentSequence, compare, true, s);
    ghost var da := destination[..];
    MergeRun(source, destination, nextSequence, compare, false, s);

    highPoint := if compare(destination[currentSequence.right], destination[nextSequence.left]) >= 0
      then currentSequence.right
      else nextSequence.left;
    PairFrame(d, da, destination[..], currentSequence, nextSequence);
    forall j | 0 <= j < destination.Length && !(currentSequence.left <= j <= nextSequence.right)
      ensures destination[j] == old(destination[j])
    {
      assert destination[j] == destination[..][j] && old(destination[j]) == d[j];
    }
    PairShape(sourceBitonicSequences, i, runs, |s|, highPoint);
    PairContents(s, d, da, destination[..], sourceBitonicSequences, i, runs, compare, good);
  }

  /** The body of a pass for a last, unpaired run i: merges it ascending
      into the same places in `destination`. */
  method MergeLast<T(!new)>(source: array<T>, destination: array<T>, sourceBitonicSequences: seq<BitonicSequence>, i: int,
                            compare: (T, T) -> int, ghost s: seq<T>, ghost runs: seq<BitonicSequence>, ghost good: bool)
    requires source != destination && source.Length == destination.Length && s == source[..]
    requires PassInvariant(s, destination[..], sourceBitonicSequences, i, runs, compare, good) && i + 1 == |sourceBitonicSequences|
    modifies destination
    ensures forall j :: 0 <= j < sourceBitonicSequences[i].left ==> destination[j] == old(destination[j])
    ensures PassInvariant(s, destination[..], sourceBitonicSequences, i + 1,
      runs + [BitonicSequence(sourceBitonicSequences[i].left, sourceBitonicSequences[i].right, sourceBitonicSequences[i].right)],
      compare, good)
  {
    ghost var d := destination[..];
    MergeRun(source, destination, sourceBitonicSequences[i], compare, true, s);
    LastStep(s, d, destination[..], sourceBitonicSequences, i, runs, compare, good);
  }

  /** One pass of the sort: takes the runs of `source` two at a time and
      merges the first of each pair ascending and the second descending
      into the same places in `destination`, so that each pair becomes one
      bitonic run there; a last unpaired run is merged ascending alone. The
      new runs again tile the array, each spans its pair, there are half as
      many (rounded up), `destination` holds exactly the elements of
      `source`, and the new runs are bitonic whenever the old ones were and
      `compare` is a total preorder. */
  method CombineSuccessiveSequences<T(!new)>(compare: (T, T) -> int, source: array<T>, destination: array<T>,
                                             sourceBitonicSequences: seq<BitonicSequence>)
    returns (destinationBitonicSequences: seq<BitonicSequence>)
    requires source != destination && source.Length == destination.Length
    requires Tiles(sourceBitonicSequences, source.Length)
    modifies destination
    ensures |destinationBitonicSequences| == (|sourceBitonicSequences| + 1) / 2
    ensures Tiles(destinationBitonicSequences, source.Length)
    ensures Pairs(sourceBitonicSequences, destinationBitonicSequences)
    ensures |sourceBitonicSequences| == 2 * |destinationBitonicSequences| - 1 ==>
      destinationBitonicSequences[|destinationBitonicSequences| - 1].highPoint == destinationBitonicSequences[|destinationBitonicSequences| - 1].right
    ensures multiset(destination[..]) == multiset(source[..])
    ensures AllHoldOwnElements(source[..], destination[..], destinationBitonicSequences)
    ensures IsTotalPreorder(compare) && AllBitonic(source[..], sourceBitonicSequences, compare) ==>
      AllBitonic(destination[..], destinationBitonicSequences, compare)
  {
    var bitonicSequenceCount := |sourceBitonicSequences|;
    destinationBitonicSequences := [];
    ghost var s := source[..];
    ghost var good := IsTotalPreorder(compare) && AllBitonic(s, sourceBitonicSequences, compare);
    PassStart(s, sourceBitonicSequences, compare, good);

    var currentSequenceIndex := 0;
    while currentSequenceIndex < bitonicSequenceCount
      invariant PassInvariant(s, destination[..], sourceBitonicSequences, currentSequenceIndex, destinationBitonicSequences, compare, good)
    {
      var currentSequence := sourceBitonicSequences[currentSequenceIndex];

      if currentSequenceIndex == bitonicSequenceCount - 1 {
        MergeLast(source, destination, sourceBitonicSequences, currentSequenceIndex, compare, s, destinationBitonicSequences, good);
        destinationBitonicSequences := destinationBitonicSequences + [BitonicSequence(currentSequence.left, currentSequence.right, currentSequence.right)];
        break;
      }

      var nextSequence := sourceBitonicSequences[currentSequenceIndex + 1];
      var highPoint := MergePair(source, destination, sourceBitonicSequences, currentSequenceIndex, compare, s,
                                 destinationBitonicSequences, good);
      destinationBitonicSequences := destinationBitonicSequences + [BitonicSequence(currentSequence.left, highPoint, nextSequence.right)];
      currentSequenceIndex := currentSequenceIndex + 2;
    }
    assert source[..] == s;
    PassComplete(source[..], destination[..], sourceBitonicSequences, bitonicSequenceCount, destinationBitonicSequences, compare, good);
  }

  /** A bitonic, maximal run found where the earlier ones end extends the
      scan's invariant. */
  lemma ScanSnoc<T>(s: seq<T>, runs: seq<BitonicSequence>, run: BitonicSequence, compare: (T, T) -> int)
    requires Tiles(runs, run.left) && AllBitonic(s, runs, compare) && AllMaximal(s, runs, compare)
    requires BitonicRun(s, run, compare) && Maximal(s, run, compare)
    ensures Tiles(runs + [run], run.right + 1) && AllBitonic(s, runs + [run], compare) && AllMaximal(s, runs + [run], compare)
  {
    TilesSnoc(runs, run.left, run);
  }

  /** What the two scans of ScanRun leave behind makes a bitonic run that
      neither scan could have grown. */
  lemma RunFound<T>(s: seq<T>, left: int, highPoint: int, right: int, compare: (T, T) -> int)
    requires 0 <= left <= highPoint < right <= |s|
    requires Ascending(s, left, highPoint, compare) && Descending(s, highPoint, right - 1, compare)
    requires highPoint + 1 == |s| || compare(s[highPoint], s[highPoint + 1]) > 0
    requires right == |s| || compare(s[right - 1], s[right]) < 0
    ensures BitonicRun(s, BitonicSequence(left, highPoint, right - 1), compare)
    ensures Maximal(s, BitonicSequence(left, highPoint, right - 1), compare)
  {
  }

  /** Scans one bitonic run starting at `left`: first the longest rise
      (each next element sorting no earlier than the one before), whose
      last element is the high point, then the longest fall after it.
      `right` is one past the run's end. */
  method ScanRun<T>(values: array<T>, compare: (T, T) -> int, left: int, ghost s: seq<T>) returns (highPoint: int, right: int)
    requires 0 <= left < values.Length && s == values[..]
    ensures left <= highPoint < right <= values.Length
    ensures BitonicRun(s, BitonicSequence(left, highPoint, right - 1), compare)
    ensures Maximal(s, BitonicSequence(left, highPoint, right - 1), compare)
  {
    var length := values.Length;
    right := left;

    var temp := values[right];
    right := right + 1;
    while right < length && compare(temp, values[right]) <= 0
      invariant left < right <= length && temp == s[right - 1]
      invariant Ascending(s, left, right - 1, compare)
    {
      temp := values[right];
      right := right + 1;
    }

    highPoint := right - 1;
    assert highPoint + 1 == |s| || compare(s[highPoint], s[highPoint + 1]) > 0;
    while right < length && compare(temp, values[right]) >= 0
      invariant highPoint < right <= length && temp == s[right - 1]
      invariant Descending(s, highPoint, right - 1, compare)
    {
      temp := values[right];
      right := right + 1;
    }
    RunFound(s, left, highPoint, right, compare);
  }

  /** Splits `values` into its bitonic runs, left to right: each run rises
      (pair by pair, ties allowed) as far as it can from where the last one
      ended and then falls as far as it can. The runs tile the array, each
      is bitonic, and none can be grown the way the scan grows it. */
  method ComputeBitonicSequences<T>(values: array<T>, compare: (T, T) -> int) returns (bitonicSequences: seq<BitonicSequence>)
    ensures Tiles(bitonicSequences, values.Length)
    ensures AllBitonic(values[..], bitonicSequences, compare)
    ensures AllMaximal(values[..], bitonicSequences, compare)
  {
    ghost var s := values[..];
    var length := values.Length;
    var left := 0;
    var right := 0;
    bitonicSequences := [];

    while right < length
      invariant 0 <= right <= length
      invariant Tiles(bitonicSequences, right)
      invariant AllBitonic(s, bitonicSequences, compare)
      invariant AllMaximal(s, bitonicSequences, compare)
    {
      left := right;
      var highPoint;
      highPoint, right := ScanRun(values, compare, left, s);
      ScanSnoc(s, bitonicSequences, BitonicSequence(left, highPoint, right - 1), compare);
      bitonicSequences := bitonicSequences + [BitonicSequence(left, highPoint, right - 1)];
    }
  }

  /** The run has no falling part: it is in order without a final merge. */
  predicate IsSortedAscending(sequence: BitonicSequence) {
    sequence.highPoint == sequence.right
  }

  /** A bitonic run with no falling part holds its elements in order, and
      for a run the scan could not grow that is the only way to be in
      order: a step down after its high point would be a strict fall. */
  lemma SortedAscendingMeansSorted<T(!new)>(s: seq<T>, run: BitonicSequence, compare: (T, T) -> int)
    requires IsTotalPreorder(compare) && BitonicRun(s, run, compare)
    ensures IsSortedAscending(run) ==> Sorted(s[run.left..run.right + 1], compare)
    ensures Maximal(s, run, compare) ==> (IsSortedAscending(run) <==> Sorted(s[run.left..run.right + 1], compare))
  {
    AscendingSlice(s, run.left, run.right, compare);
    AscendingIffSorted(s[run.left..run.right + 1], compare);
  }

  /** Copies the first `to.Length` elements of `from` into `to`; nothing
      to do when both are the same array. */
  method Copy<T>(from: array<T>, to: array<T>)
    requires to.Length <= from.Length
    modifies to
    ensures to[..] == old(from[..to.Length])
  {
    if from == to {
      assert from[..to.Length] == from[..];
      return;
    }
    forall i | 0 <= i < to.Length {
      to[i] := from[i];
    }
  }

  /** The last step of the sort, once `source` is one bitonic run: that
      run ends up in `values` in order, merged ascending through
      `destination` unless it has no falling part, in which case it is
      only copied, and not even that when `source` is `values`. */
  method FinishSort<T(!new)>(values: array<T>, source: array<T>, destination: array<T>, sequence: BitonicSequence,
                             compare: (T, T) -> int)
    requires source != destination && source.Length == values.Length && destination.Length == values.Length
    requires values == source || values == destination
    requires sequence.left == 0 <= sequence.highPoint <= sequence.right == values.Length - 1
    requires IsTotalPreorder(compare) ==> BitonicRun(source[..], sequence, compare)
    modifies values, destination
    ensures IsTotalPreorder(compare) ==> Sorted(values[..], compare)
    ensures multiset(values[..]) == multiset(old(source[..]))
    ensures IsSortedAscending(sequence) ==> values[..] == old(source[..])
    ensures IsSortedAscending(sequence) && source == values ==> values[..] == old(values[..])
  {
    if IsSortedAscending(sequence) {
      assert source[sequence.left..sequence.right + 1] == source[..];
      if IsTotalPreorder(compare) {
        SortedAscendingMeansSorted(source[..], sequence, compare);
      }
      Copy(source, values);
    } else {
      ghost var s, d := source[..], destination[..];
      MergeSort(source, destination, sequence, compare, true);
      MergedIntoPlace(s, d, destination[..], sequence, true, compare);
      assert destination[sequence.left..sequence.right + 1] == destination[..];
      assert s[sequence.left..sequence.right + 1] == s;
      if IsTotalPreorder(compare) {
        AscendingIffSorted(destination[..], compare);
      }
      Copy(destination, values);
    }
  }

  /** Sorts `values` in place by `compare`: splits it into its bitonic
      runs, merges them pairwise into runs half as many until one is
      left, going back and forth between `values` and one scratch array of
      the same length, and finally merges that run ascending unless it is
      ascending already. Whatever `compare` is, the sort ends and `values`
      holds exactly its old elements; when `compare` is a total preorder
      they come out sorted. An array already in order, which includes
      every array of length 0 or 1, is left untouched. */
  method NaturalMergeSort<T(0,!new)>(values: array<T>, compare: (T, T) -> int)
    modifies values
    ensures IsTotalPreorder(compare) ==> Sorted(values[..], compare)
    ensures multiset(values[..]) == multiset(old(values[..]))
    ensures Ascending(old(values[..]), 0, values.Length - 1, compare) ==> values[..] == old(values[..])
  {
    var length := values.Length;
    if length <= 1 {
      return;
    }

    var tempStorage := new T[length];

    var source := values;
    var destination := tempStorage;

    var sourceBitonicSequences := ComputeBitonicSequences(source, compare);
    var destinationBitonicSequences: seq<BitonicSequence> := [];
    ghost var ascending := Ascending(values[..], 0, length - 1, compare);
    if ascending {
      AscendingInputIsOneRun(values[..], sourceBitonicSequences, compare);
    }

    while |sourceBitonicSequences| >= 2
      invariant source.Length == length && destination.Length == length
      invariant (source == values && destination == tempStorage) || (source == tempStorage && destination == values)
      invariant Tiles(sourceBitonicSequences, length)
      invariant IsTotalPreorder(compare) ==> AllBitonic(source[..], sourceBitonicSequences, compare)
      invariant multiset(source[..]) == multiset(old(values[..]))
      invariant ascending ==> source == values && values[..] == old(values[..])
      invariant ascending ==> sourceBitonicSequences == [BitonicSequence(0, length - 1, length - 1)]
      decreases |sourceBitonicSequences|
    {
      destinationBitonicSequences := CombineSuccessiveSequences(compare, source, destination, sourceBitonicSequences);

      source, destination := destination, source;
      sourceBitonicSequences, destinationBitonicSequences := destinationBitonicSequences, sourceBitonicSequences;
    }

    FinishSort(values, source, destination, sourceBitonicSequences[0], compare);
  }
}
