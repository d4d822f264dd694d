/// The order a caller's comparison function defines, and the facts about
/// sequences ordered by it that the natural merge sort relies on.
///
/// A comparison function is three-way, like `Comparison<T>` in .NET:
/// negative when its first argument sorts before the second, zero on a
/// tie, positive otherwise.
module Ordering {

  /** The caller's promise about `compare`, which the sort relies on and
      never checks: swapping the arguments flips the sign, and "sorts no
      later than" (`compare(a, b) <= 0`) is transitive. Together these make
      `compare(a, b) <= 0` a total preorder. */
  ghost predicate IsTotalPreorder<T(!new)>(compare: (T, T) -> int) {
    && (forall a, b :: compare(a, b) <= 0 <==> compare(b, a) >= 0)
    && (forall a, b, c {:trigger compare(a, b), compare(b, c), compare(a, c)} ::
          compare(a, b) <= 0 && compare(b, c) <= 0 ==> compare(a, c) <= 0)
  }

  /** Every element of `t` sorts no later than every element after it. */
  ghost predicate Sorted<T>(t: seq<T>, compare: (T, T) -> int) {
    forall i, j :: 0 <= i < j < |t| ==> compare(t[i], t[j]) <= 0
  }

  /** The step from `s[i]` to `s[i + 1]` does not fall. */
  ghost predicate StepUp<T>(s: seq<T>, i: int, compare: (T, T) -> int)
    requires 0 <= i && i + 1 < |s|
  {
    compare(s[i], s[i + 1]) <= 0
  }

  /** The step from `s[i]` to `s[i + 1]` does not rise. */
  ghost predicate StepDown<T>(s: seq<T>, i: int, compare: (T, T) -> int)
    requires 0 <= i && i + 1 < |s|
  {
    compare(s[i], s[i + 1]) >= 0
  }

  /** `s` is non-decreasing on the inclusive range [lo, hi], judged pair by
      adjacent pair, as the run scan of the sort judges it. */
  ghost predicate Ascending<T>(s: seq<T>, lo: int, hi: int, compare: (T, T) -> int)
    requires 0 <= lo && hi < |s|
  {
    forall i :: lo <= i < hi ==> StepUp(s, i, compare)
  }

  /** `s` is non-increasing on the inclusive range [lo, hi], pair by pair. */
  ghost predicate Descending<T>(s: seq<T>, lo: int, hi: int, compare: (T, T) -> int)
    requires 0 <= lo && hi < |s|
  {
    forall i :: lo <= i < hi ==> StepDown(s, i, compare)
  }

  /** Under a total preorder, adjacent steps chain: a non-decreasing range
      has every element sorting no later than every element to its right. */
  lemma {:induction false} AscendingPairs<T(!new)>(s: seq<T>, lo: int, hi: int, compare: (T, T) -> int)
    requires IsTotalPreorder(compare)
    requires 0 <= lo && hi < |s|
    requires Ascending(s, lo, hi, compare)
    ensures forall i, j :: lo <= i <= j <= hi ==> compare(s[i], s[j]) <= 0
    decreases hi - lo
  {
    if lo < hi {
      AscendingPairs(s, lo, hi - 1, compare);
      forall i, j | lo <= i <= j <= hi ensures compare(s[i], s[j]) <= 0 {
        if j == hi && i < hi {
          assert StepUp(s, hi - 1, compare);
          assert compare(s[i], s[hi - 1]) <= 0 && compare(s[hi - 1], s[hi]) <= 0;
        }
      }
    }
  }

  /** The mirror image of AscendingPairs: in a non-increasing range every
      element sorts no later than every element to its left. */
  lemma {:induction false} DescendingPairs<T(!new)>(s: seq<T>, lo: int, hi: int, compare: (T, T) -> int)
    requires IsTotalPreorder(compare)
    requires 0 <= lo && hi < |s|
    requires Descending(s, lo, hi, compare)
    ensures forall i, j :: lo <= i <= j <= hi ==> compare(s[j], s[i]) <= 0
    decreases hi - lo
  {
    if lo < hi {
      DescendingPairs(s, lo, hi - 1, compare);
      forall i, j | lo <= i <= j <= hi ensures compare(s[j], s[i]) <= 0 {
        if j == hi && i < hi {
          assert StepDown(s, hi - 1, compare);
          assert compare(s[hi], s[hi - 1]) <= 0 && compare(s[hi - 1], s[i]) <= 0;
        }
      }
    }
  }

  /** Under a total preorder a sequence that never falls from one element
      to the next is sorted, and a sorted one never falls. */
  lemma AscendingIffSorted<T(!new)>(s: seq<T>, compare: (T, T) -> int)
    requires IsTotalPreorder(compare)
    ensures Ascending(s, 0, |s| - 1, compare) <==> Sorted(s, compare)
  {
    if Ascending(s, 0, |s| - 1, compare) {
      AscendingPairs(s, 0, |s| - 1, compare);
    }
    if Sorted(s, compare) {
      forall i | 0 <= i < |s| - 1 ensures StepUp(s, i, compare) {
        assert compare(s[i], s[i + 1]) <= 0;
      }
    }
  }

  /** A range rises exactly when the slice cut out of it does. */
  lemma AscendingSlice<T>(s: seq<T>, lo: int, hi: int, compare: (T, T) -> int)
    requires 0 <= lo <= hi < |s|
    ensures Ascending(s, lo, hi, compare) <==> Ascending(s[lo..hi + 1], 0, hi - lo, compare)
  {
    var t := s[lo..hi + 1];
    if Ascending(s, lo, hi, compare) {
      forall i | 0 <= i < hi - lo ensures StepUp(t, i, compare) {
        assert StepUp(s, lo + i, compare);
      }
    }
    if Ascending(t, 0, hi - lo, compare) {
      forall i | lo <= i < hi ensures StepUp(s, i, compare) {
        assert StepUp(t, i - lo, compare);
      }
    }
  }

  /** Whether a range rises depends only on the elements in it. */
  lemma AscendingFrame<T>(s: seq<T>, t: seq<T>, lo: int, hi: int, compare: (T, T) -> int)
    requires 0 <= lo && hi < |s| && hi < |t|
    requires forall i :: lo <= i <= hi ==> s[i] == t[i]
    requires Ascending(s, lo, hi, compare)
    ensures Ascending(t, lo, hi, compare)
  {
    forall i | lo <= i < hi ensures StepUp(t, i, compare) {
      assert StepUp(s, i, compare);
    }
  }

  /** Whether a range falls depends only on the elements in it. */
  lemma DescendingFrame<T>(s: seq<T>, t: seq<T>, lo: int, hi: int, compare: (T, T) -> int)
    requires 0 <= lo && hi < |s| && hi < |t|
    requires forall i :: lo <= i <= hi ==> s[i] == t[i]
    requires Descending(s, lo, hi, compare)
    ensures Descending(t, lo, hi, compare)
  {
    forall i | lo <= i < hi ensures StepDown(t, i, compare) {
      assert StepDown(s, i, compare);
    }
  }

  /** `t` read from its last element to its first. */
  function Reverse<T>(t: seq<T>): seq<T> {
    seq(|t|, i requires 0 <= i < |t| => t[|t| - 1 - i])
  }

  /** Reversing keeps every element, each as often as before. */
  lemma {:induction false} ReverseMultiset<T>(t: seq<T>)
    ensures multiset(Reverse(t)) == multiset(t)
  {
    if t != [] {
      var u := t[..|t| - 1];
      ReverseMultiset(u);
      assert t == u + [t[|t| - 1]];
      assert Reverse(t) == [t[|t| - 1]] + Reverse(u);
    }
  }
}
