/// The unit test of the natural merge sort as a verified client: sorting
/// integers with the comparison `(a, b) => a - b` gives the same array as
/// the framework's own sort, because both yield a sorted rearrangement of
/// the input and for integers there is only one.
module ExtensionsTests {
  import opened Ordering
  import opened Extensions

  /** The test's comparison: the difference of its arguments, negative
      exactly when the first is smaller. */
  function Difference(a: int, b: int): (d: int)
    ensures d < 0 <==> a < b
    ensures d == 0 <==> a == b
  {
    a - b
  }

  lemma DifferenceIsTotalPreorder()
    ensures IsTotalPreorder(Difference)
  {
  }

  /** The first element of a non-empty sorted sequence is its least, and
      what follows it is sorted too. */
  lemma SortedHead(a: seq<int>)
    requires a != [] && Sorted(a, Difference)
    ensures forall i :: 0 <= i < |a| ==> a[0] <= a[i]
    ensures Sorted(a[1..], Difference)
  {
    forall i | 0 < i < |a| ensures a[0] <= a[i] {
      assert Difference(a[0], a[i]) <= 0;
    }
    forall i, j | 0 <= i < j < |a| - 1 ensures Difference(a[1..][i], a[1..][j]) <= 0 {
      assert Difference(a[i + 1], a[j + 1]) <= 0;
    }
  }

  /** Two non-empty sequences with the same elements, each starting with
      its least, start with the same element. */
  lemma LeastAgree(a: seq<int>, b: seq<int>)
    requires a != [] && b != [] && multiset(a) == multiset(b)
    requires forall i :: 0 <= i < |a| ==> a[0] <= a[i]
    requires forall i :: 0 <= i < |b| ==> b[0] <= b[i]
    ensures a[0] == b[0]
  {
    assert a[0] in multiset(b) && b[0] in multiset(a);
    var i :| 0 <= i < |b| && b[i] == a[0];
    var j :| 0 <= j < |a| && a[j] == b[0];
  }

  /** Taking the same first element off two sequences with the same
      elements leaves two sequences with the same elements. */
  lemma TailsAgree(a: seq<int>, b: seq<int>)
    requires a != [] && b != [] && a[0] == b[0] && multiset(a) == multiset(b)
    ensures multiset(a[1..]) == multiset(b[1..])
  {
    assert a == [a[0]] + a[1..] && b == [b[0]] + b[1..];
    assert multiset(a) == multiset{a[0]} + multiset(a[1..]);
    assert multiset(b) == multiset{b[0]} + multiset(b[1..]);
    forall y ensures multiset(a[1..])[y] == multiset(b[1..])[y] {
      assert multiset(a)[y] == multiset(b)[y];
    }
  }

  /** Under the difference comparison two sorted sequences holding the same
      integers are equal: each starts with the least of them and the rest
      follows by induction. */
  lemma {:induction false} SortedPermutationsAgree(a: seq<int>, b: seq<int>)
    requires Sorted(a, Difference) && Sorted(b, Difference)
    requires multiset(a) == multiset(b)
    ensures a == b
    decreases |a|
  {
    if a != [] {
      assert |b| == |multiset(b)| == |a|;
      SortedHead(a);
      SortedHead(b);
      LeastAgree(a, b);
      TailsAgree(a, b);
      SortedPermutationsAgree(a[1..], b[1..]);
      assert a == [a[0]] + a[1..] && b == [b[0]] + b[1..];
    }
  }

  /** One case of the test: a copy of `original` sorted by the natural merge
      sort equals `expected`, the array the framework's sort produces, which
      is some sorted rearrangement of `original`. */
  method NaturalSortAgreesWithArraySort(original: seq<int>, expected: seq<int>) returns (actual: seq<int>)
    requires multiset(expected) == multiset(original) && Sorted(expected, Difference)
    ensures actual == expected
  {
    var copy1 := new int[|original|](i requires 0 <= i < |original| => original[i]);
    assert copy1[..] == original;
    DifferenceIsTotalPreorder();
    NaturalMergeSort(copy1, Difference);
    actual := copy1[..];
    SortedPermutationsAgree(actual, expected);
  }
}
