/** Orders given by a comparator, sorting, and the contract of a distributed sort. */
module DistributedSort {
  import opened Sequences

  ghost predicate Sorted<T(!new)>(s: seq<T>, less: (T, T) -> bool) {
    forall p, q | 0 <= p < q < |s| :: !less(s[q], s[p])
  }

  /** Elements of different ranks differ in their keys, and lower ranks hold the smaller keys. */
  ghost predicate EqualKeysTogether<T(!new)>(parts: seq<seq<T>>, less: (T, T) -> bool) {
    forall r, s, i, j | 0 <= r < s < |parts| && 0 <= i < |parts[r]| && 0 <= j < |parts[s]| ::
      less(parts[r][i], parts[s][j])
  }

  /** What is assumed of comm.sort: a globally sorted permutation with equal keys on one rank. */
  ghost predicate SortContract<T(!new)>(before: seq<seq<T>>, after: seq<seq<T>>, less: (T, T) -> bool) {
    && |after| == |before|
    && multiset(Flatten(after)) == multiset(Flatten(before))
    && Sorted(Flatten(after), less)
    && EqualKeysTogether(after, less)
  }

  predicate SomeRankEmpty<T>(parts: seq<seq<T>>) {
    exists r | 0 <= r < |parts| :: |parts[r]| == 0
  }

  /** What the sorting functions of C++ require of a comparator. */
  ghost predicate IsStrictWeakOrder<T(!new)>(less: (T, T) -> bool) {
    && (forall x, y :: less(x, y) ==> !less(y, x))
    && (forall x, y, z :: less(x, z) ==> less(x, y) || less(y, z))
  }

  lemma NotLessIsTransitive<T(!new)>(less: (T, T) -> bool, x: T, y: T, z: T)
    requires IsStrictWeakOrder(less) && !less(x, y) && !less(y, z)
    ensures !less(x, z)
  {}

  // ----- std::sort, written out -----

  function Inserted<T>(s: seq<T>, x: T, less: (T, T) -> bool): (r: seq<T>)
    ensures |r| == |s| + 1
  {
    if s == [] || !less(x, s[|s| - 1]) then s + [x]
    else Inserted(s[..|s| - 1], x, less) + [s[|s| - 1]]
  }

  function SortedBy<T>(s: seq<T>, less: (T, T) -> bool): (r: seq<T>)
    ensures |r| == |s|
  {
    if s == [] then [] else Inserted(SortedBy(s[..|s| - 1], less), s[|s| - 1], less)
  }

  lemma {:induction false} InsertedIsPermutation<T>(s: seq<T>, x: T, less: (T, T) -> bool)
    ensures multiset(Inserted(s, x, less)) == multiset(s) + multiset{x}
  {
    if s != [] && less(x, s[|s| - 1]) {
      InsertedIsPermutation(s[..|s| - 1], x, less);
      assert s == s[..|s| - 1] + [s[|s| - 1]];
    }
  }

  lemma {:induction false} InsertedIsSorted<T(!new)>(s: seq<T>, x: T, less: (T, T) -> bool)
    requires IsStrictWeakOrder(less) && Sorted(s, less)
    ensures Sorted(Inserted(s, x, less), less)
  {
    if s == [] {
    } else if !less(x, s[|s| - 1]) {
      forall p | 0 <= p < |s| - 1 ensures !less(x, s[p]) {
        NotLessIsTransitive(less, x, s[|s| - 1], s[p]);
      }
    } else {
      var init, last := s[..|s| - 1], s[|s| - 1];
      InsertedIsSorted(init, x, less);
      InsertedIsPermutation(init, x, less);
      var r := Inserted(init, x, less);
      forall p | 0 <= p < |r| ensures !less(last, r[p]) {
        assert r[p] in multiset(r);
        if r[p] != x {
          assert r[p] in multiset(init);
          assert r[p] in init;
        }
      }
    }
  }

  /** The result is a sorted permutation. */
  lemma {:induction false} SortedByIsSorted<T(!new)>(s: seq<T>, less: (T, T) -> bool)
    requires IsStrictWeakOrder(less)
    ensures Sorted(SortedBy(s, less), less)
    ensures multiset(SortedBy(s, less)) == multiset(s)
  {
    if s != [] {
      var init, last := s[..|s| - 1], s[|s| - 1];
      SortedByIsSorted(init, less);
      InsertedIsSorted(SortedBy(init, less), last, less);
      InsertedIsPermutation(SortedBy(init, less), last, less);
      assert s == init + [last];
    }
  }
}
