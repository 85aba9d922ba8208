/** When a distributed sort must leave a rank without data. Equal keys end on one rank, so with fewer
    different keys than ranks it has no choice; otherwise one key for each rank is enough. */
module EmptyRanks {
  import opened Sequences
  import opened DistributedSort

  /** Elements have the same key exactly if neither comes before the other. */
  ghost predicate IsKeyOf<T(!new), K>(key: T -> K, less: (T, T) -> bool) {
    forall x, y :: key(x) == key(y) <==> !less(x, y) && !less(y, x)
  }

  /** The keys that occur. */
  ghost function KeysOf<T, K>(s: seq<T>, key: T -> K): set<K> {
    set i | 0 <= i < |s| :: key(s[i])
  }

  lemma KeysOfPermutation<T, K>(s: seq<T>, s': seq<T>, key: T -> K)
    requires multiset(s) == multiset(s')
    ensures KeysOf(s, key) == KeysOf(s', key)
  {
    forall k | k in KeysOf(s, key) ensures k in KeysOf(s', key) {
      var i :| 0 <= i < |s| && key(s[i]) == k;
      var j := PermutationMember(s', s, i);
    }
    forall k | k in KeysOf(s', key) ensures k in KeysOf(s, key) {
      var i :| 0 <= i < |s'| && key(s'[i]) == k;
      var j := PermutationMember(s, s', i);
    }
  }

  // ----- too few keys -----

  /** With fewer keys than ranks every result that keeps the contract has an empty rank. */
  lemma FewKeysLeaveRankEmpty<T(!new), K>(before: seq<seq<T>>, after: seq<seq<T>>, less: (T, T) -> bool, key: T -> K)
    requires SortContract(before, after, less) && IsKeyOf(key, less)
    requires |KeysOf(Flatten(before), key)| < |before|
    ensures SomeRankEmpty(after)
  {
    if !SomeRankEmpty(after) {
      var firsts := seq(|after|, r requires 0 <= r < |after| => key(after[r][0]));
      forall r, s | 0 <= r < s < |firsts| ensures firsts[r] != firsts[s] {
        assert less(after[r][0], after[s][0]);
      }
      KeysOfPermutation(Flatten(before), Flatten(after), key);
      forall k | k in Elements(firsts) ensures k in KeysOf(Flatten(after), key) {
        var r :| 0 <= r < |firsts| && firsts[r] == k;
        FlattenAt(after, r, 0);
      }
      DistinctCardinality(firsts);
      SubsetCardinality(Elements(firsts), KeysOf(Flatten(after), key));
    }
  }

  // ----- enough keys -----

  /** The length of the run of elements equal to the first, at least n of which are known. */
  function RunLength<T>(s: seq<T>, less: (T, T) -> bool, n: nat): (e: nat)
    requires 1 <= n <= |s|
    ensures n <= e <= |s| && (e < |s| ==> less(s[0], s[e]))
    ensures forall i | n <= i < e :: !less(s[0], s[i])
    decreases |s| - n
  {
    if n == |s| || less(s[0], s[n]) then n else RunLength(s, less, n + 1)
  }

  /** One run of equal elements for each rank but the last, which gets the rest. */
  function Spread<T>(s: seq<T>, p: nat, less: (T, T) -> bool): (parts: seq<seq<T>>)
    requires p >= 1
    ensures |parts| == p
    decreases p
  {
    if p == 1 then [s]
    else if s == [] then [[]] + Spread(s, p - 1, less)
    else
      var e := RunLength(s, less, 1);
      [s[..e]] + Spread(s[e..], p - 1, less)
  }

  lemma {:induction false} SpreadKeepsOrder<T>(s: seq<T>, p: nat, less: (T, T) -> bool)
    requires p >= 1
    ensures Flatten(Spread(s, p, less)) == s
    decreases p
  {
    var parts := Spread(s, p, less);
    if p == 1 {
      FlattenOfOne(s);
    } else {
      var e := if s == [] then 0 else RunLength(s, less, 1);
      SpreadKeepsOrder(s[e..], p - 1, less);
      assert parts == [s[..e]] + Spread(s[e..], p - 1, less);
      FlattenConcat([s[..e]], Spread(s[e..], p - 1, less));
      FlattenOfOne(s[..e]);
    }
  }

  /** The first run of a sorted list: equal to its first element, and smaller than all the rest. */
  lemma FirstRun<T(!new)>(s: seq<T>, less: (T, T) -> bool, i: nat, j: nat)
    requires s != [] && Sorted(s, less) && IsStrictWeakOrder(less)
    requires i < RunLength(s, less, 1) <= j < |s|
    ensures !less(s[0], s[i]) && !less(s[i], s[0]) && less(s[0], s[j]) && less(s[i], s[j])
  {
    var e := RunLength(s, less, 1);
    assert e < j ==> !less(s[j], s[e]);
    assert i > 0 ==> !less(s[i], s[0]);
  }

  lemma SortedTail<T(!new)>(s: seq<T>, less: (T, T) -> bool, e: nat)
    requires Sorted(s, less) && e <= |s|
    ensures Sorted(s[e..], less)
  {
    forall p, q | 0 <= p < q < |s[e..]| ensures !less(s[e..][q], s[e..][p]) {
      assert !less(s[e + q], s[e + p]);
    }
  }

  lemma {:induction false} OneMoreRank<T(!new)>(a: seq<T>, rest: seq<seq<T>>, less: (T, T) -> bool)
    requires EqualKeysTogether(rest, less)
    requires forall i, j | 0 <= i < |a| && 0 <= j < |Flatten(rest)| :: less(a[i], Flatten(rest)[j])
    ensures EqualKeysTogether([a] + rest, less)
  {
    var parts := [a] + rest;
    forall q, r, i, j | 0 <= q < r < |parts| && 0 <= i < |parts[q]| && 0 <= j < |parts[r]|
      ensures less(parts[q][i], parts[r][j])
    {
      assert parts[r] == rest[r - 1];
      if q == 0 {
        FlattenAt(rest, r - 1, j);
      } else {
        assert parts[q] == rest[q - 1];
      }
    }
  }

  lemma {:induction false} SpreadKeepsTogether<T(!new)>(s: seq<T>, p: nat, less: (T, T) -> bool)
    requires p >= 1 && Sorted(s, less) && IsStrictWeakOrder(less)
    ensures EqualKeysTogether(Spread(s, p, less), less)
    decreases p
  {
    if p > 1 {
      var e := if s == [] then 0 else RunLength(s, less, 1);
      SortedTail(s, less, e);
      SpreadKeepsTogether(s[e..], p - 1, less);
      SpreadKeepsOrder(s[e..], p - 1, less);
      forall i, j | 0 <= i < e && 0 <= j < |s[e..]| ensures less(s[..e][i], s[e..][j]) {
        FirstRun(s, less, i, e + j);
      }
      OneMoreRank(s[..e], Spread(s[e..], p - 1, less), less);
    }
  }

  /** Without its first run a sorted list has exactly one key less. */
  lemma KeysWithoutFirstRun<T(!new), K>(s: seq<T>, less: (T, T) -> bool, key: T -> K)
    requires s != [] && Sorted(s, less) && IsStrictWeakOrder(less) && IsKeyOf(key, less)
    ensures |KeysOf(s, key)| == 1 + |KeysOf(s[RunLength(s, less, 1)..], key)|
  {
    var rest := s[RunLength(s, less, 1)..];
    forall k | k in KeysOf(s, key) ensures k == key(s[0]) || k in KeysOf(rest, key) {
      var i :| 0 <= i < |s| && key(s[i]) == k;
      KeyOfFirstRun(s, less, key, i);
    }
    forall k | k in KeysOf(rest, key) ensures k in KeysOf(s, key) && k != key(s[0]) {
      var j :| 0 <= j < |rest| && key(rest[j]) == k;
      KeyAfterFirstRun(s, less, key, j);
    }
    assert KeysOf(s, key) == {key(s[0])} + KeysOf(rest, key);
  }

  lemma KeyOfFirstRun<T(!new), K>(s: seq<T>, less: (T, T) -> bool, key: T -> K, i: nat)
    requires s != [] && Sorted(s, less) && IsKeyOf(key, less) && i < |s|
    ensures key(s[i]) == key(s[0]) || key(s[i]) in KeysOf(s[RunLength(s, less, 1)..], key)
  {
    var e := RunLength(s, less, 1);
    if i < e {
      assert i > 0 ==> !less(s[i], s[0]);
    } else {
      assert s[e..][i - e] == s[i];
    }
  }

  lemma KeyAfterFirstRun<T(!new), K>(s: seq<T>, less: (T, T) -> bool, key: T -> K, j: nat)
    requires s != [] && Sorted(s, less) && IsStrictWeakOrder(less) && IsKeyOf(key, less)
    requires j < |s[RunLength(s, less, 1)..]|
    ensures var k := key(s[RunLength(s, less, 1)..][j]); k in KeysOf(s, key) && k != key(s[0])
  {
    var e := RunLength(s, less, 1);
    assert s[e..][j] == s[e + j];
    FirstRun(s, less, 0, e + j);
  }

  lemma {:induction false} SpreadLeavesNoneEmpty<T(!new), K>(s: seq<T>, p: nat, less: (T, T) -> bool, key: T -> K)
    requires p >= 1 && Sorted(s, less) && IsStrictWeakOrder(less) && IsKeyOf(key, less)
    requires |KeysOf(s, key)| >= p
    ensures !SomeRankEmpty(Spread(s, p, less))
    decreases p
  {
    assert s == [] ==> KeysOf(s, key) == {};
    if p > 1 {
      var e := RunLength(s, less, 1);
      KeysWithoutFirstRun(s, less, key);
      SortedTail(s, less, e);
      SpreadLeavesNoneEmpty(s[e..], p - 1, less, key);
      forall r | 0 <= r < p ensures |Spread(s, p, less)[r]| != 0 {
        assert r > 0 ==> Spread(s, p, less)[r] == Spread(s[e..], p - 1, less)[r - 1];
      }
    }
  }

  /** A sort that leaves no rank empty if it can be helped. */
  function SpreadSort<T>(data: seq<seq<T>>, less: (T, T) -> bool): seq<seq<T>> {
    if data == [] then [] else Spread(SortedBy(Flatten(data), less), |data|, less)
  }

  lemma SpreadSortKeepsContract<T(!new), K>(data: seq<seq<T>>, less: (T, T) -> bool, key: T -> K)
    requires IsStrictWeakOrder(less) && IsKeyOf(key, less)
    ensures SortContract(data, SpreadSort(data, less), less)
    ensures |KeysOf(Flatten(data), key)| >= |data| ==> !SomeRankEmpty(SpreadSort(data, less))
  {
    if data != [] {
      var s := SortedBy(Flatten(data), less);
      SortedByIsSorted(Flatten(data), less);
      SpreadKeepsOrder(s, |data|, less);
      SpreadKeepsTogether(s, |data|, less);
      KeysOfPermutation(Flatten(data), s, key);
      if |KeysOf(Flatten(data), key)| >= |data| {
        SpreadLeavesNoneEmpty(s, |data|, less, key);
      }
    }
  }

  /** Every result that keeps the contract leaves a rank empty if and only if there are fewer keys than ranks. */
  lemma EmptyRankIsForcedIff<T(!new), K>(before: seq<seq<T>>, less: (T, T) -> bool, key: T -> K)
    requires IsStrictWeakOrder(less) && IsKeyOf(key, less)
    ensures (forall after | SortContract(before, after, less) :: SomeRankEmpty(after))
       <==> |KeysOf(Flatten(before), key)| < |before|
  {
    SpreadSortKeepsContract(before, less, key);
    if |KeysOf(Flatten(before), key)| < |before| {
      forall after | SortContract(before, after, less) ensures SomeRankEmpty(after) {
        FewKeysLeaveRankEmpty(before, after, less, key);
      }
    }
  }

  // ----- counting keys -----

  /** What tells positions apart at least as well has at least as many values. */
  lemma {:induction false} FinerHasMoreValues<T, U>(s: seq<T>, s': seq<U>)
    requires |s| == |s'|
    requires forall x, y | 0 <= x < |s| && 0 <= y < |s| && s'[x] == s'[y] :: s[x] == s[y]
    ensures |Elements(s)| <= |Elements(s')|
  {
    if s == [] {
      assert Elements(s) == {};
    } else {
      var n := |s| - 1;
      FinerHasMoreValues(s[..n], s'[..n]);
      ElementsStep(s);
      ElementsStep(s');
      if s'[n] in s'[..n] {
        var x :| 0 <= x < n && s'[..n][x] == s'[n];
        assert s[..n][x] == s[x] == s[n];
      }
    }
  }
}
