/** Distributed sample sort, for any element type and any comparator that is a strict weak order. */
module SampleSort {
  import opened Sequences
  import opened Bits
  import opened Wrappers
  import opened Scans
  import opened Segments
  import opened Alltoall
  import opened ReceiveBuffers
  import opened DistributedSort

  /** How many samples every rank draws. */
  function OversamplingRatio(size: nat): (ratio: nat)
    requires size >= 1
    ensures ratio >= 1
  {
    16 * FloorLog2(size) + 1
  }

  // ----- splitters -----

  /** Splitter i is the sample at position ratio * (i + 1) of the sorted samples. */
  function SplittersOf<T>(sorted: seq<T>, splitters: nat, ratio: nat): (r: seq<T>)
    requires ratio * splitters < |sorted| || splitters == 0
    ensures |r| == splitters
  {
    seq(splitters, i requires 0 <= i < splitters => (MultipleInRange(ratio, i + 1, splitters); sorted[ratio * (i + 1)]))
  }

  lemma MultipleInRange(ratio: nat, i: nat, n: nat)
    requires i <= n
    ensures ratio * i <= ratio * n
    ensures ratio >= 1 ==> i <= ratio * i
  {
    assert ratio * n == ratio * i + ratio * (n - i);
  }

  /** pick_splitters: sorts the samples in place and moves the splitters to the front. A sample is read
      before its place is overwritten, because it lies further back. */
  method PickSplitters<T(!new)>(samples: array<T>, numSplitters: nat, ratio: nat, less: (T, T) -> bool)
      returns (splitters: seq<T>)
    requires ratio >= 1 && (ratio * numSplitters < samples.Length || numSplitters == 0)
    modifies samples
    ensures splitters == SplittersOf(SortedBy(old(samples[..]), less), numSplitters, ratio)
  {
    ghost var sorted := SortedBy(samples[..], less);
    SortInPlace(samples, less);
    MultipleInRange(ratio, numSplitters, numSplitters);
    for i := 0 to numSplitters
      invariant forall k | 0 <= k < i :: samples[k] == SplittersOf(sorted, numSplitters, ratio)[k]
      invariant forall k | i <= k < samples.Length :: samples[k] == sorted[k]
    {
      MultipleInRange(ratio, i + 1, numSplitters);
      samples[i] := samples[ratio * (i + 1)];
    }
    splitters := samples[..numSplitters];
  }

  /** std::sort. */
  method SortInPlace<T(!new)>(a: array<T>, less: (T, T) -> bool)
    modifies a
    ensures a[..] == SortedBy(old(a[..]), less)
  {
    var s := SortedBy(a[..], less);
    for i := 0 to a.Length
      invariant forall k | 0 <= k < i :: a[k] == s[k]
    {
      a[i] := s[i];
    }
  }

  lemma SplittersAreSorted<T(!new)>(sorted: seq<T>, splitters: nat, ratio: nat, less: (T, T) -> bool)
    requires ratio >= 1 && (ratio * splitters < |sorted| || splitters == 0)
    requires Sorted(sorted, less)
    ensures Sorted(SplittersOf(sorted, splitters, ratio), less)
  {
    var r := SplittersOf(sorted, splitters, ratio);
    forall p, q | 0 <= p < q < splitters ensures !less(r[q], r[p]) {
      SplitterAt(sorted, splitters, ratio, p);
      SplitterAt(sorted, splitters, ratio, q);
      MultiplesIncrease(ratio, p + 1, q + 1);
    }
  }

  lemma SplitterAt<T>(sorted: seq<T>, splitters: nat, ratio: nat, i: nat)
    requires ratio * splitters < |sorted| && i < splitters
    ensures ratio * (i + 1) < |sorted| && SplittersOf(sorted, splitters, ratio)[i] == sorted[ratio * (i + 1)]
  {
    MultipleInRange(ratio, i + 1, splitters);
  }

  lemma MultiplesIncrease(ratio: nat, i: nat, j: nat)
    requires ratio >= 1 && i < j
    ensures ratio * i < ratio * j
  {
    assert ratio * j == ratio * i + ratio * (j - i);
    assert ratio * (j - i) >= j - i;
  }

  // ----- buckets -----

  /** b is the first splitter greater than x, or the number of splitters. */
  ghost predicate IsUpperBound<T(!new)>(splitters: seq<T>, x: T, b: nat, less: (T, T) -> bool) {
    && b <= |splitters|
    && (forall i | 0 <= i < b :: !less(x, splitters[i]))
    && (b < |splitters| ==> less(x, splitters[b]))
  }

  /** The first splitter greater than x, from splitter i on. */
  function UpperBoundFrom<T>(splitters: seq<T>, x: T, i: nat, less: (T, T) -> bool): (b: nat)
    requires i <= |splitters|
    ensures i <= b <= |splitters|
    decreases |splitters| - i
  {
    if i < |splitters| && !less(x, splitters[i]) then UpperBoundFrom(splitters, x, i + 1, less) else i
  }

  function BucketOf<T>(splitters: seq<T>, x: T, less: (T, T) -> bool): (b: nat)
    ensures b <= |splitters|
  {
    UpperBoundFrom(splitters, x, 0, less)
  }

  lemma {:induction false} UpperBoundFromIs<T(!new)>(splitters: seq<T>, x: T, i: nat, less: (T, T) -> bool)
    requires i <= |splitters| && forall k | 0 <= k < i :: !less(x, splitters[k])
    ensures IsUpperBound(splitters, x, UpperBoundFrom(splitters, x, i, less), less)
    decreases |splitters| - i
  {
    if i < |splitters| && !less(x, splitters[i]) {
      UpperBoundFromIs(splitters, x, i + 1, less);
    }
  }

  lemma UpperBoundIsUnique<T(!new)>(splitters: seq<T>, x: T, b: nat, c: nat, less: (T, T) -> bool)
    requires IsUpperBound(splitters, x, b, less) && IsUpperBound(splitters, x, c, less)
    ensures b == c
  {}

  /** std::upper_bound, by binary search in the sorted splitters. */
  method UpperBound<T(!new)>(splitters: seq<T>, x: T, less: (T, T) -> bool) returns (b: nat)
    requires IsStrictWeakOrder(less) && Sorted(splitters, less)
    ensures b == BucketOf(splitters, x, less)
    ensures IsUpperBound(splitters, x, b, less)
  {
    var lo, hi := 0, |splitters|;
    while lo < hi
      invariant 0 <= lo <= hi <= |splitters|
      invariant lo > 0 ==> !less(x, splitters[lo - 1])
      invariant hi < |splitters| ==> less(x, splitters[hi])
    {
      var mid := (lo + hi) / 2;
      if less(x, splitters[mid]) {
        hi := mid;
      } else {
        lo := mid + 1;
      }
    }
    b := lo;
    forall i | 0 <= i < b - 1 ensures !less(x, splitters[i]) {
      NotLessIsTransitive(less, x, splitters[b - 1], splitters[i]);
    }
    UpperBoundFromIs(splitters, x, 0, less);
    UpperBoundIsUnique(splitters, x, b, BucketOf(splitters, x, less), less);
  }

  /** The elements of bucket b, in the order of the data. */
  function Bucket<T>(data: seq<T>, splitters: seq<T>, b: nat, less: (T, T) -> bool): seq<T> {
    if data == [] then []
    else
      var x := data[|data| - 1];
      Bucket(data[..|data| - 1], splitters, b, less) + if BucketOf(splitters, x, less) == b then [x] else []
  }

  function Buckets<T>(data: seq<T>, splitters: seq<T>, less: (T, T) -> bool): (buckets: seq<seq<T>>)
    ensures |buckets| == |splitters| + 1
  {
    seq(|splitters| + 1, b requires 0 <= b <= |splitters| => Bucket(data, splitters, b, less))
  }

  /** One more element goes to the end of its bucket. */
  lemma BucketsStep<T>(data: seq<T>, splitters: seq<T>, less: (T, T) -> bool)
    requires data != []
    ensures var x, small := data[|data| - 1], Buckets(data[..|data| - 1], splitters, less);
            var b := BucketOf(splitters, x, less);
            Buckets(data, splitters, less) == small[b := small[b] + [x]]
  {
    var x, small := data[|data| - 1], Buckets(data[..|data| - 1], splitters, less);
    var b := BucketOf(splitters, x, less);
    forall c | 0 <= c <= |splitters| ensures Buckets(data, splitters, less)[c] == small[b := small[b] + [x]][c] {
      assert Bucket(data, splitters, c, less) == small[c] + if b == c then [x] else [];
    }
  }

  /** build_buckets: every element is appended to the bucket that the upper bound gives. */
  method BuildBuckets<T(!new)>(data: seq<T>, splitters: seq<T>, less: (T, T) -> bool) returns (buckets: seq<seq<T>>)
    requires IsStrictWeakOrder(less) && Sorted(splitters, less)
    ensures buckets == Buckets(data, splitters, less)
  {
    buckets := seq(|splitters| + 1, _ => []);
    for i := 0 to |data|
      invariant buckets == Buckets(data[..i], splitters, less)
    {
      assert data[..i + 1][..i] == data[..i];
      BucketsStep(data[..i + 1], splitters, less);
      var bound := UpperBound(splitters, data[i], less);
      buckets := buckets[bound := buckets[bound] + [data[i]]];
    }
    assert data[..|data|] == data;
  }

  lemma {:induction false} BucketMembers<T>(data: seq<T>, splitters: seq<T>, b: nat, less: (T, T) -> bool, p: nat)
    requires p < |Bucket(data, splitters, b, less)|
    ensures BucketOf(splitters, Bucket(data, splitters, b, less)[p], less) == b
  {
    var last := |data| - 1;
    if p < |Bucket(data[..last], splitters, b, less)| {
      BucketMembers(data[..last], splitters, b, less, p);
    }
  }

  /** A bucket lists the elements at exactly the positions that belong to it, from first to last. */
  lemma {:induction false} BucketPositions<T>(data: seq<T>, splitters: seq<T>, b: nat, less: (T, T) -> bool)
      returns (ps: seq<nat>)
    ensures |ps| == |Bucket(data, splitters, b, less)|
    ensures forall m, n | 0 <= m < n < |ps| :: ps[m] < ps[n]
    ensures forall n | 0 <= n < |ps| :: ps[n] < |data| && Bucket(data, splitters, b, less)[n] == data[ps[n]]
    ensures forall i: nat | i < |data| :: i in ps <==> BucketOf(splitters, data[i], less) == b
  {
    if data == [] {
      ps := [];
    } else {
      var last := |data| - 1;
      var before := BucketPositions(data[..last], splitters, b, less);
      ps := before + if BucketOf(splitters, data[last], less) == b then [last] else [];
      forall i: nat | i < |data| ensures i in ps <==> BucketOf(splitters, data[i], less) == b {
        assert i < last ==> data[..last][i] == data[i];
        assert i in ps <==> i in before || (i == last && BucketOf(splitters, data[last], less) == b);
      }
    }
  }

  /** The buckets hold the elements of the data, each as often as the data does. */
  lemma {:induction false} BucketsArePermutation<T>(data: seq<T>, splitters: seq<T>, less: (T, T) -> bool)
    ensures multiset(Flatten(Buckets(data, splitters, less))) == multiset(data)
  {
    if data == [] {
      FlattenOfEmpty(Buckets(data, splitters, less));
    } else {
      var init, x := data[..|data| - 1], data[|data| - 1];
      var b := BucketOf(splitters, x, less);
      var small := Buckets(init, splitters, less);
      BucketsArePermutation(init, splitters, less);
      BucketsStep(data, splitters, less);
      FlattenAppended(small, b, x);
      assert data == init + [x];
    }
  }

  lemma {:induction false} FlattenOfEmpty<T>(parts: seq<seq<T>>)
    requires forall i | 0 <= i < |parts| :: parts[i] == []
    ensures Flatten(parts) == []
  {
    if parts != [] { FlattenOfEmpty(parts[..|parts| - 1]); }
  }

  lemma {:induction false} FlattenAppended<T>(parts: seq<seq<T>>, b: nat, x: T)
    requires b < |parts|
    ensures multiset(Flatten(parts[b := parts[b] + [x]])) == multiset(Flatten(parts)) + multiset{x}
  {
    var last := |parts| - 1;
    var after := parts[b := parts[b] + [x]];
    if b == last {
      assert after[..last] == parts[..last];
    } else {
      FlattenAppended(parts[..last], b, x);
      assert after[..last] == parts[..last][b := parts[..last][b] + [x]];
    }
  }

  /** The loop that copies the buckets back into the data and records counts and displacements. */
  method FlattenBuckets<T>(buckets: seq<seq<T>>) returns (data: seq<T>, counts: seq<nat>, displs: seq<nat>)
    ensures data == Flatten(buckets)
    ensures counts == Lengths(buckets) && displs == ExclusiveScan(counts)
  {
    data, counts, displs := [], [], [];
    var sendPos := 0;
    for i := 0 to |buckets|
      invariant data == Flatten(buckets[..i]) && sendPos == |data|
      invariant counts == Lengths(buckets)[..i]
      invariant displs == ExclusiveScan(Lengths(buckets))[..i]
    {
      FlattenStep(buckets, i);
      ScanIsOffset(buckets, i);
      data := data + buckets[i];
      counts := counts + [|buckets[i]|];
      displs := displs + [sendPos];
      sendPos := sendPos + |buckets[i]|;
    }
    assert buckets[..|buckets|] == buckets;
    assert counts == Lengths(buckets);
    assert displs == ExclusiveScan(Lengths(buckets));
  }

  // ----- the whole sort -----

  /** All ranks' buckets: row s holds the buckets of rank s. */
  function AllBuckets<T>(data: seq<seq<T>>, splitters: seq<T>, less: (T, T) -> bool): (m: seq<seq<seq<T>>>)
    requires |splitters| + 1 == |data|
    ensures |m| == |data| && forall s | 0 <= s < |m| :: |m[s]| == |data|
  {
    seq(|data|, s requires 0 <= s < |data| => Buckets(data[s], splitters, less))
  }

  /** Rank r ends with the sorted elements of bucket r of all ranks. */
  function SampleSorted<T>(data: seq<seq<T>>, splitters: seq<T>, less: (T, T) -> bool): (out: seq<seq<T>>)
    requires |splitters| + 1 == |data|
    ensures |out| == |data|
  {
    seq(|data|, r requires 0 <= r < |data| => SortedBy(Exchanged(AllBuckets(data, splitters, less))[r], less))
  }

  lemma {:induction false} FlattenPermuted<T>(a: seq<seq<T>>, b: seq<seq<T>>)
    requires |a| == |b| && forall i | 0 <= i < |a| :: multiset(a[i]) == multiset(b[i])
    ensures multiset(Flatten(a)) == multiset(Flatten(b))
  {
    if a != [] {
      FlattenPermuted(a[..|a| - 1], b[..|b| - 1]);
    }
  }

  lemma {:induction false} SampleSortedIsPermutation<T(!new)>(data: seq<seq<T>>, splitters: seq<T>,
      less: (T, T) -> bool)
    requires IsStrictWeakOrder(less) && |splitters| + 1 == |data|
    ensures multiset(Flatten(SampleSorted(data, splitters, less))) == multiset(Flatten(data))
  {
    var m := AllBuckets(data, splitters, less);
    forall r | 0 <= r < |data| ensures multiset(SampleSorted(data, splitters, less)[r]) == multiset(Exchanged(m)[r]) {
      SortedByIsSorted(Exchanged(m)[r], less);
    }
    FlattenPermuted(SampleSorted(data, splitters, less), Exchanged(m));
    ExchangeIsPermutation(m);
    forall s | 0 <= s < |data| ensures multiset(RowsFlattened(m)[s]) == multiset(data[s]) {
      BucketsArePermutation(data[s], splitters, less);
    }
    FlattenPermuted(RowsFlattened(m), data);
  }

  /** Everything on rank r belongs to bucket r. */
  lemma RankHoldsItsBucket<T(!new)>(data: seq<seq<T>>, splitters: seq<T>, less: (T, T) -> bool, r: nat, i: nat)
    requires IsStrictWeakOrder(less) && |splitters| + 1 == |data|
    requires r < |data| && i < |SampleSorted(data, splitters, less)[r]|
    ensures BucketOf(splitters, SampleSorted(data, splitters, less)[r][i], less) == r
  {
    var m := AllBuckets(data, splitters, less);
    var column := Transpose(m, |data|)[r];
    SortedByIsSorted(Flatten(column), less);
    var p := PermutationMember(Flatten(column), SampleSorted(data, splitters, less)[r], i);
    var s, j := Locate(column, p);
    assert column[s] == Bucket(data[s], splitters, r, less);
    BucketMembers(data[s], splitters, r, less, j);
  }

  lemma LowerBucketIsLess<T(!new)>(splitters: seq<T>, less: (T, T) -> bool, x: T, y: T)
    requires IsStrictWeakOrder(less) && BucketOf(splitters, x, less) < BucketOf(splitters, y, less)
    ensures less(x, y)
  {
    UpperBoundFromIs(splitters, x, 0, less);
    UpperBoundFromIs(splitters, y, 0, less);
    var b := BucketOf(splitters, x, less);
    assert less(x, splitters[b]) && !less(y, splitters[b]);
  }

  /** For any splitters whatsoever, the result is a globally sorted permutation with equal keys on one rank. */
  lemma SampleSortedKeepsContract<T(!new)>(data: seq<seq<T>>, splitters: seq<T>, less: (T, T) -> bool)
    requires IsStrictWeakOrder(less) && |splitters| + 1 == |data|
    ensures SortContract(data, SampleSorted(data, splitters, less), less)
  {
    var out := SampleSorted(data, splitters, less);
    SampleSortedIsPermutation(data, splitters, less);
    forall r, s, i, j | 0 <= r < s < |out| && 0 <= i < |out[r]| && 0 <= j < |out[s]|
      ensures less(out[r][i], out[s][j])
    {
      RankHoldsItsBucket(data, splitters, less, r, i);
      RankHoldsItsBucket(data, splitters, less, s, j);
      LowerBucketIsLess(splitters, less, out[r][i], out[s][j]);
    }
    forall p, q | 0 <= p < q < |Flatten(out)| ensures !less(Flatten(out)[q], Flatten(out)[p]) {
      var r, i := Locate(out, p);
      var s, j := Locate(out, q);
      if s < r {
        OffsetMonotone(out, s + 1, r);
        FlattenStep(out, s);
      } else if r == s {
        SortedByIsSorted(Exchanged(AllBuckets(data, splitters, less))[r], less);
      } else {
        assert less(out[r][i], out[s][j]);
      }
    }
  }

  /** A rank ends up without data if and only if no element belongs to its bucket. */
  lemma RankIsEmptyIff<T(!new)>(data: seq<seq<T>>, splitters: seq<T>, less: (T, T) -> bool, r: nat)
    requires IsStrictWeakOrder(less) && |splitters| + 1 == |data| && r < |data|
    ensures SampleSorted(data, splitters, less)[r] == []
       <==> forall p | 0 <= p < |Flatten(data)| :: BucketOf(splitters, Flatten(data)[p], less) != r
  {
    var out := SampleSorted(data, splitters, less);
    SampleSortedIsPermutation(data, splitters, less);
    if p :| 0 <= p < |Flatten(data)| && BucketOf(splitters, Flatten(data)[p], less) == r {
      var q := PermutationMember(Flatten(out), Flatten(data), p);
      var s, j := Locate(out, q);
      RankHoldsItsBucket(data, splitters, less, s, j);
    }
    if out[r] != [] {
      RankHoldsItsBucket(data, splitters, less, r, 0);
      FlattenAt(out, r, 0);
      var p := PermutationMember(Flatten(data), Flatten(out), Offset(out, r));
    }
  }

  /** So equal neighbouring splitters leave a rank without data, however many keys there are. */
  lemma EqualSplittersLeaveRankEmpty<T(!new)>(data: seq<seq<T>>, splitters: seq<T>, less: (T, T) -> bool, r: nat)
    requires IsStrictWeakOrder(less) && |splitters| + 1 == |data|
    requires 1 <= r < |splitters| && !less(splitters[r - 1], splitters[r])
    ensures SampleSorted(data, splitters, less)[r] == []
  {
    forall p | 0 <= p < |Flatten(data)| ensures BucketOf(splitters, Flatten(data)[p], less) != r {
      UpperBoundFromIs(splitters, Flatten(data)[p], 0, less);
    }
    RankIsEmptyIff(data, splitters, less, r);
  }

  /** The splitters all ranks pick from the gathered samples. */
  function SplittersFor<T>(samples: seq<seq<T>>, ratio: nat, less: (T, T) -> bool): (splitters: seq<T>)
    requires samples != [] && forall r | 0 <= r < |samples| :: |samples[r]| == ratio
    requires ratio >= 1
    ensures |splitters| + 1 == |samples|
  {
    EnoughSamples(samples, ratio);
    SplittersOf(SortedBy(Flatten(samples), less), |samples| - 1, ratio)
  }

  lemma EnoughSamples<T>(samples: seq<seq<T>>, ratio: nat)
    requires samples != [] && forall r | 0 <= r < |samples| :: |samples[r]| == ratio
    requires ratio >= 1
    ensures ratio * (|samples| - 1) < |Flatten(samples)|
  {
    LengthOfEqualParts(samples, ratio);
    assert |samples| * ratio == ratio * (|samples| - 1) + ratio;
  }

  // ----- what the splitters make of the samples -----

  /** How many of the samples are not above x. */
  ghost function CountNotAbove<T>(samples: seq<T>, x: T, less: (T, T) -> bool): nat {
    |set p: nat | p < |samples| && !less(x, samples[p])|
  }

  lemma CountStep<T>(s: seq<T>, y: T, x: T, less: (T, T) -> bool)
    ensures CountNotAbove(s + [y], x, less) == CountNotAbove(s, x, less) + if less(x, y) then 0 else 1
  {
    var t := s + [y];
    var small := set p: nat | p < |s| && !less(x, s[p]);
    var all := set p: nat | p < |t| && !less(x, t[p]);
    assert |s| !in small;
    assert all == if less(x, y) then small else small + {|s|};
  }

  lemma {:induction false} CountOfInserted<T>(s: seq<T>, y: T, x: T, less: (T, T) -> bool)
    ensures CountNotAbove(Inserted(s, y, less), x, less) == CountNotAbove(s + [y], x, less)
  {
    if s != [] && less(y, s[|s| - 1]) {
      var init, last := s[..|s| - 1], s[|s| - 1];
      CountOfInserted(init, y, x, less);
      CountStep(Inserted(init, y, less), last, x, less);
      CountStep(init, y, x, less);
      CountStep(init, last, x, less);
      assert s == init + [last];
      CountStep(s, y, x, less);
    }
  }

  lemma {:induction false} CountOfSorted<T>(s: seq<T>, x: T, less: (T, T) -> bool)
    ensures CountNotAbove(SortedBy(s, less), x, less) == CountNotAbove(s, x, less)
  {
    if s != [] {
      var init, last := s[..|s| - 1], s[|s| - 1];
      CountOfSorted(init, x, less);
      CountOfInserted(SortedBy(init, less), last, x, less);
      CountStep(SortedBy(init, less), last, x, less);
      CountStep(init, last, x, less);
      assert s == init + [last];
    }
  }

  /** In sorted samples, more than m of them are not above x if and only if the one at position m is not. */
  lemma CountInSorted<T(!new)>(sorted: seq<T>, m: nat, x: T, less: (T, T) -> bool)
    requires IsStrictWeakOrder(less) && Sorted(sorted, less) && m < |sorted|
    ensures CountNotAbove(sorted, x, less) > m <==> !less(x, sorted[m])
  {
    var counted := set p: nat | p < |sorted| && !less(x, sorted[p]);
    if less(x, sorted[m]) {
      forall p: nat | m <= p < |sorted| ensures less(x, sorted[p]) {
        assert p == m || !less(sorted[p], sorted[m]);
      }
      SubsetCardinality(counted, Range(m));
    } else {
      forall p: nat | p < m + 1 ensures p in counted {
        assert p == m || !less(sorted[m], sorted[p]);
        NotLessIsTransitive(less, x, sorted[m], sorted[p]);
      }
      SubsetCardinality(Range(m + 1), counted);
    }
  }

  /** On rank r, more than ratio * r of the samples are not above an element (unless r is the first rank),
      and at most ratio * (r + 1) of them (unless r is the last). */
  ghost predicate IsInSlice(c: nat, r: nat, ranks: nat, ratio: nat) {
    (r > 0 ==> c > ratio * r) && (r < ranks - 1 ==> c <= ratio * (r + 1))
  }

  ghost predicate IsSlicedBy<T(!new)>(out: seq<seq<T>>, samples: seq<T>, ratio: nat, less: (T, T) -> bool) {
    forall r, i | 0 <= r < |out| && 0 <= i < |out[r]| ::
      IsInSlice(CountNotAbove(samples, out[r][i], less), r, |out|, ratio)
  }

  lemma CountInSamples<T(!new)>(samples: seq<T>, m: nat, x: T, less: (T, T) -> bool)
    requires IsStrictWeakOrder(less) && m < |samples|
    ensures CountNotAbove(samples, x, less) > m <==> !less(x, SortedBy(samples, less)[m])
  {
    SortedByIsSorted(samples, less);
    CountOfSorted(samples, x, less);
    CountInSorted(SortedBy(samples, less), m, x, less);
  }

  lemma CountToSplitter<T(!new)>(samples: seq<T>, sorted: seq<T>, splitters: seq<T>, ratio: nat, i: nat, x: T,
      less: (T, T) -> bool)
    requires IsStrictWeakOrder(less) && sorted == SortedBy(samples, less)
    requires ratio * |splitters| < |sorted| && i < |splitters|
    requires splitters == SplittersOf(sorted, |splitters|, ratio)
    ensures CountNotAbove(samples, x, less) > ratio * (i + 1) <==> !less(x, splitters[i])
  {
    var m := ratio * (i + 1);
    assert m < |sorted| && splitters[i] == sorted[m] by { SplitterAt(sorted, |splitters|, ratio, i); }
    assert CountNotAbove(samples, x, less) > m <==> !less(x, sorted[m]) by { CountInSamples(samples, m, x, less); }
  }

  lemma BucketInSamples<T(!new)>(samples: seq<T>, splitters: seq<T>, ratio: nat, x: T, less: (T, T) -> bool)
    requires IsStrictWeakOrder(less) && ratio * |splitters| < |samples|
    requires splitters == SplittersOf(SortedBy(samples, less), |splitters|, ratio)
    ensures IsInSlice(CountNotAbove(samples, x, less), BucketOf(splitters, x, less), |splitters| + 1, ratio)
  {
    var r := BucketOf(splitters, x, less);
    UpperBoundFromIs(splitters, x, 0, less);
    if r > 0 {
      CountToSplitter(samples, SortedBy(samples, less), splitters, ratio, r - 1, x, less);
    }
    if r < |splitters| {
      CountToSplitter(samples, SortedBy(samples, less), splitters, ratio, r, x, less);
    }
  }

  lemma SampleSortedIsSliced<T(!new)>(data: seq<seq<T>>, samples: seq<seq<T>>, ratio: nat, less: (T, T) -> bool)
    requires samples != [] && forall r | 0 <= r < |samples| :: |samples[r]| == ratio
    requires ratio >= 1 && |data| == |samples| && IsStrictWeakOrder(less)
    ensures IsSlicedBy(SampleSorted(data, SplittersFor(samples, ratio, less), less), Flatten(samples), ratio, less)
  {
    var splitters := SplittersFor(samples, ratio, less);
    var out := SampleSorted(data, splitters, less);
    EnoughSamples(samples, ratio);
    forall r: nat, i: nat | r < |out| && i < |out[r]|
      ensures IsInSlice(CountNotAbove(Flatten(samples), out[r][i], less), r, |out|, ratio)
    {
      RankHoldsItsBucket(data, splitters, less, r, i);
      BucketInSamples(Flatten(samples), splitters, ratio, out[r][i], less);
    }
  }

  /** The splitting step of one rank. */
  method SplitLocal<T(!new)>(data: seq<T>, globalSamples: seq<T>, numSplitters: nat, ratio: nat, less: (T, T) -> bool,
      ghost splitters: seq<T>) returns (send: seq<T>, counts: seq<nat>, displs: seq<nat>)
    requires IsStrictWeakOrder(less)
    requires ratio >= 1 && (ratio * numSplitters < |globalSamples| || numSplitters == 0)
    requires splitters == SplittersOf(SortedBy(globalSamples, less), numSplitters, ratio)
    ensures send == Flatten(Buckets(data, splitters, less))
    ensures counts == Lengths(Buckets(data, splitters, less)) && displs == ExclusiveScan(counts)
  {
    var samples := new T[|globalSamples|](i requires 0 <= i < |globalSamples| => globalSamples[i]);
    assert samples[..] == globalSamples;
    var picked := PickSplitters(samples, numSplitters, ratio, less);
    SortedByIsSorted(globalSamples, less);
    SplittersAreSorted(SortedBy(globalSamples, less), numSplitters, ratio, less);
    var buckets := BuildBuckets(data, picked, less);
    send, counts, displs := FlattenBuckets(buckets);
  }

  /** What every rank sends and receives fits in an int. */
  ghost predicate AmountsFitInt<T>(data: seq<seq<T>>, m: seq<seq<seq<T>>>)
    requires |m| == |data| && IsMatrix(m, |data|)
  {
    && (forall s | 0 <= s < |data| :: |data[s]| <= MAX_INT)
    && forall r | 0 <= r < |data| :: |Exchanged(m)[r]| <= MAX_INT
  }

  /** What follows the gathering of the samples. */
  method SortByGathered<T(!new)>(data: seq<seq<T>>, globalSamples: seq<T>, ratio: nat, less: (T, T) -> bool, fill: T,
      ghost splitters: seq<T>) returns (out: seq<seq<T>>)
    requires |data| > 0 && |splitters| + 1 == |data| && IsStrictWeakOrder(less)
    requires ratio >= 1 && ratio * (|data| - 1) < |globalSamples|
    requires splitters == SplittersOf(SortedBy(globalSamples, less), |data| - 1, ratio)
    requires AmountsFitInt(data, AllBuckets(data, splitters, less))
    ensures out == SampleSorted(data, splitters, less)
  {
    ghost var m := AllBuckets(data, splitters, less);
    var send, sCounts, sDispls := SplitAll(data, globalSamples, |data| - 1, ratio, less, splitters);
    BucketsKeepSizes(data, splitters, less);
    var received := ExchangeBuckets(send, sCounts, sDispls, m, fill);
    out := SortAll(received, less);
    assert out == SampleSorted(data, splitters, less);
  }

  /** mpi::sort on all ranks. The samples are arbitrary. */
  method Sort<T(!new)>(data: seq<seq<T>>, samples: seq<seq<T>>, less: (T, T) -> bool, fill: T)
      returns (out: seq<seq<T>>)
    requires |data| == |samples| > 0 && IsStrictWeakOrder(less)
    requires forall r | 0 <= r < |samples| :: |samples[r]| == OversamplingRatio(|data|)
    requires AmountsFitInt(data, AllBuckets(data, SplittersFor(samples, OversamplingRatio(|data|), less), less))
    ensures out == SampleSorted(data, SplittersFor(samples, OversamplingRatio(|data|), less), less)
    ensures SortContract(data, out, less)
    ensures IsSlicedBy(out, Flatten(samples), 16 * FloorLog2(|data|) + 1, less)
  {
    var ratio := OversamplingRatio(|data|);
    EnoughSamples(samples, ratio);
    out := SortByGathered(data, Flatten(samples), ratio, less, fill, SplittersFor(samples, ratio, less));
    assert SortContract(data, out, less) by {
      SampleSortedKeepsContract(data, SplittersFor(samples, ratio, less), less);
    }
    assert IsSlicedBy(out, Flatten(samples), ratio, less) by { SampleSortedIsSliced(data, samples, ratio, less); }
  }

  lemma BucketsKeepSizes<T>(data: seq<seq<T>>, splitters: seq<T>, less: (T, T) -> bool)
    requires |splitters| + 1 == |data|
    ensures forall s | 0 <= s < |data| :: |RowsFlattened(AllBuckets(data, splitters, less))[s]| == |data[s]|
  {
    forall s | 0 <= s < |data| ensures |RowsFlattened(AllBuckets(data, splitters, less))[s]| == |data[s]| {
      BucketsArePermutation(data[s], splitters, less);
      PermutationLength(Flatten(Buckets(data[s], splitters, less)), data[s]);
    }
  }

  /** Every rank sorts what it received. */
  method SortAll<T(!new)>(received: seq<seq<T>>, less: (T, T) -> bool) returns (out: seq<seq<T>>)
    ensures |out| == |received| && forall r | 0 <= r < |out| :: out[r] == SortedBy(received[r], less)
  {
    out := [];
    for r := 0 to |received|
      invariant |out| == r && forall q | 0 <= q < r :: out[q] == SortedBy(received[q], less)
    {
      var a := new T[|received[r]|](i requires 0 <= i < |received[r]| => received[r][i]);
      assert a[..] == received[r];
      SortInPlace(a, less);
      out := out + [a[..]];
    }
  }

  method SplitAll<T(!new)>(data: seq<seq<T>>, globalSamples: seq<T>, numSplitters: nat, ratio: nat,
      less: (T, T) -> bool, ghost splitters: seq<T>)
      returns (send: seq<seq<T>>, counts: seq<seq<nat>>, displs: seq<seq<nat>>)
    requires |data| == numSplitters + 1 && IsStrictWeakOrder(less)
    requires ratio >= 1 && ratio * numSplitters < |globalSamples|
    requires splitters == SplittersOf(SortedBy(globalSamples, less), numSplitters, ratio)
    ensures send == RowsFlattened(AllBuckets(data, splitters, less))
    ensures |counts| == |data|
    ensures forall s | 0 <= s < |data| :: counts[s] == Lengths(AllBuckets(data, splitters, less)[s])
    ensures displs == ScansOf(counts)
  {
    send, counts, displs := [], [], [];
    for s := 0 to |data|
      invariant |send| == |counts| == |displs| == s
      invariant forall q | 0 <= q < s :: send[q] == Flatten(Buckets(data[q], splitters, less))
      invariant forall q | 0 <= q < s :: counts[q] == Lengths(Buckets(data[q], splitters, less))
      invariant forall q | 0 <= q < s :: displs[q] == ExclusiveScan(counts[q])
    {
      var localSend, localCounts, localDispls := SplitLocal(data[s], globalSamples, numSplitters, ratio, less,
        splitters);
      send := send + [localSend];
      counts := counts + [localCounts];
      displs := displs + [localDispls];
    }
  }

  /** The exchange: counts first, then the data into buffers sized by the last count and displacement. */
  method ExchangeBuckets<T(!new)>(send: seq<seq<T>>, sCounts: seq<seq<nat>>, sDispls: seq<seq<nat>>,
      ghost m: seq<seq<seq<T>>>, fill: T) returns (received: seq<seq<T>>)
    requires |send| > 0 && |m| == |send| && IsMatrix(m, |send|) && send == RowsFlattened(m)
    requires |sCounts| == |send| && forall s | 0 <= s < |send| :: sCounts[s] == Lengths(m[s])
    requires sDispls == ScansOf(sCounts)
    requires forall s | 0 <= s < |send| :: |send[s]| <= MAX_INT
    requires forall r | 0 <= r < |send| :: |Exchanged(m)[r]| <= MAX_INT
    ensures received == Exchanged(m)
  {
    BucketCountsFit(send, sCounts, m);
    BucketSegments(send, sCounts, sDispls, m);
    var recv, rCounts, rDispls, displs := Alltoallv(send, sCounts, None, Some(sDispls), None, fill);
    ConcatenatedBySource(recv, rCounts, rDispls, m);
    received := recv;
  }

  lemma ConcatenatedBySource<T>(recv: seq<seq<T>>, counts: seq<seq<nat>>, displs: seq<seq<nat>>, m: seq<seq<seq<T>>>)
    requires |recv| == |counts| == |displs| == |m| && IsMatrix(m, |m|)
    requires forall r | 0 <= r < |m| :: Received(recv[r], counts[r], displs[r], Transpose(m, |m|)[r], true)
    ensures recv == Exchanged(m)
  {
    forall r | 0 <= r < |m| ensures recv[r] == Exchanged(m)[r] {
      assert Received(recv[r], counts[r], displs[r], Transpose(m, |m|)[r], true);
    }
  }

  lemma BucketCountsFit<T>(send: seq<seq<T>>, counts: seq<seq<nat>>, m: seq<seq<seq<T>>>)
    requires |m| == |send| && IsMatrix(m, |send|) && send == RowsFlattened(m)
    requires |counts| == |send| && forall s | 0 <= s < |send| :: counts[s] == Lengths(m[s])
    requires forall s | 0 <= s < |send| :: |send[s]| <= MAX_INT
    requires forall r | 0 <= r < |send| :: |Exchanged(m)[r]| <= MAX_INT
    ensures IsMatrix(counts, |send|) && AreCounts(counts) && AllFit(send, ScansOf(counts), counts)
  {
    forall s | 0 <= s < |send| ensures |counts[s]| == |send| && Sum(counts[s]) == |send[s]| {
      SumOfLengths(m[s]);
    }
    var t := Transpose(m, |send|);
    TransposedLengths(m, counts);
    forall r | 0 <= r < |send| ensures Sum(Transpose(counts, |send|)[r]) <= MAX_INT {
      SumOfLengths(t[r]);
      assert |Exchanged(m)[r]| == |Flatten(t[r])|;
    }
    ScansFit(send, counts);
  }

  lemma BucketSegments<T>(send: seq<seq<T>>, counts: seq<seq<nat>>, displs: seq<seq<nat>>, m: seq<seq<seq<T>>>)
    requires |m| == |send| && IsMatrix(m, |send|) && send == RowsFlattened(m)
    requires |counts| == |send| && forall s | 0 <= s < |send| :: counts[s] == Lengths(m[s])
    requires IsMatrix(counts, |send|) && displs == ScansOf(counts) && AllFit(send, displs, counts)
    ensures SendSegments(send, displs, counts) == m
  {
    forall s | 0 <= s < |send| ensures SegmentsOf(send[s], displs[s], counts[s]) == m[s] {
      CutOfFlatten(m[s]);
    }
  }
}
