/** Sorts that keep the contract the suffix sorter assumes: sample sort, and one that leaves no rank empty
    if it can be helped. */
module SampleSorters {
  import opened Sequences
  import opened Bits
  import opened Doubling
  import opened DistributedSort
  import opened SampleSort
  import opened EmptyRanks
  import opened PrefixDoubling

  lemma PairLessIsOrder()
    ensures IsStrictWeakOrder(PairLess)
  {}

  lemma IndexOrderIsOrder(w: nat, iteration: nat)
    requires iteration < w
    ensures IsStrictWeakOrder(IndexOrder(w, iteration))
  {
    var less := IndexOrder(w, iteration);
    forall x, y | less(x, y) ensures !less(y, x) {
      IndexLessIsWeak(w, iteration, x, y, x);
    }
    forall x, y, z | less(x, z) ensures less(x, y) || less(y, z) {
      IndexLessIsWeak(w, iteration, x, y, z);
    }
  }

  lemma IndexLessIsWeak(w: nat, iteration: nat, x: IR, y: IR, z: IR)
    requires iteration < w
    ensures IndexLess(w, iteration, x, y) ==> !IndexLess(w, iteration, y, x)
    ensures IndexLess(w, iteration, x, z) ==> IndexLess(w, iteration, x, y) || IndexLess(w, iteration, y, z)
  {}

  /** Splitters for every call, drawn in whatever way. */
  type Splitters<!T> = (nat, nat) -> seq<T>

  ghost predicate AreSplitters<T>(splitters: Splitters<T>) {
    forall call: nat, size: nat :: |splitters(call, size)| == size
  }

  /** Sample sort of rank pairs, with the splitters of each call. */
  function PairSampleSort(splitters: Splitters<IRR>): PairSorter
    requires AreSplitters(splitters)
  {
    (call: nat, data: seq<seq<IRR>>) =>
      if data == [] then [] else SampleSorted(data, splitters(call, |data| - 1), PairLess)
  }

  function RankSampleSort(w: nat, splitters: Splitters<IR>): RankSorter
    requires AreSplitters(splitters)
  {
    (call: nat, iteration: nat, data: seq<seq<IR>>) =>
      if data == [] || iteration >= w then data
      else SampleSorted(data, splitters(call, |data| - 1), IndexOrder(w, iteration))
  }

  lemma PairSampleSortKeepsContract(splitters: Splitters<IRR>, call: nat, data: seq<seq<IRR>>)
    requires AreSplitters(splitters)
    ensures SortContract(data, PairSampleSort(splitters)(call, data), PairLess)
  {
    PairLessIsOrder();
    if data != [] {
      SampleSortedKeepsContract(data, splitters(call, |data| - 1), PairLess);
    }
  }

  lemma RankSampleSortKeepsContract(w: nat, splitters: Splitters<IR>, call: nat, iteration: nat, data: seq<seq<IR>>)
    requires AreSplitters(splitters) && iteration < w
    ensures SortContract(data, RankSampleSort(w, splitters)(call, iteration, data), IndexOrder(w, iteration))
  {
    IndexOrderIsOrder(w, iteration);
    if data != [] {
      SampleSortedKeepsContract(data, splitters(call, |data| - 1), IndexOrder(w, iteration));
    }
  }

  /** For every choice of splitters, sample sort is a sort that the suffix sorter may use. */
  lemma SampleSortIsSorter(w: nat, pairSplitters: Splitters<IRR>, rankSplitters: Splitters<IR>)
    requires AreSplitters(pairSplitters) && AreSplitters(rankSplitters)
    ensures IsPairSorter(PairSampleSort(pairSplitters))
    ensures IsRankSorter(w, RankSampleSort(w, rankSplitters))
  {
    var pairs, ranks := PairSampleSort(pairSplitters), RankSampleSort(w, rankSplitters);
    forall call: nat, data: seq<seq<IRR>> ensures SortContract(data, pairs(call, data), PairLess) {
      PairSampleSortKeepsContract(pairSplitters, call, data);
    }
    forall call: nat, iteration: nat, data: seq<seq<IR>> | iteration < w
      ensures SortContract(data, ranks(call, iteration, data), IndexOrder(w, iteration))
    {
      RankSampleSortKeepsContract(w, rankSplitters, call, iteration, data);
    }
  }

  // ----- generous sorts -----

  function PairSpreadSort(): PairSorter {
    (call: nat, data: seq<seq<IRR>>) => SpreadSort(data, PairLess)
  }

  function RankSpreadSort(w: nat): RankSorter {
    (call: nat, iteration: nat, data: seq<seq<IR>>) =>
      if iteration >= w then data else SpreadSort(data, IndexOrder(w, iteration))
  }

  /** There are sorts that the suffix sorter may use and that leave a rank empty only if there are fewer
      keys than ranks. */
  lemma SpreadSortIsGenerous(w: nat)
    ensures IsPairSorter(PairSpreadSort()) && IsGenerousPairSorter(PairSpreadSort())
    ensures IsRankSorter(w, RankSpreadSort(w)) && IsGenerousRankSorter(w, RankSpreadSort(w))
  {
    forall call: nat, data: seq<seq<IRR>>
      ensures SortContract(data, PairSpreadSort()(call, data), PairLess)
      ensures SomeRankEmpty(PairSpreadSort()(call, data)) ==> |KeysOf(Flatten(data), KeyOf)| < |data|
    {
      PairLessIsOrder();
      SortKeys(w, 0);
      SpreadSortKeepsContract(data, PairLess, KeyOf);
    }
    forall call: nat, iteration: nat, data: seq<seq<IR>> | iteration < w
      ensures SortContract(data, RankSpreadSort(w)(call, iteration, data), IndexOrder(w, iteration))
      ensures SomeRankEmpty(RankSpreadSort(w)(call, iteration, data)) ==>
        |KeysOf(Flatten(data), IndexKey(w, iteration))| < |data|
    {
      IndexOrderIsOrder(w, iteration);
      SortKeys(w, iteration);
      SpreadSortKeepsContract(data, IndexOrder(w, iteration), IndexKey(w, iteration));
    }
  }
}
