/** The distributed prefix-doubling loop. The data of all ranks is a sequence with one local sequence
    per rank; a local step is a method applied to every rank's data, a collective one acts on all. */
module PrefixDoubling {
  import opened Sequences
  import opened Bits
  import opened Wrappers
  import opened Scans
  import opened RankArithmetic
  import opened Doubling
  import opened DistributedSort
  import opened EmptyRanks

  /** A text position and its rank. */
  datatype IR = IR(index: nat, rank: nat)

  /** A text position, its rank and the rank of the position further on. */
  datatype IRR = IRR(index: nat, rank1: nat, rank2: nat)

  function KeyOf(x: IRR): Key {
    (x.rank1, x.rank2)
  }

  predicate PairLess(a: IRR, b: IRR) {
    KeyLess(KeyOf(a), KeyOf(b))
  }

  /** The comparator of the second sort, on words of width w. */
  predicate IndexLess(w: nat, iteration: nat, a: IR, b: IR)
    requires iteration < w
  {
    Pow2Monotone(iteration, w);
    var modMask := Pow2(iteration) - 1;
    var divMask := Complement(w, modMask);
    if BitAnd(a.index, modMask) == BitAnd(b.index, modMask) then
      BitAnd(a.index, divMask) < BitAnd(b.index, divMask)
    else
      BitAnd(a.index, modMask) < BitAnd(b.index, modMask)
  }

  function IndexOrder(w: nat, iteration: nat): (IR, IR) -> bool
    requires iteration < w
  {
    (a, b) => IndexLess(w, iteration, a, b)
  }

  // ----- the distributed sorts -----

  /** A sort may distribute the data differently in every call. */
  type PairSorter = (nat, seq<seq<IRR>>) -> seq<seq<IRR>>
  type RankSorter = (nat, nat, seq<seq<IR>>) -> seq<seq<IR>>

  ghost predicate IsPairSorter(sort: PairSorter) {
    forall call: nat, data: seq<seq<IRR>> :: SortContract(data, sort(call, data), PairLess)
  }

  ghost predicate IsRankSorter(w: nat, sort: RankSorter) {
    forall call: nat, iteration: nat, data: seq<seq<IR>> | iteration < w ::
      SortContract(data, sort(call, iteration, data), IndexOrder(w, iteration))
  }

  /** What the comparator of the second sort compares. */
  function IndexKey(w: nat, iteration: nat): IR -> (nat, nat)
    requires iteration < w
  {
    Pow2Monotone(iteration, w);
    (a: IR) => (BitAnd(a.index, Pow2(iteration) - 1), BitAnd(a.index, Complement(w, Pow2(iteration) - 1)))
  }

  lemma SortKeys(w: nat, iteration: nat)
    ensures IsKeyOf(KeyOf, PairLess)
    ensures iteration < w ==> IsKeyOf(IndexKey(w, iteration), IndexOrder(w, iteration))
  {}

  /** A sort that leaves a rank empty only if there are fewer keys than ranks. */
  ghost predicate IsGenerousPairSorter(sort: PairSorter) {
    forall call: nat, data: seq<seq<IRR>> | SomeRankEmpty(sort(call, data)) :: |KeysOf(Flatten(data), KeyOf)| < |data|
  }

  ghost predicate IsGenerousRankSorter(w: nat, sort: RankSorter) {
    forall call: nat, iteration: nat, data: seq<seq<IR>> |
        iteration < w && SomeRankEmpty(sort(call, iteration, data)) ::
      |KeysOf(Flatten(data), IndexKey(w, iteration))| < |data|
  }

  // ----- what the distributed data stands for -----

  function PairIndices(s: seq<IRR>): (r: seq<nat>)
    ensures |r| == |s|
  {
    seq(|s|, p requires 0 <= p < |s| => s[p].index)
  }

  function RankIndices(s: seq<IR>): (r: seq<nat>)
    ensures |r| == |s|
  {
    seq(|s|, p requires 0 <= p < |s| => s[p].index)
  }

  /** s holds every text position once, with its key. */
  ghost predicate HoldsPairs(s: seq<IRR>, ks: seq<Key>) {
    && |s| == |ks|
    && IsPermutation(PairIndices(s))
    && forall p | 0 <= p < |s| :: KeyOf(s[p]) == ks[PairIndices(s)[p]]
  }

  /** s holds every text position once, with the rank of its key. */
  ghost predicate HoldsRanks(s: seq<IR>, ks: seq<Key>) {
    && |s| == |ks|
    && IsPermutation(RankIndices(s))
    && forall p | 0 <= p < |s| :: s[p].rank == RankOf(ks, RankIndices(s)[p])
  }

  lemma HoldsPairsPermuted(s: seq<IRR>, s': seq<IRR>, ks: seq<Key>)
    requires HoldsPairs(s, ks) && multiset(s) == multiset(s')
    ensures HoldsPairs(s', ks)
  {
    PermutationLength(s, s');
    forall p | 0 <= p < |s'| ensures PairIndices(s')[p] < |s| && KeyOf(s'[p]) == ks[PairIndices(s')[p]] {
      var q := PermutationMember(s, s', p);
      assert PairIndices(s)[q] == PairIndices(s')[p];
    }
    assert Distinct(s) by {
      forall p, q | 0 <= p < q < |s| ensures s[p] != s[q] {
        assert PairIndices(s)[p] != PairIndices(s)[q];
      }
    }
    DistinctIsPermutationInvariant(s, s');
    forall p, q | 0 <= p < q < |s'| ensures PairIndices(s')[p] != PairIndices(s')[q] {
      assert s'[p] != s'[q];
    }
  }

  lemma HoldsRanksPermuted(s: seq<IR>, s': seq<IR>, ks: seq<Key>)
    requires HoldsRanks(s, ks) && multiset(s) == multiset(s')
    ensures HoldsRanks(s', ks)
  {
    PermutationLength(s, s');
    forall p | 0 <= p < |s'| ensures RankIndices(s')[p] < |s| && s'[p].rank == RankOf(ks, RankIndices(s')[p]) {
      var q := PermutationMember(s, s', p);
      assert RankIndices(s)[q] == RankIndices(s')[p];
    }
    assert Distinct(s) by {
      forall p, q | 0 <= p < q < |s| ensures s[p] != s[q] {
        assert RankIndices(s)[p] != RankIndices(s)[q];
      }
    }
    DistinctIsPermutationInvariant(s, s');
    forall p, q | 0 <= p < q < |s'| ensures RankIndices(s')[p] != RankIndices(s')[q] {
      assert s'[p] != s'[q];
    }
  }

  // ----- computing ranks -----

  /** The first position of the run of equal keys that i belongs to. */
  function RunStart(s: seq<IRR>, i: nat): (f: nat)
    requires i < |s|
    ensures f <= i
  {
    if i == 0 || KeyOf(s[i - 1]) != KeyOf(s[i]) then i else RunStart(s, i - 1)
  }

  /** The local loop that computes new ranks. */
  method AssignRanks(irrs: seq<IRR>, offset: nat) returns (irs: seq<IR>)
    requires irrs != []
    ensures |irs| == |irrs|
    ensures forall i {:trigger irs[i]} | 0 <= i < |irs| :: irs[i] == IR(irrs[i].index, offset + RunStart(irrs, i))
  {
    var curRank := offset;
    irs := [IR(irrs[0].index, curRank)];
    for i := 1 to |irrs|
      invariant |irs| == i
      invariant curRank == offset + RunStart(irrs, i - 1)
      invariant forall k {:trigger irs[k]} | 0 <= k < i :: irs[k] == IR(irrs[k].index, offset + RunStart(irrs, k))
    {
      if KeyOf(irrs[i - 1]) != KeyOf(irrs[i]) {
        curRank := offset + i;
      }
      irs := irs + [IR(irrs[i].index, curRank)];
    }
  }

  /** The local loop that tests whether all ranks are unique. */
  method LocallyDistinct(irs: seq<IR>) returns (allDistinct: bool)
    ensures allDistinct <==> forall i | 1 <= i < |irs| :: irs[i].rank != irs[i - 1].rank
  {
    allDistinct := true;
    var i := 1;
    while i < |irs|
      invariant 1 <= i
      invariant allDistinct
      invariant forall k | 1 <= k < i && k < |irs| :: irs[k].rank != irs[k - 1].rank
    {
      allDistinct := allDistinct && irs[i].rank != irs[i - 1].rank;
      if !allDistinct {
        break;
      }
      i := i + 1;
    }
  }

  /** On sorted data, position p of the whole has a smaller key than element i of rank r exactly if it
      comes before the run of equal keys that this element belongs to. */
  lemma BeforeTheRun(parts: seq<seq<IRR>>, r: nat, i: nat, p: nat)
    requires Sorted(Flatten(parts), PairLess) && EqualKeysTogether(parts, PairLess)
    requires r < |parts| && i < |parts[r]| && p < |Flatten(parts)|
    ensures PairLess(Flatten(parts)[p], parts[r][i]) <==> p < Offset(parts, r) + RunStart(parts[r], i)
  {
    var s, j := Locate(parts, p);
    if s < r {
      CrossRank(parts, s, j, r, i);
      OffsetMonotone(parts, s + 1, r);
      FlattenStep(parts, s);
    } else if s > r {
      CrossRank(parts, r, i, s, j);
      OffsetMonotone(parts, r + 1, s);
      FlattenStep(parts, r);
    } else {
      LocallySorted(parts, r);
      BeforeTheLocalRun(parts[r], i, j);
    }
  }

  lemma {:induction false} BeforeTheLocalRun(s: seq<IRR>, i: nat, j: nat)
    requires Sorted(s, PairLess) && i < |s| && j < |s|
    ensures PairLess(s[j], s[i]) <==> j < RunStart(s, i)
  {
    if j > i {
      NotLess(s, i, j);
    } else if j < i {
      NotLess(s, i - 1, i);
      if KeyOf(s[i - 1]) == KeyOf(s[i]) {
        BeforeTheLocalRun(s, i - 1, j);
      } else if j < i - 1 {
        NotLess(s, j, i - 1);
      }
    }
  }

  lemma NotLess(s: seq<IRR>, p: nat, q: nat)
    requires Sorted(s, PairLess) && p < q < |s|
    ensures !PairLess(s[q], s[p])
  {}

  lemma CrossRank(parts: seq<seq<IRR>>, r: nat, i: nat, s: nat, j: nat)
    requires EqualKeysTogether(parts, PairLess) && r < s < |parts| && i < |parts[r]| && j < |parts[s]|
    ensures PairLess(parts[r][i], parts[s][j])
  {}

  lemma LocallySorted(parts: seq<seq<IRR>>, r: nat)
    requires Sorted(Flatten(parts), PairLess) && r < |parts|
    ensures Sorted(parts[r], PairLess)
  {
    forall i, j | 0 <= i < j < |parts[r]| ensures !PairLess(parts[r][j], parts[r][i]) {
      FlattenAt(parts, r, i);
      FlattenAt(parts, r, j);
    }
  }

  /** Every rank assigns to each of its positions the number of positions, on all ranks, with a smaller key. */
  lemma {:induction false} AssignedRankIsGlobal(parts: seq<seq<IRR>>, ks: seq<Key>, r: nat, i: nat)
    requires Sorted(Flatten(parts), PairLess) && EqualKeysTogether(parts, PairLess)
    requires HoldsPairs(Flatten(parts), ks)
    requires r < |parts| && i < |parts[r]|
    ensures parts[r][i].index < |ks|
    ensures Offset(parts, r) + RunStart(parts[r], i) == RankOf(ks, parts[r][i].index)
  {
    var flat := Flatten(parts);
    FlattenAt(parts, r, i);
    var at := Offset(parts, r) + i;
    assert PairIndices(flat)[at] == parts[r][i].index;
    forall p | 0 <= p < |flat|
      ensures KeyLess(ks[PairIndices(flat)[p]], ks[parts[r][i].index]) <==> p < Offset(parts, r) + RunStart(parts[r], i)
    {
      BeforeTheRun(parts, r, i, p);
    }
    RankFromOrder(ks, PairIndices(flat), Offset(parts, r) + RunStart(parts[r], i), parts[r][i].index);
  }

  /** All ranks' data after computing ranks. */
  ghost predicate Assigned(irrs: seq<seq<IRR>>, irs: seq<seq<IR>>) {
    && |irs| == |irrs|
    && (forall r | 0 <= r < |irs| :: |irs[r]| == |irrs[r]|)
    && forall r, i {:trigger irs[r][i]} | 0 <= r < |irs| && 0 <= i < |irs[r]| ::
         irs[r][i] == IR(irrs[r][i].index, Offset(irrs, r) + RunStart(irrs[r], i))
  }

  lemma AssignedHoldsRanks(irrs: seq<seq<IRR>>, irs: seq<seq<IR>>, ks: seq<Key>)
    requires Sorted(Flatten(irrs), PairLess) && EqualKeysTogether(irrs, PairLess)
    requires HoldsPairs(Flatten(irrs), ks) && Assigned(irrs, irs)
    ensures HoldsRanks(Flatten(irs), ks)
    ensures RankIndices(Flatten(irs)) == PairIndices(Flatten(irrs))
  {
    var a, b := Flatten(irrs), Flatten(irs);
    SameOffsets(irrs, irs, |irrs|);
    assert irrs[..|irrs|] == irrs && irs[..|irs|] == irs;
    forall p | 0 <= p < |a| ensures b[p].index == a[p].index && b[p].rank == RankOf(ks, b[p].index) {
      var r, i := Locate(irrs, p);
      SameOffsets(irrs, irs, r);
      FlattenAt(irs, r, i);
      AssignedRankIsGlobal(irrs, ks, r, i);
    }
  }

  /** The global AND of the local tests holds exactly if all keys are different. */
  lemma {:induction false} DistinctIff(irrs: seq<seq<IRR>>, irs: seq<seq<IR>>, ks: seq<Key>)
    requires Sorted(Flatten(irrs), PairLess) && EqualKeysTogether(irrs, PairLess)
    requires HoldsPairs(Flatten(irrs), ks) && Assigned(irrs, irs)
    ensures (forall r, i | 0 <= r < |irs| && 1 <= i < |irs[r]| :: irs[r][i].rank != irs[r][i - 1].rank)
       <==> Distinct(ks)
  {
    if !Distinct(ks) {
      var r, i := TieIsLocal(irrs, ks);
      assert irs[r][i].rank == irs[r][i - 1].rank;
    }
    if r, i :| 0 <= r < |irs| && 1 <= i < |irs[r]| && irs[r][i].rank == irs[r][i - 1].rank {
      AssignedRankIsGlobal(irrs, ks, r, i);
      AssignedRankIsGlobal(irrs, ks, r, i - 1);
      RankOrder(ks, irrs[r][i].index, irrs[r][i - 1].index);
      FlattenAt(irrs, r, i);
      FlattenAt(irrs, r, i - 1);
      var ix := PairIndices(Flatten(irrs));
      assert ix[Offset(irrs, r) + i] != ix[Offset(irrs, r) + i - 1];
    }
  }

  /** Two equal keys show up as equal neighbours on one rank. */
  lemma TieIsLocal(irrs: seq<seq<IRR>>, ks: seq<Key>) returns (r: nat, i: nat)
    requires Sorted(Flatten(irrs), PairLess) && EqualKeysTogether(irrs, PairLess)
    requires HoldsPairs(Flatten(irrs), ks) && !Distinct(ks)
    ensures r < |irrs| && 1 <= i < |irrs[r]|
    ensures RunStart(irrs[r], i) == RunStart(irrs[r], i - 1)
  {
    var x, y :| 0 <= x < y < |ks| && ks[x] == ks[y];
    var flat := Flatten(irrs);
    var p := PermutationIsOnto(PairIndices(flat), x);
    var q := PermutationIsOnto(PairIndices(flat), y);
    if p > q {
      p, q := q, p;
    }
    assert KeyOf(flat[p]) == KeyOf(flat[q]);
    var s, j := Locate(irrs, p);
    r, i := Locate(irrs, q);
    assert s == r;
    LocallySorted(irrs, r);
    NotLess(irrs[r], i - 1, i);
    if j < i - 1 {
      NotLess(irrs[r], j, i - 1);
    }
  }

  // ----- pairing ranks -----

  lemma {:induction false} IndexLessMeaning(w: nat, iteration: nat, a: IR, b: IR)
    requires iteration < w && a.index < Pow2(w) && b.index < Pow2(w)
    ensures IndexLess(w, iteration, a, b)
       <==> (a.index % Pow2(iteration) < b.index % Pow2(iteration)
             || (a.index % Pow2(iteration) == b.index % Pow2(iteration) && a.index < b.index))
  {
    AndLowMask(a.index, iteration);
    AndLowMask(b.index, iteration);
    AndHighMask(w, a.index, iteration);
    AndHighMask(w, b.index, iteration);
  }

  /** index_distance: one bit shifted left. */
  lemma {:induction false} IndexDistance(w: nat, iteration: nat)
    requires iteration < w
    ensures ShiftLeft(w, 1, iteration) == Pow2(iteration) < Pow2(w)
  {
    Pow2Monotone(iteration, w);
    SmallMod(Pow2(iteration), Pow2(w));
  }

  /** The new entry for position a, given the entry that follows it in the second order. The sum wraps
      around at the width of the index type. */
  function PairWithNext(w: nat, iteration: nat, a: IR, next: IR): IRR {
    IRR(a.index, a.rank,
        if (a.index + ShiftLeft(w, 1, iteration)) % Pow2(w) == next.index then next.rank else 0)
  }

  /** One rank's data after pairing ranks; the border entry follows its last entry. */
  ghost predicate LocallyPaired(w: nat, iteration: nat, irs: seq<IR>, border: IR, irrs: seq<IRR>) {
    && |irrs| == |irs|
    && forall i {:trigger irrs[i]} | 0 <= i < |irrs| ::
         irrs[i] == PairWithNext(w, iteration, irs[i], if i + 1 < |irs| then irs[i + 1] else border)
  }

  /** The local loop that computes new rank pairs. */
  method PairRanks(w: nat, iteration: nat, irs: seq<IR>, border: IR) returns (irrs: seq<IRR>)
    requires iteration < w
    ensures |irrs| == |irs|
    ensures forall i | 0 <= i < |irs| ::
      irrs[i] == PairWithNext(w, iteration, irs[i], if i + 1 < |irs| then irs[i + 1] else border)
  {
    var extended := irs + [border];
    irrs := [];
    var indexDistance := ShiftLeft(w, 1, iteration);
    for i := 0 to |irs|
      invariant |irrs| == i
      invariant forall k {:trigger irrs[k]} | 0 <= k < i ::
        irrs[k] == PairWithNext(w, iteration, irs[k], if k + 1 < |irs| then irs[k + 1] else border)
    {
      assert extended[i] == irs[i];
      assert extended[i + 1] == if i + 1 < |irs| then irs[i + 1] else border;
      var secondRank := 0;
      if (extended[i].index + indexDistance) % Pow2(w) == extended[i + 1].index {
        secondRank := extended[i + 1].rank;
      }
      irrs := irrs + [IRR(extended[i].index, extended[i].rank, secondRank)];
    }
  }

  /** Every rank sends its first entry to the rank before it, around the communicator. */
  method ExchangeFronts(irs: seq<seq<IR>>) returns (rightmost: seq<IR>)
    requires |irs| > 0 && !SomeRankEmpty(irs)
    ensures |rightmost| == |irs|
    ensures forall r | 0 <= r < |irs| :: rightmost[r] == irs[RankShiftedCyclic(r, |irs|, 1)][0]
  {
    var size := |irs|;
    rightmost := seq(size, _ => IR(0, 0));
    for r := 0 to size
      invariant |rightmost| == size
      invariant forall q | 0 <= q < r :: rightmost[RankShiftedCyclic(q, size, -1)] == irs[q][0]
    {
      forall q | 0 <= q < r ensures RankShiftedCyclic(q, size, -1) != RankShiftedCyclic(r, size, -1) {
        ShiftsAreInverse(q, RankShiftedCyclic(q, size, -1), size, -1);
        ShiftsAreInverse(r, RankShiftedCyclic(r, size, -1), size, -1);
      }
      rightmost := rightmost[RankShiftedCyclic(r, size, -1) := irs[r][0]];
    }
    forall r | 0 <= r < size ensures rightmost[r] == irs[RankShiftedCyclic(r, size, 1)][0] {
      ShiftsAreInverse(r, RankShiftedCyclic(r, size, 1), size, 1);
    }
  }

  /** Numbers with the same remainder modulo d are at least d apart. */
  lemma SameRemainder(a: nat, b: nat, d: nat)
    requires d > 0 && a % d == b % d && a < b
    ensures a + d <= b
  {
    var k := b / d - a / d;
    assert b - a == d * k by {
      assert b == d * (b / d) + b % d && a == d * (a / d) + a % d;
      assert d * (b / d - a / d) == d * (b / d) - d * (a / d);
    }
    assert k <= 0 ==> d * k <= 0;
    assert k >= 1 ==> d * k >= d;
  }

  /** In the second order the entry after position i is i + 2^iteration whenever that is in the text. */
  lemma {:induction false} SuccessorIsNext(w: nat, iteration: nat, s: seq<IR>, p: nat)
    requires iteration < w && |s| <= Pow2(w) && p < |s|
    requires IsPermutation(RankIndices(s)) && Sorted(s, IndexOrder(w, iteration))
    requires s[p].index + Pow2(iteration) < |s|
    ensures p + 1 < |s| && s[p + 1].index == s[p].index + Pow2(iteration)
  {
    var d, ix := Pow2(iteration), RankIndices(s);
    assert forall q | 0 <= q < |s| :: s[q].index == ix[q] < |s|;
    var q := PermutationIsOnto(ix, s[p].index + d);
    ModPlusMultiple(1, d, s[p].index);
    if q < p {
      IndexOrdered(w, iteration, s, q, p);
    }
    if q > p + 1 {
      IndexOrdered(w, iteration, s, p, p + 1);
      IndexOrdered(w, iteration, s, p + 1, q);
      SameRemainder(s[p].index, s[p + 1].index, d);
    }
  }

  /** Neighbours in the second order. */
  lemma IndexOrdered(w: nat, iteration: nat, s: seq<IR>, p: nat, q: nat)
    requires iteration < w && |s| <= Pow2(w) && p < q < |s|
    requires IsPermutation(RankIndices(s)) && Sorted(s, IndexOrder(w, iteration))
    ensures s[p].index < |s| && s[q].index < |s| && s[p].index != s[q].index
    ensures s[p].index % Pow2(iteration) < s[q].index % Pow2(iteration)
         || (s[p].index % Pow2(iteration) == s[q].index % Pow2(iteration) && s[p].index < s[q].index)
  {
    assert RankIndices(s)[p] == s[p].index && RankIndices(s)[q] == s[q].index;
    assert !IndexOrder(w, iteration)(s[q], s[p]);
    IndexLessMeaning(w, iteration, s[q], s[p]);
  }

  /** The neighbour test finds the second rank exactly if it exists; the index arithmetic may wrap
      around, but then the test fails or yields 0. */
  lemma {:induction false} PairWithNextIsDoubling(w: nat, iteration: nat, s: seq<IR>, ks: seq<Key>, p: nat, next: IR)
    requires iteration < w && |s| <= Pow2(w) && p < |s|
    requires HoldsRanks(s, ks) && Sorted(s, IndexOrder(w, iteration))
    requires next == if p + 1 < |s| then s[p + 1] else IR(0, 0)
    ensures RankIndices(s)[p] == s[p].index
    ensures PairWithNext(w, iteration, s[p], next)
         == IRR(s[p].index, RankOf(ks, s[p].index), SecondRank(ks, s[p].index, Pow2(iteration)))
  {
    var d, ix := Pow2(iteration), RankIndices(s);
    IndexDistance(w, iteration);
    assert ix[p] == s[p].index;
    if s[p].index + d < |s| {
      SuccessorIsNext(w, iteration, s, p);
      assert ix[p + 1] == s[p + 1].index;
      SmallMod(s[p].index + d, Pow2(w));
    } else if p + 1 < |s| {
      assert ix[p + 1] == s[p + 1].index && ix[p] != ix[p + 1];
      if (s[p].index + d) % Pow2(w) == s[p + 1].index {
        IndexOrdered(w, iteration, s, p, p + 1);
        WrappedIndexIsNotNext(w, iteration, s[p].index, s[p + 1].index);
      }
    }
  }

  lemma WrapKeepsRemainder(a: int, d: int, k: int)
    requires d > 0
    ensures (a + d - d * k) % d == a % d
  {
    assert a + d - d * k == (1 - k) * d + a by {
      assert (1 - k) * d == d - d * k;
    }
    ModPlusMultiple(1 - k, d, a);
  }

  /** A sum that wraps around keeps the remainder but is smaller. */
  lemma {:induction false} WrappedIndexIsNotNext(w: nat, iteration: nat, a: nat, b: nat)
    requires iteration < w && a < Pow2(w) && b < Pow2(w)
    requires (a + Pow2(iteration)) % Pow2(w) == b
    ensures b == a + Pow2(iteration) || (b < a && b % Pow2(iteration) == a % Pow2(iteration))
  {
    var d, m := Pow2(iteration), Pow2(w);
    IndexDistance(w, iteration);
    if a + d < m {
      SmallMod(a + d, m);
    } else {
      ModPlusMultiple(1, m, a + d - m);
      SmallMod(a + d - m, m);
      Pow2Add(iteration, w - iteration);
      assert iteration + (w - iteration) == w;
      WrapKeepsRemainder(a, d, Pow2(w - iteration));
    }
  }

  /** What follows the last entry of rank r: the first entry of the next rank, or (0, 0) on the last rank. */
  function Border(irs: seq<seq<IR>>, r: nat): IR
    requires r < |irs|
  {
    if r + 1 < |irs| && irs[r + 1] != [] then irs[r + 1][0] else IR(0, 0)
  }

  /** All ranks' data after pairing ranks. */
  ghost predicate Paired(w: nat, iteration: nat, irs: seq<seq<IR>>, irrs: seq<seq<IRR>>) {
    && |irrs| == |irs|
    && forall r | 0 <= r < |irs| :: LocallyPaired(w, iteration, irs[r], Border(irs, r), irrs[r])
  }

  /** The entry after entry i of rank r. */
  function NextEntry(irs: seq<seq<IR>>, r: nat, i: nat): IR
    requires r < |irs| && i < |irs[r]|
  {
    if i + 1 < |irs[r]| then irs[r][i + 1] else Border(irs, r)
  }

  /** Across rank borders, the next entry is the next entry of the whole. */
  lemma NextEntryIsGlobal(irs: seq<seq<IR>>, r: nat, i: nat)
    requires r < |irs| && i < |irs[r]| && !SomeRankEmpty(irs)
    ensures var flat, p := Flatten(irs), Offset(irs, r) + i;
            p < |flat| && NextEntry(irs, r, i) == if p + 1 < |flat| then flat[p + 1] else IR(0, 0)
  {
    FlattenAt(irs, r, i);
    if i + 1 < |irs[r]| {
      FlattenAt(irs, r, i + 1);
    } else {
      FlattenStep(irs, r);
      if r + 1 < |irs| {
        FlattenAt(irs, r + 1, 0);
      } else {
        assert irs[..r + 1] == irs;
      }
    }
  }

  /** The distributed pairing step is one round of doubling. */
  lemma {:induction false} PairedHoldsPairs(w: nat, iteration: nat, irs: seq<seq<IR>>, irrs: seq<seq<IRR>>,
      ks: seq<Key>)
    requires iteration < w && |ks| <= Pow2(w) && !SomeRankEmpty(irs)
    requires HoldsRanks(Flatten(irs), ks) && Sorted(Flatten(irs), IndexOrder(w, iteration))
    requires Paired(w, iteration, irs, irrs)
    ensures HoldsPairs(Flatten(irrs), Doubled(ks, Pow2(iteration)))
  {
    var a, b := Flatten(irs), Flatten(irrs);
    SameOffsets(irs, irrs, |irs|);
    assert irrs[..|irrs|] == irrs && irs[..|irs|] == irs;
    assert PairIndices(b) == RankIndices(a) by {
      forall p | 0 <= p < |a| ensures b[p].index == a[p].index {
        PairedAt(w, iteration, irs, irrs, ks, p);
      }
    }
    forall p | 0 <= p < |b| ensures KeyOf(b[p]) == Doubled(ks, Pow2(iteration))[PairIndices(b)[p]] {
      PairedAt(w, iteration, irs, irrs, ks, p);
    }
  }

  lemma {:induction false} PairedAt(w: nat, iteration: nat, irs: seq<seq<IR>>, irrs: seq<seq<IRR>>, ks: seq<Key>,
      p: nat)
    requires iteration < w && |ks| <= Pow2(w) && !SomeRankEmpty(irs)
    requires HoldsRanks(Flatten(irs), ks) && Sorted(Flatten(irs), IndexOrder(w, iteration))
    requires Paired(w, iteration, irs, irrs)
    requires p < |Flatten(irs)|
    ensures p < |Flatten(irrs)| && Flatten(irrs)[p].index == Flatten(irs)[p].index < |ks|
    ensures KeyOf(Flatten(irrs)[p]) == Doubled(ks, Pow2(iteration))[Flatten(irs)[p].index]
  {
    var r, i := Locate(irs, p);
    SameOffsets(irs, irrs, r);
    FlattenAt(irrs, r, i);
    NextEntryIsGlobal(irs, r, i);
    PairWithNextIsDoubling(w, iteration, Flatten(irs), ks, p, NextEntry(irs, r, i));
    DoubledAt(ks, Pow2(iteration), Flatten(irs)[p].index);
  }

  // ----- the loop -----

  /** How the loop ends: with every rank's part of the result; by reading the first element of a rank
      the sort left empty; or by shifting an index by its whole width, both undefined in the program. */
  datatype Outcome = Done(result: seq<seq<nat>>) | EmptyRank | ShiftTooLong

  /** What a sort is applied to. */
  datatype SortInput = Pairs(pairs: seq<seq<IRR>>) | Ranks(ranks: seq<seq<IR>>)

  /** The sort of this input, in the given round, left a rank without data; the input is the data of that
      round on the given number of ranks. */
  ghost predicate SortLeavesRankEmpty(w: nat, size: nat, sortPairs: PairSorter, sortRanks: RankSorter, ks: seq<Key>,
      round: nat, iteration: nat, input: SortInput)
  {
    match input
    case Pairs(data) => |data| == size && HoldsPairs(Flatten(data), ks) && SomeRankEmpty(sortPairs(round, data))
    case Ranks(data) =>
      && iteration < w && |data| == size && HoldsRanks(Flatten(data), ks)
      && SomeRankEmpty(sortRanks(round, iteration, data))
  }

  /** A single rank holds everything, so no sort leaves it empty. */
  lemma SingleRankKeepsAll<T(!new)>(before: seq<seq<T>>, after: seq<seq<T>>, less: (T, T) -> bool)
    requires SortContract(before, after, less) && |before| == 1 && |Flatten(before)| > 0
    ensures !SomeRankEmpty(after)
  {
    PermutationLength(Flatten(before), Flatten(after));
    assert after[..0] == [];
    assert Flatten(after) == after[0];
  }

  /** The keys the ranks hold are those of the positions. */
  lemma HeldKeys(s: seq<IRR>, ks: seq<Key>)
    requires HoldsPairs(s, ks)
    ensures KeysOf(s, KeyOf) == Elements(ks)
  {
    forall k | k in Elements(ks) ensures k in KeysOf(s, KeyOf) {
      var x :| 0 <= x < |ks| && ks[x] == k;
      var p := PermutationIsOnto(PairIndices(s), x);
      assert KeyOf(s[p]) == k;
    }
    forall k | k in KeysOf(s, KeyOf) ensures k in Elements(ks) {
      var p :| 0 <= p < |s| && KeyOf(s[p]) == k;
      assert PairIndices(s)[p] < |ks|;
    }
  }

  /** All positions are different for the second sort. */
  lemma HeldIndexKeys(w: nat, iteration: nat, s: seq<IR>, ks: seq<Key>)
    requires iteration < w && |ks| <= Pow2(w) && HoldsRanks(s, ks)
    ensures |KeysOf(s, IndexKey(w, iteration))| == |ks|
  {
    var key := IndexKey(w, iteration);
    var held := seq(|s|, p requires 0 <= p < |s| => key(s[p]));
    forall p, q | 0 <= p < q < |held| ensures held[p] != held[q] {
      assert RankIndices(s)[p] != RankIndices(s)[q];
      IndexLessMeaning(w, iteration, s[p], s[q]);
      IndexLessMeaning(w, iteration, s[q], s[p]);
    }
    assert Elements(held) == KeysOf(s, key) by {
      forall k | k in KeysOf(s, key) ensures k in Elements(held) {
        var p :| 0 <= p < |s| && key(s[p]) == k;
        assert held[p] == k;
      }
    }
    DistinctCardinality(held);
  }

  lemma FewValues<T>(s: seq<T>)
    ensures |Elements(s)| <= |s|
  {
    FinerHasMoreValues(s, seq(|s|, i => i));
    var ids := seq(|s|, i => i);
    DistinctCardinality(ids);
  }

  method ComputeRanks(irrs: seq<seq<IRR>>) returns (irs: seq<seq<IR>>, allDistinct: bool)
    requires |irrs| > 0 && !SomeRankEmpty(irrs)
    ensures Assigned(irrs, irs)
    ensures allDistinct <==> forall r, i | 0 <= r < |irs| && 1 <= i < |irs[r]| :: irs[r][i].rank != irs[r][i - 1].rank
  {
    var offsets := ExscanSingle(Lengths(irrs), Some(0));
    irs := [];
    allDistinct := true;
    for r := 0 to |irrs|
      invariant |irs| == r
      invariant forall q | 0 <= q < r :: |irs[q]| == |irrs[q]|
      invariant forall q, i {:trigger irs[q][i]} | 0 <= q < r && 0 <= i < |irs[q]| ::
        irs[q][i] == IR(irrs[q][i].index, Offset(irrs, q) + RunStart(irrs[q], i))
      invariant allDistinct <==> forall q, i | 0 <= q < r && 1 <= i < |irs[q]| :: irs[q][i].rank != irs[q][i - 1].rank
    {
      ScanIsOffset(irrs, r);
      var local := AssignRanks(irrs[r], offsets[r]);
      var locallyDistinct := LocallyDistinct(local);
      irs := irs + [local];
      allDistinct := allDistinct && locallyDistinct;
    }
  }

  lemma NextRank(r: nat, size: nat)
    requires r < size
    ensures r + 1 < size ==> RankShiftedCyclic(r, size, 1) == r + 1
  {
    RankShiftedCyclicIsModulo(r, size, 1);
    if r + 1 < size { SmallMod(r + 1, size); }
  }

  method ComputePairs(w: nat, iteration: nat, irs: seq<seq<IR>>) returns (irrs: seq<seq<IRR>>)
    requires iteration < w && |irs| > 0 && !SomeRankEmpty(irs)
    ensures Paired(w, iteration, irs, irrs)
  {
    var rightmost := ExchangeFronts(irs);
    irrs := [];
    for r := 0 to |irs|
      invariant |irrs| == r
      invariant forall q | 0 <= q < r :: LocallyPaired(w, iteration, irs[q], Border(irs, q), irrs[q])
    {
      NextRank(r, |irs|);
      var border := if r + 1 < |irs| then rightmost[r] else IR(0, 0);
      assert border == Border(irs, r);
      var mine := irs[r];
      var local := PairRanks(w, iteration, mine, border);
      assert |local| == |mine|;
      assert LocallyPaired(w, iteration, mine, border, local);
      irrs := irrs + [local];
    }
  }

  method ExtractIndices(irs: seq<seq<IR>>) returns (result: seq<seq<nat>>)
    ensures |result| == |irs|
    ensures forall r | 0 <= r < |irs| :: result[r] == RankIndices(irs[r])
    ensures Flatten(result) == RankIndices(Flatten(irs))
  {
    result := seq(|irs|, r requires 0 <= r < |irs| => RankIndices(irs[r]));
    SameOffsets(irs, result, |irs|);
    assert result[..|result|] == result && irs[..|irs|] == irs;
    forall p | 0 <= p < |Flatten(irs)| ensures Flatten(result)[p] == Flatten(irs)[p].index {
      var r, i := Locate(irs, p);
      SameOffsets(irs, result, r);
      FlattenAt(result, r, i);
    }
  }

  lemma DistinctOrderIsSortedByKey(irrs: seq<seq<IRR>>, ks: seq<Key>)
    requires Sorted(Flatten(irrs), PairLess) && HoldsPairs(Flatten(irrs), ks) && Distinct(ks)
    ensures SortedByKey(PairIndices(Flatten(irrs)), ks)
  {
    var s := Flatten(irrs);
    var ix := PairIndices(s);
    forall p, q | 0 <= p < q < |s| ensures KeyLess(ks[ix[p]], ks[ix[q]]) {
      assert ix[p] != ix[q] && ks[ix[p]] != ks[ix[q]] by {
        if ix[p] < ix[q] { assert ks[ix[p]] != ks[ix[q]]; } else { assert ks[ix[q]] != ks[ix[p]]; }
      }
      assert !PairLess(s[q], s[p]);
    }
  }

  /** One pass of the loop: either it ends, or it hands over the pairs of the next pass. */
  datatype Pass = Next(pairs: seq<seq<IRR>>) | Last(out: Outcome)

  method RunPass(w: nat, irrs: seq<seq<IRR>>, round: nat, iteration: nat, sortPairs: PairSorter, sortRanks: RankSorter,
      ghost ks: seq<Key>) returns (pass: Pass, ghost last: SortInput)
    requires |irrs| > 0
    requires HoldsPairs(Flatten(irrs), ks) && |ks| <= Pow2(w)
    requires IsPairSorter(sortPairs) && IsRankSorter(w, sortRanks)
    ensures pass.Next? ==> |pass.pairs| == |irrs| && HoldsPairs(Flatten(pass.pairs), Doubled(ks, Pow2(iteration)))
    ensures pass.Next? ==> iteration < w && !Distinct(ks)
    ensures pass.Last? && pass.out.Done? ==> |pass.out.result| == |irrs| && SortedByKey(Flatten(pass.out.result), ks)
    ensures pass.Last? && pass.out.ShiftTooLong? ==> iteration >= w && !Distinct(ks)
    ensures pass.Last? && pass.out.EmptyRank? ==> !(|irrs| == 1 && |ks| > 0)
    ensures pass.Last? && pass.out.EmptyRank? ==>
      SortLeavesRankEmpty(w, |irrs|, sortPairs, sortRanks, ks, round, iteration, last)
    ensures |Elements(ks)| < |irrs| ==> pass == Last(EmptyRank)
    ensures IsGenerousPairSorter(sortPairs) && IsGenerousRankSorter(w, sortRanks) && |Elements(ks)| >= |irrs| ==>
      pass != Last(EmptyRank)
  {
    last := Pairs(irrs);
    var byPair := sortPairs(round, irrs);
    assert SortContract(irrs, byPair, PairLess);
    SortKeys(w, iteration);
    HeldKeys(Flatten(irrs), ks);
    FewValues(ks);
    if |Elements(ks)| < |irrs| {
      FewKeysLeaveRankEmpty(irrs, byPair, PairLess, KeyOf);
    }
    HoldsPairsPermuted(Flatten(irrs), Flatten(byPair), ks);
    if |irrs| == 1 && |ks| > 0 {
      SingleRankKeepsAll(irrs, byPair, PairLess);
    }
    if SomeRankEmpty(byPair) {
      pass := Last(EmptyRank);
      return;
    }
    var irs, allDistinct := ComputeRanks(byPair);
    AssignedHoldsRanks(byPair, irs, ks);
    DistinctIff(byPair, irs, ks);
    if allDistinct {
      var result := ExtractIndices(irs);
      DistinctOrderIsSortedByKey(byPair, ks);
      pass := Last(Done(result));
      return;
    }
    if iteration >= w {
      pass := Last(ShiftTooLong);
      return;
    }
    last := Ranks(irs);
    var byIndex := sortRanks(round, iteration, irs);
    assert SortContract(irs, byIndex, IndexOrder(w, iteration));
    HoldsRanksPermuted(Flatten(irs), Flatten(byIndex), ks);
    if |irs| == 1 {
      SingleRankKeepsAll(irs, byIndex, IndexOrder(w, iteration));
    }
    HeldIndexKeys(w, iteration, Flatten(irs), ks);
    if SomeRankEmpty(byIndex) {
      pass := Last(EmptyRank);
      return;
    }
    var pairs := ComputePairs(w, iteration, byIndex);
    PairedHoldsPairs(w, iteration, byIndex, pairs, ks);
    pass := Next(pairs);
  }

  /** A round has at least as many different keys as the one before. */
  lemma RoundKeepsKeysApart(ks: seq<Key>, d: nat)
    ensures |Elements(ks)| <= |Elements(Doubled(ks, d))|
  {
    forall x, y | 0 <= x < |ks| && 0 <= y < |ks| && Doubled(ks, d)[x] == Doubled(ks, d)[y] ensures ks[x] == ks[y] {
      DoubledOrder(ks, d, x, y);
    }
    FinerHasMoreValues(ks, Doubled(ks, d));
  }

  /** After the given number of rounds two keys are still equal, and the next shift is a legal one. */
  ghost predicate Unfinished(w: nat, ks: seq<Key>, start: nat, rounds: nat) {
    start + rounds < w && !Distinct(KeysAfter(ks, start, rounds))
  }

  /** The loop, on any number of ranks and for any distribution the sorts choose: after any number of
      rounds the ranks hold the keys of that many rounds of doubling; it ends as soon as they are all
      different, with the positions in the order of these keys. */
  method DoublePrefixes(w: nat, input: seq<seq<IRR>>, start: nat, sortPairs: PairSorter, sortRanks: RankSorter,
      ghost ks: seq<Key>) returns (out: Outcome, rounds: nat, ghost final: seq<Key>, ghost last: SortInput)
    requires |input| > 0
    requires HoldsPairs(Flatten(input), ks) && |ks| <= Pow2(w)
    requires IsPairSorter(sortPairs) && IsRankSorter(w, sortRanks)
    ensures final == KeysAfter(ks, start, rounds)
    ensures forall t: nat | t < rounds :: Unfinished(w, ks, start, t)
    ensures out.Done? ==> |out.result| == |input| && SortedByKey(Flatten(out.result), final)
    ensures out.ShiftTooLong? ==> start + rounds >= w && !Distinct(final)
    ensures out.EmptyRank? ==> !(|input| == 1 && |ks| > 0)
    ensures out.EmptyRank? ==>
      SortLeavesRankEmpty(w, |input|, sortPairs, sortRanks, final, rounds, start + rounds, last)
    // fewer keys than ranks are the end of it, whatever the sorts do; otherwise it need not happen
    ensures |Elements(ks)| < |input| ==> out.EmptyRank?
    ensures IsGenerousPairSorter(sortPairs) && IsGenerousRankSorter(w, sortRanks) ==>
      (out.EmptyRank? <==> |Elements(ks)| < |input|)
  {
    var irrs, iteration := input, start;
    rounds := 0;
    final := ks;
    while true
      invariant iteration == start + rounds
      invariant |irrs| == |input|
      invariant final == KeysAfter(ks, start, rounds)
      invariant HoldsPairs(Flatten(irrs), final)
      invariant |Elements(ks)| <= |Elements(final)|
      invariant rounds > 0 ==> |Elements(ks)| >= |input|
      invariant forall t: nat | t < rounds :: Unfinished(w, ks, start, t)
      decreases w - iteration
    {
      var pass;
      pass, last := RunPass(w, irrs, rounds, iteration, sortPairs, sortRanks, final);
      if pass.Last? {
        out := pass.out;
        return;
      }
      assert Unfinished(w, ks, start, rounds);
      RoundKeepsKeysApart(final, Pow2(iteration));
      final := Doubled(final, Pow2(iteration));
      irrs, iteration, rounds := pass.pairs, iteration + 1, rounds + 1;
    }
  }
}
