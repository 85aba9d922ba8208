/** Sums, exclusive prefix sums and the collective exclusive scan. */
module Scans {
  import opened Sequences
  import opened Wrappers

  /** The largest value of a C++ int, in which counts and displacements are kept. */
  const MAX_INT: nat := 0x7FFF_FFFF

  function Sum(counts: seq<nat>): nat {
    if counts == [] then 0 else Sum(counts[..|counts| - 1]) + counts[|counts| - 1]
  }

  /** Entry i is the sum of the counts before i. */
  function ExclusiveScan(counts: seq<nat>): (displs: seq<nat>)
    ensures |displs| == |counts|
  {
    seq(|counts|, i requires 0 <= i < |counts| => Sum(counts[..i]))
  }

  function Lengths<T>(parts: seq<seq<T>>): (counts: seq<nat>)
    ensures |counts| == |parts|
  {
    seq(|parts|, r requires 0 <= r < |parts| => |parts[r]|)
  }

  lemma SumStep(counts: seq<nat>, i: nat)
    requires i < |counts|
    ensures Sum(counts[..i + 1]) == Sum(counts[..i]) + counts[i]
  {
    assert counts[..i + 1][..i] == counts[..i];
  }

  lemma {:induction false} SumMonotone(counts: seq<nat>, i: nat, j: nat)
    requires i <= j <= |counts|
    ensures Sum(counts[..i]) <= Sum(counts[..j])
  {
    if i < j {
      SumMonotone(counts, i, j - 1);
      SumStep(counts, j - 1);
    }
  }

  lemma SumBound(counts: seq<nat>, i: nat)
    requires i < |counts|
    ensures Sum(counts[..i]) + counts[i] <= Sum(counts)
  {
    SumStep(counts, i);
    SumMonotone(counts, i + 1, |counts|);
    assert counts[..|counts|] == counts;
  }

  /** The scan of the local sizes is where each rank's data starts in the concatenation. */
  lemma {:induction false} ScanIsOffset<T>(parts: seq<seq<T>>, r: nat)
    requires r <= |parts|
    ensures Sum(Lengths(parts)[..r]) == Offset(parts, r)
  {
    if r > 0 {
      ScanIsOffset(parts, r - 1);
      SumStep(Lengths(parts), r - 1);
      FlattenStep(parts, r - 1);
    }
  }

  lemma SumOfLengths<T>(parts: seq<seq<T>>)
    ensures Sum(Lengths(parts)) == |Flatten(parts)|
  {
    ScanIsOffset(parts, |parts|);
    assert Lengths(parts)[..|parts|] == Lengths(parts) && parts[..|parts|] == parts;
  }

  /** std::exclusive_scan over ints. No partial sum overflows if the total fits. */
  method ComputeExclusiveScan(counts: seq<nat>) returns (displs: seq<nat>)
    requires Sum(counts) <= MAX_INT
    ensures displs == ExclusiveScan(counts)
    ensures forall i | 0 <= i < |displs| :: displs[i] <= MAX_INT
  {
    displs := [];
    var acc := 0;
    for i := 0 to |counts|
      invariant acc == Sum(counts[..i])
      invariant |displs| == i
      invariant forall k | 0 <= k < i :: displs[k] == Sum(counts[..k]) && displs[k] <= MAX_INT
    {
      SumBound(counts, i);
      SumStep(counts, i);
      displs := displs + [acc];
      acc := acc + counts[i];
    }
  }

  // ----- the collective exclusive scan -----

  /** The reduction of the values of ranks 0..r, in rank order. */
  function Reduction<T>(op: (T, T) -> T, values: seq<T>): T
    requires values != []
  {
    if |values| == 1 then values[0]
    else op(Reduction(op, values[..|values| - 1]), values[|values| - 1])
  }

  /** Entry j of every rank's buffer. */
  function Column<T>(send: seq<seq<T>>, j: nat): (c: seq<T>)
    requires forall r | 0 <= r < |send| :: j < |send[r]|
    ensures |c| == |send|
  {
    seq(|send|, r requires 0 <= r < |send| => send[r][j])
  }

  /** The wrapped MPI_Exscan on all ranks at once. MPI itself leaves rank 0 undefined: it gets the value(s)
      given for it (a single one is repeated), else the identity of a built-in operation, else it keeps
      whatever the buffer held. Rank r > 0 gets the reduction over the ranks before it, in rank order. */
  method Exscan<T>(send: seq<seq<T>>, count: nat, op: (T, T) -> T, given: Option<seq<T>>, identity: Option<T>,
      undefined: seq<T>) returns (recv: seq<seq<T>>)
    requires |send| > 0
    requires forall r | 0 <= r < |send| :: |send[r]| == count
    requires given.Some? ==> |given.value| == 1 || |given.value| == count
    requires |undefined| == count
    ensures |recv| == |send| && forall r | 0 <= r < |recv| :: |recv[r]| == count
    ensures given.Some? ==>
      forall j | 0 <= j < count :: recv[0][j] == given.value[if |given.value| == 1 then 0 else j]
    ensures given.None? && identity.Some? ==> forall j | 0 <= j < count :: recv[0][j] == identity.value
    ensures given.None? && identity.None? ==> recv[0] == undefined
    ensures |recv| > 1 ==> forall j | 0 <= j < count :: recv[1][j] == send[0][j]
    ensures forall r, j {:trigger send[r][j]} | 0 < r < |recv| - 1 && 0 <= j < count ::
      recv[r + 1][j] == op(recv[r][j], send[r][j])
    ensures forall r, j | 0 < r < |recv| && 0 <= j < count :: recv[r][j] == Reduction(op, Column(send, j)[..r])
  {
    var rank0 := undefined;
    if given.Some? {
      if |given.value| == 1 {
        rank0 := seq(count, _ => given.value[0]);
      } else {
        rank0 := given.value;
      }
    } else if identity.Some? {
      rank0 := seq(count, _ => identity.value);
    }
    recv := [rank0];
    while |recv| < |send|
      invariant 1 <= |recv| <= |send|
      invariant recv[0] == rank0
      invariant forall r | 0 <= r < |recv| :: |recv[r]| == count
      invariant forall r, j | 0 < r < |recv| && 0 <= j < count :: recv[r][j] == Reduction(op, Column(send, j)[..r])
    {
      var r := |recv|;
      forall j | 0 <= j < count
        ensures Reduction(op, Column(send, j)[..r])
             == if r == 1 then send[0][j] else op(recv[r - 1][j], send[r - 1][j])
      {
        ReductionStep(op, send, r, j);
      }
      var row := if r == 1 then send[0]
                 else seq(count, j requires 0 <= j < count => op(recv[r - 1][j], send[r - 1][j]));
      recv := recv + [row];
    }
    forall r, j {:trigger send[r][j]} | 0 <= r < |recv| - 1 && 0 <= j < count
      ensures recv[r + 1][j] == if r == 0 then send[0][j] else op(recv[r][j], send[r][j])
    {
      ReductionStep(op, send, r + 1, j);
    }
  }

  lemma ReductionStep<T>(op: (T, T) -> T, send: seq<seq<T>>, r: nat, j: nat)
    requires 0 < r <= |send|
    requires forall q | 0 <= q < |send| :: j < |send[q]|
    ensures Reduction(op, Column(send, j)[..r])
         == if r == 1 then send[0][j] else op(Reduction(op, Column(send, j)[..r - 1]), send[r - 1][j])
  {
    assert Column(send, j)[..r][..r - 1] == Column(send, j)[..r - 1];
  }

  function Plus(x: nat, y: nat): nat { x + y }

  lemma {:induction false} ReductionIsSum(values: seq<nat>)
    requires values != []
    ensures Reduction(Plus, values) == Sum(values)
  {
    if |values| > 1 {
      ReductionIsSum(values[..|values| - 1]);
    } else {
      assert values[..0] == [];
    }
  }

  lemma SumsOfSingles(values: seq<nat>, send: seq<seq<nat>>, recv: seq<seq<nat>>, r: nat)
    requires |send| == |recv| == |values| && r < |values|
    requires forall q | 0 <= q < |send| :: send[q] == [values[q]]
    requires |recv[r]| == 1
    requires if r == 0 then recv[r][0] == 0 else recv[r][0] == Reduction(Plus, Column(send, 0)[..r])
    ensures recv[r][0] == Sum(values[..r])
  {
    if r > 0 {
      assert Column(send, 0) == values;
      ReductionIsSum(values[..r]);
    }
  }

  /** exscan_single with addition: rank r gets the sum over the ranks before it, and rank 0 gets 0
      whether 0 is given for it or inferred as the identity of addition. */
  method ExscanSingle(values: seq<nat>, given: Option<nat>) returns (offsets: seq<nat>)
    requires |values| > 0
    requires given.Some? ==> given.value == 0
    ensures offsets == ExclusiveScan(values)
  {
    var send := seq(|values|, r requires 0 <= r < |values| => [values[r]]);
    var onRank0 := if given.Some? then Some([given.value]) else None;
    var recv := Exscan(send, 1, Plus, onRank0, Some(0), [0]);
    offsets := [];
    for r := 0 to |values|
      invariant |offsets| == r
      invariant forall k | 0 <= k < r :: offsets[k] == Sum(values[..k])
    {
      SumsOfSingles(values, send, recv, r);
      offsets := offsets + [recv[r][0]];
    }
  }
}
