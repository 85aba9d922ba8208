/** The receive buffer of a vectorised collective: its size, and what arrives in it. */
module ReceiveBuffers {
  import opened Sequences
  import opened Scans
  import opened Segments

  // ----- the size of the receive buffer -----

  /** The end of the segment that ends last. */
  function MaxEnd(counts: seq<nat>, displs: seq<nat>): nat
    requires |counts| == |displs|
  {
    if counts == [] then 0
    else
      var last := |counts| - 1;
      var before := MaxEnd(counts[..last], displs[..last]);
      if before < counts[last] + displs[last] then counts[last] + displs[last] else before
  }

  /** For any displacements this is the least size into which every segment fits. */
  lemma {:induction false} MaxEndIsLeast(counts: seq<nat>, displs: seq<nat>, size: nat)
    requires |counts| == |displs|
    ensures MaxEnd(counts, displs) <= size <==> forall i | 0 <= i < |counts| :: displs[i] + counts[i] <= size
  {
    if counts != [] {
      var last := |counts| - 1;
      MaxEndIsLeast(counts[..last], displs[..last], size);
      assert forall i | 0 <= i < last :: counts[..last][i] == counts[i] && displs[..last][i] == displs[i];
    }
  }

  /** For consecutive segments it is the sum of the counts, and the last segment is the one that ends there. */
  lemma {:induction false} MaxEndOfScan(counts: seq<nat>)
    requires counts != []
    ensures MaxEnd(counts, ExclusiveScan(counts)) == Sum(counts)
    ensures ExclusiveScan(counts)[|counts| - 1] + counts[|counts| - 1] == Sum(counts)
  {
    var displs, last := ExclusiveScan(counts), |counts| - 1;
    SumStep(counts, last);
    assert counts[..last + 1] == counts;
    forall i | 0 <= i < |counts| ensures displs[i] + counts[i] <= Sum(counts) {
      SumBound(counts, i);
    }
    MaxEndIsLeast(counts, displs, Sum(counts));
    MaxEndIsLeast(counts, displs, MaxEnd(counts, displs));
    assert displs[last] + counts[last] <= MaxEnd(counts, displs);
  }

  ghost predicate EndsFitInt(counts: seq<nat>, displs: seq<nat>) {
    |counts| == |displs| && forall i | 0 <= i < |counts| :: counts[i] + displs[i] <= MAX_INT
  }

  /** The required size: in one step if the displacements were computed, else by a loop over all ranks. */
  method RequiredRecvBufSize(counts: seq<nat>, displs: seq<nat>, computed: bool) returns (size: nat)
    requires counts != [] && EndsFitInt(counts, displs)
    requires computed ==> displs == ExclusiveScan(counts)
    ensures size == MaxEnd(counts, displs) <= MAX_INT
  {
    if computed {
      MaxEndOfScan(counts);
      size := counts[|counts| - 1] + displs[|counts| - 1];
    } else {
      size := 0;
      for i := 0 to |counts|
        invariant size == MaxEnd(counts[..i], displs[..i]) <= MAX_INT
      {
        assert counts[..i + 1][..i] == counts[..i] && displs[..i + 1][..i] == displs[..i];
        if size < counts[i] + displs[i] {
          size := counts[i] + displs[i];
        }
      }
      assert counts[..|counts|] == counts && displs[..|displs|] == displs;
    }
  }

  // ----- receiving -----

  /** What a vectorised MPI call does to a receive buffer: the segments are written to their displacements. */
  function MpiReceive<T>(buf: seq<T>, displs: seq<nat>, segs: seq<seq<T>>): (r: seq<T>)
    requires Fits(buf, displs, Lengths(segs))
  {
    OverwriteAll(buf, displs, segs)
  }

  /** The receive buffer after the call: the least size that holds all segments, and the segments written to it. */
  function Arrived<T>(displs: seq<nat>, segs: seq<seq<T>>, fill: T): (r: seq<T>)
    requires |displs| == |segs|
    ensures |r| == MaxEnd(Lengths(segs), displs)
  {
    MaxEndIsLeast(Lengths(segs), displs, MaxEnd(Lengths(segs), displs));
    MpiReceive(seq(MaxEnd(Lengths(segs), displs), _ => fill), displs, segs)
  }

  /** Consecutive segments whose sum fits end within an int. */
  lemma {:induction false} ScanEndsFitInt(counts: seq<nat>)
    requires Sum(counts) <= MAX_INT
    ensures EndsFitInt(counts, ExclusiveScan(counts))
  {
    forall i | 0 <= i < |counts| ensures counts[i] + ExclusiveScan(counts)[i] <= MAX_INT {
      SumBound(counts, i);
    }
  }

  /** What a rank's receive buffer must look like after the segments have arrived: it has the least
      size that holds them all, every segment is at its place unless places overlap, and for computed
      displacements it is the concatenation by source. */
  ghost predicate Received<T>(buf: seq<T>, counts: seq<nat>, displs: seq<nat>, segs: seq<seq<T>>, computed: bool) {
    && |displs| == |counts| && Lengths(segs) == counts
    && |buf| == MaxEnd(counts, displs)
    && (AreDisjoint(displs, counts) ==> Fits(buf, displs, counts) && SegmentsOf(buf, displs, counts) == segs)
    && (computed ==> buf == Flatten(segs))
  }

  /** Every segment stands at its displacement. */
  ghost predicate AreInPlace<T>(buf: seq<T>, displs: seq<nat>, segs: seq<seq<T>>)
    requires |displs| == |segs|
  {
    forall i | 0 <= i < |segs| :: Holds(buf, displs[i], segs[i])
  }

  lemma ReceivedInPlace<T>(buf: seq<T>, counts: seq<nat>, displs: seq<nat>, segs: seq<seq<T>>, computed: bool)
    requires Received(buf, counts, displs, segs, computed) && AreDisjoint(displs, counts)
    ensures AreInPlace(buf, displs, segs)
  {
    forall i | 0 <= i < |segs| ensures Holds(buf, displs[i], segs[i]) {
      assert SegmentsOf(buf, displs, counts)[i] == segs[i];
    }
  }

  /** Segments with disjoint places stand in them, and the places in between hold what a fresh buffer holds. */
  lemma ArrivedHolds<T>(displs: seq<nat>, segs: seq<seq<T>>, fill: T)
    requires |displs| == |segs|
    ensures AreDisjoint(displs, Lengths(segs)) ==>
      forall i | 0 <= i < |segs| :: Holds(Arrived(displs, segs, fill), displs[i], segs[i])
    ensures forall x: nat | x < |Arrived(displs, segs, fill)| && IsGap(displs, Lengths(segs), x) ::
      Arrived(displs, segs, fill)[x] == fill
  {
    var counts := Lengths(segs);
    var size := MaxEnd(counts, displs);
    MaxEndIsLeast(counts, displs, size);
    var buf := seq(size, _ => fill);
    if AreDisjoint(displs, counts) {
      forall i | 0 <= i < |segs| ensures Holds(Arrived(displs, segs, fill), displs[i], segs[i]) {
        OverwriteAllKeeps(buf, displs, segs, i);
      }
    }
    forall x: nat | x < size && IsGap(displs, counts, x) ensures Arrived(displs, segs, fill)[x] == fill {
      OverwriteAllLeavesGaps(buf, displs, segs, x);
    }
  }

  /** Infers the size of one rank's buffer, then receives. */
  method ReceiveSegments<T>(segs: seq<seq<T>>, counts: seq<nat>, displs: seq<nat>, computed: bool, fill: T)
      returns (recv: seq<T>)
    requires counts != [] && Lengths(segs) == counts && EndsFitInt(counts, displs)
    requires computed ==> displs == ExclusiveScan(counts)
    ensures recv == Arrived(displs, segs, fill) && Received(recv, counts, displs, segs, computed)
  {
    var size := RequiredRecvBufSize(counts, displs, computed);
    MaxEndIsLeast(counts, displs, size);
    var buf := seq(size, _ => fill);
    recv := MpiReceive(buf, displs, segs);
    if AreDisjoint(displs, counts) {
      forall i | 0 <= i < |segs| ensures SegmentsOf(recv, displs, counts)[i] == segs[i] {
        OverwriteAllKeeps(buf, displs, segs, i);
      }
    }
    if computed {
      MaxEndOfScan(counts);
      ScanFillsBuffer(buf, segs, displs);
    }
  }
}
