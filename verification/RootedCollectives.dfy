/** gatherv, allgatherv and scatterv with inferred counts, displacements and receive sizes, in the
    style of Alltoall: one method performs the call of all ranks. */
module RootedCollectives {
  import opened Sequences
  import opened Wrappers
  import opened Scans
  import opened Segments
  import opened ReceiveBuffers

  /** MPI_Gather of one int per rank, on the root; MPI_Allgather of one, on every rank. */
  method GatherCounts<T>(send: seq<seq<T>>, given: Option<seq<nat>>) returns (sendCounts: seq<nat>)
    requires given.Some? ==> |given.value| == |send|
    ensures |sendCounts| == |send|
    ensures sendCounts == if given.Some? then given.value else Lengths(send)
  {
    sendCounts := [];
    for r := 0 to |send|
      invariant |sendCounts| == r
      invariant forall q | 0 <= q < r :: sendCounts[q] == if given.Some? then given.value[q] else |send[q]|
    {
      sendCounts := sendCounts + [if given.Some? then given.value[r] else |send[r]|];
    }
  }

  /** What every rank contributes: the first sendCounts[r] elements of its buffer. */
  function Contributions<T>(send: seq<seq<T>>, sendCounts: seq<nat>): (segs: seq<seq<T>>)
    requires |sendCounts| == |send| && forall r | 0 <= r < |send| :: sendCounts[r] <= |send[r]|
    ensures |segs| == |send| && Lengths(segs) == sendCounts
  {
    seq(|send|, r requires 0 <= r < |send| => send[r][..sendCounts[r]])
  }

  /** The buffer has the least size that holds everything. The first counts[r] elements of every rank r stand in
      it at their displacement, unless given places overlap; with computed places there is nothing else in it. */
  ghost predicate AreGathered<T>(buf: seq<T>, send: seq<seq<T>>, counts: seq<nat>, displs: seq<nat>, computed: bool)
    requires |counts| == |displs| == |send| && forall r | 0 <= r < |send| :: counts[r] <= |send[r]|
  {
    && |buf| == MaxEnd(counts, displs)
    && (computed || AreDisjoint(displs, counts) ==>
          forall r | 0 <= r < |send| :: Holds(buf, displs[r], send[r][..counts[r]]))
    && (computed ==> buf == Flatten(Contributions(send, counts)))
  }

  lemma ReceivedMeansGathered<T>(send: seq<seq<T>>, counts: seq<nat>, displs: seq<nat>, buf: seq<T>, computed: bool)
    requires |counts| == |send| && forall r | 0 <= r < |send| :: counts[r] <= |send[r]|
    requires Received(buf, counts, displs, Contributions(send, counts), computed)
    requires computed ==> displs == ExclusiveScan(counts)
    ensures AreGathered(buf, send, counts, displs, computed)
  {
    ScanIsDisjoint(counts);
    if AreDisjoint(displs, counts) {
      ReceivedInPlace(buf, counts, displs, Contributions(send, counts), computed);
      forall r | 0 <= r < |send| ensures Holds(buf, displs[r], send[r][..counts[r]]) {
        assert Holds(buf, displs[r], Contributions(send, counts)[r]);
      }
    }
  }

  lemma ContributionsOfAll<T>(send: seq<seq<T>>)
    ensures Contributions(send, Lengths(send)) == send
  {
    forall r | 0 <= r < |send| ensures Contributions(send, Lengths(send))[r] == send[r] {
      assert send[r][..|send[r]|] == send[r];
    }
  }

  /** The send counts of all ranks: given, or inferred from the sizes of the buffers. */
  function CountsOf<T>(send: seq<seq<T>>, given: Option<seq<nat>>): seq<nat> {
    if given.Some? then given.value else Lengths(send)
  }

  ghost predicate AreSendCounts<T>(send: seq<seq<T>>, counts: seq<nat>) {
    && |counts| == |send|
    && Sum(counts) <= MAX_INT
    && forall r | 0 <= r < |send| :: counts[r] <= |send[r]|
  }

  /** Receive counts and displacements, unless they are given. */
  method InferCountsAndDispls<T>(send: seq<seq<T>>, givenSendCounts: Option<seq<nat>>,
      givenRecvCounts: Option<seq<nat>>, givenRecvDispls: Option<seq<nat>>)
      returns (recvCounts: seq<nat>, recvDispls: seq<nat>)
    requires AreSendCounts(send, CountsOf(send, givenSendCounts))
    requires givenRecvCounts.Some? ==> givenRecvCounts.value == CountsOf(send, givenSendCounts)
    requires givenRecvDispls.Some? ==> EndsFitInt(CountsOf(send, givenSendCounts), givenRecvDispls.value)
    ensures recvCounts == CountsOf(send, givenSendCounts) && EndsFitInt(recvCounts, recvDispls)
    ensures recvDispls == if givenRecvDispls.Some? then givenRecvDispls.value else ExclusiveScan(recvCounts)
  {
    var counts := GatherCounts(send, givenSendCounts);
    recvCounts := if givenRecvCounts.Some? then givenRecvCounts.value else counts;
    if givenRecvDispls.None? {
      recvDispls := ComputeExclusiveScan(recvCounts);
      ScanEndsFitInt(recvCounts);
    } else {
      recvDispls := givenRecvDispls.value;
    }
  }

  /** What arrives on one rank. */
  method ReceiveContributions<T>(send: seq<seq<T>>, counts: seq<nat>, displs: seq<nat>, computed: bool, fill: T)
      returns (recv: seq<T>)
    requires AreSendCounts(send, counts) && send != [] && EndsFitInt(counts, displs)
    requires computed ==> displs == ExclusiveScan(counts)
    ensures recv == Arrived(displs, Contributions(send, counts), fill)
    ensures AreGathered(recv, send, counts, displs, computed)
  {
    recv := ReceiveSegments(Contributions(send, counts), counts, displs, computed, fill);
    ReceivedMeansGathered(send, counts, displs, recv, computed);
  }

  /** gatherv. recvBuf holds the buffers of all ranks; only the root's is resized and written. */
  method Gatherv<T>(send: seq<seq<T>>, root: nat, givenSendCounts: Option<seq<nat>>, givenRecvCounts: Option<seq<nat>>,
      givenRecvDispls: Option<seq<nat>>, recvBuf: seq<seq<T>>, fill: T)
      returns (recv: seq<seq<T>>, recvCounts: seq<nat>, recvDispls: seq<nat>)
    requires root < |send| == |recvBuf| && AreSendCounts(send, CountsOf(send, givenSendCounts))
    requires givenRecvCounts.Some? ==> givenRecvCounts.value == CountsOf(send, givenSendCounts)
    requires givenRecvDispls.Some? ==> EndsFitInt(CountsOf(send, givenSendCounts), givenRecvDispls.value)
    ensures recvCounts == CountsOf(send, givenSendCounts)
    ensures recvDispls == if givenRecvDispls.Some? then givenRecvDispls.value else ExclusiveScan(recvCounts)
    ensures |recv| == |send| && forall r | 0 <= r < |recv| && r != root :: recv[r] == recvBuf[r]
    ensures |recvDispls| == |send| && recv[root] == Arrived(recvDispls, Contributions(send, recvCounts), fill)
    ensures forall r | 0 <= r < |send| ::
      recvCounts[r] == if givenSendCounts.Some? then givenSendCounts.value[r] else |send[r]|
    ensures AreGathered(recv[root], send, recvCounts, recvDispls, givenRecvDispls.None?)
  {
    recvCounts, recvDispls := InferCountsAndDispls(send, givenSendCounts, givenRecvCounts, givenRecvDispls);
    var atRoot := ReceiveContributions(send, recvCounts, recvDispls, givenRecvDispls.None?, fill);
    recv := recvBuf[root := atRoot];
  }

  /** allgatherv: every rank infers the same counts and displacements and receives what gatherv gives any root, also
      where displacements leave gaps or overlap. */
  method Allgatherv<T>(send: seq<seq<T>>, givenSendCounts: Option<seq<nat>>, givenRecvCounts: Option<seq<nat>>,
      givenRecvDispls: Option<seq<nat>>, fill: T)
      returns (recv: seq<seq<T>>, recvCounts: seq<nat>, recvDispls: seq<nat>)
    requires |send| > 0 && AreSendCounts(send, CountsOf(send, givenSendCounts))
    requires givenRecvCounts.Some? ==> givenRecvCounts.value == CountsOf(send, givenSendCounts)
    requires givenRecvDispls.Some? ==> EndsFitInt(CountsOf(send, givenSendCounts), givenRecvDispls.value)
    ensures recvCounts == CountsOf(send, givenSendCounts)
    ensures recvDispls == if givenRecvDispls.Some? then givenRecvDispls.value else ExclusiveScan(recvCounts)
    ensures |recv| == |recvDispls| == |send|
    ensures forall r | 0 <= r < |recv| :: recv[r] == Arrived(recvDispls, Contributions(send, recvCounts), fill)
    ensures forall r | 0 <= r < |send| ::
      recvCounts[r] == if givenSendCounts.Some? then givenSendCounts.value[r] else |send[r]|
    ensures forall r | 0 <= r < |recv| :: AreGathered(recv[r], send, recvCounts, recvDispls, givenRecvDispls.None?)
  {
    recvCounts, recvDispls := InferCountsAndDispls(send, givenSendCounts, givenRecvCounts, givenRecvDispls);
    recv := [];
    for r := 0 to |send|
      invariant |recv| == r
      invariant forall q | 0 <= q < r :: recv[q] == Arrived(recvDispls, Contributions(send, recvCounts), fill)
      invariant forall q | 0 <= q < r :: AreGathered(recv[q], send, recvCounts, recvDispls, givenRecvDispls.None?)
    {
      var local := ReceiveContributions(send, recvCounts, recvDispls, givenRecvDispls.None?, fill);
      recv := recv + [local];
    }
  }

  /** With the same arguments, every rank gets from allgatherv what the root gets from gatherv. */
  method AllgathervThenGatherv<T>(send: seq<seq<T>>, root: nat, givenSendCounts: Option<seq<nat>>,
      givenRecvCounts: Option<seq<nat>>, givenRecvDispls: Option<seq<nat>>, recvBuf: seq<seq<T>>, fill: T)
      returns (everywhere: seq<seq<T>>, atRoot: seq<T>)
    requires root < |send| == |recvBuf| && AreSendCounts(send, CountsOf(send, givenSendCounts))
    requires givenRecvCounts.Some? ==> givenRecvCounts.value == CountsOf(send, givenSendCounts)
    requires givenRecvDispls.Some? ==> EndsFitInt(CountsOf(send, givenSendCounts), givenRecvDispls.value)
    ensures |everywhere| == |send| && forall r | 0 <= r < |everywhere| :: everywhere[r] == atRoot
  {
    var recv, counts, displs := Gatherv(send, root, givenSendCounts, givenRecvCounts, givenRecvDispls, recvBuf, fill);
    atRoot := recv[root];
    everywhere, counts, displs := Allgatherv(send, givenSendCounts, givenRecvCounts, givenRecvDispls, fill);
  }

  /** scatterv. The root cuts its buffer; every other rank learns how much it receives from the root. */
  method Scatterv<T>(rootBuf: seq<T>, sendCounts: seq<nat>, givenSendDispls: Option<seq<nat>>,
      givenRecvCounts: Option<seq<nat>>)
      returns (recv: seq<seq<T>>, recvCounts: seq<nat>, sendDispls: seq<nat>)
    requires sendCounts != [] && Sum(sendCounts) <= MAX_INT
    requires givenSendDispls.None? ==> Sum(sendCounts) <= |rootBuf|
    requires givenSendDispls.Some? ==> Fits(rootBuf, givenSendDispls.value, sendCounts)
    requires givenRecvCounts.Some? ==> givenRecvCounts.value == sendCounts
    ensures recvCounts == sendCounts
    ensures sendDispls == if givenSendDispls.Some? then givenSendDispls.value else ExclusiveScan(sendCounts)
    ensures Fits(rootBuf, sendDispls, sendCounts) && recv == SegmentsOf(rootBuf, sendDispls, sendCounts)
    ensures givenSendDispls.None? ==> recv == Cut(rootBuf, sendCounts)
    ensures |recv| == |sendDispls| == |sendCounts|
    ensures forall r | 0 <= r < |recv| :: |recv[r]| == sendCounts[r] && Holds(rootBuf, sendDispls[r], recv[r])
  {
    if givenSendDispls.None? {
      sendDispls := ComputeExclusiveScan(sendCounts);
      ScanFits(rootBuf, sendCounts);
    } else {
      sendDispls := givenSendDispls.value;
    }
    recvCounts := [];
    recv := [];
    for r := 0 to |sendCounts|
      invariant recvCounts == sendCounts[..r]
      invariant recv == SegmentsOf(rootBuf, sendDispls, sendCounts)[..r]
    {
      var recvCount := if givenRecvCounts.Some? then givenRecvCounts.value[r] else sendCounts[r];
      assert SegmentsOf(rootBuf, sendDispls, sendCounts)[r] == rootBuf[sendDispls[r]..sendDispls[r] + recvCount];
      recvCounts := recvCounts + [recvCount];
      recv := recv + [rootBuf[sendDispls[r]..sendDispls[r] + recvCount]];
    }
    assert sendCounts[..|sendCounts|] == sendCounts;
    assert recv == SegmentsOf(rootBuf, sendDispls, sendCounts);
  }

  /** scatterv, then gatherv with inferred counts and displacements, restores the root's data. */
  method ScatterThenGather<T>(rootBuf: seq<T>, sendCounts: seq<nat>, root: nat, recvBuf: seq<seq<T>>, fill: T)
      returns (back: seq<T>)
    requires root < |sendCounts| == |recvBuf| && Sum(sendCounts) <= MAX_INT && Sum(sendCounts) <= |rootBuf|
    ensures back == rootBuf[..Sum(sendCounts)]
  {
    var parts, recvCounts, sendDispls := Scatterv(rootBuf, sendCounts, None, None);
    assert Lengths(parts) == sendCounts;
    var recv, counts, displs := Gatherv(parts, root, None, None, None, recvBuf, fill);
    ContributionsOfAll(parts);
    FlattenOfCut(rootBuf, sendCounts);
    back := recv[root];
  }

  /** gatherv, then scatterv with the counts gatherv inferred, gives every rank its own data back. */
  method GatherThenScatter<T>(send: seq<seq<T>>, root: nat, recvBuf: seq<seq<T>>, fill: T) returns (back: seq<seq<T>>)
    requires root < |send| == |recvBuf| && Sum(Lengths(send)) <= MAX_INT
    ensures back == send
  {
    var recv, counts, displs := Gatherv(send, root, None, None, None, recvBuf, fill);
    ContributionsOfAll(send);
    CutOfFlatten(send);
    var parts, recvCounts, sendDispls := Scatterv(recv[root], counts, None, None);
    back := parts;
  }
}
