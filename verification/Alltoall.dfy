/** alltoall and alltoallv with inferred counts, displacements and receive sizes. A wrapper call is
    made by all ranks together, so one method performs it for all of them; parameters that are inferred
    on one rank are inferred on all. An MPI function is the effect the MPI standard gives it. */
module Alltoall {
  import opened Sequences
  import opened Wrappers
  import opened Scans
  import opened Segments
  import opened ReceiveBuffers
  import Bits

  // ----- alltoall -----

  function EqualCounts(size: nat, count: nat): (counts: seq<nat>)
    ensures |counts| == size && forall i | 0 <= i < size :: counts[i] == count
  {
    seq(size, _ => count)
  }

  lemma {:induction false} SumOfEqualCounts(size: nat, count: nat)
    ensures Sum(EqualCounts(size, count)) == size * count
  {
    if size == 0 {
      assert 0 * count == 0;
    } else {
      SumOfEqualCounts(size - 1, count);
      assert EqualCounts(size, count)[..size - 1] == EqualCounts(size - 1, count);
      assert (size - 1) * count + count == size * count;
    }
  }

  /** All ranks hold size * count elements. */
  ghost predicate AreBlocks<T>(send: seq<seq<T>>, count: nat) {
    forall r | 0 <= r < |send| :: |send[r]| == |send| * count
  }

  /** Row r is rank r's buffer as blocks of count elements, one for each rank. */
  function Blocks<T>(send: seq<seq<T>>, count: nat): (m: seq<seq<seq<T>>>)
    requires AreBlocks(send, count)
    ensures |m| == |send| && forall r | 0 <= r < |m| :: |m[r]| == |send|
  {
    SumOfEqualCounts(|send|, count);
    seq(|send|, r requires 0 <= r < |send| => Cut(send[r], EqualCounts(|send|, count)))
  }

  /** MPI_Alltoall: rank r receives block r of every rank, in rank order. */
  function MpiAlltoall<T>(send: seq<seq<T>>, count: nat): (recv: seq<seq<T>>)
    requires AreBlocks(send, count)
    ensures |recv| == |send|
  {
    var m := Transpose(Blocks(send, count), |send|);
    seq(|send|, r requires 0 <= r < |send| => Flatten(m[r]))
  }

  lemma ExactQuotient(a: nat, b: nat)
    requires b > 0
    ensures (b * a) / b == a
  {
    Bits.DivisionUnique(a, b, 0);
    assert b * a == a * b + 0;
  }

  /** alltoall, also in place: the count is inferred from the size of the buffer. */
  method ExchangeBlocks<T>(send: seq<seq<T>>, ghost count: nat) returns (recv: seq<seq<T>>)
    requires |send| > 0 && AreBlocks(send, count)
    ensures recv == MpiAlltoall(send, count)
  {
    ExactQuotient(count, |send|);
    var sendCount := |send[0]| / |send|;
    recv := MpiAlltoall(send, sendCount);
  }

  lemma {:induction false} LengthOfEqualParts<T>(parts: seq<seq<T>>, count: nat)
    requires forall i | 0 <= i < |parts| :: |parts[i]| == count
    ensures |Flatten(parts)| == |parts| * count
  {
    assert Lengths(parts) == EqualCounts(|parts|, count);
    SumOfEqualCounts(|parts|, count);
    SumOfLengths(parts);
  }

  /** Every block that was received is the block that was sent. */
  lemma AlltoallBlocks<T>(send: seq<seq<T>>, count: nat)
    requires AreBlocks(send, count)
    ensures AreBlocks(MpiAlltoall(send, count), count)
    ensures Blocks(MpiAlltoall(send, count), count) == Transpose(Blocks(send, count), |send|)
  {
    var recv, m := MpiAlltoall(send, count), Transpose(Blocks(send, count), |send|);
    forall r | 0 <= r < |send| ensures |recv[r]| == |send| * count && Lengths(m[r]) == EqualCounts(|send|, count) {
      LengthOfEqualParts(m[r], count);
    }
    SumOfEqualCounts(|send|, count);
    forall r | 0 <= r < |send| ensures Blocks(recv, count)[r] == m[r] {
      CutOfFlatten(m[r]);
    }
  }

  lemma BlockInRange(size: nat, count: nat, i: nat)
    requires i < size
    ensures i * count + count <= size * count
  {
    assert size * count == (i + 1) * count + (size - (i + 1)) * count;
    assert (i + 1) * count == i * count + count;
  }

  lemma PrefixOfEqualCounts(size: nat, count: nat, i: nat)
    requires i <= size
    ensures Sum(EqualCounts(size, count)[..i]) == i * count
  {
    assert EqualCounts(size, count)[..i] == EqualCounts(i, count);
    SumOfEqualCounts(i, count);
  }

  /** n elements of one buffer, from place i on, are those of another from place j on. */
  ghost predicate AreSame<T>(a: seq<T>, i: nat, b: seq<T>, j: nat, n: nat) {
    i + n <= |a| && j + n <= |b| && a[i..i + n] == b[j..j + n]
  }

  lemma BlockAt<T>(send: seq<seq<T>>, count: nat, s: nat, r: nat, place: nat)
    requires AreBlocks(send, count) && r < |send| && s < |send| && place == r * count
    ensures place + count <= |send[s]| && Blocks(send, count)[s][r] == send[s][place..place + count]
  {
    BlockInRange(|send|, count, r);
    PrefixOfEqualCounts(|send|, count, r);
    SumOfEqualCounts(|send|, count);
    CutAt(send[s], EqualCounts(|send|, count), r);
  }

  lemma ReceivedBlockAt<T>(send: seq<seq<T>>, count: nat, r: nat, s: nat, place: nat)
    requires AreBlocks(send, count) && r < |send| && s < |send| && place == s * count
    ensures Holds(MpiAlltoall(send, count)[r], place, Blocks(send, count)[s][r])
  {
    var row := Transpose(Blocks(send, count), |send|)[r];
    assert Lengths(row) == EqualCounts(|send|, count);
    PrefixOfEqualCounts(|send|, count, s);
    SegmentOfFlatten(row, s);
  }

  lemma AlltoallAtPlaces<T>(send: seq<seq<T>>, count: nat, r: nat, s: nat, from: nat, to: nat)
    requires AreBlocks(send, count) && r < |send| && s < |send| && from == r * count && to == s * count
    ensures AreSame(MpiAlltoall(send, count)[r], to, send[s], from, count)
  {
    var recv, part := MpiAlltoall(send, count)[r], Blocks(send, count)[s][r];
    assert from + count <= |send[s]| && part == send[s][from..from + count] by { BlockAt(send, count, s, r, from); }
    assert Holds(recv, to, part) by { ReceivedBlockAt(send, count, r, s, to); }
    SamePart(recv, to, send[s], from, part);
  }

  /** Rank r finds, s blocks into its buffer, what rank s had r blocks into its own. */
  lemma AlltoallAt<T>(send: seq<seq<T>>, count: nat, r: nat, s: nat)
    requires AreBlocks(send, count) && r < |send| && s < |send|
    ensures AreSame(MpiAlltoall(send, count)[r], s * count, send[s], r * count, count)
  {
    AlltoallAtPlaces(send, count, r, s, r * count, s * count);
  }

  lemma SamePart<T>(a: seq<T>, i: nat, b: seq<T>, j: nat, part: seq<T>)
    requires Holds(a, i, part) && Holds(b, j, part)
    ensures AreSame(a, i, b, j, |part|)
  {}

  /** A second alltoall brings every block back. */
  lemma AlltoallTwice<T>(send: seq<seq<T>>, count: nat)
    requires AreBlocks(send, count)
    ensures AreBlocks(MpiAlltoall(send, count), count)
    ensures MpiAlltoall(MpiAlltoall(send, count), count) == send
  {
    var recv, m := MpiAlltoall(send, count), Blocks(send, count);
    AlltoallBlocks(send, count);
    TransposeTwice(m);
    forall r | 0 <= r < |send| ensures MpiAlltoall(recv, count)[r] == send[r] {
      SumOfEqualCounts(|send|, count);
      FlattenOfCut(send[r], EqualCounts(|send|, count));
    }
  }

  /** With one count for every rank, alltoall transposes the matrix of counts. */
  lemma AlltoallOfCounts(counts: seq<seq<nat>>)
    requires IsMatrix(counts, |counts|)
    ensures AreBlocks(counts, 1) && MpiAlltoall(counts, 1) == Transpose(counts, |counts|)
  {
    var size := |counts|;
    SumOfEqualCounts(size, 1);
    forall r | 0 <= r < size ensures MpiAlltoall(counts, 1)[r] == Transpose(counts, size)[r] {
      var column := Transpose(Blocks(counts, 1), size)[r];
      forall s | 0 <= s < size ensures column[s] == [counts[s][r]] {
        assert EqualCounts(size, 1)[..r] == EqualCounts(r, 1);
        SumOfEqualCounts(r, 1);
      }
      FlattenOfSingletons(column, Transpose(counts, size)[r]);
    }
  }

  lemma {:induction false} FlattenOfSingletons<T>(parts: seq<seq<T>>, s: seq<T>)
    requires |parts| == |s| && forall i | 0 <= i < |s| :: parts[i] == [s[i]]
    ensures Flatten(parts) == s
  {
    if s != [] {
      FlattenOfSingletons(parts[..|s| - 1], s[..|s| - 1]);
    }
  }

  // ----- alltoallv -----

  /** Row s is what rank s sends to each rank. */
  function SendSegments<T>(send: seq<seq<T>>, displs: seq<seq<nat>>, counts: seq<seq<nat>>): (m: seq<seq<seq<T>>>)
    requires |displs| == |counts| == |send| && IsMatrix(counts, |send|)
    requires forall s | 0 <= s < |send| :: Fits(send[s], displs[s], counts[s])
    ensures |m| == |send| && forall s | 0 <= s < |m| :: |m[s]| == |send|
    ensures forall s, r {:trigger m[s][r]} | 0 <= s < |m| && 0 <= r < |m| :: |m[s][r]| == counts[s][r]
  {
    seq(|send|, s requires 0 <= s < |send| => SegmentsOf(send[s], displs[s], counts[s]))
  }

  function ScansOf(counts: seq<seq<nat>>): (displs: seq<seq<nat>>)
    ensures |displs| == |counts|
  {
    seq(|counts|, r requires 0 <= r < |counts| => ExclusiveScan(counts[r]))
  }

  /** Every rank computes its displacements, unless they are given. */
  method InferDispls(counts: seq<seq<nat>>, given: Option<seq<seq<nat>>>) returns (displs: seq<seq<nat>>)
    requires given.None? ==> forall r | 0 <= r < |counts| :: Sum(counts[r]) <= MAX_INT
    ensures displs == if given.Some? then given.value else ScansOf(counts)
  {
    if given.Some? {
      return given.value;
    }
    displs := [];
    for r := 0 to |counts|
      invariant |displs| == r && forall q | 0 <= q < r :: displs[q] == ExclusiveScan(counts[q])
    {
      var local := ComputeExclusiveScan(counts[r]);
      displs := displs + [local];
    }
  }

  /** The counts a caller may pass to alltoallv: one for every rank, with sums that fit in an int. */
  ghost predicate AreCounts(counts: seq<seq<nat>>) {
    && IsMatrix(counts, |counts|)
    && (forall r | 0 <= r < |counts| :: Sum(counts[r]) <= MAX_INT)
    && forall r | 0 <= r < |counts| :: Sum(Transpose(counts, |counts|)[r]) <= MAX_INT
  }

  ghost predicate AllFit<T>(bufs: seq<seq<T>>, displs: seq<seq<nat>>, counts: seq<seq<nat>>) {
    |bufs| == |displs| == |counts| && forall r | 0 <= r < |bufs| :: Fits(bufs[r], displs[r], counts[r])
  }

  ghost predicate AllEndsFitInt(counts: seq<seq<nat>>, displs: seq<seq<nat>>) {
    |displs| == |counts| && forall r | 0 <= r < |counts| :: EndsFitInt(counts[r], displs[r])
  }

  lemma ScansFit<T>(send: seq<seq<T>>, counts: seq<seq<nat>>)
    requires |send| == |counts| && forall r | 0 <= r < |send| :: Sum(counts[r]) <= |send[r]|
    ensures AllFit(send, ScansOf(counts), counts)
  {
    forall r | 0 <= r < |send| ensures Fits(send[r], ScansOf(counts)[r], counts[r]) {
      ScanFits(send[r], counts[r]);
    }
  }

  lemma ScansEndsFitInt(counts: seq<seq<nat>>)
    requires forall r | 0 <= r < |counts| :: Sum(counts[r]) <= MAX_INT
    ensures AllEndsFitInt(counts, ScansOf(counts))
  {
    forall r | 0 <= r < |counts| ensures EndsFitInt(counts[r], ScansOf(counts)[r]) {
      ScanEndsFitInt(counts[r]);
    }
  }

  /** Without receive counts, a further alltoall over the send counts finds them. */
  method InferRecvCounts(sendCounts: seq<seq<nat>>, given: Option<seq<seq<nat>>>) returns (recvCounts: seq<seq<nat>>)
    requires |sendCounts| > 0 && IsMatrix(sendCounts, |sendCounts|)
    requires given.Some? ==> given.value == Transpose(sendCounts, |sendCounts|)
    ensures recvCounts == Transpose(sendCounts, |sendCounts|)
  {
    if given.None? {
      AlltoallOfCounts(sendCounts);
      recvCounts := ExchangeBlocks(sendCounts, 1);
    } else {
      recvCounts := given.value;
    }
  }

  /** The segments that arrive have the lengths that were announced. */
  lemma ArrivalsHaveCounts<T>(send: seq<seq<T>>, displs: seq<seq<nat>>, counts: seq<seq<nat>>)
    requires AllFit(send, displs, counts) && IsMatrix(counts, |send|)
    ensures forall r | 0 <= r < |send| ::
      |Transpose(counts, |send|)[r]| == |send| &&
      Lengths(Transpose(SendSegments(send, displs, counts), |send|)[r]) == Transpose(counts, |send|)[r]
  {
    var segments := SendSegments(send, displs, counts);
    forall s | 0 <= s < |send| ensures counts[s] == Lengths(segments[s]) {
      assert segments[s] == SegmentsOf(send[s], displs[s], counts[s]);
    }
    TransposedLengths(segments, counts);
  }

  /** In the buffer of rank r, what every rank s had for it at sendDispls[s][r] stands at displs[s]. */
  ghost predicate AreDelivered<T>(buf: seq<T>, displs: seq<nat>, send: seq<seq<T>>, sendDispls: seq<seq<nat>>,
      sendCounts: seq<seq<nat>>, r: nat)
    requires AllFit(send, sendDispls, sendCounts) && IsMatrix(sendCounts, |send|)
    requires r < |send| == |displs|
  {
    forall s | 0 <= s < |send| ::
      Holds(buf, displs[s], send[s][sendDispls[s][r]..sendDispls[s][r] + sendCounts[s][r]])
  }

  lemma ArrivalAt<T>(send: seq<seq<T>>, sendDispls: seq<seq<nat>>, sendCounts: seq<seq<nat>>, r: nat, s: nat)
    requires AllFit(send, sendDispls, sendCounts) && IsMatrix(sendCounts, |send|) && r < |send| && s < |send|
    ensures Transpose(SendSegments(send, sendDispls, sendCounts), |send|)[r][s]
         == send[s][sendDispls[s][r]..sendDispls[s][r] + sendCounts[s][r]]
  {}

  lemma ReceivedMeansDelivered<T>(buf: seq<T>, counts: seq<nat>, displs: seq<nat>, send: seq<seq<T>>,
      sendDispls: seq<seq<nat>>, sendCounts: seq<seq<nat>>, r: nat, computed: bool)
    requires AllFit(send, sendDispls, sendCounts) && IsMatrix(sendCounts, |send|) && r < |send| == |displs|
    requires Received(buf, counts, displs, Transpose(SendSegments(send, sendDispls, sendCounts), |send|)[r], computed)
    requires if computed then displs == ExclusiveScan(counts) else AreDisjoint(displs, counts)
    ensures AreDelivered(buf, displs, send, sendDispls, sendCounts, r)
  {
    var arrivals := Transpose(SendSegments(send, sendDispls, sendCounts), |send|)[r];
    ScanIsDisjoint(counts);
    ReceivedInPlace(buf, counts, displs, arrivals, computed);
    forall s | 0 <= s < |send|
      ensures Holds(buf, displs[s], send[s][sendDispls[s][r]..sendDispls[s][r] + sendCounts[s][r]])
    {
      assert Holds(buf, displs[s], arrivals[s]);
      ArrivalAt(send, sendDispls, sendCounts, r, s);
    }
  }

  /** alltoallv. Receive counts, if given, must be what the others send. */
  method Alltoallv<T>(send: seq<seq<T>>, sendCounts: seq<seq<nat>>, givenRecvCounts: Option<seq<seq<nat>>>,
      givenSendDispls: Option<seq<seq<nat>>>, givenRecvDispls: Option<seq<seq<nat>>>, fill: T)
      returns (recv: seq<seq<T>>, recvCounts: seq<seq<nat>>, recvDispls: seq<seq<nat>>, sendDispls: seq<seq<nat>>)
    requires |send| == |sendCounts| > 0 && AreCounts(sendCounts)
    requires givenRecvCounts.Some? ==> givenRecvCounts.value == Transpose(sendCounts, |send|)
    requires givenSendDispls.None? ==> forall s | 0 <= s < |send| :: Sum(sendCounts[s]) <= |send[s]|
    requires givenSendDispls.Some? ==> AllFit(send, givenSendDispls.value, sendCounts)
    requires givenRecvDispls.Some? ==> AllEndsFitInt(Transpose(sendCounts, |send|), givenRecvDispls.value)
    ensures |recv| == |send|
    ensures recvCounts == Transpose(sendCounts, |send|)
    ensures sendDispls == if givenSendDispls.Some? then givenSendDispls.value else ScansOf(sendCounts)
    ensures recvDispls == if givenRecvDispls.Some? then givenRecvDispls.value else ScansOf(recvCounts)
    ensures AllFit(send, sendDispls, sendCounts) && AllEndsFitInt(recvCounts, recvDispls)
    ensures |recvCounts| == |recvDispls| == |send|
    ensures forall r | 0 <= r < |send| ::
      Received(recv[r], recvCounts[r], recvDispls[r], Transpose(SendSegments(send, sendDispls, sendCounts), |send|)[r],
               givenRecvDispls.None?)
    ensures forall r | 0 <= r < |send| && (givenRecvDispls.None? || AreDisjoint(recvDispls[r], recvCounts[r])) ::
      AreDelivered(recv[r], recvDispls[r], send, sendDispls, sendCounts, r)
  {
    recvCounts := InferRecvCounts(sendCounts, givenRecvCounts);
    sendDispls := InferDispls(sendCounts, givenSendDispls);
    if givenSendDispls.None? {
      ScansFit(send, sendCounts);
    }
    recvDispls := InferDispls(recvCounts, givenRecvDispls);
    if givenRecvDispls.None? {
      ScansEndsFitInt(recvCounts);
    }
    ArrivalsHaveCounts(send, sendDispls, sendCounts);
    var arrivals := Transpose(SendSegments(send, sendDispls, sendCounts), |send|);
    recv := ReceiveAll(arrivals, recvCounts, recvDispls, givenRecvDispls.None?, fill);
    forall r | 0 <= r < |send| && (givenRecvDispls.None? || AreDisjoint(recvDispls[r], recvCounts[r]))
      ensures AreDelivered(recv[r], recvDispls[r], send, sendDispls, sendCounts, r)
    {
      ReceivedMeansDelivered(recv[r], recvCounts[r], recvDispls[r], send, sendDispls, sendCounts, r,
        givenRecvDispls.None?);
    }
  }

  lemma TransposedCounts(counts: seq<seq<nat>>)
    requires AreCounts(counts)
    ensures AreCounts(Transpose(counts, |counts|))
  {
    TransposeTwice(counts);
  }

  /** Received segments that do not overlap can be sent on from where they are. */
  lemma ReceivedCanBeSent<T>(recv: seq<seq<T>>, counts: seq<seq<nat>>, displs: seq<seq<nat>>,
      segments: seq<seq<seq<T>>>, computed: bool)
    requires |recv| == |counts| == |displs| == |segments| && IsMatrix(counts, |recv|)
    requires forall r | 0 <= r < |recv| :: Received(recv[r], counts[r], displs[r], segments[r], computed)
    requires forall r | 0 <= r < |recv| :: AreDisjoint(displs[r], counts[r])
    ensures AllFit(recv, displs, counts) && SendSegments(recv, displs, counts) == segments
  {}

  /** alltoallv, and a second one that sends the received segments on, with the received counts and from
      where they arrived: every rank gets all its segments back, in order, and its own counts. */
  method AlltoallvTwice<T>(send: seq<seq<T>>, sendCounts: seq<seq<nat>>, givenSendDispls: Option<seq<seq<nat>>>,
      givenRecvDispls: Option<seq<seq<nat>>>, fill: T) returns (back: seq<seq<T>>, backCounts: seq<seq<nat>>)
    requires |send| == |sendCounts| > 0 && AreCounts(sendCounts)
    requires givenSendDispls.None? ==> forall s | 0 <= s < |send| :: Sum(sendCounts[s]) <= |send[s]|
    requires givenSendDispls.Some? ==> AllFit(send, givenSendDispls.value, sendCounts)
    requires givenRecvDispls.Some? ==> AllEndsFitInt(Transpose(sendCounts, |send|), givenRecvDispls.value)
    requires givenRecvDispls.Some? ==>
      forall r | 0 <= r < |send| :: AreDisjoint(givenRecvDispls.value[r], Transpose(sendCounts, |send|)[r])
    ensures |back| == |send| && backCounts == sendCounts
    ensures givenSendDispls.Some? ==>
      forall s | 0 <= s < |send| :: back[s] == Flatten(SegmentsOf(send[s], givenSendDispls.value[s], sendCounts[s]))
    ensures givenSendDispls.None? ==> forall s | 0 <= s < |send| :: back[s] == send[s][..Sum(sendCounts[s])]
  {
    var recv, recvCounts, recvDispls, sendDispls := Alltoallv(send, sendCounts, None, givenSendDispls, givenRecvDispls,
      fill);
    ghost var segments := SendSegments(send, sendDispls, sendCounts);
    forall r | 0 <= r < |send| ensures AreDisjoint(recvDispls[r], recvCounts[r]) {
      if givenRecvDispls.None? { ScanIsDisjoint(recvCounts[r]); }
    }
    ReceivedCanBeSent(recv, recvCounts, recvDispls, Transpose(segments, |send|), givenRecvDispls.None?);
    TransposedCounts(sendCounts);
    TransposeTwice(sendCounts);
    TransposeTwice(segments);
    var backDispls, movedDispls;
    back, backCounts, backDispls, movedDispls := Alltoallv(recv, recvCounts, None, Some(recvDispls), None, fill);
    forall s | 0 <= s < |send| ensures back[s] == Flatten(SegmentsOf(send[s], sendDispls[s], sendCounts[s])) {
      assert segments[s] == SegmentsOf(send[s], sendDispls[s], sendCounts[s]);
    }
    if givenSendDispls.None? {
      forall s | 0 <= s < |send| ensures back[s] == send[s][..Sum(sendCounts[s])] {
        FlattenOfCut(send[s], sendCounts[s]);
      }
    }
  }

  /** What arrives on all ranks. */
  method ReceiveAll<T>(segments: seq<seq<seq<T>>>, counts: seq<seq<nat>>, displs: seq<seq<nat>>, computed: bool,
      fill: T)
      returns (recv: seq<seq<T>>)
    requires |segments| == |counts| > 0 && AllEndsFitInt(counts, displs)
    requires forall r | 0 <= r < |counts| :: |counts[r]| == |counts| && Lengths(segments[r]) == counts[r]
    requires computed ==> displs == ScansOf(counts)
    ensures |recv| == |counts|
    ensures forall r | 0 <= r < |recv| :: Received(recv[r], counts[r], displs[r], segments[r], computed)
  {
    recv := [];
    for r := 0 to |counts|
      invariant |recv| == r
      invariant forall q | 0 <= q < r :: Received(recv[q], counts[q], displs[q], segments[q], computed)
    {
      var local := ReceiveSegments(segments[r], counts[r], displs[r], computed, fill);
      recv := recv + [local];
    }
  }

  /** What alltoallv with inferred displacements delivers. */
  function Exchanged<T>(segments: seq<seq<seq<T>>>): (recv: seq<seq<T>>)
    requires forall s | 0 <= s < |segments| :: |segments[s]| == |segments|
    ensures |recv| == |segments|
  {
    seq(|segments|, r requires 0 <= r < |segments| => Flatten(Transpose(segments, |segments|)[r]))
  }

  /** The counts that were received are the lengths of the segments that were sent. */
  lemma TransposedLengths<T>(segments: seq<seq<seq<T>>>, counts: seq<seq<nat>>)
    requires IsMatrix(segments, |segments|) && IsMatrix(counts, |segments|) && |counts| == |segments|
    requires forall s | 0 <= s < |segments| :: counts[s] == Lengths(segments[s])
    ensures forall r | 0 <= r < |segments| ::
      Transpose(counts, |segments|)[r] == Lengths(Transpose(segments, |segments|)[r])
  {
    forall r | 0 <= r < |segments|
      ensures Transpose(counts, |segments|)[r] == Lengths(Transpose(segments, |segments|)[r])
    {
      forall s | 0 <= s < |segments| ensures counts[s][r] == |segments[s][r]| {
        assert counts[s] == Lengths(segments[s]);
      }
    }
  }

  /** No element is lost or duplicated: as many arrive as are sent. */
  lemma AlltoallvConserves<T>(segments: seq<seq<seq<T>>>, counts: seq<seq<nat>>)
    requires IsMatrix(segments, |segments|) && IsMatrix(counts, |segments|) && |counts| == |segments|
    requires forall s | 0 <= s < |segments| :: counts[s] == Lengths(segments[s])
    ensures Sum(Lengths(Exchanged(segments))) == Sum(RowSums(counts))
  {
    TransposedLengths(segments, counts);
    var t := Transpose(segments, |segments|);
    forall r | 0 <= r < |segments|
      ensures Lengths(Exchanged(segments))[r] == RowSums(Transpose(counts, |segments|))[r]
    {
      SumOfLengths(t[r]);
    }
    assert Lengths(Exchanged(segments)) == RowSums(Transpose(counts, |segments|));
    SumByColumns(counts, |segments|);
  }

  // ----- contents -----

  function Occurrences<T(==)>(parts: seq<seq<T>>, x: T): (c: seq<nat>)
    ensures |c| == |parts|
  {
    seq(|parts|, r requires 0 <= r < |parts| => multiset(parts[r])[x])
  }

  lemma {:induction false} OccurrencesAddUp<T>(parts: seq<seq<T>>, x: T)
    ensures multiset(Flatten(parts))[x] == Sum(Occurrences(parts, x))
  {
    if parts != [] {
      var last := |parts| - 1;
      OccurrencesAddUp(parts[..last], x);
      assert Occurrences(parts, x)[..last] == Occurrences(parts[..last], x);
    }
  }

  /** The local buffers before the exchange. */
  function RowsFlattened<T>(segments: seq<seq<seq<T>>>): (rows: seq<seq<T>>)
    ensures |rows| == |segments|
  {
    seq(|segments|, s requires 0 <= s < |segments| => Flatten(segments[s]))
  }

  /** alltoallv only moves elements: all ranks together hold the same ones as before. */
  lemma ExchangeIsPermutation<T(!new)>(segments: seq<seq<seq<T>>>)
    requires IsMatrix(segments, |segments|)
    ensures multiset(Flatten(Exchanged(segments))) == multiset(Flatten(RowsFlattened(segments)))
  {
    var a, b := multiset(Flatten(Exchanged(segments))), multiset(Flatten(RowsFlattened(segments)));
    forall x: T ensures a[x] == b[x] {
      ExchangeKeepsOccurrences(segments, x);
    }
    assert a == b;
  }

  /** How often x occurs in each segment. */
  function OccurrenceMatrix<T(==)>(segments: seq<seq<seq<T>>>, x: T): (c: seq<seq<nat>>)
    ensures |c| == |segments| && forall s | 0 <= s < |c| :: |c[s]| == |segments[s]|
  {
    seq(|segments|, s requires 0 <= s < |segments| => Occurrences(segments[s], x))
  }

  lemma OccurrencesInRows<T>(segments: seq<seq<seq<T>>>, x: T)
    ensures multiset(Flatten(RowsFlattened(segments)))[x] == Sum(RowSums(OccurrenceMatrix(segments, x)))
  {
    OccurrencesAddUp(RowsFlattened(segments), x);
    forall s | 0 <= s < |segments|
      ensures Occurrences(RowsFlattened(segments), x)[s] == RowSums(OccurrenceMatrix(segments, x))[s]
    {
      OccurrencesAddUp(segments[s], x);
    }
    assert Occurrences(RowsFlattened(segments), x) == RowSums(OccurrenceMatrix(segments, x));
  }

  lemma OccurrencesTransposed<T>(segments: seq<seq<seq<T>>>, x: T)
    requires IsMatrix(segments, |segments|)
    ensures OccurrenceMatrix(Transpose(segments, |segments|), x) == Transpose(OccurrenceMatrix(segments, x), |segments|)
  {
    var t, c := Transpose(segments, |segments|), OccurrenceMatrix(segments, x);
    forall r | 0 <= r < |segments| ensures Occurrences(t[r], x) == Transpose(c, |segments|)[r] {
      forall s | 0 <= s < |segments| ensures Occurrences(t[r], x)[s] == c[s][r] {}
    }
  }

  lemma ExchangeKeepsOccurrences<T>(segments: seq<seq<seq<T>>>, x: T)
    requires IsMatrix(segments, |segments|)
    ensures multiset(Flatten(Exchanged(segments)))[x] == multiset(Flatten(RowsFlattened(segments)))[x]
  {
    var t := Transpose(segments, |segments|);
    assert Exchanged(segments) == RowsFlattened(t);
    OccurrencesInRows(t, x);
    OccurrencesInRows(segments, x);
    OccurrencesTransposed(segments, x);
    SumByColumns(OccurrenceMatrix(segments, x), |segments|);
  }
}
