/** Buffers cut into segments by counts and displacements, and matrices of segments. */
module Segments {
  import opened Sequences
  import opened Scans

  /** Every segment lies inside the buffer. */
  predicate Fits<T>(buf: seq<T>, displs: seq<nat>, counts: seq<nat>) {
    |displs| == |counts| && forall i | 0 <= i < |counts| :: displs[i] + counts[i] <= |buf|
  }

  /** Segment i is the counts[i] elements starting at displs[i]. */
  function SegmentsOf<T>(buf: seq<T>, displs: seq<nat>, counts: seq<nat>): (segs: seq<seq<T>>)
    requires Fits(buf, displs, counts)
    ensures |segs| == |counts| && forall i | 0 <= i < |segs| :: |segs[i]| == counts[i]
  {
    seq(|counts|, i requires 0 <= i < |counts| => buf[displs[i]..displs[i] + counts[i]])
  }

  /** The part stands in the buffer, from place displ on. */
  ghost predicate Holds<T>(buf: seq<T>, displ: nat, part: seq<T>) {
    displ + |part| <= |buf| && buf[displ..displ + |part|] == part
  }

  lemma {:induction false} ScanFits<T>(buf: seq<T>, counts: seq<nat>)
    requires Sum(counts) <= |buf|
    ensures Fits(buf, ExclusiveScan(counts), counts)
  {
    forall i | 0 <= i < |counts| ensures ExclusiveScan(counts)[i] + counts[i] <= |buf| {
      SumBound(counts, i);
    }
  }

  /** The buffer cut into consecutive segments of the given lengths. */
  function Cut<T>(buf: seq<T>, counts: seq<nat>): (segs: seq<seq<T>>)
    requires Sum(counts) <= |buf|
    ensures |segs| == |counts| && forall i | 0 <= i < |segs| :: |segs[i]| == counts[i]
  {
    ScanFits(buf, counts);
    SegmentsOf(buf, ExclusiveScan(counts), counts)
  }

  lemma PrefixSlice<T>(a: seq<T>, b: seq<T>, f: seq<T>)
    requires a + b <= f
    ensures f[|a|..|a| + |b|] == b
  {
    assert f[..|a| + |b|] == a + b;
  }

  lemma SliceJoin<T>(f: seq<T>, i: nat, n: nat)
    requires i + n <= |f|
    ensures f[..i] + f[i..i + n] == f[..i + n]
  {}

  /** In the concatenation, segment i sits at the sum of the lengths before it. */
  lemma SegmentOfFlatten<T>(segs: seq<seq<T>>, i: nat)
    requires i < |segs|
    ensures Sum(Lengths(segs)[..i]) + |segs[i]| <= |Flatten(segs)|
    ensures Flatten(segs)[Sum(Lengths(segs)[..i])..Sum(Lengths(segs)[..i]) + |segs[i]|] == segs[i]
  {
    ScanIsOffset(segs, i);
    FlattenStep(segs, i);
    FlattenSplit(segs, i + 1);
    PrefixSlice(Flatten(segs[..i]), segs[i], Flatten(segs));
  }

  /** Cutting the concatenation of segments gives the segments back. */
  lemma CutOfFlatten<T>(segs: seq<seq<T>>)
    ensures Sum(Lengths(segs)) == |Flatten(segs)|
    ensures Cut(Flatten(segs), Lengths(segs)) == segs
  {
    SumOfLengths(segs);
    var cut := Cut(Flatten(segs), Lengths(segs));
    forall i | 0 <= i < |segs| ensures cut[i] == segs[i] {
      SegmentOfFlatten(segs, i);
    }
  }

  lemma {:induction false} CutAt<T>(buf: seq<T>, counts: seq<nat>, i: nat)
    requires Sum(counts) <= |buf| && i < |counts|
    ensures Sum(counts[..i + 1]) == Sum(counts[..i]) + counts[i] <= |buf|
    ensures Cut(buf, counts)[i] == buf[Sum(counts[..i])..Sum(counts[..i + 1])]
  {
    SumBound(counts, i);
    SumStep(counts, i);
  }

  /** Concatenating what a buffer was cut into gives the buffer back. */
  lemma FlattenOfCut<T>(buf: seq<T>, counts: seq<nat>)
    requires Sum(counts) <= |buf|
    ensures Flatten(Cut(buf, counts)) == buf[..Sum(counts)]
  {
    FlattenOfCutBelow(buf, counts, |counts|);
    assert counts[..|counts|] == counts;
    assert Cut(buf, counts)[..|counts|] == Cut(buf, counts);
  }

  lemma {:induction false} FlattenOfCutBelow<T>(buf: seq<T>, counts: seq<nat>, i: nat)
    requires Sum(counts) <= |buf| && i <= |counts|
    ensures Sum(counts[..i]) <= |buf|
    ensures Flatten(Cut(buf, counts)[..i]) == buf[..Sum(counts[..i])]
  {
    if i > 0 {
      FlattenOfCutBelow(buf, counts, i - 1);
      CutAt(buf, counts, i - 1);
      FlattenStep(Cut(buf, counts), i - 1);
      SliceJoin(buf, Sum(counts[..i - 1]), counts[i - 1]);
    }
  }

  // ----- writing segments -----

  function Overwrite<T>(buf: seq<T>, displ: nat, seg: seq<T>): (r: seq<T>)
    requires displ + |seg| <= |buf|
    ensures |r| == |buf|
  {
    buf[..displ] + seg + buf[displ + |seg|..]
  }

  /** The buffer after all segments have been written to their displacements. */
  function OverwriteAll<T>(buf: seq<T>, displs: seq<nat>, segs: seq<seq<T>>): (r: seq<T>)
    requires Fits(buf, displs, Lengths(segs))
    ensures |r| == |buf|
  {
    if segs == [] then buf
    else
      var last := |segs| - 1;
      FitsPrefix(buf, displs, segs, last);
      assert displs[last] + Lengths(segs)[last] <= |buf|;
      Overwrite(OverwriteAll(buf, displs[..last], segs[..last]), displs[last], segs[last])
  }

  lemma FitsPrefix<T>(buf: seq<T>, displs: seq<nat>, segs: seq<seq<T>>, i: nat)
    requires Fits(buf, displs, Lengths(segs)) && i <= |segs|
    ensures Fits(buf, displs[..i], Lengths(segs[..i]))
  {
    forall j | 0 <= j < i ensures displs[..i][j] + Lengths(segs[..i])[j] <= |buf| {
      assert displs[j] + Lengths(segs)[j] <= |buf|;
    }
  }

  /** No two segments share a place. */
  ghost predicate AreDisjoint(displs: seq<nat>, counts: seq<nat>) {
    && |displs| == |counts|
    && forall i, j | 0 <= i < j < |counts| ::
         displs[i] + counts[i] <= displs[j] || displs[j] + counts[j] <= displs[i] || counts[i] == 0 || counts[j] == 0
  }

  /** The last segment is written last. */
  lemma OverwriteAllStep<T>(buf: seq<T>, displs: seq<nat>, segs: seq<seq<T>>) returns (before: seq<T>)
    requires Fits(buf, displs, Lengths(segs)) && segs != []
    ensures var last := |segs| - 1;
            && Fits(buf, displs[..last], Lengths(segs[..last]))
            && before == OverwriteAll(buf, displs[..last], segs[..last])
            && |before| == |buf| && displs[last] + |segs[last]| <= |buf|
            && OverwriteAll(buf, displs, segs) == Overwrite(before, displs[last], segs[last])
  {
    var last := |segs| - 1;
    assert displs[last] + Lengths(segs)[last] <= |buf|;
    FitsPrefix(buf, displs, segs, last);
    before := OverwriteAll(buf, displs[..last], segs[..last]);
  }

  /** Segments written to disjoint places can all be read back. */
  lemma {:induction false} OverwriteAllKeeps<T>(buf: seq<T>, displs: seq<nat>, segs: seq<seq<T>>, i: nat)
    requires Fits(buf, displs, Lengths(segs)) && AreDisjoint(displs, Lengths(segs)) && i < |segs|
    ensures displs[i] + |segs[i]| <= |buf|
    ensures OverwriteAll(buf, displs, segs)[displs[i]..displs[i] + |segs[i]|] == segs[i]
  {
    var last := |segs| - 1;
    assert displs[i] + Lengths(segs)[i] <= |buf|;
    var before := OverwriteAllStep(buf, displs, segs);
    if i < last {
      DisjointPrefix(displs, segs, last);
      OverwriteAllKeeps(buf, displs[..last], segs[..last], i);
      DisjointAt(displs, Lengths(segs), i, last);
      OverwriteKeeps(before, displs[last], segs[last], displs[i], displs[i] + |segs[i]|);
    } else {
      OverwriteShows(before, displs[last], segs[last]);
    }
  }

  lemma DisjointPrefix<T>(displs: seq<nat>, segs: seq<seq<T>>, last: nat)
    requires AreDisjoint(displs, Lengths(segs)) && last <= |segs|
    ensures AreDisjoint(displs[..last], Lengths(segs[..last]))
  {
    assert Lengths(segs[..last]) == Lengths(segs)[..last];
    forall p: nat, q: nat | p < q < last
      ensures displs[..last][p] + Lengths(segs[..last])[p] <= displs[..last][q]
           || displs[..last][q] + Lengths(segs[..last])[q] <= displs[..last][p]
           || Lengths(segs[..last])[p] == 0 || Lengths(segs[..last])[q] == 0
    {
      DisjointAt(displs, Lengths(segs), p, q);
    }
  }

  lemma OverwriteAt<T>(buf: seq<T>, displ: nat, seg: seq<T>, x: nat)
    requires displ + |seg| <= |buf| && x < |buf|
    ensures Overwrite(buf, displ, seg)[x] == if displ <= x < displ + |seg| then seg[x - displ] else buf[x]
  {
    var r := Overwrite(buf, displ, seg);
    if x < displ {
      assert r[x] == buf[..displ][x];
    } else if x < displ + |seg| {
      assert r[x] == seg[x - displ];
    } else {
      assert r[x] == buf[displ + |seg|..][x - (displ + |seg|)];
    }
  }

  /** Writing a segment does not touch a range that lies before or after it. */
  lemma OverwriteKeeps<T>(buf: seq<T>, displ: nat, seg: seq<T>, lo: nat, hi: nat)
    requires displ + |seg| <= |buf| && lo <= hi <= |buf|
    requires hi <= displ || displ + |seg| <= lo || |seg| == 0 || lo == hi
    ensures Overwrite(buf, displ, seg)[lo..hi] == buf[lo..hi]
  {
    var r := Overwrite(buf, displ, seg);
    assert r[lo..hi] == buf[lo..hi] by {
      forall x | 0 <= x < hi - lo ensures r[lo..hi][x] == buf[lo..hi][x] {
        OverwriteAt(buf, displ, seg, lo + x);
      }
    }
  }

  lemma OverwriteShows<T>(buf: seq<T>, displ: nat, seg: seq<T>)
    requires displ + |seg| <= |buf|
    ensures Overwrite(buf, displ, seg)[displ..displ + |seg|] == seg
  {
    var r := Overwrite(buf, displ, seg);
    assert r[displ..displ + |seg|] == seg by {
      forall x | 0 <= x < |seg| ensures r[displ..displ + |seg|][x] == seg[x] {
        OverwriteAt(buf, displ, seg, displ + x);
      }
    }
  }

  lemma DisjointAt(displs: seq<nat>, counts: seq<nat>, i: nat, j: nat)
    requires AreDisjoint(displs, counts) && i < j < |counts|
    ensures displs[i] + counts[i] <= displs[j] || displs[j] + counts[j] <= displs[i] || counts[i] == 0 || counts[j] == 0
  {}

  /** Consecutive segments do not overlap. */
  lemma ScanIsDisjoint(counts: seq<nat>)
    ensures AreDisjoint(ExclusiveScan(counts), counts)
  {
    forall i, j | 0 <= i < j < |counts| ensures ExclusiveScan(counts)[i] + counts[i] <= ExclusiveScan(counts)[j] {
      SumStep(counts, i);
      SumMonotone(counts, i + 1, j);
    }
  }

  /** No segment reaches place x. */
  ghost predicate IsGap(displs: seq<nat>, counts: seq<nat>, x: nat)
    requires |displs| == |counts|
  {
    forall i | 0 <= i < |counts| :: x < displs[i] || displs[i] + counts[i] <= x
  }

  /** Places that no segment reaches stay as they were. */
  lemma {:induction false} OverwriteAllLeavesGaps<T>(buf: seq<T>, displs: seq<nat>, segs: seq<seq<T>>, x: nat)
    requires Fits(buf, displs, Lengths(segs)) && x < |buf| && IsGap(displs, Lengths(segs), x)
    ensures OverwriteAll(buf, displs, segs)[x] == buf[x]
  {
    if segs != [] {
      var last := |segs| - 1;
      var before := OverwriteAllStep(buf, displs, segs);
      assert forall i | 0 <= i < last :: displs[..last][i] == displs[i] && Lengths(segs[..last])[i] == Lengths(segs)[i];
      OverwriteAllLeavesGaps(buf, displs[..last], segs[..last], x);
      assert x < displs[last] || displs[last] + Lengths(segs)[last] <= x;
      OverwriteAt(before, displs[last], segs[last], x);
    }
  }

  /** Element i of segment s can be read back. */
  lemma OverwriteAllAt<T>(buf: seq<T>, displs: seq<nat>, segs: seq<seq<T>>, s: nat, i: nat)
    requires Fits(buf, displs, Lengths(segs)) && AreDisjoint(displs, Lengths(segs))
    requires s < |segs| && i < |segs[s]|
    ensures displs[s] + i < |buf|
    ensures OverwriteAll(buf, displs, segs)[displs[s] + i] == segs[s][i]
  {
    OverwriteAllKeeps(buf, displs, segs, s);
    var r := OverwriteAll(buf, displs, segs);
    assert r[displs[s]..displs[s] + |segs[s]|][i] == r[displs[s] + i];
  }

  lemma {:induction false} ScanFillsAt<T>(buf: seq<T>, segs: seq<seq<T>>, displs: seq<nat>, p: nat)
    requires displs == ExclusiveScan(Lengths(segs)) && Fits(buf, displs, Lengths(segs))
    requires p < |Flatten(segs)| == |buf|
    ensures OverwriteAll(buf, displs, segs)[p] == Flatten(segs)[p]
  {
    var s, i := Locate(segs, p);
    assert displs[s] == Offset(segs, s) by { ScanIsOffset(segs, s); }
    assert AreDisjoint(displs, Lengths(segs)) by { ScanIsDisjoint(Lengths(segs)); }
    OverwriteAllAt(buf, displs, segs, s, i);
  }

  /** A buffer that consecutive segments fill holds their concatenation. */
  lemma ScanFillsBuffer<T>(buf: seq<T>, segs: seq<seq<T>>, displs: seq<nat>)
    requires displs == ExclusiveScan(Lengths(segs)) && |buf| == Sum(Lengths(segs))
    ensures Fits(buf, displs, Lengths(segs))
    ensures OverwriteAll(buf, displs, segs) == Flatten(segs)
  {
    ScanFits(buf, Lengths(segs));
    SumOfLengths(segs);
    var r := OverwriteAll(buf, displs, segs);
    forall p | 0 <= p < |buf| ensures r[p] == Flatten(segs)[p] {
      ScanFillsAt(buf, segs, displs, p);
    }
  }

  // ----- matrices -----

  ghost predicate IsMatrix<T>(m: seq<seq<T>>, columns: nat) {
    forall r | 0 <= r < |m| :: |m[r]| == columns
  }

  function Transpose<T>(m: seq<seq<T>>, columns: nat): (t: seq<seq<T>>)
    requires forall r | 0 <= r < |m| :: |m[r]| == columns
    ensures |t| == columns && forall c | 0 <= c < columns :: |t[c]| == |m|
    ensures forall c, r {:trigger t[c][r]} | 0 <= c < columns && 0 <= r < |m| :: t[c][r] == m[r][c]
  {
    seq(columns, c requires 0 <= c < columns => seq(|m|, r requires 0 <= r < |m| => m[r][c]))
  }

  lemma TransposeTwice<T>(m: seq<seq<T>>)
    requires IsMatrix(m, |m|)
    ensures Transpose(Transpose(m, |m|), |m|) == m
  {
    var t := Transpose(Transpose(m, |m|), |m|);
    forall r | 0 <= r < |m| ensures t[r] == m[r] {
      forall c | 0 <= c < |m| ensures t[r][c] == m[r][c] {
        assert Transpose(m, |m|)[c][r] == m[r][c];
      }
    }
  }

  function RowSums(m: seq<seq<nat>>): (s: seq<nat>)
    ensures |s| == |m|
  {
    seq(|m|, r requires 0 <= r < |m| => Sum(m[r]))
  }

  lemma {:induction false} SumOfSums(a: seq<nat>, b: seq<nat>, c: seq<nat>)
    requires |a| == |b| == |c| && forall i | 0 <= i < |a| :: c[i] == a[i] + b[i]
    ensures Sum(c) == Sum(a) + Sum(b)
  {
    if a != [] {
      SumOfSums(a[..|a| - 1], b[..|b| - 1], c[..|c| - 1]);
    }
  }

  lemma {:induction false} SumOfZeros(a: seq<nat>)
    requires forall i | 0 <= i < |a| :: a[i] == 0
    ensures Sum(a) == 0
  {
    if a != [] { SumOfZeros(a[..|a| - 1]); }
  }

  /** Summing a matrix by rows and by columns gives the same. */
  lemma {:induction false} SumByColumns(m: seq<seq<nat>>, columns: nat)
    requires IsMatrix(m, columns)
    ensures Sum(RowSums(Transpose(m, columns))) == Sum(RowSums(m))
  {
    if m == [] {
      SumOfZeros(RowSums(Transpose(m, columns)));
    } else {
      var last := |m| - 1;
      var init := m[..last];
      SumByColumns(init, columns);
      var whole, part := Transpose(m, columns), Transpose(init, columns);
      forall c | 0 <= c < columns ensures RowSums(whole)[c] == RowSums(part)[c] + m[last][c] {
        assert whole[c][..last] == part[c];
      }
      SumOfSums(RowSums(part), m[last], RowSums(whole));
      assert RowSums(m)[..last] == RowSums(init);
    }
  }
}
