/** Facts about sequences that several components share: data distributed over ranks is a sequence
    with one local sequence per rank, and Flatten puts the local sequences together in rank order. */
module Sequences {

  /** The local sequences of all ranks, concatenated in rank order. */
  function Flatten<T>(parts: seq<seq<T>>): seq<T> {
    if parts == [] then [] else Flatten(parts[..|parts| - 1]) + parts[|parts| - 1]
  }

  /** Position at which the data of rank r starts in the concatenation. */
  function Offset<T>(parts: seq<seq<T>>, r: nat): nat
    requires r <= |parts|
  {
    |Flatten(parts[..r])|
  }

  lemma FlattenStep<T>(parts: seq<seq<T>>, r: nat)
    requires r < |parts|
    ensures Flatten(parts[..r + 1]) == Flatten(parts[..r]) + parts[r]
    ensures Offset(parts, r + 1) == Offset(parts, r) + |parts[r]|
  {
    assert parts[..r + 1][..r] == parts[..r];
  }

  lemma {:induction false} FlattenSplit<T>(parts: seq<seq<T>>, r: nat)
    requires r <= |parts|
    ensures Flatten(parts[..r]) <= Flatten(parts)
    decreases |parts| - r
  {
    if r == |parts| {
      assert parts[..r] == parts;
    } else {
      FlattenStep(parts, r);
      FlattenSplit(parts, r + 1);
    }
  }

  lemma {:induction false} FlattenConcat<T>(a: seq<seq<T>>, b: seq<seq<T>>)
    ensures Flatten(a + b) == Flatten(a) + Flatten(b)
  {
    if b == [] {
      assert a + b == a;
    } else {
      var init, last := b[..|b| - 1], b[|b| - 1];
      var s := a + b;
      assert s[..|s| - 1] == a + init && s[|s| - 1] == last;
      FlattenConcat(a, init);
      assert Flatten(s) == Flatten(a + init) + last;
      assert Flatten(a) + Flatten(init) + last == Flatten(a) + (Flatten(init) + last);
    }
  }

  lemma FlattenOfOne<T>(x: seq<T>)
    ensures Flatten([x]) == x
  {
    var parts: seq<seq<T>> := [x];
    assert parts[..0] == [];
    assert Flatten(parts) == Flatten(parts[..0]) + x;
    assert Flatten(parts) == x;
  }

  /** Element i of rank r sits at its offset plus i. */
  lemma FlattenAt<T>(parts: seq<seq<T>>, r: nat, i: nat)
    requires r < |parts| && i < |parts[r]|
    ensures Offset(parts, r) + i < |Flatten(parts)|
    ensures Flatten(parts)[Offset(parts, r) + i] == parts[r][i]
  {
    FlattenStep(parts, r);
    FlattenSplit(parts, r + 1);
  }

  /** Every global position belongs to some rank: the ranks tile the concatenation. */
  lemma {:induction false} Locate<T>(parts: seq<seq<T>>, p: nat) returns (r: nat, i: nat)
    requires p < |Flatten(parts)|
    ensures r < |parts| && i < |parts[r]| && p == Offset(parts, r) + i
    ensures Flatten(parts)[p] == parts[r][i]
  {
    var last := |parts| - 1;
    assert parts[..|parts|] == parts;
    FlattenStep(parts, last);
    if p >= Offset(parts, last) {
      r, i := last, p - Offset(parts, last);
    } else {
      r, i := Locate(parts[..last], p);
      assert parts[..last][..r] == parts[..r];
    }
    FlattenAt(parts, r, i);
  }

  lemma {:induction false} OffsetMonotone<T>(parts: seq<seq<T>>, r: nat, s: nat)
    requires r <= s <= |parts|
    ensures Offset(parts, r) <= Offset(parts, s)
  {
    FlattenSplit(parts[..s], r);
    assert parts[..s][..r] == parts[..r];
  }

  /** Two flattened sequences of which the local parts have the same lengths are cut at the same places. */
  lemma {:induction false} SameOffsets<T, U>(a: seq<seq<T>>, b: seq<seq<U>>, r: nat)
    requires |a| == |b| && r <= |a|
    requires forall q | 0 <= q < |a| :: |a[q]| == |b[q]|
    ensures Offset(a, r) == Offset(b, r)
  {
    if r > 0 {
      FlattenStep(a, r - 1);
      FlattenStep(b, r - 1);
      SameOffsets(a, b, r - 1);
    }
  }

  ghost predicate Distinct<T>(s: seq<T>) {
    forall p, q | 0 <= p < q < |s| :: s[p] != s[q]
  }

  lemma {:induction false} DistinctMultiplicity<T>(s: seq<T>, x: T)
    requires Distinct(s)
    ensures multiset(s)[x] <= 1
  {
    if s != [] {
      var last := |s| - 1;
      assert s == s[..last] + [s[last]];
      DistinctMultiplicity(s[..last], x);
      if x == s[last] {
        assert x !in s[..last];
      }
    }
  }

  /** Having no repeated element depends on the multiset of the elements only. */
  lemma DistinctIsPermutationInvariant<T>(s: seq<T>, t: seq<T>)
    requires Distinct(s) && multiset(s) == multiset(t)
    ensures Distinct(t)
  {
    forall p, q | 0 <= p < q < |t| ensures t[p] != t[q] {
      if t[p] == t[q] {
        assert t == t[..q] + [t[q]] + t[q + 1..];
        assert t[..q][p] == t[q];
        assert multiset(t)[t[q]] >= 2;
        DistinctMultiplicity(s, t[q]);
        assert false;
      }
    }
  }

  lemma PermutationLength<T>(s: seq<T>, t: seq<T>)
    requires multiset(s) == multiset(t)
    ensures |s| == |t|
  {
    assert |multiset(s)| == |s|;
    assert |multiset(t)| == |t|;
  }

  lemma PermutationMember<T>(s: seq<T>, t: seq<T>, p: nat) returns (q: nat)
    requires multiset(s) == multiset(t)
    requires p < |t|
    ensures q < |s| && s[q] == t[p]
  {
    assert t[p] in multiset(t);
    assert t[p] in multiset(s);
    q :| 0 <= q < |s| && s[q] == t[p];
  }

  ghost function Range(n: nat): (r: set<nat>)
    ensures |r| == n
    ensures forall i: nat :: i in r <==> i < n
  {
    if n == 0 then {} else Range(n - 1) + {n - 1}
  }

  ghost function Elements<T>(s: seq<T>): set<T> {
    set x | x in s
  }

  lemma {:induction false} DistinctCardinality<T>(s: seq<T>)
    requires Distinct(s)
    ensures |Elements(s)| == |s|
  {
    if s != [] {
      var last := |s| - 1;
      DistinctCardinality(s[..last]);
      assert Elements(s) == Elements(s[..last]) + {s[last]};
      assert s[last] !in s[..last];
    } else {
      assert Elements(s) == {};
    }
  }

  lemma ElementsStep<T>(s: seq<T>)
    requires s != []
    ensures Elements(s) == Elements(s[..|s| - 1]) + {s[|s| - 1]}
    ensures |Elements(s)| == |Elements(s[..|s| - 1])| + if s[|s| - 1] in s[..|s| - 1] then 0 else 1
  {
    var init, last := s[..|s| - 1], s[|s| - 1];
    assert s == init + [last];
    assert last in init ==> Elements(s) == Elements(init);
    assert last !in init ==> last !in Elements(init);
  }

  lemma SubsetOfSameSize<T>(a: set<T>, b: set<T>)
    requires a <= b && |a| >= |b|
    ensures a == b
  {
    assert b == a + (b - a);
    assert |b| == |a| + |b - a|;
  }

  lemma SubsetCardinality<T>(a: set<T>, b: set<T>)
    requires a <= b
    ensures |a| <= |b|
  {
    assert b == a + (b - a);
  }

  /** s lists each of 0..|s|-1 exactly once. */
  ghost predicate IsPermutation(s: seq<nat>) {
    Distinct(s) && forall p | 0 <= p < |s| :: s[p] < |s|
  }

  /** A duplicate-free list of n numbers below n misses none of them. */
  lemma PermutationIsOnto(s: seq<nat>, i: nat) returns (p: nat)
    requires IsPermutation(s)
    requires i < |s|
    ensures p < |s| && s[p] == i
  {
    DistinctCardinality(s);
    SubsetOfSameSize(Elements(s), Range(|s|));
    assert i in Elements(s);
    p :| 0 <= p < |s| && s[p] == i;
  }
}
