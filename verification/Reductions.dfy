/** User-defined reductions, correct for every bracketing and every order of the ranks. */
module Reductions {
  import opened Sequences
  import opened DistributedSort

  /** How MPI may combine the values of the ranks: for a commutative operator, any binary tree whose
      leaves are the ranks in any order. */
  datatype Tree = Leaf(rank: nat) | Node(left: Tree, right: Tree)

  function Leaves(t: Tree): (r: seq<nat>)
    ensures r != []
  {
    match t
    case Leaf(rank) => [rank]
    case Node(left, right) => Leaves(left) + Leaves(right)
  }

  /** t reduces the values of all ranks, each once. */
  ghost predicate IsReductionTree(t: Tree, size: nat) {
    |Leaves(t)| == size && IsPermutation(Leaves(t))
  }

  ghost predicate LeavesBelow(t: Tree, size: nat) {
    forall p | 0 <= p < |Leaves(t)| :: Leaves(t)[p] < size
  }

  lemma LeavesOfNode(t: Tree, size: nat)
    requires t.Node? && LeavesBelow(t, size)
    ensures LeavesBelow(t.left, size) && LeavesBelow(t.right, size)
  {
    forall p | 0 <= p < |Leaves(t.left)| ensures Leaves(t.left)[p] < size {
      assert Leaves(t)[p] == Leaves(t.left)[p];
    }
    forall p | 0 <= p < |Leaves(t.right)| ensures Leaves(t.right)[p] < size {
      assert Leaves(t)[|Leaves(t.left)| + p] == Leaves(t.right)[p];
    }
  }

  /** The value a tree computes. */
  function Reduce<T>(t: Tree, values: seq<T>, op: (T, T) -> T): T
    requires forall p | 0 <= p < |Leaves(t)| :: Leaves(t)[p] < |values|
  {
    match t
    case Leaf(rank) => assert Leaves(t)[0] == rank; values[rank]
    case Node(left, right) => LeavesOfNode(t, |values|); op(Reduce(left, values, op), Reduce(right, values, op))
  }

  function Selected<T>(values: seq<T>, ranks: seq<nat>): (s: seq<T>)
    requires forall p | 0 <= p < |ranks| :: ranks[p] < |values|
    ensures |s| == |ranks|
  {
    seq(|ranks|, p requires 0 <= p < |ranks| => values[ranks[p]])
  }

  // ----- top K -----

  ghost predicate Ascending(s: seq<nat>) {
    forall i, j | 0 <= i <= j < |s| :: s[i] <= s[j]
  }

  ghost predicate NoneAbove(top: seq<nat>, rest: seq<nat>) {
    forall i, j | 0 <= i < |top| && 0 <= j < |rest| :: top[i] <= rest[j]
  }

  /** top lists the smallest elements of all, in order: nothing left out is smaller. */
  ghost predicate IsSmallest(top: seq<nat>, rest: seq<nat>, all: multiset<nat>) {
    multiset(top) + multiset(rest) == all && Ascending(top) && NoneAbove(top, rest)
  }

  /** The state of merge: what was written, and what is left of both inputs. */
  ghost predicate IsMerging(merged: seq<nat>, lhs: seq<nat>, rhs: seq<nat>, l: nat, r: nat) {
    && l <= |lhs| && r <= |rhs| && l + r == |merged|
    && IsSmallest(merged, lhs[l..] + rhs[r..], multiset(lhs) + multiset(rhs))
  }

  /** Taking the smaller of the two heads, the right one if they are equal. */
  function MergedStep(lhs: seq<nat>, rhs: seq<nat>, l: nat, r: nat, k: nat): (merged: seq<nat>)
    requires l + r + k <= |lhs| && l + r + k <= |rhs|
    ensures |merged| == k
    decreases k
  {
    if k == 0 then []
    else if lhs[l] < rhs[r] then [lhs[l]] + MergedStep(lhs, rhs, l + 1, r, k - 1)
    else [rhs[r]] + MergedStep(lhs, rhs, l, r + 1, k - 1)
  }

  /** The first K elements of the two merged inputs. */
  function Merged(lhs: seq<nat>, rhs: seq<nat>): (merged: seq<nat>)
    ensures |lhs| == |rhs| ==> |merged| == |lhs|
  {
    if |lhs| == |rhs| then MergedStep(lhs, rhs, 0, 0, |lhs|) else []
  }

  /** merge. Neither index leaves its array, sorted or not: together they count the outputs. */
  method Merge(lhs: array<nat>, rhs: array<nat>) returns (merged: array<nat>)
    requires lhs.Length == rhs.Length
    ensures fresh(merged) && merged[..] == Merged(lhs[..], rhs[..])
  {
    var k := lhs.Length;
    merged := new nat[k];
    var lhsCurrent, rhsCurrent := 0, 0;
    ghost var left, right, written := lhs[..], rhs[..], [];
    ghost var rest := Merged(left, right);
    for output := 0 to k
      invariant lhsCurrent >= 0 && rhsCurrent >= 0 && lhsCurrent + rhsCurrent == output
      invariant merged.Length == k && lhs[..] == left && rhs[..] == right
      invariant merged[..output] == written
      invariant rest == MergedStep(left, right, lhsCurrent, rhsCurrent, k - output)
      invariant written + rest == Merged(left, right)
    {
      assert lhs[lhsCurrent] == left[lhsCurrent] && rhs[rhsCurrent] == right[rhsCurrent];
      if lhs[lhsCurrent] < rhs[rhsCurrent] {
        merged[output] := lhs[lhsCurrent];
        lhsCurrent := lhsCurrent + 1;
      } else {
        merged[output] := rhs[rhsCurrent];
        rhsCurrent := rhsCurrent + 1;
      }
      assert merged[..output + 1] == written + [merged[output]];
      AppendAssociative(written, merged[output], rest[1..]);
      written, rest := written + [merged[output]], rest[1..];
    }
    assert merged[..k] == merged[..];
  }

  /** The two read positions before every output: the output takes the smaller of the two elements there, the
      right one if they are equal, and only the position it came from moves on. */
  ghost predicate FollowsHeads(lhs: seq<nat>, rhs: seq<nat>, merged: seq<nat>, ls: seq<nat>, rs: seq<nat>) {
    && |ls| == |rs| == |merged| + 1
    && forall i | 0 <= i < |merged| ::
         && ls[i] < |lhs| && rs[i] < |rhs|
         && if lhs[ls[i]] < rhs[rs[i]]
            then merged[i] == lhs[ls[i]] && ls[i + 1] == ls[i] + 1 && rs[i + 1] == rs[i]
            else merged[i] == rhs[rs[i]] && ls[i + 1] == ls[i] && rs[i + 1] == rs[i] + 1
  }

  lemma {:induction false} MergedStepFollowsHeads(lhs: seq<nat>, rhs: seq<nat>, l: nat, r: nat, k: nat)
      returns (ls: seq<nat>, rs: seq<nat>)
    requires l + r + k <= |lhs| && l + r + k <= |rhs|
    ensures FollowsHeads(lhs, rhs, MergedStep(lhs, rhs, l, r, k), ls, rs) && ls[0] == l && rs[0] == r
    decreases k
  {
    if k == 0 {
      ls, rs := [l], [r];
    } else {
      var l', r' := if lhs[l] < rhs[r] then l + 1 else l, if lhs[l] < rhs[r] then r else r + 1;
      var merged := MergedStep(lhs, rhs, l', r', k - 1);
      ls, rs := MergedStepFollowsHeads(lhs, rhs, l', r', k - 1);
      FollowsHeadsFrom(lhs, rhs, merged, ls, rs, l, r);
      ls, rs := [l] + ls, [r] + rs;
    }
  }

  lemma FollowsHeadsFrom(lhs: seq<nat>, rhs: seq<nat>, merged: seq<nat>, ls: seq<nat>, rs: seq<nat>, l: nat, r: nat)
    requires FollowsHeads(lhs, rhs, merged, ls, rs) && l < |lhs| && r < |rhs|
    requires ls[0] == (if lhs[l] < rhs[r] then l + 1 else l) && rs[0] == (if lhs[l] < rhs[r] then r else r + 1)
    ensures FollowsHeads(lhs, rhs, [if lhs[l] < rhs[r] then lhs[l] else rhs[r]] + merged, [l] + ls, [r] + rs)
  {}

  /** How merge works on any two lists of one length, sorted or not. */
  lemma MergedFollowsHeads(lhs: seq<nat>, rhs: seq<nat>) returns (ls: seq<nat>, rs: seq<nat>)
    requires |lhs| == |rhs|
    ensures |Merged(lhs, rhs)| == |lhs|
    ensures FollowsHeads(lhs, rhs, Merged(lhs, rhs), ls, rs) && ls[0] == 0 && rs[0] == 0
  {
    ls, rs := MergedStepFollowsHeads(lhs, rhs, 0, 0, |lhs|);
  }

  lemma HeadMoves(merged: seq<nat>, x: nat, rest': seq<nat>, rest: seq<nat>, all: multiset<nat>)
    requires IsSmallest(merged, rest, all) && multiset(rest) == multiset{x} + multiset(rest')
    requires forall j | 0 <= j < |rest'| :: x <= rest'[j]
    ensures IsSmallest(merged + [x], rest', all)
  {
    assert x in multiset(rest);
    var p :| 0 <= p < |rest| && rest[p] == x;
    forall i, j | 0 <= i < |merged| && 0 <= j < |rest'| ensures merged[i] <= rest'[j] {
      assert merged[i] <= rest[p];
    }
    assert forall i | 0 <= i < |merged| :: merged[i] <= rest[p];
  }

  lemma HeadAndTail(lhs: seq<nat>, rhs: seq<nat>, l: nat, r: nat)
    requires l < |lhs| && r < |rhs|
    ensures multiset(lhs[l..] + rhs[r..]) == multiset{lhs[l]} + multiset(lhs[l + 1..] + rhs[r..])
    ensures multiset(lhs[l..] + rhs[r..]) == multiset{rhs[r]} + multiset(lhs[l..] + rhs[r + 1..])
  {
    assert lhs[l..] == [lhs[l]] + lhs[l + 1..];
    assert rhs[r..] == [rhs[r]] + rhs[r + 1..];
  }

  /** Moving the smaller head keeps the merge a merge. */
  lemma LeftMoves(merged: seq<nat>, lhs: seq<nat>, rhs: seq<nat>, l: nat, r: nat)
    requires Ascending(lhs) && Ascending(rhs) && IsMerging(merged, lhs, rhs, l, r)
    requires l < |lhs| && r < |rhs| && lhs[l] < rhs[r]
    ensures IsMerging(merged + [lhs[l]], lhs, rhs, l + 1, r)
  {
    HeadAndTail(lhs, rhs, l, r);
    var rest := lhs[l + 1..] + rhs[r..];
    forall j | 0 <= j < |rest| ensures lhs[l] <= rest[j] {
      if j < |lhs| - l - 1 {
        assert rest[j] == lhs[l + 1 + j];
      } else {
        assert rest[j] == rhs[r + (j - (|lhs| - l - 1))];
      }
    }
    HeadMoves(merged, lhs[l], rest, lhs[l..] + rhs[r..], multiset(lhs) + multiset(rhs));
  }

  lemma RightMoves(merged: seq<nat>, lhs: seq<nat>, rhs: seq<nat>, l: nat, r: nat)
    requires Ascending(lhs) && Ascending(rhs) && IsMerging(merged, lhs, rhs, l, r)
    requires l < |lhs| && r < |rhs| && rhs[r] <= lhs[l]
    ensures IsMerging(merged + [rhs[r]], lhs, rhs, l, r + 1)
  {
    HeadAndTail(lhs, rhs, l, r);
    var rest := lhs[l..] + rhs[r + 1..];
    forall j | 0 <= j < |rest| ensures rhs[r] <= rest[j] {
      if j < |lhs| - l {
        assert rest[j] == lhs[l + j];
      } else {
        assert rest[j] == rhs[r + 1 + (j - (|lhs| - l))];
      }
    }
    HeadMoves(merged, rhs[r], rest, lhs[l..] + rhs[r..], multiset(lhs) + multiset(rhs));
  }

  lemma {:induction false} MergedIsMerging(merged: seq<nat>, lhs: seq<nat>, rhs: seq<nat>, l: nat, r: nat, k: nat,
      out: seq<nat>)
      returns (l': nat, r': nat)
    requires Ascending(lhs) && Ascending(rhs)
    requires IsMerging(merged, lhs, rhs, l, r) && l + r + k <= |lhs| && l + r + k <= |rhs|
    requires out == merged + MergedStep(lhs, rhs, l, r, k)
    ensures IsMerging(out, lhs, rhs, l', r')
    decreases k
  {
    if k == 0 {
      l', r' := l, r;
      assert out == merged;
    } else if lhs[l] < rhs[r] {
      LeftMoves(merged, lhs, rhs, l, r);
      AppendAssociative(merged, lhs[l], MergedStep(lhs, rhs, l + 1, r, k - 1));
      l', r' := MergedIsMerging(merged + [lhs[l]], lhs, rhs, l + 1, r, k - 1, out);
    } else {
      RightMoves(merged, lhs, rhs, l, r);
      AppendAssociative(merged, rhs[r], MergedStep(lhs, rhs, l, r + 1, k - 1));
      l', r' := MergedIsMerging(merged + [rhs[r]], lhs, rhs, l, r + 1, k - 1, out);
    }
  }

  lemma AppendAssociative(a: seq<nat>, x: nat, b: seq<nat>)
    ensures a + [x] + b == a + ([x] + b)
  {}

  /** On sorted inputs of length K, merge yields the K smallest of both. */
  lemma MergeIsSmallest(lhs: seq<nat>, rhs: seq<nat>) returns (rest: seq<nat>)
    requires Ascending(lhs) && Ascending(rhs) && |lhs| == |rhs|
    ensures IsSmallest(Merged(lhs, rhs), rest, multiset(lhs) + multiset(rhs))
  {
    assert lhs[0..] == lhs && rhs[0..] == rhs;
    assert IsMerging([], lhs, rhs, 0, 0);
    assert [] + MergedStep(lhs, rhs, 0, 0, |lhs|) == Merged(lhs, rhs);
    var l, r := MergedIsMerging([], lhs, rhs, 0, 0, |lhs|, Merged(lhs, rhs));
    rest := lhs[l..] + rhs[r..];
  }

  // ----- sorted lists are determined by their elements -----

  lemma LastIsGreatest(a: seq<nat>, b: seq<nat>)
    requires Ascending(a) && multiset(a) == multiset(b) && a != [] && |a| == |b|
    ensures b[|b| - 1] <= a[|a| - 1]
  {
    var p := PermutationMember(a, b, |b| - 1);
  }

  lemma WithoutLast(a: seq<nat>)
    requires a != []
    ensures multiset(a[..|a| - 1]) == multiset(a) - multiset{a[|a| - 1]}
    ensures a == a[..|a| - 1] + [a[|a| - 1]]
  {
    assert a == a[..|a| - 1] + [a[|a| - 1]];
  }

  lemma {:induction false} AscendingIsUnique(a: seq<nat>, b: seq<nat>)
    requires Ascending(a) && Ascending(b) && multiset(a) == multiset(b)
    ensures a == b
  {
    PermutationLength(a, b);
    if a != [] {
      LastIsGreatest(a, b);
      LastIsGreatest(b, a);
      WithoutLast(a);
      WithoutLast(b);
      AscendingIsUnique(a[..|a| - 1], b[..|b| - 1]);
    }
  }

  function Less(x: nat, y: nat): bool { x < y }

  lemma SortedByLess(s: seq<nat>)
    ensures Ascending(SortedBy(s, Less)) && multiset(SortedBy(s, Less)) == multiset(s)
  {
    assert IsStrictWeakOrder(Less);
    SortedByIsSorted(s, Less);
    SortedIsAscending(SortedBy(s, Less));
  }

  lemma SortedIsAscending(r: seq<nat>)
    requires Sorted(r, Less)
    ensures Ascending(r)
  {
    forall i, j | 0 <= i <= j < |r| ensures r[i] <= r[j] {
      if i < j { assert !Less(r[j], r[i]); }
    }
  }

  /** The K smallest elements: the first K of the sorted list. */
  function KSmallest(k: nat, all: seq<nat>): (top: seq<nat>) {
    if k <= |all| then SortedBy(all, Less)[..k] else SortedBy(all, Less)
  }

  /** A sorted list with nothing smaller left out is the list of the K smallest. */
  lemma SmallestIsKSmallest(top: seq<nat>, rest: seq<nat>, all: seq<nat>)
    requires IsSmallest(top, rest, multiset(all))
    ensures top == KSmallest(|top|, all)
  {
    var r := SortedBy(rest, Less);
    SortedByLess(rest);
    SortedByLess(all);
    assert NoneAbove(top, r) by {
      forall i, j | 0 <= i < |top| && 0 <= j < |r| ensures top[i] <= r[j] {
        var p := PermutationMember(rest, r, j);
      }
    }
    assert Ascending(top + r);
    assert multiset(top + r) == multiset(all);
    AscendingIsUnique(top + r, SortedBy(all, Less));
    PermutationLength(top + r, all);
    assert (top + r)[..|top|] == top;
  }

  lemma Rearrange(c: multiset<nat>, a: multiset<nat>, b: multiset<nat>, restA: multiset<nat>, restB: multiset<nat>,
      restC: multiset<nat>)
    requires c + restC == a + b
    ensures c + (restA + restB + restC) == (a + restA) + (b + restB)
  {
    assert c + (restA + restB + restC) == (c + restC) + restA + restB;
    assert (a + restA) + (b + restB) == (a + b) + restA + restB;
  }

  /** The K smallest of two lists are the K smallest of the K smallest of each. */
  lemma SmallestCompose(a: seq<nat>, restA: seq<nat>, allA: multiset<nat>, b: seq<nat>, restB: seq<nat>,
      allB: multiset<nat>, c: seq<nat>, restC: seq<nat>)
    requires IsSmallest(a, restA, allA) && IsSmallest(b, restB, allB)
    requires IsSmallest(c, restC, multiset(a) + multiset(b))
    requires |a| == |b| == |c|
    ensures IsSmallest(c, restA + restB + restC, allA + allB)
  {
    var rest := restA + restB + restC;
    assert multiset(rest) == multiset(restA) + multiset(restB) + multiset(restC);
    Rearrange(multiset(c), multiset(a), multiset(b), multiset(restA), multiset(restB), multiset(restC));
    if c != [] {
      KSmallestBelow(a, multiset(b), c, restC);
      KSmallestBelow(b, multiset(a), c, restC);
      forall i, j | 0 <= i < |c| && 0 <= j < |rest| ensures c[i] <= rest[j] {
        assert c[i] <= c[|c| - 1];
        if j < |restA| {
          assert rest[j] == restA[j] && a[|a| - 1] <= restA[j];
        } else if j < |restA| + |restB| {
          assert rest[j] == restB[j - |restA|] && b[|b| - 1] <= restB[j - |restA|];
        } else {
          assert rest[j] == restC[j - |restA| - |restB|];
        }
      }
    }
  }

  /** The greatest of the K smallest of a list of length K and more is at most the greatest of the list:
      otherwise all of the list, being smaller, would be among them and fill them. */
  lemma KSmallestBelow(a: seq<nat>, others: multiset<nat>, c: seq<nat>, restC: seq<nat>)
    requires IsSmallest(c, restC, multiset(a) + others) && |a| == |c| > 0 && Ascending(a)
    ensures c[|c| - 1] <= a[|a| - 1]
  {
    if c[|c| - 1] > a[|a| - 1] {
      forall x: nat ensures multiset(a)[x] <= multiset(c)[x] {
        SmallerIsTaken(a, others, c, restC, x);
      }
      assert multiset(a) <= multiset(c);
      SubMultisetOfSameSize(multiset(a), multiset(c));
      LastIsGreatest(a, c);
    }
  }

  lemma SmallerIsTaken(a: seq<nat>, others: multiset<nat>, c: seq<nat>, restC: seq<nat>, x: nat)
    requires IsSmallest(c, restC, multiset(a) + others) && |a| == |c| > 0 && Ascending(a)
    requires c[|c| - 1] > a[|a| - 1]
    ensures multiset(a)[x] <= multiset(c)[x]
  {
    if x in multiset(a) {
      var p :| 0 <= p < |a| && a[p] == x;
      assert x <= a[|a| - 1];
      forall q | 0 <= q < |restC| ensures restC[q] != x {
        assert c[|c| - 1] <= restC[q];
      }
      assert x !in restC;
      assert multiset(restC)[x] == 0;
      assert (multiset(c) + multiset(restC))[x] == multiset(a)[x] + others[x];
    }
  }

  lemma SubMultisetOfSameSize(a: multiset<nat>, b: multiset<nat>)
    requires a <= b && |a| == |b|
    ensures a == b
  {
    assert b == a + (b - a);
    assert |b| == |a| + |b - a|;
  }

  lemma SelectedOfNode<T>(t: Tree, values: seq<seq<T>>)
    requires t.Node? && LeavesBelow(t, |values|) && LeavesBelow(t.left, |values|) && LeavesBelow(t.right, |values|)
    ensures Selected(values, Leaves(t)) == Selected(values, Leaves(t.left)) + Selected(values, Leaves(t.right))
  {}

  /** Reducing sorted lists of length K over any tree yields the K smallest elements of all lists at its leaves. */
  lemma {:induction false} TopKOfTree(t: Tree, values: seq<seq<nat>>, k: nat) returns (rest: seq<nat>)
    requires LeavesBelow(t, |values|)
    requires forall r | 0 <= r < |values| :: |values[r]| == k && Ascending(values[r])
    ensures |Reduce(t, values, Merged)| == k
    ensures IsSmallest(Reduce(t, values, Merged), rest, multiset(Flatten(Selected(values, Leaves(t)))))
    decreases t
  {
    match t
    case Leaf(rank) =>
      rest := [];
      assert Leaves(t)[0] == rank;
      assert Selected(values, Leaves(t)) == [values[rank]];
      FlattenOfOne(values[rank]);
    case Node(left, right) =>
      LeavesOfNode(t, |values|);
      var restL := TopKOfTree(left, values, k);
      var restR := TopKOfTree(right, values, k);
      var a, b := Reduce(left, values, Merged), Reduce(right, values, Merged);
      var restC := MergeIsSmallest(a, b);
      var sl, sr := Selected(values, Leaves(left)), Selected(values, Leaves(right));
      SmallestCompose(a, restL, multiset(Flatten(sl)), b, restR, multiset(Flatten(sr)), Merged(a, b), restC);
      rest := restL + restR + restC;
      SelectedOfNode(t, values);
      FlattenConcat(sl, sr);
  }

  lemma {:induction false} TakeOut<T>(s: seq<seq<T>>, p: nat)
    requires p < |s|
    ensures multiset(Flatten(s)) == multiset(Flatten(s[..p] + s[p + 1..])) + multiset(s[p])
  {
    assert s == s[..p] + ([s[p]] + s[p + 1..]);
    FlattenConcat(s[..p], [s[p]] + s[p + 1..]);
    FlattenConcat([s[p]], s[p + 1..]);
    FlattenConcat(s[..p], s[p + 1..]);
    FlattenOfOne(s[p]);
  }

  /** The lists of all ranks in another order hold the same elements. */
  lemma {:induction false} SelectedIsPermutation<T>(values: seq<seq<T>>, order: seq<nat>)
    requires IsPermutation(order) && |order| == |values|
    ensures multiset(Flatten(Selected(values, order))) == multiset(Flatten(values))
  {
    if values != [] {
      var last := |values| - 1;
      var p := PermutationIsOnto(order, last);
      RemovedIsPermutation(order, p);
      SelectedIsPermutation(values[..last], order[..p] + order[p + 1..]);
      SelectedWithout(values, order, p);
      assert Flatten(values) == Flatten(values[..last]) + values[last];
    }
  }

  lemma SelectedWithout<T>(values: seq<seq<T>>, order: seq<nat>, p: nat)
    requires IsPermutation(order) && |order| == |values| && p < |order| && order[p] == |order| - 1
    requires IsPermutation(order[..p] + order[p + 1..])
    ensures multiset(Flatten(Selected(values, order)))
         == multiset(Flatten(Selected(values[..|values| - 1], order[..p] + order[p + 1..])))
            + multiset(values[|values| - 1])
  {
    var all, rest := Selected(values, order), Selected(values[..|values| - 1], order[..p] + order[p + 1..]);
    assert rest == all[..p] + all[p + 1..];
    TakeOut(all, p);
  }

  lemma RemovedIsPermutation(order: seq<nat>, p: nat)
    requires IsPermutation(order) && p < |order| && order[p] == |order| - 1
    ensures IsPermutation(order[..p] + order[p + 1..])
  {
    var r := order[..p] + order[p + 1..];
    forall i | 0 <= i < |r| ensures r[i] < |r| {
      var j := if i < p then i else i + 1;
      assert r[i] == order[j];
      assert order[j] != order[p] by {
        if j < p { assert order[j] != order[p]; } else { assert order[p] != order[j]; }
      }
    }
  }

  /** The reduction with merge: for every number of ranks, every bracketing and every order of the ranks,
      the root gets the K smallest elements of all lists together. */
  lemma {:induction false} TopKReduction(t: Tree, values: seq<seq<nat>>, k: nat, all: seq<nat>)
    requires IsReductionTree(t, |values|)
    requires forall r | 0 <= r < |values| :: |values[r]| == k && Ascending(values[r])
    requires multiset(all) == multiset(Flatten(values))
    ensures Reduce(t, values, Merged) == KSmallest(k, all)
  {
    var rest := TopKOfTree(t, values, k);
    SelectedIsPermutation(values, Leaves(t));
    SmallestIsKSmallest(Reduce(t, values, Merged), rest, all);
  }

  /** On sorted lists of the same length, merge is commutative and associative. */
  lemma MergeLaws(a: seq<nat>, b: seq<nat>, c: seq<nat>)
    requires Ascending(a) && Ascending(b) && Ascending(c) && |a| == |b| == |c|
    ensures Merged(a, b) == Merged(b, a)
    ensures Merged(Merged(a, b), c) == Merged(a, Merged(b, c))
  {
    var ab, ba := Node(Leaf(0), Leaf(1)), Node(Leaf(1), Leaf(0));
    assert Leaves(ab) == [0, 1] && Leaves(ba) == [1, 0];
    TreesAgree(ab, ba, [a, b], |a|);
    assert Reduce(ab, [a, b], Merged) == Merged(a, b) && Reduce(ba, [a, b], Merged) == Merged(b, a);
    var left, right := Node(ab, Leaf(2)), Node(Leaf(0), Node(Leaf(1), Leaf(2)));
    assert Leaves(left) == [0, 1, 2];
    assert Leaves(right.right) == [1, 2] && Leaves(right) == [0] + [1, 2];
    TreesAgree(left, right, [a, b, c], |a|);
    assert Reduce(ab, [a, b, c], Merged) == Merged(a, b);
    assert Reduce(right.right, [a, b, c], Merged) == Merged(b, c);
  }

  lemma TreesAgree(t: Tree, u: Tree, values: seq<seq<nat>>, k: nat)
    requires IsReductionTree(t, |values|) && IsReductionTree(u, |values|)
    requires forall r | 0 <= r < |values| :: |values[r]| == k && Ascending(values[r])
    ensures Reduce(t, values, Merged) == Reduce(u, values, Merged)
  {
    TopKReduction(t, values, k, Flatten(values));
    TopKReduction(u, values, k, Flatten(values));
  }

  /** The registered MPI operator: merges every list of the first buffer into the second one, in place. */
  method MergeInto(invec: seq<array<nat>>, inoutvec: array<seq<nat>>)
    requires |invec| == inoutvec.Length
    requires forall i | 0 <= i < |invec| :: invec[i].Length == |inoutvec[i]|
    modifies inoutvec
    ensures forall i | 0 <= i < |invec| :: inoutvec[i] == Merged(invec[i][..], old(inoutvec[i]))
  {
    for i := 0 to |invec|
      invariant forall j | 0 <= j < i :: inoutvec[j] == Merged(invec[j][..], old(inoutvec[j]))
      invariant forall j | i <= j < |invec| :: inoutvec[j] == old(inoutvec[j])
    {
      var right := inoutvec[i];
      var rhs := new nat[|right|](j requires 0 <= j < |right| => right[j]);
      assert rhs[..] == inoutvec[i];
      var merged := Merge(invec[i], rhs);
      inoutvec[i] := merged[..];
    }
  }

  // ----- are all values the same? -----

  /** A value, and whether only equal ones have been seen. */
  datatype ValueEqual<T> = ValueEqual(value: T, equal: bool)

  function Combine<T(==)>(a: ValueEqual<T>, b: ValueEqual<T>): ValueEqual<T> {
    if a.equal && b.equal && a.value == b.value then ValueEqual(a.value, true) else ValueEqual(a.value, false)
  }

  /** What every rank starts with. */
  function Started<T>(values: seq<T>): (s: seq<ValueEqual<T>>)
    ensures |s| == |values|
  {
    seq(|values|, r requires 0 <= r < |values| => ValueEqual(values[r], true))
  }

  function ReduceEqual<T(==)>(t: Tree, values: seq<T>): ValueEqual<T>
    requires LeavesBelow(t, |values|)
  {
    Reduce(t, Started(values), (a, b) => Combine(a, b))
  }

  lemma ReduceEqualOfNode<T>(t: Tree, values: seq<T>)
    requires t.Node? && LeavesBelow(t, |values|)
    ensures LeavesBelow(t.left, |values|) && LeavesBelow(t.right, |values|)
    ensures ReduceEqual(t, values) == Combine(ReduceEqual(t.left, values), ReduceEqual(t.right, values))
  {
    LeavesOfNode(t, |values|);
  }

  /** The value of a tree is the one of its first leaf; the flag is true exactly if all leaves agree with it. */
  lemma {:induction false} EqualOfTree<T>(t: Tree, values: seq<T>)
    requires LeavesBelow(t, |values|)
    ensures ReduceEqual(t, values).value == values[Leaves(t)[0]]
    ensures ReduceEqual(t, values).equal
       <==> forall p | 0 <= p < |Leaves(t)| :: values[Leaves(t)[p]] == values[Leaves(t)[0]]
    decreases t
  {
    match t
    case Leaf(rank) =>
      assert Leaves(t)[0] == rank;
    case Node(left, right) =>
      ReduceEqualOfNode(t, values);
      EqualOfTree(left, values);
      EqualOfTree(right, values);
      var n := |Leaves(left)|;
      forall p | 0 <= p < n ensures Leaves(t)[p] == Leaves(left)[p] {}
      forall p | 0 <= p < |Leaves(right)| ensures Leaves(t)[n + p] == Leaves(right)[p] {}
      if ReduceEqual(t, values).equal {
        forall p | 0 <= p < |Leaves(t)| ensures values[Leaves(t)[p]] == values[Leaves(t)[0]] {
          if p >= n { assert Leaves(t)[p] == Leaves(right)[p - n]; }
        }
      } else if ReduceEqual(left, values).equal && ReduceEqual(right, values).equal {
        assert values[Leaves(t)[n]] != values[Leaves(t)[0]];
      } else if ReduceEqual(left, values).equal {
        var p :| 0 <= p < |Leaves(right)| && values[Leaves(right)[p]] != values[Leaves(right)[0]];
        assert values[Leaves(t)[n + p]] != values[Leaves(t)[n]];
      }
  }

  /** is_same_on_all_ranks: for every bracketing and every order of the ranks, the flag is true exactly if
      all ranks hold the same value. So all ranks get the same answer, although the value the operator
      keeps depends on the order. */
  lemma SameOnAllRanks<T>(t: Tree, values: seq<T>)
    requires IsReductionTree(t, |values|)
    ensures ReduceEqual(t, values).equal <==> forall r, s | 0 <= r < s < |values| :: values[r] == values[s]
  {
    EqualOfTree(t, values);
    if ReduceEqual(t, values).equal {
      forall r, s | 0 <= r < s < |values| ensures values[r] == values[s] {
        var p := PermutationIsOnto(Leaves(t), r);
        var q := PermutationIsOnto(Leaves(t), s);
      }
    } else {
      var p :| 0 <= p < |Leaves(t)| && values[Leaves(t)[p]] != values[Leaves(t)[0]];
      var x, y := Leaves(t)[p], Leaves(t)[0];
      assert x < y || y < x;
    }
  }
}
