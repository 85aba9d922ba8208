/** Prefix doubling as a function on the keys of all text positions, without distribution. The
    distributed loop of module PrefixDoubling is proved to compute exactly these keys. */
module Doubling {
  import opened Sequences
  import opened Bits
  import opened Windows

  /** The pair of ranks (rank1, rank2) the algorithm sorts by. */
  type Key = (nat, nat)

  predicate KeyLess(a: Key, b: Key) {
    a.0 < b.0 || (a.0 == b.0 && a.1 < b.1)
  }

  /** The number of positions below n with a key smaller than k. */
  ghost function CountSmaller(ks: seq<Key>, k: Key, n: nat): nat
    requires n <= |ks|
  {
    if n == 0 then 0 else CountSmaller(ks, k, n - 1) + if KeyLess(ks[n - 1], k) then 1 else 0
  }

  /** The rank of position x: the number of positions with a smaller key. */
  ghost function RankOf(ks: seq<Key>, x: nat): nat
    requires x < |ks|
  {
    CountSmaller(ks, ks[x], |ks|)
  }

  /** The rank of the position d further on; 0 stands for "past the end" as well. */
  ghost function SecondRank(ks: seq<Key>, x: nat, d: nat): nat {
    if x + d < |ks| then RankOf(ks, x + d) else 0
  }

  /** The keys of the positions below n after one doubling round with shift d. */
  ghost function DoubledBelow(ks: seq<Key>, d: nat, n: nat): (r: seq<Key>)
    requires n <= |ks|
    ensures |r| == n
  {
    if n == 0 then [] else DoubledBelow(ks, d, n - 1) + [(RankOf(ks, n - 1), SecondRank(ks, n - 1, d))]
  }

  /** One doubling round with shift d. */
  ghost function Doubled(ks: seq<Key>, d: nat): (r: seq<Key>)
    ensures |r| == |ks|
  {
    DoubledBelow(ks, d, |ks|)
  }

  /** The keys after the given number of rounds, the first of which shifts by Pow2(start). */
  ghost function KeysAfter(ks: seq<Key>, start: nat, rounds: nat): (r: seq<Key>)
    ensures |r| == |ks|
  {
    if rounds == 0 then ks else Doubled(KeysAfter(ks, start, rounds - 1), Pow2(start + rounds - 1))
  }

  /** Keys compare as the windows of length h do. */
  ghost predicate OrdersWindows(t: Text, ks: seq<Key>, h: nat) {
    && |ks| == |t|
    && forall x: nat, y: nat | x < |t| && y < |t| :: KeyLess(ks[x], ks[y]) == WindowLess(t, x, y, h)
  }

  /** Keys are equal exactly for equal windows of length h. */
  ghost predicate SeparatesWindows(t: Text, ks: seq<Key>, h: nat) {
    && |ks| == |t|
    && forall x: nat, y: nat | x < |t| && y < |t| :: (ks[x] == ks[y]) == WindowEqual(t, x, y, h)
  }

  /** Different keys are in the order of the suffixes, and equal keys hide no difference within the
      first d symbols that both suffixes have. */
  ghost predicate Sound(t: Text, ks: seq<Key>, d: nat) {
    && |ks| == |t|
    && (forall x: nat, y: nat | x < |t| && y < |t| && KeyLess(ks[x], ks[y]) :: SuffixLess(t, x, y))
    && (forall x: nat, y: nat | x < |t| && y < |t| && ks[x] == ks[y] :: Compatible(t, x, y, d))
  }

  // ----- ranks -----

  lemma {:induction false} CountSmallerMonotone(ks: seq<Key>, k: Key, k': Key, n: nat)
    requires n <= |ks| && (k == k' || KeyLess(k, k'))
    ensures CountSmaller(ks, k, n) <= CountSmaller(ks, k', n)
    ensures (exists x :: 0 <= x < n && ks[x] == k) && k != k' ==> CountSmaller(ks, k, n) < CountSmaller(ks, k', n)
  {
    if n > 0 {
      CountSmallerMonotone(ks, k, k', n - 1);
    }
  }

  /** Ranks compare as the keys they stand for. */
  lemma RankOrder(ks: seq<Key>, x: nat, y: nat)
    requires x < |ks| && y < |ks|
    ensures RankOf(ks, x) < RankOf(ks, y) <==> KeyLess(ks[x], ks[y])
    ensures RankOf(ks, x) == RankOf(ks, y) <==> ks[x] == ks[y]
  {
    if KeyLess(ks[x], ks[y]) {
      CountSmallerMonotone(ks, ks[x], ks[y], |ks|);
    } else if KeyLess(ks[y], ks[x]) {
      CountSmallerMonotone(ks, ks[y], ks[x], |ks|);
    }
  }

  lemma {:induction false} CountSmallerBound(ks: seq<Key>, k: Key, n: nat)
    requires n <= |ks|
    ensures CountSmaller(ks, k, n) <= n
    ensures (exists x :: 0 <= x < n && ks[x] == k) ==> CountSmaller(ks, k, n) < n
  {
    if n > 0 { CountSmallerBound(ks, k, n - 1); }
  }

  /** Ranks fit into an index: they are smaller than the length of the text. */
  lemma RankBelowSize(ks: seq<Key>, x: nat)
    requires x < |ks|
    ensures RankOf(ks, x) < |ks|
  {
    CountSmallerBound(ks, ks[x], |ks|);
  }

  lemma {:induction false} CountSmallerIsCardinality(ks: seq<Key>, k: Key, n: nat)
    requires n <= |ks|
    ensures CountSmaller(ks, k, n) == |set y: nat | y < n && KeyLess(ks[y], k)|
  {
    var s := set y: nat | y < n && KeyLess(ks[y], k);
    if n == 0 {
      assert s == {};
    } else {
      CountSmallerIsCardinality(ks, k, n - 1);
      var s' := set y: nat | y < n - 1 && KeyLess(ks[y], k);
      assert s == if KeyLess(ks[n - 1], k) then s' + {n - 1} else s';
    }
  }

  /** If f many positions, listed first in order, have a smaller key and all others do not, the rank is f. */
  lemma RankFromOrder(ks: seq<Key>, order: seq<nat>, f: nat, x: nat)
    requires IsPermutation(order) && |order| == |ks| && f <= |order| && x < |ks|
    requires forall p | 0 <= p < |order| :: KeyLess(ks[order[p]], ks[x]) <==> p < f
    ensures RankOf(ks, x) == f
  {
    var s := set y: nat | y < |ks| && KeyLess(ks[y], ks[x]);
    CountSmallerIsCardinality(ks, ks[x], |ks|);
    forall y | y in s ensures y in Elements(order[..f]) {
      var p := PermutationIsOnto(order, y);
      assert order[..f][p] == y;
    }
    assert s == Elements(order[..f]);
    DistinctCardinality(order[..f]);
  }

  lemma {:induction false} DoubledBelowAt(ks: seq<Key>, d: nat, n: nat, x: nat)
    requires x < n <= |ks|
    ensures DoubledBelow(ks, d, n)[x] == (RankOf(ks, x), SecondRank(ks, x, d))
  {
    if x < n - 1 { DoubledBelowAt(ks, d, n - 1, x); }
  }

  /** A round pairs the rank of every position with the rank of the position d further on. */
  lemma DoubledAt(ks: seq<Key>, d: nat, x: nat)
    requires x < |ks|
    ensures Doubled(ks, d)[x] == (RankOf(ks, x), SecondRank(ks, x, d))
  {
    DoubledBelowAt(ks, d, |ks|, x);
  }

  /** Keys after a round compare by the old key first, then by the key d further on. */
  lemma DoubledOrder(ks: seq<Key>, d: nat, x: nat, y: nat)
    requires x < |ks| && y < |ks|
    ensures var r := Doubled(ks, d);
            KeyLess(r[x], r[y]) == (KeyLess(ks[x], ks[y])
              || (ks[x] == ks[y] && SecondRank(ks, x, d) < SecondRank(ks, y, d)))
    ensures var r := Doubled(ks, d);
            (r[x] == r[y]) == (ks[x] == ks[y] && SecondRank(ks, x, d) == SecondRank(ks, y, d))
  {
    RankOrder(ks, x, y);
    DoubledAt(ks, d, x);
    DoubledAt(ks, d, y);
  }

  // ----- one round -----

  /** If h > d, a tie between windows of length h means that both positions have a successor at distance d. */
  lemma TiedWindowsHaveSuccessors(t: Text, x: nat, y: nat, h: nat, d: nat)
    requires x < |t| && y < |t| && x != y && d < h && WindowEqual(t, x, y, h)
    ensures x + d < |t| && y + d < |t|
  {
    if x + d >= |t| || y + d >= |t| {
      WindowPastEnd(t, x, y, h);
    }
  }

  /** A round with shift d < h turns the order of windows of length h into the order for length h + d. */
  lemma RoundOrders(t: Text, ks: seq<Key>, h: nat, d: nat)
    requires OrdersWindows(t, ks, h) && SeparatesWindows(t, ks, h) && d < h
    ensures OrdersWindows(t, Doubled(ks, d), h + d)
  {
    forall x: nat, y: nat | x < |t| && y < |t|
      ensures KeyLess(Doubled(ks, d)[x], Doubled(ks, d)[y]) == WindowLess(t, x, y, h + d)
    {
      RoundOrdersAt(t, ks, h, d, x, y);
    }
  }

  lemma RoundOrdersAt(t: Text, ks: seq<Key>, h: nat, d: nat, x: nat, y: nat)
    requires OrdersWindows(t, ks, h) && SeparatesWindows(t, ks, h) && d < h
    requires x < |t| && y < |t|
    ensures KeyLess(Doubled(ks, d)[x], Doubled(ks, d)[y]) == WindowLess(t, x, y, h + d)
  {
    DoubledOrder(ks, d, x, y);
    WindowOverlap(t, x, y, h, d);
    if x == y {
      WindowTrichotomy(t, x, y, h + d);
    } else if ks[x] == ks[y] {
      TiedWindowsHaveSuccessors(t, x, y, h, d);
      RankOrder(ks, x + d, y + d);
    }
  }

  /** For telling windows apart, that equal keys mean equal windows is all a round needs. */
  lemma RoundSeparates(t: Text, ks: seq<Key>, h: nat, d: nat)
    requires SeparatesWindows(t, ks, h) && d < h
    ensures SeparatesWindows(t, Doubled(ks, d), h + d)
  {
    var r := Doubled(ks, d);
    forall x: nat, y: nat | x < |t| && y < |t| ensures (r[x] == r[y]) == WindowEqual(t, x, y, h + d) {
      DoubledOrder(ks, d, x, y);
      WindowOverlap(t, x, y, h, d);
      if ks[x] == ks[y] && x != y {
        TiedWindowsHaveSuccessors(t, x, y, h, d);
        RankOrder(ks, x + d, y + d);
      } else if x == y {
        WindowTrichotomy(t, x, y, h + d);
      }
    }
  }

  /** A round with shift d keeps keys sound even if windows of length d were all it started from. */
  lemma RoundSound(t: Text, ks: seq<Key>, d: nat)
    requires Sound(t, ks, d)
    ensures Sound(t, Doubled(ks, d), 2 * d)
  {
    var r := Doubled(ks, d);
    forall x: nat, y: nat | x < |t| && y < |t| && KeyLess(r[x], r[y]) ensures SuffixLess(t, x, y) {
      DoubledOrder(ks, d, x, y);
      if ks[x] == ks[y] {
        assert y + d < |t|;
        if x + d < |t| {
          RankOrder(ks, x + d, y + d);
          SuffixLessAfter(t, x, y, d);
        } else {
          ProperPrefixIsLess(t, x, y, d);
        }
      }
    }
    forall x: nat, y: nat | x < |t| && y < |t| && r[x] == r[y] ensures Compatible(t, x, y, 2 * d) {
      DoubledOrder(ks, d, x, y);
      CompatibleSplit(t, x, y, d, d);
      assert d + d == 2 * d;
      if x + d < |t| && y + d < |t| {
        RankOrder(ks, x + d, y + d);
      }
    }
  }

  lemma ProperPrefixIsLess(t: Text, x: nat, y: nat, d: nat)
    requires x < |t| && y < |t| && Compatible(t, x, y, d)
    requires x + d >= |t| && y + d < |t|
    ensures SuffixLess(t, x, y)
  {
    var m := |t| - x;
    CompatibleSplit(t, x, y, m, d - m);
    assert m + (d - m) == d;
    SuffixLessAfter(t, x, y, m);
  }

  // ----- all rounds -----

  /** The length of the windows that h + shifts amount to after the given number of rounds. */
  function WindowAfter(h: nat, start: nat, rounds: nat): (r: nat)
    requires h >= Pow2(start)
    ensures r - Pow2(start + rounds) == h - Pow2(start)
  {
    if rounds == 0 then h else WindowAfter(h, start, rounds - 1) + Pow2(start + rounds - 1)
  }

  lemma {:induction false} KeysAfterSeparate(t: Text, ks: seq<Key>, h: nat, start: nat, rounds: nat)
    requires SeparatesWindows(t, ks, h) && h > Pow2(start)
    ensures SeparatesWindows(t, KeysAfter(ks, start, rounds), WindowAfter(h, start, rounds))
  {
    if rounds > 0 {
      KeysAfterSeparate(t, ks, h, start, rounds - 1);
      RoundSeparates(t, KeysAfter(ks, start, rounds - 1), WindowAfter(h, start, rounds - 1), Pow2(start + rounds - 1));
    }
  }

  /** After every round, ranks count the positions with a smaller window, as long as h > Pow2(start). */
  lemma {:induction false} KeysAfterOrder(t: Text, ks: seq<Key>, h: nat, start: nat, rounds: nat)
    requires OrdersWindows(t, ks, h) && SeparatesWindows(t, ks, h) && h > Pow2(start)
    ensures OrdersWindows(t, KeysAfter(ks, start, rounds), WindowAfter(h, start, rounds))
  {
    if rounds > 0 {
      KeysAfterOrder(t, ks, h, start, rounds - 1);
      KeysAfterSeparate(t, ks, h, start, rounds - 1);
      RoundOrders(t, KeysAfter(ks, start, rounds - 1), WindowAfter(h, start, rounds - 1), Pow2(start + rounds - 1));
    }
  }

  lemma {:induction false} KeysAfterSound(t: Text, ks: seq<Key>, start: nat, rounds: nat)
    requires Sound(t, ks, Pow2(start))
    ensures Sound(t, KeysAfter(ks, start, rounds), Pow2(start + rounds))
  {
    if rounds > 0 {
      KeysAfterSound(t, ks, start, rounds - 1);
      RoundSound(t, KeysAfter(ks, start, rounds - 1), Pow2(start + rounds - 1));
    }
  }

  /** Rounds only refine: positions once told apart keep their order. */
  lemma {:induction false} KeysAfterRefine(ks: seq<Key>, start: nat, rounds: nat, x: nat, y: nat)
    requires x < |ks| && y < |ks| && KeyLess(ks[x], ks[y])
    ensures KeyLess(KeysAfter(ks, start, rounds)[x], KeysAfter(ks, start, rounds)[y])
  {
    if rounds > 0 {
      KeysAfterRefine(ks, start, rounds - 1, x, y);
      DoubledOrder(KeysAfter(ks, start, rounds - 1), Pow2(start + rounds - 1), x, y);
    }
  }

  /** Keys that order windows of length at least d are sound for d. */
  lemma OrderIsSound(t: Text, ks: seq<Key>, h: nat, d: nat)
    requires OrdersWindows(t, ks, h) && SeparatesWindows(t, ks, h) && d <= h
    ensures Sound(t, ks, d)
  {
    forall x: nat, y: nat | x < |t| && y < |t| && KeyLess(ks[x], ks[y]) ensures SuffixLess(t, x, y) {
      WindowLessIsSuffixLess(t, x, y, h);
    }
    forall x: nat, y: nat | x < |t| && y < |t| && ks[x] == ks[y] ensures Compatible(t, x, y, d) {
      WindowEqualIsCompatible(t, x, y, h);
      CompatibleSplit(t, x, y, d, h - d);
      assert d + (h - d) == h;
    }
  }

  /** sa lists the positions in increasing order of their keys. */
  ghost predicate SortedByKey(sa: seq<nat>, ks: seq<Key>) {
    && |sa| == |ks|
    && IsPermutation(sa)
    && forall p, q | 0 <= p < q < |sa| :: KeyLess(ks[sa[p]], ks[sa[q]])
  }

  /** Safety: whenever the keys are all different, sorting by them yields the suffix array. */
  lemma SoundKeysGiveSuffixArray(t: Text, ks: seq<Key>, start: nat, rounds: nat, sa: seq<nat>)
    requires Sound(t, ks, Pow2(start))
    requires SortedByKey(sa, KeysAfter(ks, start, rounds))
    ensures IsSuffixArray(t, sa)
  {
    KeysAfterSound(t, ks, start, rounds);
  }

  lemma SortedByKeyBefore(sa: seq<nat>, ks: seq<Key>, p: nat, q: nat)
    requires SortedByKey(sa, ks) && p < |sa| && q < |sa| && KeyLess(ks[sa[p]], ks[sa[q]])
    ensures p < q
  {
    if q < p {
      SortedByKeyAt(sa, ks, q, p);
    }
  }

  lemma SortedByKeyAt(sa: seq<nat>, ks: seq<Key>, p: nat, q: nat)
    requires SortedByKey(sa, ks) && p < q < |sa|
    ensures KeyLess(ks[sa[p]], ks[sa[q]])
  {}

  lemma SortedKeysAreDistinct(sa: seq<nat>, ks: seq<Key>)
    requires SortedByKey(sa, ks)
    ensures Distinct(ks)
  {
    forall x, y | 0 <= x < y < |ks| ensures ks[x] != ks[y] {
      var p := PermutationIsOnto(sa, x);
      var q := PermutationIsOnto(sa, y);
      if p < q {
        SortedByKeyAt(sa, ks, p, q);
      } else {
        SortedByKeyAt(sa, ks, q, p);
      }
    }
  }

  /** The keys of positions x and y contradict the order of the suffixes. */
  ghost predicate WrongOrder(t: Text, ks: seq<Key>, x: nat, y: nat) {
    |ks| == |t| && x < |t| && y < |t| && KeyLess(ks[x], ks[y]) && SuffixLess(t, y, x)
  }

  /** Two first keys in the wrong order are never put right again. */
  lemma WrongOrderStays(t: Text, ks: seq<Key>, start: nat, rounds: nat, x: nat, y: nat, sa: seq<nat>)
    requires WrongOrder(t, ks, x, y)
    requires SortedByKey(sa, KeysAfter(ks, start, rounds))
    ensures !IsSuffixArray(t, sa)
  {
    KeysAfterRefine(ks, start, rounds, x, y);
    var p := PermutationIsOnto(sa, x);
    var q := PermutationIsOnto(sa, y);
    SortedByKeyBefore(sa, KeysAfter(ks, start, rounds), p, q);
    LexLessTrichotomy(t[x..], t[y..]);
    assert !SuffixLess(t, sa[p], sa[q]);
  }

  /** Positions that differ from the start go on to differ. */
  lemma DistinctStays(ks: seq<Key>, start: nat, rounds: nat)
    requires Distinct(ks)
    ensures Distinct(KeysAfter(ks, start, rounds))
  {
    var r := KeysAfter(ks, start, rounds);
    forall x, y | 0 <= x < y < |r| ensures r[x] != r[y] {
      if KeyLess(ks[x], ks[y]) {
        KeysAfterRefine(ks, start, rounds, x, y);
      } else {
        KeysAfterRefine(ks, start, rounds, y, x);
      }
    }
  }

  // ----- termination -----

  /** An upper bound on the number of rounds. */
  function RoundBound(n: nat, start: nat): nat
    requires n >= 1
  {
    if CeilLog2(n) > start then CeilLog2(n) - start else 0
  }

  /** It is the least number of rounds after which the shift is no shorter than the text. */
  lemma RoundBoundIsLeast(n: nat, start: nat, rounds: nat)
    requires n >= 1
    ensures n <= Pow2(start + rounds) <==> rounds >= RoundBound(n, start)
  {
    var c := CeilLog2(n);
    if start + rounds >= c {
      Pow2Monotone(c, start + rounds);
    } else {
      Pow2Monotone(start + rounds, c - 1);
    }
  }

  /** Different positions with equal keys are both followed by h symbols within the text. This is all
      that termination needs: whether keys stand for windows of the text at all does not matter. */
  ghost predicate TiesInside(ks: seq<Key>, h: nat) {
    forall x: nat, y: nat | x < |ks| && y < |ks| && x != y && ks[x] == ks[y] :: x + h <= |ks| && y + h <= |ks|
  }

  /** Keys that stand for windows of length h have this property. */
  lemma SeparatedTiesAreInside(t: Text, ks: seq<Key>, h: nat)
    requires SeparatesWindows(t, ks, h)
    ensures TiesInside(ks, h)
  {
    forall x: nat, y: nat | x < |ks| && y < |ks| && x != y && ks[x] == ks[y] ensures x + h <= |ks| && y + h <= |ks| {
      if |t| < x + h || |t| < y + h {
        WindowPastEnd(t, x, y, h);
      }
    }
  }

  lemma RoundKeepsTiesInside(ks: seq<Key>, h: nat, d: nat)
    requires TiesInside(ks, h) && d < h
    ensures TiesInside(Doubled(ks, d), h + d)
  {
    var r := Doubled(ks, d);
    forall x: nat, y: nat | x < |r| && y < |r| && x != y && r[x] == r[y]
      ensures x + (h + d) <= |r| && y + (h + d) <= |r|
    {
      DoubledOrder(ks, d, x, y);
      RankOrder(ks, x + d, y + d);
    }
  }

  lemma {:induction false} KeysAfterTiesInside(ks: seq<Key>, h: nat, start: nat, rounds: nat)
    requires TiesInside(ks, h) && h > Pow2(start)
    ensures TiesInside(KeysAfter(ks, start, rounds), WindowAfter(h, start, rounds))
  {
    if rounds > 0 {
      KeysAfterTiesInside(ks, h, start, rounds - 1);
      RoundKeepsTiesInside(KeysAfter(ks, start, rounds - 1), WindowAfter(h, start, rounds - 1),
        Pow2(start + rounds - 1));
    }
  }

  /** As long as two keys are equal, the next shift is shorter than the text. */
  lemma UnfinishedMeansShortShift(ks: seq<Key>, h: nat, start: nat, rounds: nat)
    requires TiesInside(ks, h) && h > Pow2(start)
    requires !Distinct(KeysAfter(ks, start, rounds))
    ensures Pow2(start + rounds) < |ks|
    ensures |ks| >= 1 && rounds < RoundBound(|ks|, start)
  {
    KeysAfterTiesInside(ks, h, start, rounds);
    var r := KeysAfter(ks, start, rounds);
    var x, y :| 0 <= x < y < |r| && r[x] == r[y];
    assert x + WindowAfter(h, start, rounds) <= |r|;
    if CeilLog2(|ks|) <= start + rounds {
      Pow2Monotone(CeilLog2(|ks|), start + rounds);
    }
  }

  /** Liveness: from ties that lie further inside than the first shift, all keys are different after
      RoundBound rounds. */
  lemma KeysBecomeDistinct(ks: seq<Key>, h: nat, start: nat)
    requires TiesInside(ks, h) && h > Pow2(start) && |ks| >= 1
    ensures Distinct(KeysAfter(ks, start, RoundBound(|ks|, start)))
  {
    if !Distinct(KeysAfter(ks, start, RoundBound(|ks|, start))) {
      UnfinishedMeansShortShift(ks, h, start, RoundBound(|ks|, start));
    }
  }

  /** A shift past the end of the text separates nothing any more. */
  lemma {:induction false} LongShiftsAreStuck(ks: seq<Key>, start: nat, rounds: nat, x: nat, y: nat)
    requires x < |ks| && y < |ks| && ks[x] == ks[y]
    requires |ks| <= x + Pow2(start) && |ks| <= y + Pow2(start)
    ensures KeysAfter(ks, start, rounds)[x] == KeysAfter(ks, start, rounds)[y]
  {
    if rounds > 0 {
      LongShiftsAreStuck(ks, start, rounds - 1, x, y);
      Pow2Monotone(start, start + rounds - 1);
      DoubledOrder(KeysAfter(ks, start, rounds - 1), Pow2(start + rounds - 1), x, y);
    }
  }

  lemma {:induction false} KeysAfterSplit(ks: seq<Key>, start: nat, a: nat, b: nat)
    ensures KeysAfter(KeysAfter(ks, start, a), start + a, b) == KeysAfter(ks, start, a + b)
  {
    if b > 0 {
      KeysAfterSplit(ks, start, a, b - 1);
      assert start + a + b - 1 == start + (a + b) - 1 && a + b - 1 == a + (b - 1);
    }
  }

  // ----- the boundary case h == Pow2(start) -----

  /** The text that repeats one symbol n times. */
  function Uniform(n: nat): (t: Text)
    ensures |t| == n && forall i | 0 <= i < n :: t[i] == 1
  {
    seq(n, _ => 1)
  }

  function Reach(n: nat, x: nat, h: nat): nat
    requires x <= n
  {
    if h < n - x then h else n - x
  }

  /** Windows of a uniform text compare by how many symbols they hold. */
  lemma {:induction false} UniformWindows(n: nat, x: nat, y: nat, h: nat)
    requires x <= n && y <= n
    ensures WindowLess(Uniform(n), x, y, h) == (Reach(n, x, h) < Reach(n, y, h))
    ensures WindowEqual(Uniform(n), x, y, h) == (Reach(n, x, h) == Reach(n, y, h))
    decreases h
  {
    if h > 0 {
      if x < n && y < n {
        UniformWindows(n, x + 1, y + 1, h - 1);
      } else if x == n && y == n {
        PastEndWindowsEqual(Uniform(n), x, y, h);
        WindowTrichotomy(Uniform(n), x, y, h);
      }
    }
  }

  lemma {:induction false} PastEndWindowsEqual(t: Text, x: nat, y: nat, h: nat)
    requires x >= |t| && y >= |t|
    ensures WindowEqual(t, x, y, h)
    decreases h
  {
    if h > 0 { PastEndWindowsEqual(t, x + 1, y + 1, h - 1); }
  }

  /** Keys for the windows of a uniform text. */
  function UniformKeys(n: nat, h: nat): (ks: seq<Key>)
    ensures |ks| == n
  {
    seq(n, i requires 0 <= i < n => (Reach(n, i, h), 0))
  }

  lemma UniformKeysAreExact(n: nat, h: nat)
    ensures OrdersWindows(Uniform(n), UniformKeys(n, h), h)
    ensures SeparatesWindows(Uniform(n), UniformKeys(n, h), h)
  {
    forall x: nat, y: nat | x < n && y < n
      ensures KeyLess(UniformKeys(n, h)[x], UniformKeys(n, h)[y]) == WindowLess(Uniform(n), x, y, h)
      ensures (UniformKeys(n, h)[x] == UniformKeys(n, h)[y]) == WindowEqual(Uniform(n), x, y, h)
    {
      UniformWindows(n, x, y, h);
    }
  }

  lemma LastWindowIsSmallest(ks: seq<Key>, d: nat)
    requires d >= 1 && OrdersWindows(Uniform(d + 2), ks, d)
    ensures RankOf(ks, d + 1) == 0
  {
    forall y: nat | y < d + 2 ensures !KeyLess(ks[y], ks[d + 1]) {
      UniformWindows(d + 2, y, d + 1, d);
    }
    CountSmallerIsCardinality(ks, ks[d + 1], |ks|);
    assert (set y: nat | y < |ks| && KeyLess(ks[y], ks[d + 1])) == {};
  }

  /** Starting from windows exactly as long as the first shift d, positions 1 and 2 of the text that
      repeats one symbol d + 2 times are never told apart: position 1 is followed by the smallest
      window, of rank 0, and position 2 by the end of the text, for which 0 stands as well. */
  lemma UniformTextNeverFinishes(ks: seq<Key>, start: nat, rounds: nat)
    requires OrdersWindows(Uniform(Pow2(start) + 2), ks, Pow2(start))
    requires SeparatesWindows(Uniform(Pow2(start) + 2), ks, Pow2(start))
    ensures KeysAfter(ks, start, rounds)[1] == KeysAfter(ks, start, rounds)[2]
  {
    var d := Pow2(start);
    var n := d + 2;
    var t := Uniform(n);
    UniformWindows(n, 1, 2, d);
    assert ks[1] == ks[2];
    if rounds > 0 {
      LastWindowIsSmallest(ks, d);
      assert SecondRank(ks, 1, d) == 0 == SecondRank(ks, 2, d);
      DoubledOrder(ks, d, 1, 2);
      var one := KeysAfter(ks, start, 1);
      assert KeysAfter(ks, start, 0) == ks;
      assert one == Doubled(ks, d);
      KeysAfterSplit(ks, start, 1, rounds - 1);
      LongShiftsAreStuck(one, start + 1, rounds - 1, 1, 2);
    }
  }

  /** Every text is finished after some number of rounds. */
  ghost predicate AlwaysFinishes(h: nat, start: nat) {
    forall t: Text, ks: seq<Key> | |t| >= 1 && OrdersWindows(t, ks, h) && SeparatesWindows(t, ks, h) ::
      exists rounds: nat :: Distinct(KeysAfter(ks, start, rounds))
  }

  /** The exact condition under which the loop ends for every text: the windows the first keys stand
      for are strictly longer than the first shift. */
  lemma FinishesIff(h: nat, start: nat)
    requires h >= Pow2(start)
    ensures AlwaysFinishes(h, start) <==> h > Pow2(start)
  {
    if h > Pow2(start) {
      forall t: Text, ks: seq<Key> | |t| >= 1 && OrdersWindows(t, ks, h) && SeparatesWindows(t, ks, h)
        ensures exists rounds: nat :: Distinct(KeysAfter(ks, start, rounds))
      {
        SeparatedTiesAreInside(t, ks, h);
        KeysBecomeDistinct(ks, h, start);
      }
    } else {
      var n := h + 2;
      var ks := UniformKeys(n, h);
      UniformKeysAreExact(n, h);
      if AlwaysFinishes(h, start) {
        assert |Uniform(n)| >= 1;
        var rounds: nat :| Distinct(KeysAfter(ks, start, rounds));
        UniformTextNeverFinishes(ks, start, rounds);
        assert false;
      }
    }
  }
}
