/** What the order of chains and the repetition of keys mean for the text: when the order that prefix
    doubling finds is that of the suffixes, and for which texts it finds one. */
module Agreement {
  import opened Sequences
  import opened Bits
  import opened Windows
  import opened Doubling
  import opened ChainOrder
  import opened Endings

  // ----- when the result is the suffix array -----

  /** Different first keys are in the order of the suffixes, and where two are equal, the suffixes compare
      as those d further on. */
  ghost predicate KeysAgree(t: Text, ks: seq<Key>, d: nat) {
    && |ks| == |t|
    && (forall x: nat, y: nat | x < |t| && y < |t| && KeyLess(ks[x], ks[y]) :: SuffixLess(t, x, y))
    && (forall x: nat, y: nat | x < |t| && y < |t| && x != y && ks[x] == ks[y] && x + d <= |t| && y + d <= |t| ::
          SuffixLess(t, x, y) <==> SuffixLess(t, x + d, y + d))
  }

  lemma {:induction false} ChainLessIsSuffixLess(t: Text, ks: seq<Key>, d: nat, x: nat, y: nat)
    requires d >= 1 && TiesInside(ks, d) && KeysAgree(t, ks, d) && x <= |t| && y <= |t| && ChainLess(ks, d, x, y)
    ensures SuffixLess(t, x, y)
    decreases |t| - x
  {
    ChainLessAsymmetric(ks, d, x, y);
    if x < |t| && ks[x] == ks[y] {
      ChainLessIsSuffixLess(t, ks, d, x + d, y + d);
    }
  }

  /** Then the order of the chains is the order of the suffixes. */
  lemma ChainOrderIsSuffixOrder(t: Text, ks: seq<Key>, d: nat, x: nat, y: nat)
    requires d >= 1 && TiesInside(ks, d) && KeysAgree(t, ks, d) && x <= |t| && y <= |t|
    ensures ChainLess(ks, d, x, y) <==> SuffixLess(t, x, y)
  {
    LexLessTrichotomy(t[x..], t[y..]);
    if x != y {
      ChainLessTotal(ks, d, x, y);
      if ChainLess(ks, d, x, y) {
        ChainLessIsSuffixLess(t, ks, d, x, y);
      } else {
        ChainLessIsSuffixLess(t, ks, d, y, x);
      }
    } else if ChainLess(ks, d, x, y) {
      ChainLessAsymmetric(ks, d, x, y);
    }
  }

  /** Positions sorted by distinct keys are sorted by their chains. */
  lemma SortedByChains(ks: seq<Key>, start: nat, rounds: nat, sa: seq<nat>, p: nat, q: nat)
    requires SortedByKey(sa, KeysAfter(ks, start, rounds)) && p < q < |sa|
    ensures sa[p] < |ks| && sa[q] < |ks| && ChainLess(ks, Pow2(start), sa[p], sa[q])
  {
    SortedByKeyAt(sa, KeysAfter(ks, start, rounds), p, q);
    KeysFollowChains(ks, start, rounds, sa[p], sa[q]);
  }

  /** If the result is the suffix array, the two orders are the same. */
  lemma SuffixArrayShowsOrder(t: Text, ks: seq<Key>, start: nat, rounds: nat, sa: seq<nat>, x: nat, y: nat)
    requires |ks| == |t| && SortedByKey(sa, KeysAfter(ks, start, rounds)) && IsSuffixArray(t, sa)
    requires x <= |t| && y <= |t| && x != y
    ensures ChainLess(ks, Pow2(start), x, y) <==> SuffixLess(t, x, y)
  {
    LexLessTrichotomy(t[x..], t[y..]);
    if x < |t| && y < |t| {
      var p := PermutationIsOnto(sa, x);
      var q := PermutationIsOnto(sa, y);
      if p < q {
        SortedByChains(ks, start, rounds, sa, p, q);
      } else {
        SortedByChains(ks, start, rounds, sa, q, p);
        ChainLessAsymmetric(ks, Pow2(start), y, x);
      }
    }
  }

  lemma SuffixArrayShowsAgreement(t: Text, ks: seq<Key>, start: nat, rounds: nat, sa: seq<nat>)
    requires |ks| == |t| && SortedByKey(sa, KeysAfter(ks, start, rounds)) && IsSuffixArray(t, sa)
    ensures KeysAgree(t, ks, Pow2(start))
  {
    var d := Pow2(start);
    forall x: nat, y: nat | x < |t| && y < |t| && KeyLess(ks[x], ks[y]) ensures SuffixLess(t, x, y) {
      SuffixArrayShowsOrder(t, ks, start, rounds, sa, x, y);
    }
    forall x: nat, y: nat | x < |t| && y < |t| && x != y && ks[x] == ks[y] && x + d <= |t| && y + d <= |t|
      ensures SuffixLess(t, x, y) <==> SuffixLess(t, x + d, y + d)
    {
      SuffixArrayShowsOrder(t, ks, start, rounds, sa, x, y);
      SuffixArrayShowsOrder(t, ks, start, rounds, sa, x + d, y + d);
      ChainLessOfTied(ks, d, x, y);
    }
  }

  /** The exact condition, on the first keys alone: whatever they stand for, the result is the suffix
      array if and only if they agree with the text. */
  lemma ResultIsRightIff(t: Text, ks: seq<Key>, start: nat, rounds: nat, sa: seq<nat>)
    requires |ks| == |t| && TiesInside(ks, Pow2(start)) && SortedByKey(sa, KeysAfter(ks, start, rounds))
    ensures IsSuffixArray(t, sa) <==> KeysAgree(t, ks, Pow2(start))
  {
    if IsSuffixArray(t, sa) {
      SuffixArrayShowsAgreement(t, ks, start, rounds, sa);
    } else if KeysAgree(t, ks, Pow2(start)) {
      forall p, q | 0 <= p < q < |sa| ensures SuffixLess(t, sa[p], sa[q]) {
        SortedByChains(ks, start, rounds, sa, p, q);
        ChainLessIsSuffixLess(t, ks, Pow2(start), sa[p], sa[q]);
      }
    }
  }

  /** Keys that order windows agree with the text. */
  lemma OrderingKeysAgree(t: Text, ks: seq<Key>, h: nat, d: nat)
    requires OrdersWindows(t, ks, h) && SeparatesWindows(t, ks, h) && d <= h
    ensures TiesInside(ks, d) && KeysAgree(t, ks, d)
  {
    OrderIsSound(t, ks, h, d);
    SeparatedTiesAreInside(t, ks, h);
    forall x: nat, y: nat | x < |t| && y < |t| && x != y && ks[x] == ks[y] && x + d <= |t| && y + d <= |t|
      ensures SuffixLess(t, x, y) <==> SuffixLess(t, x + d, y + d)
    {
      SuffixLessAfter(t, x, y, d);
    }
  }

  // ----- which texts are finished -----

  ghost predicate IsSmallestSuffix(t: Text, p: nat) {
    p < |t| && forall q: nat | q < |t| && q != p :: SuffixLess(t, p, q)
  }

  /** The D = Pow2(start + i) symbols before p are the last D of the text, and the suffix at p is not longer. */
  predicate EndsLike(t: Text, start: nat, p: nat, i: nat) {
    var D := Pow2(start + i);
    D <= p < |t| <= p + D && WindowEqual(t, p - D, |t| - D, D)
  }

  /** At the smallest suffix this is so for some shift of the loop. */
  ghost predicate EndRepeats(t: Text, start: nat) {
    exists p: nat, i: nat :: IsSmallestSuffix(t, p) && EndsLike(t, start, p, i)
  }

  lemma LeastIsSmallestSuffix(t: Text, ks: seq<Key>, d: nat, p: nat)
    requires d >= 1 && TiesInside(ks, d) && KeysAgree(t, ks, d)
    ensures IsLeast(ks, d, p) <==> IsSmallestSuffix(t, p)
  {
    if p < |t| {
      forall q: nat | q < |t| ensures ChainLess(ks, d, p, q) <==> SuffixLess(t, p, q) {
        ChainOrderIsSuffixOrder(t, ks, d, p, q);
      }
    }
  }

  /** Keys of windows of length d, d apart, agree as the windows they add up to. */
  lemma {:induction false} BlocksAreWindow(t: Text, ks: seq<Key>, d: nat, x: nat, y: nat, m: nat)
    requires d >= 1 && SeparatesWindows(t, ks, d) && x + m * d <= |t| && y + m * d <= |t|
    ensures ChainsAgree(ks, d, x, y, m) <==> WindowEqual(t, x, y, m * d)
    decreases m
  {
    if m > 0 {
      assert m * d == d + (m - 1) * d && (m - 1) * d >= 0;
      BlocksAreWindow(t, ks, d, x + d, y + d, m - 1);
      WindowSplit(t, x, y, d, (m - 1) * d);
    }
  }

  lemma {:induction false} RepeatsIff(t: Text, ks: seq<Key>, start: nat, p: nat, i: nat)
    requires SeparatesWindows(t, ks, Pow2(start))
    ensures Repeats(ks, start, p, i) <==> EndsLike(t, start, p, i)
  {
    var D := Pow2(start + i);
    if D <= p < |t| {
      assert D == Pow2(i) * Pow2(start) by { ShiftInBlocks(start, i); }
      BlocksAreWindow(t, ks, Pow2(start), p - D, |t| - D, Pow2(i));
    }
  }

  /** For keys that stand for windows exactly as long as the first shift, keys repeat as the text does. */
  lemma KeysRepeatIff(t: Text, ks: seq<Key>, start: nat)
    requires OrdersWindows(t, ks, Pow2(start)) && SeparatesWindows(t, ks, Pow2(start))
    ensures KeysRepeat(ks, start) <==> EndRepeats(t, start)
  {
    OrderingKeysAgree(t, ks, Pow2(start), Pow2(start));
    if p: nat, i: nat :| IsLeast(ks, Pow2(start), p) && Repeats(ks, start, p, i) {
      LeastIsSmallestSuffix(t, ks, Pow2(start), p);
      RepeatsIff(t, ks, start, p, i);
    }
    if p: nat, i: nat :| IsSmallestSuffix(t, p) && EndsLike(t, start, p, i) {
      LeastIsSmallestSuffix(t, ks, Pow2(start), p);
      RepeatsIff(t, ks, start, p, i);
    }
  }

  /** The exact condition for each text: the loop goes on for ever if and only if the symbols before the
      smallest suffix, as many as some shift, are the last ones of the text. */
  lemma TextFinishesIff(t: Text, ks: seq<Key>, start: nat)
    requires OrdersWindows(t, ks, Pow2(start)) && SeparatesWindows(t, ks, Pow2(start))
    ensures FinishesOn(ks, start) <==> !EndRepeats(t, start)
  {
    OrderingKeysAgree(t, ks, Pow2(start), Pow2(start));
    FinishesOnIff(ks, start);
    KeysRepeatIff(t, ks, start);
  }
}
