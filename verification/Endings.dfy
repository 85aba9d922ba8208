/** Whether the loop comes to an end, for any first keys whose ties lie inside the text. */
module Endings {
  import opened Sequences
  import opened Bits
  import opened Doubling
  import opened ChainOrder

  /** These keys become all different. */
  ghost predicate FinishesOn(ks: seq<Key>, start: nat) {
    exists rounds: nat :: Distinct(KeysAfter(ks, start, rounds))
  }

  /** Two positions that are never told apart. */
  ghost predicate Stuck(ks: seq<Key>, start: nat, x: nat, y: nat) {
    x < y < |ks| && forall r: nat :: TiedAfter(ks, start, r, x, y)
  }

  /** D = Pow2(start + i) reaches from p past the end, and the keys of the D positions before p are those
      of the last D positions (looking at every position that is a multiple of the first shift away). */
  ghost predicate Repeats(ks: seq<Key>, start: nat, p: nat, i: nat) {
    var D := Pow2(start + i);
    D <= p < |ks| <= p + D && ChainsAgree(ks, Pow2(start), p - D, |ks| - D, Pow2(i))
  }

  /** This is so at the position with the smallest chain. */
  ghost predicate KeysRepeat(ks: seq<Key>, start: nat) {
    exists p: nat, i: nat :: IsLeast(ks, Pow2(start), p) && Repeats(ks, start, p, i)
  }

  // ----- stuck positions -----

  lemma {:induction false} TiedFromThen(ks: seq<Key>, start: nat, r: nat, r': nat, x: nat, y: nat)
    requires TiedAfter(ks, start, r, x, y) && |ks| <= x + Pow2(start + r) && |ks| <= y + Pow2(start + r) && r <= r'
    ensures TiedAfter(ks, start, r', x, y)
    decreases r'
  {
    if r < r' {
      TiedFromThen(ks, start, r, r' - 1, x, y);
      Pow2Monotone(start + r, start + (r' - 1));
      TieIsKept(ks, start, r' - 1, x, y);
    }
  }

  /** Positions tied when their shifts leave the text are stuck. */
  lemma StuckFrom(ks: seq<Key>, start: nat, r: nat, x: nat, y: nat)
    requires x < y && TiedAfter(ks, start, r, x, y) && |ks| <= x + Pow2(start + r)
    ensures Stuck(ks, start, x, y)
  {
    forall r': nat ensures TiedAfter(ks, start, r', x, y) {
      if r' <= r {
        TieGoesBack(ks, start, r, r', x, y);
      } else {
        TiedFromThen(ks, start, r, r', x, y);
      }
    }
  }

  lemma StuckNeverFinishes(ks: seq<Key>, start: nat, x: nat, y: nat)
    requires Stuck(ks, start, x, y)
    ensures !FinishesOn(ks, start)
  {
    forall rounds: nat ensures !Distinct(KeysAfter(ks, start, rounds)) {
      assert TiedAfter(ks, start, rounds, x, y);
    }
  }

  /** Once the shift is as long as the text, what is tied is stuck. */
  lemma TieIsStuck(ks: seq<Key>, start: nat, r: nat) returns (x: nat, y: nat)
    requires |ks| <= Pow2(start + r) && !Distinct(KeysAfter(ks, start, r))
    ensures Stuck(ks, start, x, y) && !FinishesOn(ks, start)
  {
    var k := KeysAfter(ks, start, r);
    x, y :| 0 <= x < y < |k| && k[x] == k[y];
    StuckFrom(ks, start, r, x, y);
    StuckNeverFinishes(ks, start, x, y);
  }

  // ----- what repeats is stuck -----

  lemma {:induction false} InsideBlocksTie(ks: seq<Key>, start: nat, r: nat, x: nat, y: nat)
    requires x + Pow2(start + r) <= |ks| && y + Pow2(start + r) <= |ks|
    requires ChainsAgree(ks, Pow2(start), x, y, Pow2(r))
    ensures TiedAfter(ks, start, r, x, y)
    decreases r
  {
    if r > 0 {
      var shift := Pow2(start + (r - 1));
      ShiftInBlocks(start, r - 1);
      AgreeSplit(ks, Pow2(start), x, y, Pow2(r - 1), Pow2(r - 1));
      InsideBlocksTie(ks, start, r - 1, x, y);
      InsideBlocksTie(ks, start, r - 1, x + shift, y + shift);
      TieIsKept(ks, start, r - 1, x, y);
    } else {
      assert Pow2(0) == 1;
    }
  }

  /** The place before the least position is followed by rank 0, and the end of the text counts as rank 0. */
  lemma RepeatIsStuck(ks: seq<Key>, start: nat, p: nat, i: nat)
    requires IsLeast(ks, Pow2(start), p) && Repeats(ks, start, p, i)
    ensures Stuck(ks, start, p - Pow2(start + i), |ks| - Pow2(start + i))
  {
    var D := Pow2(start + i);
    InsideBlocksTie(ks, start, i, p - D, |ks| - D);
    LeastHasRankZero(ks, start, i, p, p);
    TieStep(ks, start, i, p - D, |ks| - D);
    ShiftInBlocks(start, i);
    StuckFrom(ks, start, i + 1, p - D, |ks| - D);
  }

  // ----- what is stuck repeats -----

  /** If the second position's shift leaves the text, the first one is followed by a place tied with the least. */
  lemma ZeroSecondRank(ks: seq<Key>, start: nat, r: nat, p: nat, x: nat, y: nat)
    requires IsLeast(ks, Pow2(start), p) && TiedAfter(ks, start, r + 1, x, y)
    requires x + Pow2(start + r) < |ks| <= y + Pow2(start + r)
    ensures TiedAfter(ks, start, r, x + Pow2(start + r), p)
  {
    TieStep(ks, start, r, x, y);
    LeastHasRankZero(ks, start, r, p, x + Pow2(start + r));
  }

  /** The converse: then the tie goes on. */
  lemma TieGoesOn(ks: seq<Key>, start: nat, r: nat, p: nat, x: nat, y: nat)
    requires IsLeast(ks, Pow2(start), p) && TiedAfter(ks, start, r, x, y)
    requires x + Pow2(start + r) == p && |ks| <= y + Pow2(start + r)
    ensures TiedAfter(ks, start, r + 1, x, y)
  {
    TieStep(ks, start, r, x, y);
    LeastHasRankZero(ks, start, r, p, p);
  }

  /** A place after the least position that is tied with it does not reach the end. */
  lemma PlaceIsNotAfter(ks: seq<Key>, start: nat, r: nat, p: nat, q: nat)
    requires TiesInside(ks, Pow2(start)) && IsLeast(ks, Pow2(start), p)
    requires TiedAfter(ks, start, r, q, p) && |ks| <= q + Pow2(start + r)
    ensures q <= p
  {
    if p < q {
      KeysFollowChains(ks, start, r, q, p);
      ShiftInBlocks(start, r);
      LaterChainIsLess(ks, Pow2(start), p, q, Pow2(r));
      ChainLessAsymmetric(ks, Pow2(start), p, q);
    }
  }

  /** If the least position is tied with the one D before it, its own shift by D leaves the text. */
  lemma SquareEndsText(ks: seq<Key>, start: nat, r: nat, p: nat)
    requires IsLeast(ks, Pow2(start), p) && Pow2(start + r) <= p && TiedAfter(ks, start, r, p - Pow2(start + r), p)
    ensures |ks| <= p + Pow2(start + r)
  {
    var D := Pow2(start + r);
    if p + D < |ks| {
      KeysFollowChains(ks, start, r, p - D, p);
      ShiftInBlocks(start, r);
      ChainLessAfter(ks, Pow2(start), p - D, p, Pow2(r));
      ChainLessAsymmetric(ks, Pow2(start), p - D, p);
    }
  }

  lemma ShorterTieHalves(ks: seq<Key>, start: nat, r: nat, p: nat, y: nat)
    requires IsLeast(ks, Pow2(start), p) && 2 * Pow2(start + r) <= p
    requires p + Pow2(start + r) < |ks| && TiedAfter(ks, start, r + 1, p - 2 * Pow2(start + r), y)
    ensures y + Pow2(start + r) < |ks| && TiedAfter(ks, start, r, p - Pow2(start + r), y + Pow2(start + r))
  {
    var half := Pow2(start + r);
    if |ks| <= y + half {
      ZeroSecondRank(ks, start, r, p, p - 2 * half, y);
      SquareEndsText(ks, start, r, p);
    } else {
      TieReaches(ks, start, r, p - 2 * half, y);
    }
  }

  /** The position D before the least one is not tied with one that is too close to the end. */
  lemma {:induction false} NotTiedWithShorter(ks: seq<Key>, start: nat, r: nat, p: nat, y: nat)
    requires TiesInside(ks, Pow2(start)) && IsLeast(ks, Pow2(start), p) && Pow2(start + r) <= p
    requires p + Pow2(start + r) < |ks| < y + Pow2(start + r) && y != p - Pow2(start + r)
    ensures !TiedAfter(ks, start, r, p - Pow2(start + r), y)
    decreases r
  {
    if r > 0 && TiedAfter(ks, start, r, p - Pow2(start + r), y) {
      ShiftInBlocks(start, r - 1);
      ShorterTieHalves(ks, start, r - 1, p, y);
      NotTiedWithShorter(ks, start, r - 1, p, y + Pow2(start + (r - 1)));
    }
  }

  /** A stuck pair of which the smaller position is the greatest. */
  ghost predicate IsLastStuck(ks: seq<Key>, start: nat, x: nat, y: nat) {
    Stuck(ks, start, x, y) && forall x': nat, y': nat | Stuck(ks, start, x', y') :: x' <= x
  }

  lemma {:induction false} LastStuckPair(ks: seq<Key>, start: nat, x: nat, y: nat) returns (x': nat, y': nat)
    requires Stuck(ks, start, x, y)
    ensures IsLastStuck(ks, start, x', y')
    decreases |ks| - x
  {
    if u: nat, v: nat :| Stuck(ks, start, u, v) && x < u {
      x', y' := LastStuckPair(ks, start, u, v);
    } else {
      x', y' := x, y;
    }
  }

  /** The last place within the text that the first position of the last stuck pair looks at is the least position. */
  lemma LastPlace(ks: seq<Key>, start: nat, r: nat, p: nat, x: nat, y: nat)
    requires TiesInside(ks, Pow2(start)) && IsLeast(ks, Pow2(start), p) && IsLastStuck(ks, start, x, y)
    requires x + Pow2(start + r) < |ks| <= y + Pow2(start + r) && |ks| <= x + 2 * Pow2(start + r)
    ensures x + Pow2(start + r) == p
  {
    var q := x + Pow2(start + r);
    assert TiedAfter(ks, start, r + 1, x, y);
    ZeroSecondRank(ks, start, r, p, x, y);
    PlaceIsNotAfter(ks, start, r, p, q);
    if q < p {
      StuckFrom(ks, start, r, q, p);
    }
  }

  /** This is already the first place it looks at when the second position has left the text. */
  lemma {:induction false} NoLaterPlace(ks: seq<Key>, start: nat, r: nat, p: nat, x: nat, y: nat)
    requires TiesInside(ks, Pow2(start)) && IsLeast(ks, Pow2(start), p) && IsLastStuck(ks, start, x, y)
    requires |ks| <= y + Pow2(start + r)
    ensures |ks| <= x + 2 * Pow2(start + r)
    decreases |ks| - r
  {
    var D := Pow2(start + r);
    ShiftInBlocks(start, r);
    if x + 2 * D < |ks| {
      Pow2Exceeds(start + r);
      NoLaterPlace(ks, start, r + 1, p, x, y);
      LastPlace(ks, start, r + 1, p, x, y);
      assert TiedAfter(ks, start, r + 1, x, y);
      ZeroSecondRank(ks, start, r, p, x, y);
      SquareEndsText(ks, start, r, p);
      TieGoesOn(ks, start, r, p, p - D, p);
      StuckFrom(ks, start, r + 1, p - D, p);
    }
  }

  lemma SomeLongShift(n: nat, start: nat) returns (r: nat)
    ensures n <= Pow2(start + r)
  {
    r := n;
    Pow2Exceeds(start + r);
  }

  /** The first round in which the shift from y leaves the text. */
  lemma {:induction false} FirstShiftPast(n: nat, start: nat, y: nat, r: nat) returns (m: nat)
    requires n <= y + Pow2(start + r)
    ensures m <= r && n <= y + Pow2(start + m) && (m > 0 ==> y + Pow2(start + (m - 1)) < n)
    decreases r
  {
    if r > 0 && n <= y + Pow2(start + (r - 1)) {
      m := FirstShiftPast(n, start, y, r - 1);
    } else {
      m := r;
    }
  }

  /** A tie D before both places of the last stuck pair cannot go on for ever. */
  lemma HalfWayIsNotStuck(ks: seq<Key>, start: nat, r: nat, p: nat, x: nat, y: nat)
    requires TiesInside(ks, Pow2(start)) && IsLeast(ks, Pow2(start), p) && IsLastStuck(ks, start, x, y)
    requires y + Pow2(start + r) < |ks| < y + 2 * Pow2(start + r)
    ensures x + 2 * Pow2(start + r) != p && x + 2 * Pow2(start + r) < |ks|
  {
    var D := Pow2(start + r);
    assert TiedAfter(ks, start, r + 1, x, y);
    TieReaches(ks, start, r, x, y);
    ShiftInBlocks(start, r);
    if |ks| <= x + 2 * D {
      StuckFrom(ks, start, r, x + D, y + D);
    } else if x + 2 * D == p {
      if |ks| <= p + D {
        TieGoesOn(ks, start, r, p, x + D, y + D);
        StuckFrom(ks, start, r + 1, x + D, y + D);
      } else {
        NotTiedWithShorter(ks, start, r, p, y + D);
      }
    }
  }

  lemma StuckMeansRepeat(ks: seq<Key>, start: nat, p: nat, x: nat, y: nat) returns (i: nat)
    requires TiesInside(ks, Pow2(start)) && IsLeast(ks, Pow2(start), p) && IsLastStuck(ks, start, x, y)
    ensures Repeats(ks, start, p, i)
  {
    var r := SomeLongShift(|ks|, start);
    i := FirstShiftPast(|ks|, start, y, r);
    assert TiedAfter(ks, start, 0, x, y);
    var D := Pow2(start + i);
    if i > 0 {
      ShiftInBlocks(start, i - 1);
      if |ks| < y + D {
        HalfWayIsNotStuck(ks, start, i - 1, p, x, y);
      }
    }
    NoLaterPlace(ks, start, i, p, x, y);
    LastPlace(ks, start, i, p, x, y);
    assert TiedAfter(ks, start, i, x, y);
    KeysFollowChains(ks, start, i, x, y);
  }

  // ----- the exact condition -----

  lemma {:induction false} StuckRepeats(ks: seq<Key>, start: nat, x: nat, y: nat)
    requires TiesInside(ks, Pow2(start)) && Stuck(ks, start, x, y)
    ensures KeysRepeat(ks, start)
  {
    var x', y' := LastStuckPair(ks, start, x, y);
    var p := LeastExists(ks, Pow2(start));
    var i := StuckMeansRepeat(ks, start, p, x', y');
  }

  /** The loop ends on these keys if and only if they do not repeat at the end of the text what comes
      before the least position. */
  lemma FinishesOnIff(ks: seq<Key>, start: nat)
    requires TiesInside(ks, Pow2(start))
    ensures FinishesOn(ks, start) <==> !KeysRepeat(ks, start)
  {
    if p: nat, i: nat :| IsLeast(ks, Pow2(start), p) && Repeats(ks, start, p, i) {
      RepeatIsStuck(ks, start, p, i);
      StuckNeverFinishes(ks, start, p - Pow2(start + i), |ks| - Pow2(start + i));
    } else {
      var r := SomeLongShift(|ks|, start);
      if !Distinct(KeysAfter(ks, start, r)) {
        var x, y := TieIsStuck(ks, start, r);
        StuckRepeats(ks, start, x, y);
      }
    }
  }

  /** If it ends, then within the same bound as ever. */
  lemma FinishesInTime(ks: seq<Key>, start: nat, rounds: nat)
    requires |ks| >= 1 && FinishesOn(ks, start) && rounds >= RoundBound(|ks|, start)
    ensures Distinct(KeysAfter(ks, start, rounds))
  {
    if !Distinct(KeysAfter(ks, start, rounds)) {
      Pow2Monotone(CeilLog2(|ks|), start + rounds);
      var x, y := TieIsStuck(ks, start, rounds);
    }
  }
}
