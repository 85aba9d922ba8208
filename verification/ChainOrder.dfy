/** What prefix doubling sorts by, whatever the first keys stand for, and when it comes to an end. With a
    first shift d, position x is the start of a chain: the first keys at x, x + d, x + 2d, and so on. */
module ChainOrder {
  import opened Sequences
  import opened Bits
  import opened Windows
  import opened Doubling

  /** The lexicographic order of chains; a chain that ends first is smaller. */
  predicate ChainLess(ks: seq<Key>, d: nat, x: nat, y: nat)
    requires d >= 1
    decreases |ks| - x
  {
    && y < |ks|
    && (x >= |ks| || KeyLess(ks[x], ks[y]) || (ks[x] == ks[y] && ChainLess(ks, d, x + d, y + d)))
  }

  /** As far as both chains reach, their first m keys agree. */
  predicate ChainsAgree(ks: seq<Key>, d: nat, x: nat, y: nat, m: nat)
    decreases m
  {
    m > 0 && x < |ks| && y < |ks| ==> ks[x] == ks[y] && ChainsAgree(ks, d, x + d, y + d, m - 1)
  }

  /** The position with the smallest chain. */
  ghost predicate IsLeast(ks: seq<Key>, d: nat, p: nat)
    requires d >= 1
  {
    p < |ks| && forall q: nat | q < |ks| && q != p :: ChainLess(ks, d, p, q)
  }

  // ----- chains -----

  lemma {:induction false} AgreeSplit(ks: seq<Key>, d: nat, x: nat, y: nat, a: nat, b: nat)
    ensures ChainsAgree(ks, d, x, y, a + b)
         == (ChainsAgree(ks, d, x, y, a) && ChainsAgree(ks, d, x + a * d, y + a * d, b))
    decreases a
  {
    if a > 0 {
      AgreeSplit(ks, d, x + d, y + d, a - 1, b);
      assert a * d == d + (a - 1) * d;
      if x >= |ks| || y >= |ks| {
        AgreePastEnd(ks, d, x + a * d, y + a * d, b);
      }
    }
  }

  lemma AgreePastEnd(ks: seq<Key>, d: nat, x: nat, y: nat, m: nat)
    requires x >= |ks| || y >= |ks|
    ensures ChainsAgree(ks, d, x, y, m)
  {}

  /** Chains that agree on m keys compare as what follows. */
  lemma {:induction false} ChainLessAfter(ks: seq<Key>, d: nat, x: nat, y: nat, m: nat)
    requires d >= 1 && ChainsAgree(ks, d, x, y, m) && x + m * d <= |ks| && y + m * d <= |ks|
    ensures ChainLess(ks, d, x, y) == ChainLess(ks, d, x + m * d, y + m * d)
    decreases m
  {
    if m > 0 {
      assert m * d == d + (m - 1) * d && (m - 1) * d >= 0;
      ChainLessAfter(ks, d, x + d, y + d, m - 1);
      ChainLessOfTied(ks, d, x, y);
    }
  }

  lemma ChainLessOfTied(ks: seq<Key>, d: nat, x: nat, y: nat)
    requires d >= 1 && x < |ks| && y < |ks| && ks[x] == ks[y]
    ensures ChainLess(ks, d, x, y) == ChainLess(ks, d, x + d, y + d)
  {}

  /** A chain that ends where the other goes on is smaller. */
  lemma {:induction false} ShorterChainIsLess(ks: seq<Key>, d: nat, x: nat, y: nat, m: nat)
    requires d >= 1 && ChainsAgree(ks, d, x, y, m) && x + m * d >= |ks| && y + m * d < |ks|
    ensures ChainLess(ks, d, x, y)
    decreases m
  {
    if x < |ks| && m > 0 {
      assert m * d == d + (m - 1) * d && (m - 1) * d >= 0;
      ShorterChainIsLess(ks, d, x + d, y + d, m - 1);
    }
  }

  /** Where two chains agree to the end of the later one, the later one is smaller. */
  lemma {:induction false} LaterChainIsLess(ks: seq<Key>, d: nat, x: nat, y: nat, m: nat)
    requires d >= 1 && TiesInside(ks, d) && x < y <= |ks| <= y + m * d && ChainsAgree(ks, d, y, x, m)
    ensures ChainLess(ks, d, y, x)
    decreases m
  {
    if y < |ks| {
      assert m > 0 by { assert 0 * d == 0; }
      assert m * d == d + (m - 1) * d;
      LaterChainIsLess(ks, d, x + d, y + d, m - 1);
    }
  }

  lemma {:induction false} ChainLessAsymmetric(ks: seq<Key>, d: nat, x: nat, y: nat)
    requires d >= 1 && ChainLess(ks, d, x, y)
    ensures !ChainLess(ks, d, y, x) && x != y
    decreases |ks| - x
  {
    if x < |ks| && ks[x] == ks[y] {
      ChainLessAsymmetric(ks, d, x + d, y + d);
    }
  }

  /** If ties lie inside, any two chains differ. */
  lemma {:induction false} ChainLessTotal(ks: seq<Key>, d: nat, x: nat, y: nat)
    requires d >= 1 && TiesInside(ks, d) && x <= |ks| && y <= |ks| && x != y
    ensures ChainLess(ks, d, x, y) || ChainLess(ks, d, y, x)
    decreases |ks| - x
  {
    if x < |ks| && y < |ks| && ks[x] == ks[y] {
      ChainLessTotal(ks, d, x + d, y + d);
    }
  }

  lemma {:induction false} ChainLessTransitive(ks: seq<Key>, d: nat, x: nat, y: nat, z: nat)
    requires d >= 1 && ChainLess(ks, d, x, y) && ChainLess(ks, d, y, z)
    ensures ChainLess(ks, d, x, z)
    decreases |ks| - x
  {
    if x < |ks| && ks[x] == ks[y] == ks[z] {
      ChainLessTransitive(ks, d, x + d, y + d, z + d);
    }
  }

  /** The least of the first m positions. */
  lemma {:induction false} LeastBelow(ks: seq<Key>, d: nat, m: nat) returns (p: nat)
    requires d >= 1 && TiesInside(ks, d) && 1 <= m <= |ks|
    ensures p < m && forall q: nat | q < m && q != p :: ChainLess(ks, d, p, q)
  {
    if m == 1 {
      p := 0;
    } else {
      var p' := LeastBelow(ks, d, m - 1);
      ChainLessTotal(ks, d, p', m - 1);
      if ChainLess(ks, d, p', m - 1) {
        p := p';
      } else {
        p := m - 1;
        forall q: nat | q < m - 1 && q != p' ensures ChainLess(ks, d, p, q) {
          ChainLessTransitive(ks, d, p, p', q);
        }
      }
    }
  }

  lemma LeastExists(ks: seq<Key>, d: nat) returns (p: nat)
    requires d >= 1 && TiesInside(ks, d) && |ks| >= 1
    ensures IsLeast(ks, d, p)
  {
    p := LeastBelow(ks, d, |ks|);
  }

  // ----- rounds follow the chains -----

  ghost predicate TiedAfter(ks: seq<Key>, start: nat, rounds: nat, x: nat, y: nat) {
    x < |ks| && y < |ks| && KeysAfter(ks, start, rounds)[x] == KeysAfter(ks, start, rounds)[y]
  }

  lemma TieStep(ks: seq<Key>, start: nat, r: nat, x: nat, y: nat)
    requires x < |ks| && y < |ks|
    ensures var k, shift := KeysAfter(ks, start, r), Pow2(start + r);
            TiedAfter(ks, start, r + 1, x, y) <==>
              (TiedAfter(ks, start, r, x, y) && SecondRank(k, x, shift) == SecondRank(k, y, shift))
  {
    DoubledOrder(KeysAfter(ks, start, r), Pow2(start + r), x, y);
  }

  /** A tie at the next round is one at this round, and reaches as far as both positions have a successor. */
  lemma TieReaches(ks: seq<Key>, start: nat, r: nat, x: nat, y: nat)
    requires TiedAfter(ks, start, r + 1, x, y)
    ensures TiedAfter(ks, start, r, x, y)
    ensures x + Pow2(start + r) < |ks| && y + Pow2(start + r) < |ks| ==>
      TiedAfter(ks, start, r, x + Pow2(start + r), y + Pow2(start + r))
  {
    TieStep(ks, start, r, x, y);
    if x + Pow2(start + r) < |ks| && y + Pow2(start + r) < |ks| {
      RankOrder(KeysAfter(ks, start, r), x + Pow2(start + r), y + Pow2(start + r));
    }
  }

  /** It goes on if the successors are tied as well, or if there are none. */
  lemma TieIsKept(ks: seq<Key>, start: nat, r: nat, x: nat, y: nat)
    requires TiedAfter(ks, start, r, x, y)
    requires TiedAfter(ks, start, r, x + Pow2(start + r), y + Pow2(start + r))
          || (|ks| <= x + Pow2(start + r) && |ks| <= y + Pow2(start + r))
    ensures TiedAfter(ks, start, r + 1, x, y)
  {
    TieStep(ks, start, r, x, y);
    if x + Pow2(start + r) < |ks| {
      RankOrder(KeysAfter(ks, start, r), x + Pow2(start + r), y + Pow2(start + r));
    }
  }

  lemma {:induction false} TieGoesBack(ks: seq<Key>, start: nat, r: nat, r': nat, x: nat, y: nat)
    requires r' <= r && TiedAfter(ks, start, r, x, y)
    ensures TiedAfter(ks, start, r', x, y)
    decreases r
  {
    if r' < r {
      TieReaches(ks, start, r - 1, x, y);
      TieGoesBack(ks, start, r - 1, r', x, y);
    }
  }

  lemma ShiftInBlocks(start: nat, r: nat)
    ensures Pow2(start + r) == Pow2(r) * Pow2(start)
    ensures Pow2(start + (r + 1)) == 2 * Pow2(start + r) && Pow2(r + 1) == Pow2(r) + Pow2(r)
  {
    Pow2Add(start, r);
    assert start + (r + 1) - 1 == start + r;
  }

  /** The positions compare by these keys as their chains, as far as the given number of keys. */
  ghost predicate FollowsChains(ks: seq<Key>, d: nat, m: nat, x: nat, y: nat, a: Key, b: Key)
    requires d >= 1
  {
    && (KeyLess(a, b) ==> ChainLess(ks, d, x, y))
    && (a == b ==> ChainsAgree(ks, d, x, y, m))
  }

  /** One round: k are the keys before it. */
  lemma RoundFollowsChains(ks: seq<Key>, d: nat, m: nat, k: seq<Key>, x: nat, y: nat)
    requires d >= 1 && |k| == |ks| && x < |ks| && y < |ks| && FollowsChains(ks, d, m, x, y, k[x], k[y])
    requires x + m * d < |ks| && y + m * d < |ks| ==>
      FollowsChains(ks, d, m, x + m * d, y + m * d, k[x + m * d], k[y + m * d])
    ensures FollowsChains(ks, d, m + m, x, y, Doubled(k, m * d)[x], Doubled(k, m * d)[y])
  {
    var shift := m * d;
    AgreeSplit(ks, d, x, y, m, m);
    DoubledOrder(k, shift, x, y);
    if x + shift < |ks| && y + shift < |ks| {
      RankOrder(k, x + shift, y + shift);
      if k[x] == k[y] {
        ChainLessAfter(ks, d, x, y, m);
      }
    } else {
      AgreePastEnd(ks, d, x + shift, y + shift, m);
      if k[x] == k[y] && x + shift >= |ks| && y + shift < |ks| {
        ShorterChainIsLess(ks, d, x, y, m);
      }
    }
  }

  /** After any number of rounds, different keys are in the order of the chains, and equal keys stand for
      chains that agree as far as the shifts have reached. This holds for any first keys. */
  lemma {:induction false} KeysFollowChains(ks: seq<Key>, start: nat, r: nat, x: nat, y: nat)
    requires x < |ks| && y < |ks|
    ensures FollowsChains(ks, Pow2(start), Pow2(r), x, y, KeysAfter(ks, start, r)[x], KeysAfter(ks, start, r)[y])
    decreases r
  {
    if r == 0 {
      assert Pow2(0) == 1;
    } else {
      var shift := Pow2(start + r - 1);
      ShiftInBlocks(start, r - 1);
      KeysFollowChains(ks, start, r - 1, x, y);
      if x + shift < |ks| && y + shift < |ks| {
        KeysFollowChains(ks, start, r - 1, x + shift, y + shift);
      }
      RoundFollowsChains(ks, Pow2(start), Pow2(r - 1), KeysAfter(ks, start, r - 1), x, y);
    }
  }

  /** The least position has rank 0 in every round, as has what is tied with it. */
  lemma {:induction false} LeastHasRankZero(ks: seq<Key>, start: nat, r: nat, p: nat, q: nat)
    requires IsLeast(ks, Pow2(start), p) && q < |ks|
    ensures RankOf(KeysAfter(ks, start, r), p) == 0
    ensures RankOf(KeysAfter(ks, start, r), q) == 0 <==> TiedAfter(ks, start, r, q, p)
  {
    var k := KeysAfter(ks, start, r);
    forall y: nat | y < |k| ensures !KeyLess(k[y], k[p]) {
      if KeyLess(k[y], k[p]) {
        KeysFollowChains(ks, start, r, y, p);
        ChainLessAsymmetric(ks, Pow2(start), y, p);
      }
    }
    CountSmallerIsCardinality(k, k[p], |k|);
    assert (set y: nat | y < |k| && KeyLess(k[y], k[p])) == {};
    RankOrder(k, p, q);
  }
}
