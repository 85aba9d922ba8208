/** The reduced alphabet: every byte that occurs in the text is mapped to 1..sigma, in order. */
module Alphabet {
  import opened Sequences
  import opened Windows

  const BYTES: nat := 256

  /** A text of bytes. Byte 0 must not occur, because the text is padded with it. */
  ghost predicate IsByteText(t: Text) {
    forall i | 0 <= i < |t| :: t[i] < BYTES
  }

  /** The text that is distributed over the ranks. */
  function Whole(input: seq<Text>): Text {
    Flatten<Symbol>(input)
  }

  function Count(s: seq<nat>, c: nat): nat {
    if s == [] then 0 else Count(s[..|s| - 1], c) + if s[|s| - 1] == c then 1 else 0
  }

  /** The number of entries below c of the histogram that are not 0. */
  function Used(counts: seq<nat>, c: nat): nat
    requires c <= |counts|
  {
    if c == 0 then 0 else Used(counts, c - 1) + if counts[c - 1] > 0 then 1 else 0
  }

  function CodeOf(counts: seq<nat>, c: nat): nat
    requires c < |counts|
  {
    if counts[c] > 0 then 1 + Used(counts, c) else 0
  }

  /** Every character of the text occurs in the histogram. */
  ghost predicate HasCodes(counts: seq<nat>, t: Text) {
    forall i | 0 <= i < |t| :: t[i] < |counts| && counts[t[i]] > 0
  }

  /** The text with every byte replaced by its code. */
  ghost function Coded(counts: seq<nat>, t: Text): (r: Text)
    requires HasCodes(counts, t)
    ensures |r| == |t| && forall i | 0 <= i < |t| :: r[i] == CodeOf(counts, t[i])
  {
    seq(|t|, i requires 0 <= i < |t| => CodeOf(counts, t[i]))
  }

  ghost predicate IsHistogram(counts: seq<nat>, s: seq<nat>) {
    |counts| == BYTES && forall c | 0 <= c < BYTES :: counts[c] == Count(s, c)
  }

  lemma {:induction false} CountPositive(s: seq<nat>, c: nat)
    ensures Count(s, c) > 0 <==> c in s
  {
    if s != [] {
      CountPositive(s[..|s| - 1], c);
      assert s == s[..|s| - 1] + [s[|s| - 1]];
    }
  }

  lemma {:induction false} CountConcat(a: seq<nat>, b: seq<nat>, c: nat)
    ensures Count(a + b, c) == Count(a, c) + Count(b, c)
  {
    if b == [] {
      assert a + b == a;
    } else {
      assert (a + b)[..|a + b| - 1] == a + b[..|b| - 1];
      CountConcat(a, b[..|b| - 1], c);
    }
  }

  /** Counting gives the multiplicity. */
  lemma {:induction false} CountIsMultiplicity(s: seq<nat>, c: nat)
    ensures Count(s, c) == multiset(s)[c]
  {
    if s != [] {
      CountIsMultiplicity(s[..|s| - 1], c);
      assert s == s[..|s| - 1] + [s[|s| - 1]];
    }
  }

  /** The used bytes below c. */
  ghost function UsedBelow(counts: seq<nat>, c: nat): set<nat>
    requires c <= |counts|
  {
    set b: nat | b < c && counts[b] > 0
  }

  lemma {:induction false} UsedIsCardinality(counts: seq<nat>, c: nat)
    requires c <= |counts|
    ensures Used(counts, c) == |UsedBelow(counts, c)|
  {
    if c == 0 {
      assert UsedBelow(counts, c) == {};
    } else {
      UsedIsCardinality(counts, c - 1);
      assert UsedBelow(counts, c) == UsedBelow(counts, c - 1) + if counts[c - 1] > 0 then {c - 1} else {};
    }
  }

  /** The code of a used byte is its place among the used ones, from 1 on; unused bytes have code 0. */
  lemma CodeIsPlace(counts: seq<nat>, c: nat)
    requires c < |counts|
    ensures CodeOf(counts, c) == if counts[c] == 0 then 0 else |UsedBelow(counts, c + 1)|
  {
    UsedIsCardinality(counts, c);
    UsedIsCardinality(counts, c + 1);
  }

  /** There are as many codes as different characters. */
  lemma UsedIsAlphabet(counts: seq<nat>, t: Text)
    requires IsByteText(t) && IsHistogram(counts, t)
    ensures UsedBelow(counts, BYTES) == Elements<Symbol>(t) && Used(counts, BYTES) == |Elements<Symbol>(t)|
  {
    UsedIsCardinality(counts, BYTES);
    forall c: nat | c < BYTES ensures counts[c] > 0 <==> c in t {
      CountPositive(t, c);
    }
    assert forall c: nat :: c in t ==> c < BYTES;
    assert UsedBelow(counts, BYTES) == Elements<Symbol>(t);
  }

  lemma HistogramUsed(counts: seq<nat>, s: seq<nat>, i: nat)
    requires IsHistogram(counts, s) && i < |s| && s[i] < BYTES
    ensures counts[s[i]] > 0
  {
    CountPositive(s, s[i]);
  }

  lemma {:induction false} UsedMonotone(counts: seq<nat>, c: nat, c': nat)
    requires c <= c' <= |counts|
    ensures Used(counts, c) <= Used(counts, c')
    ensures c < c' && counts[c] > 0 ==> Used(counts, c) < Used(counts, c')
  {
    if c < c' { UsedMonotone(counts, c, c' - 1); }
  }

  /** Codes of occurring bytes keep their order, so the map is one-to-one, and lie between 1 and sigma. */
  lemma CodeOrder(counts: seq<nat>, c: nat, c': nat)
    requires c < |counts| && c' < |counts| && counts[c] > 0 && counts[c'] > 0
    ensures c < c' <==> CodeOf(counts, c) < CodeOf(counts, c')
    ensures c == c' <==> CodeOf(counts, c) == CodeOf(counts, c')
    ensures 1 <= CodeOf(counts, c) <= Used(counts, |counts|)
  {
    UsedMonotone(counts, c, |counts|);
    if c < c' {
      UsedMonotone(counts, c, c');
    } else if c' < c {
      UsedMonotone(counts, c', c);
    }
  }

  /** The map is onto 1..sigma. */
  lemma {:induction false} CodeIsOnto(counts: seq<nat>, n: nat, v: nat) returns (c: nat)
    requires n <= |counts| && 1 <= v <= Used(counts, n)
    ensures c < n && counts[c] > 0 && CodeOf(counts, c) == v
  {
    if v == Used(counts, n) && counts[n - 1] > 0 {
      c := n - 1;
    } else {
      c := CodeIsOnto(counts, n - 1, v);
    }
  }

  /** Every code occurs in the coded text. */
  lemma CodedIsOnto(counts: seq<nat>, t: Text, v: nat) returns (i: nat)
    requires IsByteText(t) && IsHistogram(counts, t)
    requires HasCodes(counts, t)
    requires 1 <= v <= Used(counts, BYTES)
    ensures i < |t| && Coded(counts, t)[i] == v
  {
    var c := CodeIsOnto(counts, BYTES, v);
    CountPositive(t, c);
    i :| 0 <= i < |t| && t[i] == c;
  }

  lemma {:induction false} CodedKeepsOrder(counts: seq<nat>, a: Text, b: Text)
    requires HasCodes(counts, a)
    requires HasCodes(counts, b)
    ensures LexLess(Coded(counts, a), Coded(counts, b)) == LexLess(a, b)
  {
    if a != [] && b != [] {
      CodeOrder(counts, a[0], b[0]);
      CodedKeepsOrder(counts, a[1..], b[1..]);
      assert Coded(counts, a)[1..] == Coded(counts, a[1..]);
      assert Coded(counts, b)[1..] == Coded(counts, b[1..]);
    }
  }

  lemma CodedKeepsSuffixOrder(counts: seq<nat>, t: Text, i: nat, j: nat)
    requires HasCodes(counts, t) && i <= |t| && j <= |t|
    ensures SuffixLess(Coded(counts, t), i, j) == SuffixLess(t, i, j)
  {
    CodedKeepsOrder(counts, t[i..], t[j..]);
    assert Coded(counts, t)[i..] == Coded(counts, t[i..]);
    assert Coded(counts, t)[j..] == Coded(counts, t[j..]);
  }

  /** Replacing bytes by codes does not change the suffix array. */
  lemma CodedHasSameSuffixArray(counts: seq<nat>, t: Text, sa: seq<nat>)
    requires HasCodes(counts, t)
    ensures IsSuffixArray(Coded(counts, t), sa) <==> IsSuffixArray(t, sa)
  {
    forall i: nat, j: nat | i <= |t| && j <= |t| ensures SuffixLess(Coded(counts, t), i, j) == SuffixLess(t, i, j) {
      CodedKeepsSuffixOrder(counts, t, i, j);
    }
  }

  /** Equal pieces of the text have equal codes, and the other way round. */
  lemma {:induction false} CodedKeepsWindows(counts: seq<nat>, t: Text, i: nat, j: nat, h: nat)
    requires HasCodes(counts, t) && i + h <= |t| && j + h <= |t|
    ensures WindowEqual(Coded(counts, t), i, j, h) == WindowEqual(t, i, j, h)
    decreases h
  {
    if h > 0 {
      CodeOrder(counts, t[i], t[j]);
      CodedKeepsWindows(counts, t, i + 1, j + 1, h - 1);
    }
  }

  // ----- the program -----

  /** The histogram of the local input. */
  method CountSymbols(input: Text) returns (hist: array<nat>)
    requires IsByteText(input)
    ensures fresh(hist) && IsHistogram(hist[..], input)
  {
    hist := new nat[BYTES](_ => 0);
    for i := 0 to |input|
      invariant hist.Length == BYTES
      invariant forall c | 0 <= c < BYTES :: hist[c] == Count(input[..i], c)
    {
      assert input[..i + 1][..i] == input[..i];
      hist[input[i]] := hist[input[i]] + 1;
    }
    assert input[..|input|] == input;
  }

  /** The histograms of all ranks, added up on every rank. */
  method AllreduceHistogram(input: seq<Text>) returns (hist: array<nat>)
    requires forall r | 0 <= r < |input| :: IsByteText(input[r])
    ensures fresh(hist) && IsHistogram(hist[..], Whole(input))
  {
    hist := new nat[BYTES](_ => 0);
    for r := 0 to |input|
      invariant fresh(hist) && hist.Length == BYTES
      invariant forall c | 0 <= c < BYTES :: hist[c] == Count(Whole(input[..r]), c)
    {
      var local := CountSymbols(input[r]);
      FlattenStep<Symbol>(input, r);
      ghost var before, added := hist[..], local[..];
      forall c | 0 <= c < BYTES ensures Count(Whole(input[..r + 1]), c) == before[c] + added[c] {
        CountConcat(Whole(input[..r]), input[r], c);
      }
      for c := 0 to BYTES
        invariant fresh(hist) && hist.Length == BYTES && local[..] == added
        invariant forall k | 0 <= k < c :: hist[k] == before[k] + added[k]
        invariant forall k | c <= k < BYTES :: hist[k] == before[k]
      {
        hist[c] := hist[c] + local[c];
      }
    }
    assert input[..|input|] == input;
  }

  /** Turns the histogram into the map, in place. */
  method BuildMap(hist: array<nat>) returns (newAlphabetSize: nat)
    modifies hist
    ensures newAlphabetSize == 1 + Used(old(hist[..]), hist.Length)
    ensures forall c | 0 <= c < hist.Length :: hist[c] == CodeOf(old(hist[..]), c)
  {
    newAlphabetSize := 1;
    ghost var counts := hist[..];
    for c := 0 to hist.Length
      invariant newAlphabetSize == 1 + Used(counts, c)
      invariant forall k | 0 <= k < c :: hist[k] == CodeOf(counts, k)
      invariant hist[c..] == counts[c..]
    {
      assert hist[c] == hist[c..][0] == counts[c];
      assert hist[c + 1..] == hist[c..][1..];
      if hist[c] > 0 {
        hist[c] := newAlphabetSize;
        newAlphabetSize := newAlphabetSize + 1;
      } else {
        hist[c] := 0;
      }
    }
  }
}
