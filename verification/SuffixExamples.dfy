/** Legal inputs of the suffix sorter: one for which it does what it promises, and one for each way to fail. */
module SuffixExamples {
  import opened Sequences
  import opened Bits
  import opened Windows
  import opened Doubling
  import opened Agreement
  import opened Alphabet
  import opened Packing
  import opened EmptyRanks
  import opened PrefixDoubling
  import opened FirstKeys
  import opened SuffixSorting

  // ----- inputs that use the bytes 1 to m -----

  ghost predicate UsesExactly(t: Text, m: nat) {
    && (forall i | 0 <= i < |t| :: t[i] <= m)
    && forall c: Symbol | c <= m :: c in t
  }

  lemma {:induction false} UsedDense(counts: seq<nat>, m: nat, c: nat)
    requires c <= |counts| && forall i | 0 <= i < |counts| :: counts[i] > 0 <==> 1 <= i <= m
    ensures Used(counts, c) == if c == 0 then 0 else if c <= m then c - 1 else m
  {
    if c > 0 { UsedDense(counts, m, c - 1); }
  }

  /** Such a text is its own code. */
  lemma DenseAlphabet(t: Text, m: nat, counts: seq<nat>)
    requires 1 <= m < BYTES && UsesExactly(t, m) && IsHistogram(counts, t)
    ensures AlphabetSize(counts) == m + 1 && forall c | 1 <= c <= m :: counts[c] > 0 && CodeOf(counts, c) == c
  {
    forall c | 0 <= c < BYTES ensures counts[c] > 0 <==> 1 <= c <= m {
      CountPositive(t, c);
      if 1 <= c <= m {
        var s: Symbol := c;
        assert s in t;
      }
    }
    UsedDense(counts, m, BYTES);
    forall c | 1 <= c <= m ensures CodeOf(counts, c) == c {
      UsedDense(counts, m, c);
    }
  }

  function Histogram(s: seq<nat>): (counts: seq<nat>)
    ensures IsHistogram(counts, s)
  {
    seq(BYTES, c requires 0 <= c < BYTES => Count(s, c))
  }

  ghost predicate SymbolsUpTo(input: seq<Text>, m: nat) {
    forall r, i | 0 <= r < |input| && 0 <= i < |input[r]| :: input[r][i] <= m
  }

  /** The input is legal, is its own code, and takes b bits per symbol and k symbols per word. */
  ghost predicate IsPlain(w: nat, b: nat, k: nat, input: seq<Text>, counts: seq<nat>) {
    && IsInput(w, input, counts)
    && BitsPerSymbol(counts) == b && Fitting(w, counts) == k && k >= 1 && b * k <= w
    && IsSpread(input, k) && AllFitBits(input, b)
    && (forall r | 0 <= r < |input| :: HasCodes(counts, input[r]))
    && CodedInput(counts, input) == input
  }

  lemma {:induction false} DenseCodes(input: seq<Text>, m: nat, counts: seq<nat>)
    requires 1 <= m < BYTES && UsesExactly(Whole(input), m) && SymbolsUpTo(input, m)
    requires IsHistogram(counts, Whole(input))
    ensures AlphabetSize(counts) == m + 1
    ensures (forall r | 0 <= r < |input| :: HasCodes(counts, input[r])) && CodedInput(counts, input) == input
  {
    DenseAlphabet(Whole(input), m, counts);
    forall r | 0 <= r < |input| ensures HasCodes(counts, input[r]) && Coded(counts, input[r]) == input[r] {
      assert forall i | 0 <= i < |input[r]| :: 1 <= input[r][i] <= m;
    }
    assert CodedInput(counts, input) == input;
  }

  /** What makes such an input legal, and what the program computes about it. */
  lemma {:induction false} DenseInput(w: nat, b: nat, input: seq<Text>, m: nat, counts: seq<nat>)
    requires |input| > 0 && w >= 8 && 1 <= m < BYTES && UsesExactly(Whole(input), m) && SymbolsUpTo(input, m)
    requires IsHistogram(counts, Whole(input)) && |Whole(input)| < Pow2(w) && b == CeilLog2(m + 1) >= 1
    requires forall r | 0 <= r < |input| :: |input[r]| > 2 * (w / b)
    ensures IsPlain(w, b, w / b, input, counts)
  {
    DenseCodes(input, m, counts);
    assert Fitting(w, counts) == w / b;
    assert IsInput(w, input, counts);
    CodedInputFits(w, input, counts);
    SymbolsFit(w, input, counts);
  }

  /** Then the keys the ranks start with are those of the input as it is. */
  lemma {:induction false} PlainKeys(w: nat, b: nat, k: nat, input: seq<Text>, counts: seq<nat>)
    requires IsPlain(w, b, k, input, counts)
    ensures InputKeys(w, input, counts) == FirstKeysOf(w, b, k, input) && Start(w, counts) == StartIteration(k)
    ensures FillsWord(w, counts) <==> b * k == w
    ensures HalosFit(input, k) ==> InputKeys(w, input, counts) == PackedKeys(w, b, k, Whole(input))
  {
    if HalosFit(input, k) {
      FittingFirstKeys(w, b, k, input);
    }
  }

  /** What the suffix sorter does with such an input. */
  method SortPlain(w: nat, ghost b: nat, ghost k: nat, input: seq<Text>, sortPairs: PairSorter, sortRanks: RankSorter,
      ghost counts: seq<nat>, ghost ks: seq<Key>) returns (out: Outcome, ghost rounds: nat)
    requires IsPlain(w, b, k, input, counts) && ks == FirstKeysOf(w, b, k, input)
    requires IsPairSorter(sortPairs) && IsRankSorter(w, sortRanks)
    ensures out.Done? ==> SortedByKey(Flatten(out.result), KeysAfter(ks, StartIteration(k), rounds))
    ensures out.Done? && HalosFit(input, k) ==> (IsSuffixArray(Whole(input), Flatten(out.result)) <==> b * k == w)
    ensures out.ShiftTooLong? ==> IsPowerOf2(k) && !Distinct(KeysAfter(ks, StartIteration(k), rounds))
    ensures HalosFit(input, k) && b * k == w && IsPowerOf2(k) && !out.EmptyRank? ==>
      (out.Done? <==> !EndRepeats(Whole(input), StartIteration(k)))
    ensures |Elements(ks)| < |input| ==> out.EmptyRank?
    ensures |input| == 1 ==> !out.EmptyRank? && HalosFit(input, k)
    ensures IsGenerousPairSorter(sortPairs) && IsGenerousRankSorter(w, sortRanks) ==>
      (out.EmptyRank? <==> |Elements(ks)| < |input|)
  {
    PlainKeys(w, b, k, input, counts);
    var n;
    ghost var keys, last;
    out, n, keys, last := SortSuffixes(w, input, sortPairs, sortRanks, counts);
    rounds := n;
  }

  lemma WholeOfOne(t: Text)
    ensures Whole([t]) == t
  {
    var parts: seq<seq<Symbol>> := [t];
    FlattenOfOne<Symbol>(t);
    assert parts == [t];
  }

  lemma {:induction false} WordHolds(w: nat)
    requires w >= 8
    ensures 4 * w + 8 < Pow2(w)
  {
    if w == 8 {
      assert Pow2(8) == 256;
    } else {
      WordHolds(w - 1);
    }
  }

  // ----- the right result -----

  /** One byte and, at the end, a greater one. */
  function Marked(k: nat): Text {
    Uniform(2 * k + 1) + [2]
  }

  lemma {:induction false} EarlierIsSmaller(k: nat, x: nat, y: nat)
    requires x < y < |Marked(k)|
    ensures SuffixLess(Marked(k), x, y)
    decreases |Marked(k)| - y
  {
    var t := Marked(k);
    if y + 1 < |t| {
      EarlierIsSmaller(k, x + 1, y + 1);
      assert t[x..][1..] == t[x + 1..] && t[y..][1..] == t[y + 1..];
    }
  }

  lemma LaterIsNotSmallest(k: nat, p: nat)
    requires 0 < p < |Marked(k)|
    ensures !IsSmallestSuffix(Marked(k), p)
  {
    EarlierIsSmaller(k, 0, p);
    LexLessTrichotomy(Marked(k)[0..], Marked(k)[p..]);
    assert !SuffixLess(Marked(k), p, 0);
  }

  /** Nothing comes before its smallest suffix. */
  lemma MarkedDoesNotRepeat(k: nat, start: nat)
    ensures !EndRepeats(Marked(k), start)
  {
    forall p: nat, i: nat ensures !IsSmallestSuffix(Marked(k), p) || !EndsLike(Marked(k), start, p, i) {
      if 0 < p < |Marked(k)| {
        LaterIsNotSmallest(k, p);
      }
    }
  }

  lemma MarkedIsLegal(k: nat, counts: seq<nat>)
    requires k >= 4 && IsHistogram(counts, Marked(k))
    ensures IsPlain(2 * k, 2, k, [Marked(k)], counts)
  {
    var t := Marked(k);
    WholeOfOne(t);
    WordHolds(2 * k);
    SmallLogarithms();
    assert t[0] == 1 && t[2 * k + 1] == 2;
    assert UsesExactly(t, 2);
    assert 2 * k / 2 == k;
    DenseInput(2 * k, 2, [t], 2, counts);
  }

  /** For words of any even number of bits the program sorts this text on one rank, into its suffix array. */
  method MarkedInputIsSorted(k: nat, sortPairs: PairSorter, sortRanks: RankSorter) returns (out: Outcome)
    requires k >= 4
    requires IsPairSorter(sortPairs) && IsRankSorter(2 * k, sortRanks)
    ensures out.Done? && IsSuffixArray(Marked(k), Flatten(out.result))
  {
    ghost var counts := Histogram(Marked(k));
    ghost var rounds;
    MarkedIsLegal(k, counts);
    WholeOfOne(Marked(k));
    MarkedDoesNotRepeat(k, StartIteration(k));
    ghost var ks := FirstKeysOf(2 * k, 2, k, [Marked(k)]);
    out, rounds := SortPlain(2 * k, 2, k, [Marked(k)], sortPairs, sortRanks, counts, ks);
  }

  // ----- no result: one byte -----

  lemma UniformAlphabet(n: nat)
    requires n >= 1
    ensures UsesExactly(Uniform(n), 1)
  {
    forall c: Symbol | c <= 1 ensures c in Uniform(n) {
      assert Uniform(n)[0] == c;
    }
  }

  lemma SmallLogarithms()
    ensures CeilLog2(2) == 1 && CeilLog2(3) == 2 && CeilLog2(4) == 2 && CeilLog2(5) == 3
  {
    assert CeilLog2(1) == 0;
  }

  /** The text that repeats one byte 2w + 2 times is a legal input for words of w >= 8 bits; one symbol
      takes one bit. */
  lemma UniformInputIsLegal(w: nat, counts: seq<nat>)
    requires w >= 8 && IsHistogram(counts, Uniform(2 * w + 2))
    ensures IsPlain(w, 1, w, [Uniform(2 * w + 2)], counts)
  {
    var t := Uniform(2 * w + 2);
    WholeOfOne(t);
    WordHolds(w);
    UniformAlphabet(2 * w + 2);
    SmallLogarithms();
    assert w / 1 == w;
    DenseInput(w, 1, [t], 1, counts);
  }

  /** On one rank with words of w = 2^v bits it has no result, although the symbols fill the word: the
      keys are never all different, so the loop runs into a shift by the whole width of a word. */
  method UniformInputEndsInShift(w: nat, v: nat, sortPairs: PairSorter, sortRanks: RankSorter)
      returns (out: Outcome)
    requires w >= 8 && w == Pow2(v)
    requires IsPairSorter(sortPairs) && IsRankSorter(w, sortRanks)
    ensures out.ShiftTooLong?
  {
    ghost var t, counts := Uniform(2 * w + 2), Histogram(Uniform(2 * w + 2));
    ghost var rounds;
    UniformInputIsLegal(w, counts);
    WholeOfOne(t);
    FittingFirstKeys(w, 1, w, [t]);
    out, rounds := SortPlain(w, 1, w, [Uniform(2 * w + 2)], sortPairs, sortRanks, counts, PackedKeys(w, 1, w, t));
    UniformKeysStayTied(w, v, rounds);
    if out.Done? {
      SortedKeysAreDistinct(Flatten(out.result), FinalKeys(w, 1, w, t, rounds));
    }
  }

  lemma {:induction false} UniformKeysStayTied(w: nat, v: nat, rounds: nat)
    requires w >= 1 && w == Pow2(v)
    ensures !Distinct(FinalKeys(w, 1, w, Uniform(2 * w + 2), rounds))
  {
    FloorLog2Unique(w, v);
    UniformTextNeverFinishesPacked(w, 1, w, rounds);
  }

  // ----- a wrong result: bits left over -----

  /** Four different bytes, of three bits each. */
  function LeftOver(w: nat): Text {
    Uniform(2 * (w / 3) + 1) + [2, 3, 4]
  }

  lemma LeftOverAlphabet(w: nat)
    ensures UsesExactly(LeftOver(w), 4)
  {
    var t, n := LeftOver(w), 2 * (w / 3) + 1;
    forall c: Symbol | c <= 4 ensures c in t {
      assert t[if c == 1 then 0 else n + (c - 2)] == c;
    }
  }

  /** In words of 2^v >= 16 bits, symbols of three bits leave bits over, and their number is not a power of two. */
  lemma ThreeBitsLeaveSome(w: nat, v: nat)
    requires v >= 4 && w == Pow2(v)
    ensures 3 * (w / 3) < w && w / 3 >= 1 && !IsPowerOf2(w / 3)
  {
    var k := w / 3;
    Pow2Monotone(4, v);
    assert Pow2(4) == 16;
    FloorLog2Unique(k, v - 2);
    if 3 * k == w {
      FilledWordMeansPowerOf2(v, 3, k);
    }
  }

  lemma LeftOverIsLegal(w: nat, counts: seq<nat>)
    requires w >= 8 && IsHistogram(counts, LeftOver(w))
    ensures IsPlain(w, 3, w / 3, [LeftOver(w)], counts)
  {
    WholeOfOne(LeftOver(w));
    WordHolds(w);
    LeftOverAlphabet(w);
    SmallLogarithms();
    DenseInput(w, 3, [LeftOver(w)], 4, counts);
  }

  /** On one rank the program sorts this text, but not into its suffix array. */
  method LeftOverInputIsMissorted(w: nat, v: nat, sortPairs: PairSorter, sortRanks: RankSorter)
      returns (out: Outcome)
    requires v >= 4 && w == Pow2(v)
    requires IsPairSorter(sortPairs) && IsRankSorter(w, sortRanks)
    ensures out.Done? && !IsSuffixArray(LeftOver(w), Flatten(out.result))
  {
    ghost var counts := Histogram(LeftOver(w));
    Pow2Monotone(4, v);
    assert Pow2(4) == 16;
    LeftOverIsLegal(w, counts);
    WholeOfOne(LeftOver(w));
    ThreeBitsLeaveSome(w, v);
    ghost var rounds;
    ghost var ks := FirstKeysOf(w, 3, w / 3, [LeftOver(w)]);
    out, rounds := SortPlain(w, 3, w / 3, [LeftOver(w)], sortPairs, sortRanks, counts, ks);
  }

  // ----- a wrong result: the wrong characters received -----

  /** Two ranks with w + 1 characters each; the second does not begin with the characters it ends with. */
  function TwoRanks(w: nat): (input: seq<Text>)
    requires w >= 1
    ensures AreTwoRanks(w, input)
  {
    [[3, 2] + Uniform(w - 1), [3, 1] + seq<Symbol>(w - 1, _ => 2)]
  }

  predicate AreTwoRanks(w: nat, input: seq<Text>) {
    && |input| == 2
    && |input[0]| == |input[1]| == w + 1
    && (forall i | 0 <= i <= w :: input[0][i] == if i == 0 then 3 else if i == 1 then 2 else 1)
    && forall i | 0 <= i <= w :: input[1][i] == if i == 0 then 3 else if i == 1 then 1 else 2
  }

  lemma {:induction false} TwoRanksWhole(w: nat, input: seq<Text>)
    requires AreTwoRanks(w, input)
    ensures Whole(input) == input[0] + input[1] && Offset<Symbol>(input, 0) == 0 && Offset<Symbol>(input, 1) == w + 1
  {
    FlattenStep<Symbol>(input, 0);
    FlattenStep<Symbol>(input, 1);
    assert input[..0] == [] && input[..2] == input;
  }

  lemma {:induction false} TwoRanksAlphabet(w: nat, input: seq<Text>)
    requires w >= 2 && AreTwoRanks(w, input)
    ensures UsesExactly(Whole(input), 3) && SymbolsUpTo(input, 3)
  {
    TwoRanksWhole(w, input);
    var t := Whole(input);
    assert t[0] == 3 && t[1] == 2 && t[2] == 1;
  }

  /** For words of an even number of bits the input is legal, and its symbols of two bits fill the word. */
  lemma {:induction false} TwoRanksAreLegal(k: nat, input: seq<Text>, counts: seq<nat>)
    requires k >= 4 && AreTwoRanks(2 * k, input) && IsHistogram(counts, Whole(input))
    ensures IsPlain(2 * k, 2, k, input, counts)
  {
    TwoRanksWhole(2 * k, input);
    TwoRanksAlphabet(2 * k, input);
    WordHolds(2 * k);
    SmallLogarithms();
    assert 2 * k / 2 == k;
    DenseInput(2 * k, 2, input, 3, counts);
  }

  /** What the ranks pack: after its own characters the first one sees the last w of the second. */
  function Seen(w: nat, r: nat, m: nat): nat {
    if m == 0 then 3
    else if r == 0 then (if m == 1 then 2 else if m <= w + 1 then 1 else if m <= 2 * w then 2 else 0)
    else if m == 1 then 1 else if m <= w then 2 else 0
  }

  ghost predicate IsSeen(w: nat, r: nat, t: Text) {
    forall m: nat :: At(t, m) == Seen(w, r, m)
  }

  lemma TwoRanksSee(k: nat, input: seq<Text>, r: nat)
    requires k >= 4 && AreTwoRanks(2 * k, input) && r <= 1 && IsSpread(input, k)
    ensures IsSeen(2 * k, r, LocalText(input, r, k))
  {
    if r == 0 {
      assert Halo(input, 0, k) == input[1][1..];
    }
  }

  lemma TwoRanksHaloIsWrong(k: nat, input: seq<Text>)
    requires k >= 4 && AreTwoRanks(2 * k, input) && IsSpread(input, k)
    ensures !HalosFit(input, k)
  {
    assert Halo(input, 0, k)[0] == input[1][1] == 1 && input[1][0] == 3;
    assert !HaloFits(input, k, 0);
  }

  lemma SmallerSecondSymbol(t: Text, i: nat, j: nat, h: nat)
    requires h >= 2 && At(t, i) == At(t, j) && At(t, i + 1) < At(t, j + 1)
    ensures WindowLess(t, i, j, h)
  {
    assert WindowLess(t, i + 1, j + 1, h - 1);
  }

  /** The last position of the first rank is taken for smaller than the last but one after it. */
  lemma {:induction false} WrongAtTheSeam(k: nat, t: Text, t': Text)
    requires k >= 4 && FitsBits(t, 2) && FitsBits(t', 2) && IsSeen(2 * k, 0, t) && IsSeen(2 * k, 1, t')
    ensures KeyLess(PackedKey(2 * k, 2, k, t, 2 * k), PackedKey(2 * k, 2, k, t', 1))
  {
    var w := 2 * k;
    forall m | 0 <= m < w ensures Window(t', 1, w)[m] == Window(t, w + 1, w)[m] {
      assert At(t', 1 + m) == At(t, w + 1 + m) == if m == 0 then 1 else 2;
    }
    PackedKeyEqualIff(w, 2, k, t', 1, t, w + 1);
    SmallerSecondSymbol(t, w, w + 1, w);
    PackedKeysOrder(w, 2, k, t);
    assert At(t, w + 1) == 1;
    assert KeyLess(PackedKeys(w, 2, k, t)[w], PackedKeys(w, 2, k, t)[w + 1]);
  }

  lemma {:induction false} ConcatenatedSuffixes(w: nat, input: seq<Text>, t: Text)
    requires w >= 8 && AreTwoRanks(w, input) && t == input[0] + input[1]
    ensures |t| == 2 * w + 2 && SuffixLess(t, w + 2, w)
  {
    assert t[w] == 1 && t[w + 1] == 3 && t[w + 2] == 1 && t[w + 3] == 2;
    SmallerSecondSymbol(t, w + 2, w, 2);
    WindowLessIsSuffixLess(t, w + 2, w, 2);
  }

  lemma TwoRanksSuffixes(w: nat, input: seq<Text>, t: Text)
    requires w >= 8 && AreTwoRanks(w, input) && t == Whole(input)
    ensures |t| == 2 * w + 2 && SuffixLess(t, w + 2, w)
  {
    TwoRanksWhole(w, input);
    ConcatenatedSuffixes(w, input, t);
  }

  lemma {:induction false} TwoRanksKeys(k: nat, input: seq<Text>, ks: seq<Key>)
    requires k >= 4 && AreTwoRanks(2 * k, input) && IsSpread(input, k) && AllFitBits(input, 2)
    requires ks == FirstKeysOf(2 * k, 2, k, input)
    ensures |ks| == 4 * k + 2 && KeyLess(ks[2 * k], ks[2 * k + 2])
  {
    FirstKeysLength(2 * k, 2, k, input);
    TwoRanksWhole(2 * k, input);
    FirstKeysAt(2 * k, 2, k, input, 0, 2 * k);
    FirstKeysAt(2 * k, 2, k, input, 1, 1);
    LocalTextFits(2, k, input, 0);
    LocalTextFits(2, k, input, 1);
    TwoRanksSee(k, input, 0);
    TwoRanksSee(k, input, 1);
    WrongAtTheSeam(k, LocalText(input, 0, k), LocalText(input, 1, k));
  }

  lemma {:induction false} TwoRanksWrongOrder(k: nat, input: seq<Text>, t: Text, ks: seq<Key>)
    requires k >= 4 && AreTwoRanks(2 * k, input) && IsSpread(input, k) && AllFitBits(input, 2)
    requires ks == FirstKeysOf(2 * k, 2, k, input) && t == Whole(input)
    ensures WrongOrder(t, ks, 2 * k, 2 * k + 2)
  {
    TwoRanksSuffixes(2 * k, input, t);
    TwoRanksKeys(k, input, ks);
  }

  /** So no number of rounds gives the suffix array. */
  lemma {:induction false} TwoRanksAreMissorted(k: nat, input: seq<Text>, ks: seq<Key>, start: nat, rounds: nat,
      sa: seq<nat>)
    requires k >= 4 && AreTwoRanks(2 * k, input) && IsSpread(input, k) && AllFitBits(input, 2)
    requires ks == FirstKeysOf(2 * k, 2, k, input) && SortedByKey(sa, KeysAfter(ks, start, rounds))
    ensures !IsSuffixArray(Whole(input), sa)
  {
    TwoRanksWrongOrder(k, input, Whole(input), ks);
    WrongOrderStays(Whole(input), ks, start, rounds, 2 * k, 2 * k + 2, sa);
  }

  /** Where two of the windows the ranks see differ. */
  function DifferAt(w: nat, r: nat, i: nat, s: nat, j: nat): (m: nat)
    requires w >= 8 && r <= 1 && s <= 1 && i <= w && j <= w && !(r == s && i == j)
    ensures m < w && Seen(w, r, i + m) != Seen(w, s, j + m)
  {
    if r > s || (r == s && i > j) then DifferAt(w, s, j, r, i)
    else if r == s then (if i < 2 then 0 else if r == 0 then w + 2 - j else w + 1 - j)
    else if i == 0 then (if j == 0 then 1 else 0)
    else if i == 1 then (if j <= 1 then 0 else 1)
    else if j == 1 then 1 else 0
  }

  lemma {:induction false} SeenWindowsDiffer(k: nat, r: nat, t: Text, i: nat, s: nat, t': Text, j: nat)
    requires k >= 4 && r <= 1 && s <= 1 && i <= 2 * k && j <= 2 * k && !(r == s && i == j)
    requires IsSeen(2 * k, r, t) && IsSeen(2 * k, s, t')
    ensures Window(t, i, 2 * k) != Window(t', j, 2 * k)
  {
    var m := DifferAt(2 * k, r, i, s, j);
    assert Window(t, i, 2 * k)[m] == At(t, i + m) == Seen(2 * k, r, i + m);
    assert Window(t', j, 2 * k)[m] == At(t', j + m) == Seen(2 * k, s, j + m);
  }

  lemma TwoRanksKeysDiffer(k: nat, input: seq<Text>)
    requires k >= 4 && AreTwoRanks(2 * k, input) && IsSpread(input, k) && AllFitBits(input, 2)
    ensures Distinct(FirstKeysOf(2 * k, 2, k, input))
  {
    forall r: nat, i: nat, s: nat, j: nat |
        r < |input| && i < |input[r]| && s < |input| && j < |input[s]| && !(r == s && i == j)
      ensures SeeDifferent(k, input, r, i, s, j)
    {
      TwoRanksSee(k, input, r);
      TwoRanksSee(k, input, s);
      SeenWindowsDiffer(k, r, LocalText(input, r, k), i, s, LocalText(input, s, k), j);
    }
    DifferentWindowsMeanDistinct(2 * k, 2, k, input);
  }

  /** On two ranks with sorts that leave no rank empty if it can be helped, the program sorts this text at
      once, but not into its suffix array, although the symbols fill the word. Other sorts change nothing
      about the order. */
  method TwoRanksInputIsMissorted(k: nat, sortPairs: PairSorter, sortRanks: RankSorter)
      returns (out: Outcome)
    requires k >= 4
    requires IsPairSorter(sortPairs) && IsRankSorter(2 * k, sortRanks)
    ensures IsSpread(TwoRanks(2 * k), k) && !HalosFit(TwoRanks(2 * k), k)
    ensures out.Done? ==> !IsSuffixArray(Whole(TwoRanks(2 * k)), Flatten(out.result))
    ensures IsGenerousPairSorter(sortPairs) && IsGenerousRankSorter(2 * k, sortRanks) ==> out.Done?
  {
    ghost var counts := Histogram(Whole(TwoRanks(2 * k)));
    TwoRanksAreLegal(k, TwoRanks(2 * k), counts);
    TwoRanksHaloIsWrong(k, TwoRanks(2 * k));
    ghost var ks := FirstKeysOf(2 * k, 2, k, TwoRanks(2 * k));
    ghost var rounds;
    out, rounds := SortPlain(2 * k, 2, k, TwoRanks(2 * k), sortPairs, sortRanks, counts, ks);
    TwoRanksKeys(k, TwoRanks(2 * k), ks);
    TwoRanksKeysDiffer(k, TwoRanks(2 * k));
    DistinctCardinality(ks);
    DistinctStays(ks, StartIteration(k), rounds);
    if out.Done? {
      TwoRanksAreMissorted(k, TwoRanks(2 * k), ks, StartIteration(k), rounds, Flatten(out.result));
    }
  }

  // ----- a rank without data: fewer keys than ranks -----

  /** One byte on 2w + 1 ranks, 2w + 1 times on each. */
  function Crowded(w: nat): (input: seq<Text>)
    ensures |input| == 2 * w + 1
  {
    seq(2 * w + 1, _ => Uniform(2 * w + 1))
  }

  lemma {:induction false} WholeOfUniform(input: seq<Text>, m: nat)
    requires forall r | 0 <= r < |input| :: input[r] == Uniform(m)
    ensures Whole(input) == Uniform(|input| * m)
  {
    if input != [] {
      var n := |input| - 1;
      WholeOfUniform(input[..n], m);
      assert |input| * m == n * m + m;
    }
  }

  lemma {:induction false} WordHoldsSquare(w: nat)
    requires w >= 9
    ensures (2 * w + 1) * (2 * w + 1) < Pow2(w)
  {
    if w == 9 {
      assert Pow2(9) == 512;
    } else {
      WordHoldsSquare(w - 1);
      assert (2 * w + 1) * (2 * w + 1) == (2 * w - 1) * (2 * w - 1) + 8 * w;
      assert 8 * w <= (2 * w - 1) * (2 * w - 1);
    }
  }

  lemma CrowdedIsLegal(w: nat, counts: seq<nat>)
    requires w >= 9 && IsHistogram(counts, Whole(Crowded(w)))
    ensures IsPlain(w, 1, w, Crowded(w), counts) && HalosFit(Crowded(w), w)
  {
    var n := (2 * w + 1) * (2 * w + 1);
    WholeOfUniform(Crowded(w), 2 * w + 1);
    WordHoldsSquare(w);
    UniformAlphabet(n);
    SmallLogarithms();
    assert w / 1 == w;
    DenseInput(w, 1, Crowded(w), 1, counts);
  }

  /** The windows of a uniform text differ only in how far they reach. */
  lemma {:induction false} UniformHasFewKeys(t: Text, ks: seq<Key>, h: nat)
    requires t == Uniform(|t|) && h >= 1 && SeparatesWindows(t, ks, h)
    ensures |Elements(ks)| <= h
  {
    var n := |t|;
    var reach := seq<nat>(n, x requires 0 <= x < n => Reach(n, x, h) - 1);
    forall x, y | 0 <= x < n && 0 <= y < n && reach[x] == reach[y] ensures ks[x] == ks[y] {
      UniformWindows(n, x, y, h);
    }
    FinerHasMoreValues(ks, reach);
    SubsetCardinality(Elements(reach), Range(h));
  }

  /** Whatever the sorts do, some rank runs out of data. */
  method CrowdedInputRunsEmpty(w: nat, sortPairs: PairSorter, sortRanks: RankSorter) returns (out: Outcome)
    requires w >= 9
    requires IsPairSorter(sortPairs) && IsRankSorter(w, sortRanks)
    ensures out.EmptyRank?
  {
    ghost var t, counts := Whole(Crowded(w)), Histogram(Whole(Crowded(w)));
    ghost var rounds;
    CrowdedIsLegal(w, counts);
    FittingFirstKeys(w, 1, w, Crowded(w));
    WholeOfUniform(Crowded(w), 2 * w + 1);
    LocalTextFits(1, w, Crowded(w), 0);
    PackedKeysSeparate(w, 1, w, t);
    UniformHasFewKeys(t, PackedKeys(w, 1, w, t), 2 * w);
    out, rounds := SortPlain(w, 1, w, Crowded(w), sortPairs, sortRanks, counts, PackedKeys(w, 1, w, t));
  }
}
