/** The whole suffix sorter: alphabet reduction and packing on every rank, then prefix doubling. */
module SuffixSorting {
  import opened Sequences
  import opened Bits
  import opened Wrappers
  import opened Scans
  import opened Windows
  import opened Doubling
  import opened Endings
  import opened Agreement
  import opened Alphabet
  import opened Packing
  import opened PrefixDoubling
  import opened FirstKeys

  /** The number of different bytes of the text plus one. */
  function AlphabetSize(counts: seq<nat>): nat
    requires |counts| == BYTES
  {
    1 + Used(counts, BYTES)
  }

  function BitsPerSymbol(counts: seq<nat>): nat
    requires |counts| == BYTES
  {
    CeilLog2(AlphabetSize(counts))
  }

  /** How many symbols fit into a word; 0 if the text has no symbol. */
  function Fitting(w: nat, counts: seq<nat>): nat
    requires |counts| == BYTES
  {
    if BitsPerSymbol(counts) == 0 then 0 else w / BitsPerSymbol(counts)
  }

  /** What the suffix sorter requires of its input: an index type of w bits for all positions and all
      bytes (w at least 8), no byte 0, and on every rank more than 2k characters. */
  ghost predicate IsInput(w: nat, input: seq<Text>, counts: seq<nat>) {
    && |input| > 0
    && w >= 8
    && (forall r | 0 <= r < |input| :: IsByteText(input[r]))
    && IsHistogram(counts, Whole(input))
    && |Whole(input)| < Pow2(w)
    && (forall r | 0 <= r < |input| :: |input[r]| > 2 * Fitting(w, counts))
  }

  /** Every character has a code. */
  lemma InputHasCodes(w: nat, input: seq<Text>, counts: seq<nat>)
    requires IsInput(w, input, counts)
    ensures forall r | 0 <= r < |input| :: HasCodes(counts, input[r])
    ensures HasCodes(counts, Whole(input)) && IsByteText(Whole(input))
    ensures |Whole(input)| >= 1
  {
    forall r, i | 0 <= r < |input| && 0 <= i < |input[r]| ensures counts[input[r][i]] > 0 {
      FlattenAt<Symbol>(input, r, i);
      HistogramUsed(counts, Whole(input), Offset<Symbol>(input, r) + i);
    }
    forall p | 0 <= p < |Whole(input)| ensures Whole(input)[p] < BYTES && counts[Whole(input)[p]] > 0 {
      var r, i := Locate<Symbol>(input, p);
    }
    FlattenAt<Symbol>(input, 0, 0);
  }

  /** Every rank's characters, replaced by their codes. */
  ghost function CodedInput(counts: seq<nat>, input: seq<Text>): (coded: seq<Text>)
    requires forall r | 0 <= r < |input| :: HasCodes(counts, input[r])
    ensures |coded| == |input|
    ensures forall r | 0 <= r < |input| :: coded[r] == Coded(counts, input[r])
  {
    seq(|input|, r requires 0 <= r < |input| => Coded(counts, input[r]))
  }

  lemma WholeOfCoded(counts: seq<nat>, input: seq<Text>)
    requires forall r | 0 <= r < |input| :: HasCodes(counts, input[r])
    requires HasCodes(counts, Whole(input))
    ensures Whole(CodedInput(counts, input)) == Coded(counts, Whole(input))
  {
    var coded := CodedInput(counts, input);
    SameOffsets<Symbol, Symbol>(input, coded, |input|);
    assert coded[..|coded|] == coded && input[..|input|] == input;
    forall p | 0 <= p < |Whole(input)| ensures Whole(coded)[p] == CodeOf(counts, Whole(input)[p]) {
      var r, i := Locate<Symbol>(input, p);
      SameOffsets<Symbol, Symbol>(input, coded, r);
      FlattenAt<Symbol>(coded, r, i);
    }
  }

  lemma QuotientBounds(w: nat, b: nat)
    requires 1 <= b <= w
    ensures w / b >= 1 && b * (w / b) <= w < b * (w / b) + b
  {
    assert w == b * (w / b) + w % b;
  }

  lemma ZeroIsUnused(counts: seq<nat>, t: Text)
    requires IsHistogram(counts, t)
    ensures counts[0] == 0
  {
    CountPositive(t, 0);
  }

  lemma {:induction false} UsedBound(counts: seq<nat>, c: nat)
    requires 1 <= c <= |counts| && counts[0] == 0
    ensures Used(counts, c) <= c - 1
  {
    if c > 1 { UsedBound(counts, c - 1); }
  }

  /** A text of bytes without byte 0 has between 2 and 256 codes, counting 0. */
  lemma AlphabetSizeBounds(w: nat, input: seq<Text>, counts: seq<nat>)
    requires IsInput(w, input, counts)
    ensures 2 <= AlphabetSize(counts) <= 256
  {
    InputHasCodes(w, input, counts);
    UsedMonotone(counts, Whole(input)[0], BYTES);
    ZeroIsUnused(counts, Whole(input));
    UsedBound(counts, BYTES);
  }

  lemma SymbolsTakeBits(w: nat, input: seq<Text>, counts: seq<nat>)
    requires IsInput(w, input, counts)
    ensures 1 <= BitsPerSymbol(counts) <= 8
  {
    AlphabetSizeBounds(w, input, counts);
    assert Pow2(8) == 256;
    if BitsPerSymbol(counts) > 8 {
      Pow2Monotone(8, BitsPerSymbol(counts) - 1);
    }
  }

  /** At least one symbol fits into a word, the packed symbols fit, and fewer bits are left over than a
      symbol takes. */
  lemma SymbolsFit(w: nat, input: seq<Text>, counts: seq<nat>)
    requires IsInput(w, input, counts)
    ensures 1 <= BitsPerSymbol(counts) <= 8 && Fitting(w, counts) >= 1
    ensures BitsPerSymbol(counts) * Fitting(w, counts) <= w
    ensures w < BitsPerSymbol(counts) * Fitting(w, counts) + BitsPerSymbol(counts)
  {
    SymbolsTakeBits(w, input, counts);
    QuotientBounds(w, BitsPerSymbol(counts));
  }

  lemma CodesAreDigits(counts: seq<nat>, t: Text)
    requires |counts| == BYTES && HasCodes(counts, t)
    ensures FitsBits(Coded(counts, t), BitsPerSymbol(counts))
  {
    forall i | 0 <= i < |t| ensures Coded(counts, t)[i] < Pow2(BitsPerSymbol(counts)) {
      CodeOrder(counts, t[i], t[i]);
    }
  }

  /** The coded input meets what packing and doubling need. */
  lemma CodedInputFits(w: nat, input: seq<Text>, counts: seq<nat>)
    requires IsInput(w, input, counts)
    ensures forall r | 0 <= r < |input| :: HasCodes(counts, input[r])
    ensures var coded := CodedInput(counts, input);
            && IsSpread(coded, Fitting(w, counts))
            && AllFitBits(coded, BitsPerSymbol(counts))
            && FitsBits(Whole(coded), BitsPerSymbol(counts))
            && HasCodes(counts, Whole(input))
            && Whole(coded) == Coded(counts, Whole(input))
  {
    InputHasCodes(w, input, counts);
    SymbolsFit(w, input, counts);
    forall r | 0 <= r < |input| ensures FitsBits(Coded(counts, input[r]), BitsPerSymbol(counts)) {
      CodesAreDigits(counts, input[r]);
    }
    CodesAreDigits(counts, Whole(input));
    WholeOfCoded(counts, input);
  }

  /** Halos of bytes fit exactly if those of the codes do, because the map is one-to-one. */
  lemma HalosFitCoded(k: nat, input: seq<Text>, counts: seq<nat>)
    requires forall r | 0 <= r < |input| :: HasCodes(counts, input[r])
    requires IsSpread(input, k)
    ensures IsSpread(CodedInput(counts, input), k)
    ensures HalosFit(CodedInput(counts, input), k) <==> HalosFit(input, k)
  {
    var coded := CodedInput(counts, input);
    forall r: nat | r < |input| - 1 ensures HaloFits(coded, k, r) <==> HaloFits(input, k, r) {
      forall j: nat | j < 2 * k - 1
        ensures Halo(coded, r, k)[j] == coded[r + 1][j] <==> Halo(input, r, k)[j] == input[r + 1][j]
      {
        HaloFitsCodedAt(k, input, counts, r, j);
      }
    }
  }

  lemma HaloFitsCodedAt(k: nat, input: seq<Text>, counts: seq<nat>, r: nat, j: nat)
    requires forall r | 0 <= r < |input| :: HasCodes(counts, input[r])
    requires IsSpread(input, k) && IsSpread(CodedInput(counts, input), k) && r + 1 < |input| && j < 2 * k - 1
    ensures Halo(CodedInput(counts, input), r, k)[j] == CodedInput(counts, input)[r + 1][j]
       <==> Halo(input, r, k)[j] == input[r + 1][j]
  {
    CodeOrder(counts, Halo(input, r, k)[j], input[r + 1][j]);
  }

  // ----- the program -----

  /** The codes of k characters of the buffer. */
  function Symbols(codes: seq<nat>, buffer: seq<nat>, at: nat, k: nat): (syms: seq<nat>)
    requires |codes| == BYTES && at + k <= |buffer|
    requires forall i | 0 <= i < |buffer| :: buffer[i] < BYTES
    ensures |syms| == k && forall j | 0 <= j < k :: syms[j] == codes[buffer[at + j]]
  {
    seq<nat>(k, j requires 0 <= j < k => codes[buffer[at + j]])
  }

  /** The packing loop for one word. The buffer is the local input followed by what was received, or zeros. */
  method PackWord(w: nat, b: nat, k: nat, codes: array<nat>, buffer: seq<nat>, at: nat) returns (word: nat)
    requires k >= 1 && codes.Length == BYTES && at + k <= |buffer|
    requires forall i | 0 <= i < |buffer| :: buffer[i] < BYTES
    ensures word == Pack(w, b, Symbols(codes[..], buffer, at, k))
  {
    ghost var syms := Symbols(codes[..], buffer, at, k);
    word := codes[buffer[at]];
    assert word == syms[0];
    for j := 0 to k
      invariant word == PackedAfter(w, b, syms[0], syms[..j])
    {
      assert syms[..j + 1][..j] == syms[..j];
      word := BitOr(ShiftLeft(w, word, b), codes[buffer[at + j]]);
    }
    assert syms[..k] == syms;
  }

  /** The entries of one rank: every position with the words of the k characters there and k further on. */
  ghost predicate ArePackedEntries(w: nat, b: nat, k: nat, codes: seq<nat>, buffer: seq<nat>, offset: nat,
      result: seq<IRR>)
    requires k >= 1 && |codes| == BYTES && |buffer| >= |result| + 2 * k
    requires forall i | 0 <= i < |buffer| :: buffer[i] < BYTES
  {
    forall i {:trigger result[i]} | 0 <= i < |result| ::
      result[i]
      == IRR(offset + i, Pack(w, b, Symbols(codes, buffer, i, k)), Pack(w, b, Symbols(codes, buffer, i + k, k)))
  }

  /** Packs all positions of one rank. */
  method PackLocal(w: nat, b: nat, k: nat, codes: array<nat>, localSize: nat, buffer: seq<nat>, offset: nat)
      returns (result: seq<IRR>)
    requires k >= 1 && codes.Length == BYTES && |buffer| == localSize + 2 * k
    requires forall i | 0 <= i < |buffer| :: buffer[i] < BYTES
    ensures |result| == localSize
    ensures ArePackedEntries(w, b, k, codes[..], buffer, offset, result)
  {
    result := [];
    for i := 0 to localSize
      invariant |result| == i
      invariant ArePackedEntries(w, b, k, codes[..], buffer, offset, result)
    {
      var rank1 := PackWord(w, b, k, codes, buffer, i);
      var rank2 := PackWord(w, b, k, codes, buffer, i + k);
      result := result + [IRR(offset + i, rank1, rank2)];
    }
  }

  /** The buffer every rank packs: its input, then what it receives from the next rank, or zeros. */
  function PaddedBuffer(input: seq<Text>, r: nat, k: nat): (buffer: seq<nat>)
    requires IsSpread(input, k) && r < |input|
    ensures |buffer| == |input[r]| + 2 * k
  {
    input[r] + if r + 1 < |input| then Halo(input, r, k) else seq<nat>(2 * k, _ => 0)
  }

  /** The received part is the last 2k characters of the next rank; the last rank fills up with 0. */
  lemma PaddedBufferAt(input: seq<Text>, r: nat, k: nat, j: nat)
    requires IsSpread(input, k) && r < |input| && j < |input[r]| + 2 * k
    ensures PaddedBuffer(input, r, k)[j]
         == if j < |input[r]| then input[r][j]
            else if r + 1 < |input| then input[r + 1][|input[r + 1]| - 2 * k + (j - |input[r]|)]
            else 0
  {}

  ghost predicate AreCodes(codes: seq<nat>, counts: seq<nat>) {
    |codes| == |counts| == BYTES && forall c | 0 <= c < BYTES :: codes[c] == CodeOf(counts, c)
  }

  /** Every byte of the text has its place among the bytes of the text as its code, from 1 on; others have 0. */
  ghost predicate IsAlphabet(t: Text, codes: seq<nat>) {
    && |codes| == BYTES
    && forall c: nat | c < BYTES :: codes[c] == if c in t then |set b: nat | b <= c && b in t| else 0
  }

  /** b bits, and no fewer, hold n different values. */
  ghost predicate AreLeastBits(n: nat, b: nat) {
    n <= Pow2(b) && (b > 0 ==> Pow2(b - 1) < n)
  }

  lemma CodesAreAlphabet(w: nat, input: seq<Text>, counts: seq<nat>, codes: seq<nat>)
    requires IsInput(w, input, counts) && AreCodes(codes, counts)
    ensures IsAlphabet(Whole(input), codes)
    ensures AreLeastBits(|Elements<Symbol>(Whole(input))| + 1, BitsPerSymbol(counts))
  {
    var t := Whole(input);
    InputHasCodes(w, input, counts);
    UsedIsAlphabet(counts, t);
    forall c: nat | c < BYTES ensures codes[c] == if c in t then |set b: nat | b <= c && b in t| else 0 {
      CodeInText(counts, t, c);
    }
  }

  lemma CodeInText(counts: seq<nat>, t: Text, c: nat)
    requires IsByteText(t) && IsHistogram(counts, t) && c < BYTES
    ensures CodeOf(counts, c) == if c in t then |set b: nat | b <= c && b in t| else 0
  {
    CodeIsPlace(counts, c);
    forall b: nat | b <= c ensures counts[b] > 0 <==> b in t {
      CountPositive(t, b);
    }
    assert UsedBelow(counts, c + 1) == set b: nat | b <= c && b in t;
  }

  lemma CodedSymbol(counts: seq<nat>, input: seq<Text>, r: nat, i: nat)
    requires forall q | 0 <= q < |input| :: HasCodes(counts, input[q])
    requires r < |input| && i < |input[r]|
    ensures input[r][i] < |counts| && |CodedInput(counts, input)| == |input|
    ensures |CodedInput(counts, input)[r]| == |input[r]|
    ensures CodedInput(counts, input)[r][i] == CodeOf(counts, input[r][i])
  {}

  /** The codes of the buffer are the local text, padded. */
  lemma BufferHolds(k: nat, input: seq<Text>, counts: seq<nat>, codes: seq<nat>, r: nat)
    requires forall q | 0 <= q < |input| :: HasCodes(counts, input[q])
    requires IsSpread(input, k) && r < |input| && AreCodes(codes, counts) && counts[0] == 0
    ensures var buffer := PaddedBuffer(input, r, k);
            forall j | 0 <= j < |buffer| ::
              buffer[j] < BYTES && codes[buffer[j]] == At(LocalText(CodedInput(counts, input), r, k), j)
  {
    var buffer := PaddedBuffer(input, r, k);
    forall j: nat | j < |buffer|
      ensures buffer[j] < BYTES && codes[buffer[j]] == At(LocalText(CodedInput(counts, input), r, k), j)
    {
      BufferHoldsAt(k, input, counts, codes, r, j);
    }
  }

  lemma {:induction false} BufferHoldsAt(k: nat, input: seq<Text>, counts: seq<nat>, codes: seq<nat>, r: nat, j: nat)
    requires forall q | 0 <= q < |input| :: HasCodes(counts, input[q])
    requires IsSpread(input, k) && r < |input| && AreCodes(codes, counts) && counts[0] == 0
    requires j < |PaddedBuffer(input, r, k)|
    ensures PaddedBuffer(input, r, k)[j] < BYTES
    ensures codes[PaddedBuffer(input, r, k)[j]] == At(LocalText(CodedInput(counts, input), r, k), j)
  {
    if j < |input[r]| {
      OwnSymbol(k, input, counts, r, j);
    } else if r + 1 < |input| {
      ReceivedSymbol(k, input, counts, r, j - |input[r]|);
    } else {
      assert PaddedBuffer(input, r, k)[j] == 0;
      assert LocalText(CodedInput(counts, input), r, k) == CodedInput(counts, input)[r];
    }
  }

  lemma {:induction false} OwnSymbol(k: nat, input: seq<Text>, counts: seq<nat>, r: nat, j: nat)
    requires forall q | 0 <= q < |input| :: HasCodes(counts, input[q])
    requires IsSpread(input, k) && r < |input| && j < |input[r]| && |counts| == BYTES
    ensures PaddedBuffer(input, r, k)[j] < BYTES
    ensures At(LocalText(CodedInput(counts, input), r, k), j) == CodeOf(counts, PaddedBuffer(input, r, k)[j])
  {
    CodedSymbol(counts, input, r, j);
    assert PaddedBuffer(input, r, k)[j] == input[r][j];
  }

  lemma {:induction false} ReceivedSymbol(k: nat, input: seq<Text>, counts: seq<nat>, r: nat, h: nat)
    requires forall q | 0 <= q < |input| :: HasCodes(counts, input[q])
    requires IsSpread(input, k) && r + 1 < |input| && h < 2 * k && |counts| == BYTES
    ensures PaddedBuffer(input, r, k)[|input[r]| + h] < BYTES
    ensures At(LocalText(CodedInput(counts, input), r, k), |input[r]| + h)
         == CodeOf(counts, PaddedBuffer(input, r, k)[|input[r]| + h])
  {
    var i := |input[r + 1]| - 2 * k + h;
    CodedSymbol(counts, input, r + 1, i);
    assert PaddedBuffer(input, r, k)[|input[r]| + h] == Halo(input, r, k)[h] == input[r + 1][i];
    assert Halo(CodedInput(counts, input), r, k)[h] == CodedInput(counts, input)[r + 1][i];
  }

  lemma SymbolsAreWindow(t: Text, codes: seq<nat>, buffer: seq<nat>, at: nat, k: nat)
    requires |codes| == BYTES && at + k <= |buffer|
    requires forall j | 0 <= j < |buffer| :: buffer[j] < BYTES && codes[buffer[j]] == At(t, j)
    ensures Symbols(codes, buffer, at, k) == Window(t, at, k)
  {}

  lemma PackedEntryIsKey(w: nat, b: nat, k: nat, t: Text, codes: seq<nat>, buffer: seq<nat>, offset: nat,
      result: seq<IRR>, i: nat)
    requires k >= 1 && |codes| == BYTES && |buffer| >= |result| + 2 * k && i < |result|
    requires forall j | 0 <= j < |buffer| :: buffer[j] < BYTES && codes[buffer[j]] == At(t, j)
    requires ArePackedEntries(w, b, k, codes, buffer, offset, result)
    ensures result[i].index == offset + i && KeyOf(result[i]) == PackedKey(w, b, k, t, i)
  {
    SymbolsAreWindow(t, codes, buffer, i, k);
    SymbolsAreWindow(t, codes, buffer, i + k, k);
  }

  /** So the words the loop packs are those of the windows of the local text. */
  lemma PackedEntriesAreFirstEntries(w: nat, b: nat, k: nat, input: seq<Text>, counts: seq<nat>, codes: seq<nat>,
      r: nat, offset: nat, result: seq<IRR>)
    requires forall q | 0 <= q < |input| :: HasCodes(counts, input[q])
    requires IsSpread(input, k) && r < |input| && AreCodes(codes, counts) && counts[0] == 0
    requires offset == Offset<Symbol>(CodedInput(counts, input), r) && |result| == |input[r]|
    requires forall j | 0 <= j < |PaddedBuffer(input, r, k)| :: PaddedBuffer(input, r, k)[j] < BYTES
    requires ArePackedEntries(w, b, k, codes, PaddedBuffer(input, r, k), offset, result)
    ensures AreRankEntries(w, b, k, CodedInput(counts, input), r, result)
  {
    var coded, buffer := CodedInput(counts, input), PaddedBuffer(input, r, k);
    BufferHolds(k, input, counts, codes, r);
    forall i {:trigger result[i]} | 0 <= i < |result| ensures result[i] == FirstEntry(w, b, k, coded, r, i) {
      PackedEntryIsKey(w, b, k, LocalText(coded, r, k), codes, buffer, offset, result, i);
    }
  }

  /** The packing step of rank r. */
  method PackRank(w: nat, b: nat, k: nat, codes: array<nat>, input: seq<Text>, r: nat, offset: nat,
      ghost counts: seq<nat>)
      returns (result: seq<IRR>)
    requires forall q | 0 <= q < |input| :: HasCodes(counts, input[q])
    requires IsSpread(input, k) && r < |input| && AreCodes(codes[..], counts) && counts[0] == 0
    requires offset == Offset<Symbol>(input, r)
    ensures AreRankEntries(w, b, k, CodedInput(counts, input), r, result)
  {
    BufferHolds(k, input, counts, codes[..], r);
    SameOffsets<Symbol, Symbol>(input, CodedInput(counts, input), r);
    result := PackLocal(w, b, k, codes, |input[r]|, PaddedBuffer(input, r, k), offset);
    PackedEntriesAreFirstEntries(w, b, k, input, counts, codes[..], r, offset, result);
  }

  /** The offsets of all ranks, and packing on every rank. */
  method PackAll(w: nat, b: nat, k: nat, codes: array<nat>, input: seq<Text>, ghost counts: seq<nat>)
      returns (result: seq<seq<IRR>>)
    requires forall q | 0 <= q < |input| :: HasCodes(counts, input[q])
    requires IsSpread(input, k) && AreCodes(codes[..], counts) && counts[0] == 0
    ensures AreFirstEntries(w, b, k, CodedInput(counts, input), result)
  {
    ghost var coded := CodedInput(counts, input);
    var offsets := ExscanSingle(Lengths<Symbol>(input), None);
    result := [];
    for r := 0 to |input|
      invariant |result| == r
      invariant forall q | 0 <= q < r :: AreRankEntries(w, b, k, coded, q, result[q])
    {
      ScanIsOffset<Symbol>(input, r);
      var local := PackRank(w, b, k, codes, input, r, offsets[r], counts);
      result := result + [local];
    }
  }

  /** Histogram and map. */
  method ComputeCodes(w: nat, input: seq<Text>, ghost counts: seq<nat>)
      returns (codes: array<nat>, newAlphabetSize: nat)
    requires IsInput(w, input, counts)
    ensures fresh(codes) && AreCodes(codes[..], counts)
    ensures newAlphabetSize == AlphabetSize(counts)
  {
    codes := AllreduceHistogram(input);
    assert codes[..] == counts;
    newAlphabetSize := BuildMap(codes);
  }

  /** Histogram, map, bits per symbol and symbols per word. */
  method ComputeAlphabet(w: nat, input: seq<Text>, ghost counts: seq<nat>) returns (codes: array<nat>, b: nat, k: nat)
    requires IsInput(w, input, counts)
    ensures fresh(codes) && AreCodes(codes[..], counts)
    ensures b == BitsPerSymbol(counts) && k == Fitting(w, counts)
    ensures IsAlphabet(Whole(input), codes[..]) && AreLeastBits(|Elements<Symbol>(Whole(input))| + 1, b)
  {
    SymbolsTakeBits(w, input, counts);
    var newAlphabetSize;
    codes, newAlphabetSize := ComputeCodes(w, input, counts);
    b := CeilLog2(newAlphabetSize);
    k := w / b;
    CodesAreAlphabet(w, input, counts, codes[..]);
  }

  /** Alphabet reduction and packing on all ranks. */
  method ReduceAlphabet(w: nat, input: seq<Text>, ghost counts: seq<nat>) returns (start: nat, result: seq<seq<IRR>>)
    requires IsInput(w, input, counts)
    ensures Fitting(w, counts) >= 1 && start == StartIteration(Fitting(w, counts))
    ensures forall r | 0 <= r < |input| :: HasCodes(counts, input[r])
    ensures IsSpread(CodedInput(counts, input), Fitting(w, counts))
    ensures AreFirstEntries(w, BitsPerSymbol(counts), Fitting(w, counts), CodedInput(counts, input), result)
  {
    SymbolsFit(w, input, counts);
    CodedInputFits(w, input, counts);
    ZeroIsUnused(counts, Whole(input));
    var codes, b, k := ComputeAlphabet(w, input, counts);
    result := PackAll(w, b, k, codes, input, counts);
    start := FloorLog2(k) + 1;
  }

  // ----- the result -----

  /** Whether the symbols fill a word without leaving bits over. */
  predicate FillsWord(w: nat, counts: seq<nat>)
    requires |counts| == BYTES
  {
    BitsPerSymbol(counts) * Fitting(w, counts) == w
  }

  /** If the symbols fill the word, positions sorted by distinct keys are the suffix array; if they do
      not, they never are: all codes occur, so symbols 1 and 2^e do, which are in the wrong order. */
  lemma ResultIsSuffixArrayIff(w: nat, input: seq<Text>, counts: seq<nat>, rounds: nat, sa: seq<nat>)
    requires IsInput(w, input, counts) && Fitting(w, counts) >= 1 && HasCodes(counts, Whole(input))
    requires var t := Coded(counts, Whole(input));
             SortedByKey(sa, FinalKeys(w, BitsPerSymbol(counts), Fitting(w, counts), t, rounds))
    ensures IsSuffixArray(Whole(input), sa) <==> FillsWord(w, counts)
  {
    var b, k, t := BitsPerSymbol(counts), Fitting(w, counts), Coded(counts, Whole(input));
    SymbolsFit(w, input, counts);
    CodesAreDigits(counts, Whole(input));
    CodedHasSameSuffixArray(counts, Whole(input), sa);
    if FillsWord(w, counts) {
      FilledWordGivesSuffixArray(w, b, k, t, rounds, sa);
    } else {
      var x, y := SymbolsPackedInWrongOrder(w, input, counts);
      UnfilledWordGivesNoSuffixArray(w, b, k, t, rounds, sa, x, y);
    }
  }

  /** If symbols do not fill the word, the text contains both symbols that the packing confuses. */
  lemma SymbolsPackedInWrongOrder(w: nat, input: seq<Text>, counts: seq<nat>) returns (x: nat, y: nat)
    requires IsInput(w, input, counts) && Fitting(w, counts) >= 1 && HasCodes(counts, Whole(input))
    requires !FillsWord(w, counts)
    ensures BitsPerSymbol(counts) * Fitting(w, counts) <= w
    ensures x < |Coded(counts, Whole(input))| && y < |Coded(counts, Whole(input))|
    ensures Coded(counts, Whole(input))[x] == Pow2(w - BitsPerSymbol(counts) * Fitting(w, counts))
    ensures Coded(counts, Whole(input))[y] == 1
  {
    var b, k := BitsPerSymbol(counts), Fitting(w, counts);
    SymbolsFit(w, input, counts);
    InputHasCodes(w, input, counts);
    AlphabetSizeBounds(w, input, counts);
    Pow2Monotone(w - b * k, b - 1);
    x := CodedIsOnto(counts, Whole(input), Pow2(w - b * k));
    y := CodedIsOnto(counts, Whole(input), 1);
  }

  /** The keys of all positions as their ranks pack them. */
  ghost function InputKeys(w: nat, input: seq<Text>, counts: seq<nat>): (ks: seq<Key>)
    requires IsInput(w, input, counts)
    ensures |ks| == |Whole(input)| >= 1
  {
    InputHasCodes(w, input, counts);
    CodedInputFits(w, input, counts);
    FirstKeysLength(w, BitsPerSymbol(counts), Fitting(w, counts), CodedInput(counts, input));
    FirstKeysOf(w, BitsPerSymbol(counts), Fitting(w, counts), CodedInput(counts, input))
  }

  /** The iteration the program starts in. */
  function Start(w: nat, counts: seq<nat>): nat
    requires |counts| == BYTES && Fitting(w, counts) >= 1
  {
    StartIteration(Fitting(w, counts))
  }

  /** If the ranks pack the windows of the text, a result is the suffix array exactly if no bits are left over. */
  lemma FittingResultIff(w: nat, input: seq<Text>, counts: seq<nat>, rounds: nat, sa: seq<nat>)
    requires IsInput(w, input, counts) && Fitting(w, counts) >= 1 && IsSpread(input, Fitting(w, counts))
    requires HalosFit(input, Fitting(w, counts))
    requires SortedByKey(sa, KeysAfter(InputKeys(w, input, counts), Start(w, counts), rounds))
    ensures IsSuffixArray(Whole(input), sa) <==> FillsWord(w, counts)
  {
    var b, k, coded := BitsPerSymbol(counts), Fitting(w, counts), CodedInput(counts, input);
    InputHasCodes(w, input, counts);
    CodedInputFits(w, input, counts);
    HalosFitCoded(k, input, counts);
    FittingFirstKeys(w, b, k, coded);
    ResultIsSuffixArrayIff(w, input, counts, rounds, sa);
  }

  /** A text ends as its code does. */
  lemma CodedEndRepeats(counts: seq<nat>, t: Text, start: nat)
    requires HasCodes(counts, t)
    ensures EndRepeats(Coded(counts, t), start) <==> EndRepeats(t, start)
  {
    if p: nat, i: nat :| IsSmallestSuffix(Coded(counts, t), p) && EndsLike(Coded(counts, t), start, p, i) {
      CodedSmallest(counts, t, p);
      CodedEndsLike(counts, t, start, p, i);
    }
    if p: nat, i: nat :| IsSmallestSuffix(t, p) && EndsLike(t, start, p, i) {
      CodedSmallest(counts, t, p);
      CodedEndsLike(counts, t, start, p, i);
    }
  }

  lemma CodedSmallest(counts: seq<nat>, t: Text, p: nat)
    requires HasCodes(counts, t)
    ensures IsSmallestSuffix(Coded(counts, t), p) <==> IsSmallestSuffix(t, p)
  {
    if p < |t| {
      forall q: nat | q < |t| ensures SuffixLess(Coded(counts, t), p, q) == SuffixLess(t, p, q) {
        CodedKeepsSuffixOrder(counts, t, p, q);
      }
    }
  }

  lemma CodedEndsLike(counts: seq<nat>, t: Text, start: nat, p: nat, i: nat)
    requires HasCodes(counts, t)
    ensures EndsLike(Coded(counts, t), start, p, i) <==> EndsLike(t, start, p, i)
  {
    var D := Pow2(start + i);
    if D <= p < |t| {
      CodedKeepsWindows(counts, t, p - D, |t| - D, D);
    }
  }

  /** If the ranks pack the windows of the text and no bits are left over, then for k a power of two the
      first keys repeat exactly if the text does. */
  lemma FittingRepeatIff(w: nat, input: seq<Text>, counts: seq<nat>)
    requires IsInput(w, input, counts) && Fitting(w, counts) >= 1 && IsSpread(input, Fitting(w, counts))
    requires HalosFit(input, Fitting(w, counts)) && FillsWord(w, counts) && IsPowerOf2(Fitting(w, counts))
    ensures KeysRepeat(InputKeys(w, input, counts), Start(w, counts)) <==> EndRepeats(Whole(input), Start(w, counts))
  {
    InputHasCodes(w, input, counts);
    CodedInputFits(w, input, counts);
    var b, k, coded := BitsPerSymbol(counts), Fitting(w, counts), CodedInput(counts, input);
    HalosFitCoded(k, input, counts);
    FittingFirstKeys(w, b, k, coded);
    PackedRepeatIff(w, b, k, Whole(coded));
    CodedEndRepeats(counts, Whole(input), StartIteration(k));
  }

  /** Equal keys of the input lie inside the text, for any number of ranks. */
  lemma InputTiesAreInside(w: nat, input: seq<Text>, counts: seq<nat>)
    requires IsInput(w, input, counts)
    ensures TiesInside(InputKeys(w, input, counts), 2 * Fitting(w, counts))
  {
    SymbolsFit(w, input, counts);
    CodedInputFits(w, input, counts);
    FirstKeysTieInside(w, BitsPerSymbol(counts), Fitting(w, counts), CodedInput(counts, input));
  }

  /** If k is not a power of two, the loop ends early and not by an illegal shift. */
  lemma FewRounds(w: nat, k: nat, ks: seq<Key>, rounds: nat, shiftTooLong: bool)
    requires k >= 1 && !IsPowerOf2(k) && TiesInside(ks, 2 * k) && 1 <= |ks| <= Pow2(w)
    requires forall u: nat | u < rounds :: Unfinished(w, ks, StartIteration(k), u)
    requires shiftTooLong ==> StartIteration(k) + rounds >= w && !Distinct(KeysAfter(ks, StartIteration(k), rounds))
    ensures rounds <= RoundBound(|ks|, StartIteration(k)) && !shiftTooLong
  {
    if rounds > 0 {
      assert Unfinished(w, ks, StartIteration(k), rounds - 1);
      RoundsAreBounded(w, k, ks, rounds - 1);
    }
    if shiftTooLong {
      RoundsAreBounded(w, k, ks, rounds);
    }
  }

  /** For any k, a loop that ends does so early, and one that runs into an illegal shift would go on for ever. */
  lemma EndingIsForced(w: nat, ks: seq<Key>, start: nat, rounds: nat, done: bool, shiftTooLong: bool)
    requires TiesInside(ks, Pow2(start)) && 1 <= |ks| <= Pow2(w)
    requires forall u: nat | u < rounds :: Unfinished(w, ks, start, u)
    requires done ==> Distinct(KeysAfter(ks, start, rounds))
    requires shiftTooLong ==> start + rounds >= w && !Distinct(KeysAfter(ks, start, rounds))
    ensures done ==> rounds <= RoundBound(|ks|, start) && !KeysRepeat(ks, start)
    ensures shiftTooLong ==> KeysRepeat(ks, start)
  {
    FinishesOnIff(ks, start);
    if done && rounds > RoundBound(|ks|, start) {
      assert Unfinished(w, ks, start, RoundBound(|ks|, start));
      FinishesInTime(ks, start, RoundBound(|ks|, start));
    }
    if shiftTooLong {
      Pow2Monotone(w, start + rounds);
      var x, y := TieIsStuck(ks, start, rounds);
    }
  }

  /** What the ranks start with: entries that hold the input's keys. */
  method MakeEntries(w: nat, input: seq<Text>, ghost counts: seq<nat>) returns (start: nat, entries: seq<seq<IRR>>)
    requires IsInput(w, input, counts)
    ensures Fitting(w, counts) >= 1 && IsSpread(input, Fitting(w, counts)) && start == Start(w, counts)
    ensures |entries| == |input| && HoldsPairs(Flatten(entries), InputKeys(w, input, counts))
  {
    start, entries := ReduceAlphabet(w, input, counts);
    EntriesHoldKeys(w, BitsPerSymbol(counts), Fitting(w, counts), CodedInput(counts, input), entries);
  }

  /** How the loop ends on the first keys ks of text t, spread over the given number of ranks. */
  ghost predicate EndsAsKeysSay(w: nat, k: nat, size: nat, t: Text, ks: seq<Key>, start: nat, sortPairs: PairSorter,
      sortRanks: RankSorter, out: Outcome, rounds: nat, last: SortInput)
    requires k >= 1 && 1 <= |ks| == |t|
  {
    // a result lists every position once, in the order of its keys, which are all different
    && (out.Done? ==> |out.result| == size && SortedByKey(Flatten(out.result), KeysAfter(ks, start, rounds)))
    // it is the suffix array exactly if the first keys agree with the text
    && (out.Done? ==> (IsSuffixArray(t, Flatten(out.result)) <==> KeysAgree(t, ks, Pow2(start))))
    // the loop ends, after few rounds, exactly if the first keys do not repeat,
    && (out.Done? ==> rounds <= RoundBound(|ks|, start))
    && (!out.EmptyRank? ==> (out.ShiftTooLong? <==> KeysRepeat(ks, start)))
    && (out.ShiftTooLong? ==> start + rounds >= w && !Distinct(KeysAfter(ks, start, rounds)))
    // as they never do if k is not a power of two
    && (!IsPowerOf2(k) ==> !out.ShiftTooLong? && rounds <= RoundBound(|ks|, start))
    // a rank runs out of data if there are fewer first keys than ranks, and otherwise only if a sort could have
    // helped it; a single rank never does
    && (|Elements(ks)| < size ==> out.EmptyRank?)
    && (IsGenerousPairSorter(sortPairs) && IsGenerousRankSorter(w, sortRanks) ==>
          (out.EmptyRank? <==> |Elements(ks)| < size))
    && (out.EmptyRank? ==>
          SortLeavesRankEmpty(w, size, sortPairs, sortRanks, KeysAfter(ks, start, rounds), rounds, start + rounds,
                              last))
    && (size == 1 ==> !out.EmptyRank?)
  }

  /** The doubling loop on the entries of text t, with first keys whose ties lie far enough inside it. */
  method SortEntries(w: nat, ghost k: nat, entries: seq<seq<IRR>>, start: nat, sortPairs: PairSorter,
      sortRanks: RankSorter, ghost t: Text, ghost ks: seq<Key>)
      returns (out: Outcome, rounds: nat, ghost last: SortInput)
    requires |entries| > 0 && HoldsPairs(Flatten(entries), ks) && 1 <= |ks| == |t| <= Pow2(w)
    requires k >= 1 && TiesInside(ks, 2 * k) && start == StartIteration(k)
    requires IsPairSorter(sortPairs) && IsRankSorter(w, sortRanks)
    ensures EndsAsKeysSay(w, k, |entries|, t, ks, start, sortPairs, sortRanks, out, rounds, last)
  {
    ghost var final;
    out, rounds, final, last := DoublePrefixes(w, entries, start, sortPairs, sortRanks, ks);
    if !IsPowerOf2(k) {
      FewRounds(w, k, ks, rounds, out.ShiftTooLong?);
    }
    FirstShift(k);
    if out.Done? {
      SortedKeysAreDistinct(Flatten(out.result), final);
      ResultIsRightIff(t, ks, start, rounds, Flatten(out.result));
    }
    EndingIsForced(w, ks, start, rounds, out.Done?, out.ShiftTooLong?);
  }

  /** With fitting halos: a result is right exactly if no bits are left over. Then, for k a power of two, the
      loop comes to this result exactly if the text does not repeat at its end what comes before its smallest
      suffix. */
  ghost predicate EndsAsTextSays(w: nat, input: seq<Text>, counts: seq<nat>, out: Outcome)
    requires |counts| == BYTES && Fitting(w, counts) >= 1
  {
    && (out.Done? ==> (IsSuffixArray(Whole(input), Flatten(out.result)) <==> FillsWord(w, counts)))
    && (FillsWord(w, counts) && IsPowerOf2(Fitting(w, counts)) && !out.EmptyRank? ==>
          (out.Done? <==> !EndRepeats(Whole(input), Start(w, counts))))
  }

  lemma FittingOutcome(w: nat, input: seq<Text>, counts: seq<nat>, ks: seq<Key>, rounds: nat, out: Outcome)
    requires IsInput(w, input, counts) && Fitting(w, counts) >= 1 && IsSpread(input, Fitting(w, counts))
    requires HalosFit(input, Fitting(w, counts)) && ks == InputKeys(w, input, counts)
    requires out.Done? ==> SortedByKey(Flatten(out.result), KeysAfter(ks, Start(w, counts), rounds))
    requires !out.EmptyRank? ==> (out.ShiftTooLong? <==> KeysRepeat(ks, Start(w, counts)))
    ensures EndsAsTextSays(w, input, counts, out)
  {
    if out.Done? {
      FittingResultIff(w, input, counts, rounds, Flatten(out.result));
    }
    if FillsWord(w, counts) && IsPowerOf2(Fitting(w, counts)) {
      FittingRepeatIff(w, input, counts);
    }
  }

  /** The suffix sorter on any number of ranks, for any sorts that keep their contract. Whatever the ranks
      packed, it ends as the first keys ks say; if they packed the windows of the text, as on a single rank
      they do, this can be read off the text. */
  method SortSuffixes(w: nat, input: seq<Text>, sortPairs: PairSorter, sortRanks: RankSorter, ghost counts: seq<nat>)
      returns (out: Outcome, rounds: nat, ghost ks: seq<Key>, ghost last: SortInput)
    requires IsInput(w, input, counts)
    requires IsPairSorter(sortPairs) && IsRankSorter(w, sortRanks)
    ensures Fitting(w, counts) >= 1 && IsSpread(input, Fitting(w, counts)) && ks == InputKeys(w, input, counts)
    ensures EndsAsKeysSay(w, Fitting(w, counts), |input|, Whole(input), ks, Start(w, counts), sortPairs, sortRanks,
                          out, rounds, last)
    ensures HalosFit(input, Fitting(w, counts)) ==> EndsAsTextSays(w, input, counts, out)
    ensures |input| == 1 ==> HalosFit(input, Fitting(w, counts))
  {
    ks := InputKeys(w, input, counts);
    var start, entries := MakeEntries(w, input, counts);
    InputTiesAreInside(w, input, counts);
    out, rounds, last := SortEntries(w, Fitting(w, counts), entries, start, sortPairs, sortRanks, Whole(input), ks);
    if HalosFit(input, Fitting(w, counts)) {
      FittingOutcome(w, input, counts, ks, rounds, out);
    }
  }
}
