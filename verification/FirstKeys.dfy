/** The entries every rank starts the doubling with, and when they stand for windows of the whole text.
    The texts of this module are texts of codes. */
module FirstKeys {
  import opened Sequences
  import opened Bits
  import opened Windows
  import opened Doubling
  import opened Alphabet
  import opened Packing
  import opened PrefixDoubling

  /** Every rank holds more than 2k characters. */
  predicate IsSpread(input: seq<Text>, k: nat) {
    && |input| > 0
    && k >= 1
    && forall r | 0 <= r < |input| :: |input[r]| > 2 * k
  }

  ghost predicate AllFitBits(input: seq<Text>, b: nat) {
    forall r | 0 <= r < |input| :: FitsBits(input[r], b)
  }

  /** The characters rank r sees after its own: the LAST 2k characters of the rank after it, which is
      what that rank sends; nothing on the last rank, where the buffer is filled with 0. */
  function Halo(input: seq<Text>, r: nat, k: nat): Text
    requires IsSpread(input, k) && r < |input|
  {
    if r + 1 < |input| then input[r + 1][|input[r + 1]| - 2 * k..] else []
  }

  /** What rank r packs: its own characters and those it received. */
  function LocalText(input: seq<Text>, r: nat, k: nat): Text
    requires IsSpread(input, k) && r < |input|
  {
    input[r] + Halo(input, r, k)
  }

  /** The first key of position i of rank r, as rank r packs it. */
  function LocalKey(w: nat, b: nat, k: nat, input: seq<Text>, r: nat, i: nat): Key
    requires IsSpread(input, k) && r < |input|
  {
    PackedKey(w, b, k, LocalText(input, r, k), i)
  }

  /** The first entry of position i of rank r. */
  function FirstEntry(w: nat, b: nat, k: nat, input: seq<Text>, r: nat, i: nat): IRR
    requires IsSpread(input, k) && r < |input| && i < |input[r]|
  {
    var key := LocalKey(w, b, k, input, r, i);
    IRR(Offset<Symbol>(input, r) + i, key.0, key.1)
  }

  /** What rank r receives is how the next rank starts (the last one of the 2k characters is never read). */
  ghost predicate HaloFits(input: seq<Text>, k: nat, r: nat)
    requires IsSpread(input, k) && r + 1 < |input|
  {
    forall j | 0 <= j < 2 * k - 1 :: Halo(input, r, k)[j] == input[r + 1][j]
  }

  /** Every rank but the first starts with the characters it ends with. */
  ghost predicate HalosFit(input: seq<Text>, k: nat)
    requires IsSpread(input, k)
  {
    forall r | 0 <= r < |input| - 1 :: HaloFits(input, k, r)
  }

  /** Entry i of rank r carries the packed windows of the text at its position. */
  ghost predicate EntryIsExact(w: nat, b: nat, k: nat, input: seq<Text>, r: nat, i: nat)
    requires IsSpread(input, k) && r < |input| && i < |input[r]|
  {
    LocalKey(w, b, k, input, r, i) == PackedKey(w, b, k, Whole(input), Offset<Symbol>(input, r) + i)
  }

  /** The characters after its own that a rank sees are the last 2k of the next rank, in order. */
  lemma SeenAfterOwn(k: nat, input: seq<Text>, r: nat, h: nat)
    requires IsSpread(input, k) && r + 1 < |input| && h < 2 * k
    ensures At(LocalText(input, r, k), |input[r]| + h) == input[r + 1][|input[r + 1]| - 2 * k + h]
  {}

  /** The characters a text begins with are those its last 2k begin with. */
  ghost predicate BeginsAsItEnds(t: Text, k: nat)
    requires |t| > 2 * k
  {
    forall j {:trigger t[j]} | 0 <= j < 2 * k - 1 :: t[j] == t[|t| - 2 * k + j]
  }

  lemma HaloFitsIff(k: nat, input: seq<Text>, r: nat)
    requires IsSpread(input, k) && r + 1 < |input|
    ensures HaloFits(input, k, r) <==> BeginsAsItEnds(input[r + 1], k)
  {
    var halo, next := Halo(input, r, k), input[r + 1];
    assert forall j | 0 <= j < 2 * k - 1 :: halo[j] == next[|next| - 2 * k + j];
    if HaloFits(input, k, r) {
      forall j | 0 <= j < 2 * k - 1 ensures next[j] == next[|next| - 2 * k + j] {
        assert halo[j] == next[j];
      }
    }
    if BeginsAsItEnds(next, k) {
      forall j | 0 <= j < 2 * k - 1 ensures halo[j] == next[j] {}
    }
  }

  /** The halos fit if and only if every rank but the first begins with the characters its last 2k begin with. */
  lemma HalosFitIff(k: nat, input: seq<Text>)
    requires IsSpread(input, k)
    ensures HalosFit(input, k) <==> forall r | 0 < r < |input| :: BeginsAsItEnds(input[r], k)
  {
    if HalosFit(input, k) {
      forall r | 0 < r < |input| ensures BeginsAsItEnds(input[r], k) {
        HaloFitsIff(k, input, r - 1);
        assert HaloFits(input, k, r - 1);
      }
    }
    if forall r | 0 < r < |input| :: BeginsAsItEnds(input[r], k) {
      forall r | 0 <= r < |input| - 1 ensures HaloFits(input, k, r) {
        HaloFitsIff(k, input, r);
      }
    }
  }

  /** Where the data of rank r ends, its local text goes on with the halo and the text with the next rank. */
  lemma AcrossTheSeam(k: nat, input: seq<Text>, r: nat, j: nat)
    requires IsSpread(input, k) && r + 1 < |input| && j < 2 * k
    ensures At(LocalText(input, r, k), |input[r]| + j) == Halo(input, r, k)[j]
    ensures At(Whole(input), Offset<Symbol>(input, r) + |input[r]| + j) == input[r + 1][j]
  {
    FlattenStep<Symbol>(input, r);
    FlattenAt<Symbol>(input, r + 1, j);
  }

  lemma LocalTextIsText(input: seq<Text>, k: nat, r: nat, m: nat)
    requires IsSpread(input, k) && HalosFit(input, k)
    requires r < |input| && m < |input[r]| + 2 * k - 1
    ensures At(LocalText(input, r, k), m) == At(Whole(input), Offset<Symbol>(input, r) + m)
  {
    if m < |input[r]| {
      FlattenAt<Symbol>(input, r, m);
    } else if r + 1 < |input| {
      var j := m - |input[r]|;
      AcrossTheSeam(k, input, r, j);
      assert HaloFits(input, k, r);
    } else {
      FlattenStep<Symbol>(input, r);
      assert input[..r + 1] == input;
    }
  }

  lemma WindowsAgree(t: Text, t': Text, at: nat, i: nat, k: nat, n: nat)
    requires i + k <= n
    requires forall m: nat | m < n :: At(t, m) == At(t', at + m)
    ensures Window(t, i, k) == Window(t', at + i, k)
  {
    forall j | 0 <= j < k ensures Window(t, i, k)[j] == Window(t', at + i, k)[j] {
      assert At(t, i + j) == At(t', at + (i + j));
    }
  }

  lemma FittingHalosMakeExactEntries(w: nat, b: nat, k: nat, input: seq<Text>, r: nat, i: nat)
    requires IsSpread(input, k) && HalosFit(input, k)
    requires r < |input| && i < |input[r]|
    ensures EntryIsExact(w, b, k, input, r, i)
  {
    var at, n := Offset<Symbol>(input, r), |input[r]| + 2 * k - 1;
    var l, t := LocalText(input, r, k), Whole(input);
    forall m: nat | m < n ensures At(l, m) == At(t, at + m) {
      LocalTextIsText(input, k, r, m);
    }
    SameWindowsSameKey(w, b, k, l, i, t, at, n);
  }

  lemma SameWindowsSameKey(w: nat, b: nat, k: nat, t: Text, i: nat, t': Text, at: nat, n: nat)
    requires k >= 1 && i + 2 * k <= n
    requires forall m: nat | m < n :: At(t, m) == At(t', at + m)
    ensures PackedKey(w, b, k, t, i) == PackedKey(w, b, k, t', at + i)
  {
    WindowsAgree(t, t', at, i, k, n);
    WindowsAgree(t, t', at, i + k, k, n);
    assert at + (i + k) == at + i + k;
    KeyOfWindows(w, b, k, t, i, t', at + i);
  }

  lemma KeyOfWindows(w: nat, b: nat, k: nat, t: Text, i: nat, t': Text, i': nat)
    requires k >= 1 && Window(t, i, k) == Window(t', i', k) && Window(t, i + k, k) == Window(t', i' + k, k)
    ensures PackedKey(w, b, k, t, i) == PackedKey(w, b, k, t', i')
  {}

  lemma LocalTextFits(b: nat, k: nat, input: seq<Text>, r: nat)
    requires IsSpread(input, k) && AllFitBits(input, b) && r < |input|
    ensures FitsBits(LocalText(input, r, k), b) && FitsBits(Whole(input), b)
  {
    forall p | 0 <= p < |Whole(input)| ensures Whole(input)[p] < Pow2(b) {
      var q, i := Locate<Symbol>(input, p);
    }
    var l := LocalText(input, r, k);
    forall p | 0 <= p < |l| ensures l[p] < Pow2(b) {
      if p < |input[r]| {
        assert l[p] == input[r][p];
      } else {
        var j := p - |input[r]|;
        assert l[p] == input[r + 1][|input[r + 1]| - 2 * k + j];
      }
    }
  }

  /** An entry is exact if and only if the rank sees the 2k characters of the text from there on. */
  lemma {:induction false} EntryIsExactIff(w: nat, b: nat, k: nat, input: seq<Text>, r: nat, i: nat)
    requires IsSpread(input, k) && AllFitBits(input, b) && b * k <= w && r < |input| && i < |input[r]|
    ensures EntryIsExact(w, b, k, input, r, i)
       <==> Window(LocalText(input, r, k), i, 2 * k) == Window(Whole(input), Offset<Symbol>(input, r) + i, 2 * k)
  {
    LocalTextFits(b, k, input, r);
    PackedKeyEqualIff(w, b, k, LocalText(input, r, k), i, Whole(input), Offset<Symbol>(input, r) + i);
  }

  /** What a rank sees right after its last position, and what is there. */
  lemma LastWindowAt(k: nat, input: seq<Text>, r: nat, m: nat)
    requires IsSpread(input, k) && r + 1 < |input| && m < 2 * k
    ensures var last := |input[r]| - 1;
            && At(LocalText(input, r, k), last + m) == (if m == 0 then input[r][last] else Halo(input, r, k)[m - 1])
            && At(Whole(input), Offset<Symbol>(input, r) + last + m)
            == if m == 0 then input[r][last] else input[r + 1][m - 1]
  {
    if m == 0 {
      FlattenAt<Symbol>(input, r, |input[r]| - 1);
    } else {
      AcrossTheSeam(k, input, r, m - 1);
    }
  }

  lemma LastWindowFitsIff(k: nat, input: seq<Text>, r: nat)
    requires IsSpread(input, k) && r + 1 < |input|
    ensures var last := |input[r]| - 1;
            Window(LocalText(input, r, k), last, 2 * k) == Window(Whole(input), Offset<Symbol>(input, r) + last, 2 * k)
            <==> HaloFits(input, k, r)
  {
    var last, at := |input[r]| - 1, Offset<Symbol>(input, r);
    var seen, there := Window(LocalText(input, r, k), last, 2 * k), Window(Whole(input), at + last, 2 * k);
    if HaloFits(input, k, r) {
      forall m: nat | m < 2 * k ensures seen[m] == there[m] {
        LastWindowAt(k, input, r, m);
      }
    }
    if seen == there {
      forall j: nat | j < 2 * k - 1 ensures Halo(input, r, k)[j] == input[r + 1][j] {
        LastWindowAt(k, input, r, j + 1);
        assert seen[j + 1] == there[j + 1];
      }
    }
  }

  /** The entry of the last position of a rank alone shows whether the received characters are right. */
  lemma LastEntryIsExactIff(w: nat, b: nat, k: nat, input: seq<Text>, r: nat)
    requires IsSpread(input, k) && AllFitBits(input, b) && b * k <= w && r + 1 < |input|
    ensures EntryIsExact(w, b, k, input, r, |input[r]| - 1) <==> HaloFits(input, k, r)
  {
    EntryIsExactIff(w, b, k, input, r, |input[r]| - 1);
    LastWindowFitsIff(k, input, r);
  }

  /** Every rank packs exactly the windows of the text if and only if every rank but the first starts
      with the characters it ends with. On one rank this always holds. */
  lemma ExactEntriesIff(w: nat, b: nat, k: nat, input: seq<Text>)
    requires IsSpread(input, k) && AllFitBits(input, b) && b * k <= w
    ensures (forall r: nat, i: nat | r < |input| && i < |input[r]| :: EntryIsExact(w, b, k, input, r, i))
       <==> HalosFit(input, k)
    ensures |input| == 1 ==> HalosFit(input, k)
  {
    if HalosFit(input, k) {
      forall r: nat, i: nat | r < |input| && i < |input[r]| ensures EntryIsExact(w, b, k, input, r, i) {
        FittingHalosMakeExactEntries(w, b, k, input, r, i);
      }
    } else {
      var r :| 0 <= r < |input| - 1 && !HaloFits(input, k, r);
      LastEntryIsExactIff(w, b, k, input, r);
    }
  }

  // ----- the first keys of the whole text -----

  function RankKeys(w: nat, b: nat, k: nat, input: seq<Text>, r: nat): (ks: seq<Key>)
    requires IsSpread(input, k) && r < |input|
    ensures |ks| == |input[r]|
  {
    seq(|input[r]|, i requires 0 <= i < |input[r]| => LocalKey(w, b, k, input, r, i))
  }

  function AllRankKeys(w: nat, b: nat, k: nat, input: seq<Text>): (parts: seq<seq<Key>>)
    requires IsSpread(input, k)
    ensures |parts| == |input|
    ensures forall r | 0 <= r < |parts| :: parts[r] == RankKeys(w, b, k, input, r)
  {
    seq(|input|, r requires 0 <= r < |input| => RankKeys(w, b, k, input, r))
  }

  /** The keys of all positions as their ranks pack them, whether the received characters are right or not. */
  function FirstKeysOf(w: nat, b: nat, k: nat, input: seq<Text>): seq<Key>
    requires IsSpread(input, k)
  {
    Flatten(AllRankKeys(w, b, k, input))
  }

  lemma FirstKeysAt(w: nat, b: nat, k: nat, input: seq<Text>, r: nat, i: nat)
    requires IsSpread(input, k) && r < |input| && i < |input[r]|
    ensures Offset<Symbol>(input, r) + i < |FirstKeysOf(w, b, k, input)|
    ensures FirstKeysOf(w, b, k, input)[Offset<Symbol>(input, r) + i] == LocalKey(w, b, k, input, r, i)
  {
    var parts := AllRankKeys(w, b, k, input);
    SameOffsets<Key, Symbol>(parts, input, r);
    FlattenAt(parts, r, i);
  }

  lemma FirstKeysLength(w: nat, b: nat, k: nat, input: seq<Text>)
    requires IsSpread(input, k)
    ensures |FirstKeysOf(w, b, k, input)| == |Whole(input)|
  {
    var parts := AllRankKeys(w, b, k, input);
    SameOffsets<Key, Symbol>(parts, input, |input|);
    assert parts[..|parts|] == parts && input[..|input|] == input;
  }

  /** With fitting halos these are the packed windows of the text. */
  lemma FittingFirstKeys(w: nat, b: nat, k: nat, input: seq<Text>)
    requires IsSpread(input, k) && HalosFit(input, k)
    ensures FirstKeysOf(w, b, k, input) == PackedKeys(w, b, k, Whole(input))
  {
    FirstKeysLength(w, b, k, input);
    forall p: nat | p < |Whole(input)| ensures FirstKeysOf(w, b, k, input)[p] == PackedKeys(w, b, k, Whole(input))[p] {
      var r, i := Locate<Symbol>(input, p);
      FirstKeysAt(w, b, k, input, r, i);
      FittingHalosMakeExactEntries(w, b, k, input, r, i);
    }
  }

  lemma PositionOfLastRank(input: seq<Text>)
    requires |input| > 0
    ensures Offset<Symbol>(input, |input| - 1) + |input[|input| - 1]| == |Whole(input)|
  {
    FlattenStep<Symbol>(input, |input| - 1);
    assert input[..|input| - 1 + 1] == input;
  }

  lemma RoomAfterOtherRanks(k: nat, input: seq<Text>, r: nat, i: nat)
    requires IsSpread(input, k) && r + 1 < |input| && i < |input[r]|
    ensures Offset<Symbol>(input, r) + i + 2 * k <= |Whole(input)|
  {
    FlattenStep<Symbol>(input, r);
    FlattenAt<Symbol>(input, r + 1, 2 * k);
  }

  /** A window of the last rank that holds padding is seen nowhere else. */
  lemma PaddedWindowIsUnique(k: nat, input: seq<Text>, i: nat, s: nat, j: nat)
    requires IsSpread(input, k) && s < |input| && j < |input[s]|
    requires var last := |input| - 1; i < |input[last]| < i + 2 * k
    requires Window(LocalText(input, |input| - 1, k), i, 2 * k) == Window(LocalText(input, s, k), j, 2 * k)
    ensures s == |input| - 1 && j == i
  {
    var last := |input| - 1;
    var l, l' := LocalText(input, last, k), LocalText(input, s, k);
    var m := |input[last]| - i;
    assert Window(l, i, 2 * k)[m] == 0 == Window(l', j, 2 * k)[m];
    assert s == last && j >= i;
    var m' := |input[last]| - j;
    assert Window(l', j, 2 * k)[m'] == 0 == Window(l, i, 2 * k)[m'];
  }

  lemma {:induction false} RankKeysEqualIff(w: nat, b: nat, k: nat, input: seq<Text>, r: nat, i: nat, s: nat, j: nat)
    requires IsSpread(input, k) && AllFitBits(input, b) && b * k <= w
    requires r < |input| && i < |input[r]| && s < |input| && j < |input[s]|
    ensures RankKeys(w, b, k, input, r)[i] == RankKeys(w, b, k, input, s)[j]
       <==> Window(LocalText(input, r, k), i, 2 * k) == Window(LocalText(input, s, k), j, 2 * k)
  {
    LocalTextFits(b, k, input, r);
    LocalTextFits(b, k, input, s);
    PackedKeyEqualIff(w, b, k, LocalText(input, r, k), i, LocalText(input, s, k), j);
  }

  lemma TieOnRanksIsInside(k: nat, input: seq<Text>, r: nat, i: nat, s: nat, j: nat)
    requires IsSpread(input, k) && r < |input| && i < |input[r]| && s < |input| && j < |input[s]| && !(r == s && i == j)
    requires Window(LocalText(input, r, k), i, 2 * k) == Window(LocalText(input, s, k), j, 2 * k)
    ensures Offset<Symbol>(input, r) + i + 2 * k <= |Whole(input)|
  {
    if r + 1 < |input| {
      RoomAfterOtherRanks(k, input, r, i);
    } else {
      PositionOfLastRank(input);
      if |input[r]| < i + 2 * k {
        PaddedWindowIsUnique(k, input, i, s, j);
      }
    }
  }

  /** All that counts is that equal keys mean that the ranks see equal windows. */
  lemma TiesOfSeenWindows(k: nat, input: seq<Text>, parts: seq<seq<Key>>)
    requires IsSpread(input, k) && |parts| == |input| && forall r | 0 <= r < |parts| :: |parts[r]| == |input[r]|
    requires forall r: nat, i: nat, s: nat, j: nat {:trigger parts[r][i], parts[s][j]} |
      r < |input| && i < |input[r]| && s < |input| && j < |input[s]| && parts[r][i] == parts[s][j] ::
      Window(LocalText(input, r, k), i, 2 * k) == Window(LocalText(input, s, k), j, 2 * k)
    ensures TiesInside(Flatten(parts), 2 * k)
  {
    var ks := Flatten(parts);
    SameOffsets<Key, Symbol>(parts, input, |input|);
    assert parts[..|parts|] == parts && input[..|input|] == input;
    forall x: nat, y: nat | x < |ks| && y < |ks| && x != y && ks[x] == ks[y]
      ensures x + 2 * k <= |ks| && y + 2 * k <= |ks|
    {
      var r, i := Locate(parts, x);
      var s, j := Locate(parts, y);
      SameOffsets<Key, Symbol>(parts, input, r);
      SameOffsets<Key, Symbol>(parts, input, s);
      TieOnRanksIsInside(k, input, r, i, s, j);
      TieOnRanksIsInside(k, input, s, j, r, i);
    }
  }

  /** Equal first keys of different positions never reach past the end of the text: only the last rank
      packs padding, and it sees its own text as it is. */
  lemma {:induction false} FirstKeysTieInside(w: nat, b: nat, k: nat, input: seq<Text>)
    requires IsSpread(input, k) && AllFitBits(input, b) && b * k <= w
    ensures TiesInside(FirstKeysOf(w, b, k, input), 2 * k)
  {
    var parts := AllRankKeys(w, b, k, input);
    forall r: nat, i: nat, s: nat, j: nat {:trigger parts[r][i], parts[s][j]} |
      r < |input| && i < |input[r]| && s < |input| && j < |input[s]| && parts[r][i] == parts[s][j]
      ensures Window(LocalText(input, r, k), i, 2 * k) == Window(LocalText(input, s, k), j, 2 * k)
    {
      RankKeysEqualIff(w, b, k, input, r, i, s, j);
    }
    TiesOfSeenWindows(k, input, parts);
  }

  /** The windows two ranks see at two of their positions are different. */
  ghost predicate SeeDifferent(k: nat, input: seq<Text>, r: nat, i: nat, s: nat, j: nat)
    requires IsSpread(input, k) && r < |input| && s < |input|
  {
    Window(LocalText(input, r, k), i, 2 * k) != Window(LocalText(input, s, k), j, 2 * k)
  }

  /** If all windows the ranks see are different, so are the first keys. */
  lemma {:induction false} DifferentWindowsMeanDistinct(w: nat, b: nat, k: nat, input: seq<Text>)
    requires IsSpread(input, k) && AllFitBits(input, b) && b * k <= w
    requires forall r: nat, i: nat, s: nat, j: nat |
      r < |input| && i < |input[r]| && s < |input| && j < |input[s]| && !(r == s && i == j) ::
      SeeDifferent(k, input, r, i, s, j)
    ensures Distinct(FirstKeysOf(w, b, k, input))
  {
    var parts := AllRankKeys(w, b, k, input);
    forall x: nat, y: nat | x < y < |Flatten(parts)| ensures Flatten(parts)[x] != Flatten(parts)[y] {
      var r, i := Locate(parts, x);
      var s, j := Locate(parts, y);
      RankKeysEqualIff(w, b, k, input, r, i, s, j);
      assert SeeDifferent(k, input, r, i, s, j);
    }
  }

  /** One rank's entries. */
  ghost predicate AreRankEntries(w: nat, b: nat, k: nat, input: seq<Text>, r: nat, entries: seq<IRR>)
    requires IsSpread(input, k) && r < |input|
  {
    && |entries| == |input[r]|
    && forall i {:trigger entries[i]} | 0 <= i < |entries| :: entries[i] == FirstEntry(w, b, k, input, r, i)
  }

  /** All ranks' entries. */
  ghost predicate AreFirstEntries(w: nat, b: nat, k: nat, input: seq<Text>, entries: seq<seq<IRR>>)
    requires IsSpread(input, k)
  {
    && |entries| == |input|
    && forall r | 0 <= r < |input| :: AreRankEntries(w, b, k, input, r, entries[r])
  }

  /** The entries of all ranks, in rank order, belong to the positions 0, 1, 2, ... and carry the first keys. */
  lemma {:induction false} FirstEntriesAreInOrder(w: nat, b: nat, k: nat, input: seq<Text>, entries: seq<seq<IRR>>,
      p: nat)
    requires IsSpread(input, k) && AreFirstEntries(w, b, k, input, entries)
    requires p < |Flatten(entries)|
    ensures p < |FirstKeysOf(w, b, k, input)|
    ensures Flatten(entries)[p].index == p && KeyOf(Flatten(entries)[p]) == FirstKeysOf(w, b, k, input)[p]
  {
    var r, i := Locate(entries, p);
    assert AreRankEntries(w, b, k, input, r, entries[r]);
    SameOffsets<IRR, Symbol>(entries, input, r);
    FirstKeysAt(w, b, k, input, r, i);
    assert Flatten(entries)[p] == FirstEntry(w, b, k, input, r, i);
  }

  /** The ranks start with the first keys; these are the packed windows of the text if the halos fit. */
  lemma EntriesHoldKeys(w: nat, b: nat, k: nat, input: seq<Text>, entries: seq<seq<IRR>>)
    requires IsSpread(input, k) && AreFirstEntries(w, b, k, input, entries)
    ensures |FirstKeysOf(w, b, k, input)| == |Whole(input)|
    ensures HoldsPairs(Flatten(entries), FirstKeysOf(w, b, k, input))
    ensures HalosFit(input, k) ==> FirstKeysOf(w, b, k, input) == PackedKeys(w, b, k, Whole(input))
  {
    var s := Flatten(entries);
    SameOffsets<IRR, Symbol>(entries, input, |input|);
    assert entries[..|entries|] == entries && input[..|input|] == input;
    FirstKeysLength(w, b, k, input);
    forall p | 0 <= p < |s|
      ensures PairIndices(s)[p] == p && KeyOf(s[p]) == FirstKeysOf(w, b, k, input)[PairIndices(s)[p]]
    {
      FirstEntriesAreInOrder(w, b, k, input, entries, p);
    }
    if HalosFit(input, k) {
      FittingFirstKeys(w, b, k, input);
    }
  }
}
