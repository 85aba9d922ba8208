/** Packing the first k symbols of a window into one machine word of width w, b bits per symbol. */
module Packing {
  import opened Sequences
  import opened Bits
  import opened Windows
  import opened Doubling
  import opened Endings
  import opened Agreement

  /** The k symbols from position i on, padded with 0. */
  function Window(t: Text, i: nat, k: nat): (s: seq<nat>)
    ensures |s| == k && forall j | 0 <= j < k :: s[j] == At(t, i + j)
  {
    seq<nat>(k, j requires 0 <= j < k => At(t, i + j))
  }

  /** The packing loop, which shifts the symbols one by one into a word that starts as the given one. */
  function PackedAfter(w: nat, b: nat, word: nat, syms: seq<nat>): nat {
    if syms == [] then word
    else BitOr(ShiftLeft(w, PackedAfter(w, b, word, syms[..|syms| - 1]), b), syms[|syms| - 1])
  }

  /** The word starts as the first symbol, so this symbol is packed twice. */
  function Pack(w: nat, b: nat, syms: seq<nat>): nat
    requires syms != []
  {
    PackedAfter(w, b, syms[0], syms)
  }

  /** The number with the given digits to the base 2^b. */
  function Value(b: nat, syms: seq<nat>): nat {
    if syms == [] then 0 else Value(b, syms[..|syms| - 1]) * Pow2(b) + syms[|syms| - 1]
  }

  ghost predicate AreDigits(b: nat, syms: seq<nat>) {
    forall j | 0 <= j < |syms| :: syms[j] < Pow2(b)
  }

  /** Every symbol of the text is a digit to the base 2^b. */
  ghost predicate FitsBits(t: Text, b: nat) {
    forall p | 0 <= p < |t| :: t[p] < Pow2(b)
  }

  // ----- numbers -----

  lemma HigherDigitWins(x: nat, y: nat, u: nat, m: nat)
    requires x < y && u < m
    ensures x * m + u < y * m
  {
    assert x * m + m == (x + 1) * m;
    assert (x + 1) * m <= y * m;
  }

  /** Two-digit numbers to the base m compare by the higher digit first. */
  lemma DigitOrder(x: nat, y: nat, u: nat, v: nat, m: nat)
    requires u < m && v < m
    ensures x * m + u < y * m + v <==> x < y || (x == y && u < v)
    ensures x * m + u == y * m + v <==> x == y && u == v
  {
    if x < y {
      HigherDigitWins(x, y, u, m);
    } else if y < x {
      HigherDigitWins(y, x, v, m);
    }
  }

  lemma {:induction false} ValueBound(b: nat, syms: seq<nat>)
    requires AreDigits(b, syms)
    ensures Value(b, syms) < Pow2(b * |syms|)
  {
    if syms == [] {
      assert b * 0 == 0;
    } else {
      var last := |syms| - 1;
      ValueBound(b, syms[..last]);
      PowStep(b, last);
      DigitOrder(Value(b, syms[..last]), Pow2(b * last), syms[last], 0, Pow2(b));
    }
  }

  lemma PowStep(b: nat, m: nat)
    ensures b * m + b == b * (m + 1)
    ensures Pow2(b * (m + 1)) == Pow2(b * m) * Pow2(b)
  {
    assert b * m + b == b * (m + 1);
    Pow2Add(b * m, b);
  }

  lemma InitAndLast<T>(s: seq<T>, t: seq<T>)
    requires |s| == |t| >= 1
    ensures s == t <==> s[..|s| - 1] == t[..|t| - 1] && s[|s| - 1] == t[|t| - 1]
  {
    assert s == s[..|s| - 1] + [s[|s| - 1]] && t == t[..|t| - 1] + [t[|t| - 1]];
  }

  lemma {:induction false} ValueInjective(b: nat, s: seq<nat>, t: seq<nat>)
    requires AreDigits(b, s) && AreDigits(b, t) && |s| == |t|
    ensures Value(b, s) == Value(b, t) <==> s == t
  {
    if s != [] {
      var last := |s| - 1;
      ValueInjective(b, s[..last], t[..last]);
      DigitOrder(Value(b, s[..last]), Value(b, t[..last]), s[last], t[last], Pow2(b));
      InitAndLast(s, t);
    }
  }

  /** Windows compare as the numbers they spell. */
  lemma {:induction false} ValueOrder(b: nat, t: Text, i: nat, j: nat, k: nat)
    requires FitsBits(t, b)
    ensures Value(b, Window(t, i, k)) < Value(b, Window(t, j, k)) <==> WindowLess(t, i, j, k)
    ensures Value(b, Window(t, i, k)) == Value(b, Window(t, j, k)) <==> WindowEqual(t, i, j, k)
  {
    if k > 0 {
      ValueOrder(b, t, i, j, k - 1);
      assert Window(t, i, k)[..k - 1] == Window(t, i, k - 1);
      assert Window(t, j, k)[..k - 1] == Window(t, j, k - 1);
      DigitOrder(Value(b, Window(t, i, k - 1)), Value(b, Window(t, j, k - 1)), At(t, i + k - 1), At(t, j + k - 1),
        Pow2(b));
      LastSymbol(t, i, j, k);
    }
  }

  lemma LastSymbol(t: Text, i: nat, j: nat, k: nat)
    requires k > 0
    ensures WindowLess(t, i, j, k)
       <==> WindowLess(t, i, j, k - 1) || (WindowEqual(t, i, j, k - 1) && At(t, i + k - 1) < At(t, j + k - 1))
    ensures WindowEqual(t, i, j, k) <==> WindowEqual(t, i, j, k - 1) && At(t, i + k - 1) == At(t, j + k - 1)
  {
    WindowSplit(t, i, j, k - 1, 1);
    assert k - 1 + 1 == k && i + (k - 1) == i + k - 1 && j + (k - 1) == j + k - 1;
  }

  // ----- words -----

  lemma ModProduct(x: nat, m: nat, c: nat, s: nat)
    requires m > 0 && s < c
    ensures m * c > 0
    ensures (x * c + s) % (m * c) == (x % m) * c + s
    ensures (x * c) % (m * c) == (x % m) * c
  {
    var q, r := x / m, x % m;
    assert r * c + s < m * c && r * c < m * c by {
      assert (r + 1) * c <= m * c;
      assert (r + 1) * c == r * c + c;
    }
    assert x * c == q * (m * c) + r * c by {
      assert x == q * m + r;
      assert (q * m + r) * c == (q * m) * c + r * c;
      assert (q * m) * c == q * (m * c);
    }
    DivisionUnique(q, m * c, r * c + s);
    DivisionUnique(q, m * c, r * c);
  }

  /** One step of the loop appends a digit, modulo the word. */
  lemma PackStep(w: nat, b: nat, x: nat, s: nat)
    requires b <= w && s < Pow2(b)
    ensures BitOr(ShiftLeft(w, x % Pow2(w), b), s) == (x * Pow2(b) + s) % Pow2(w)
  {
    var m := Pow2(w - b);
    Pow2Add(w - b, b);
    assert w - b + b == w;
    ModMul(x, Pow2(w), Pow2(b));
    ModProduct(x, m, Pow2(b), s);
    OrIsPlus(x % m, s, b);
  }

  /** The number the loop would compute in a word without a limit. */
  function Number(b: nat, word: nat, syms: seq<nat>): nat {
    if syms == [] then word else Number(b, word, syms[..|syms| - 1]) * Pow2(b) + syms[|syms| - 1]
  }

  lemma {:induction false} PackedAfterIsNumber(w: nat, b: nat, word: nat, syms: seq<nat>)
    requires b <= w && word < Pow2(w) && AreDigits(b, syms)
    ensures PackedAfter(w, b, word, syms) == Number(b, word, syms) % Pow2(w)
  {
    if syms == [] {
      SmallMod(word, Pow2(w));
    } else {
      var init, s := syms[..|syms| - 1], syms[|syms| - 1];
      PackedAfterIsNumber(w, b, word, init);
      PackStep(w, b, Number(b, word, init), s);
    }
  }

  /** p, q and c are powers of the base. */
  lemma AppendDigit(word: nat, p: nat, q: nat, v: nat, c: nat, s: nat)
    requires q == p * c
    ensures (word * p + v) * c + s == word * q + (v * c + s)
  {
    assert (word * p + v) * c == (word * p) * c + v * c;
    assert (word * p) * c == word * (p * c);
  }

  lemma {:induction false} NumberIsSum(b: nat, word: nat, syms: seq<nat>)
    ensures Number(b, word, syms) == word * Pow2(b * |syms|) + Value(b, syms)
  {
    if syms == [] {
      assert b * 0 == 0;
    } else {
      var last := |syms| - 1;
      var init := syms[..last];
      NumberIsSum(b, word, init);
      PowStep(b, last);
      AppendDigit(word, Pow2(b * last), Pow2(b * (last + 1)), Value(b, init), Pow2(b), syms[last]);
    }
  }

  lemma SymbolFitsWord(w: nat, b: nat, k: nat, s: nat)
    requires k >= 1 && b * k <= w && s < Pow2(b)
    ensures b <= w && s < Pow2(w)
  {
    assert b * k == b * (k - 1) + b && b * (k - 1) >= 0;
    Pow2Monotone(b, w);
  }

  /** The packed word spells the window, below what is left of the first symbol packed before it. */
  lemma {:induction false} PackMeaning(w: nat, b: nat, syms: seq<nat>)
    requires syms != [] && AreDigits(b, syms) && b * |syms| <= w
    ensures Pack(w, b, syms) == (syms[0] % Pow2(w - b * |syms|)) * Pow2(b * |syms|) + Value(b, syms)
  {
    SymbolFitsWord(w, b, |syms|, syms[0]);
    PackedAfterIsNumber(w, b, syms[0], syms);
    NumberIsSum(b, syms[0], syms);
    ValueBound(b, syms);
    HighAndLowPart(w, b * |syms|, syms[0], Value(b, syms));
  }

  lemma HighAndLowPart(w: nat, n: nat, x: nat, v: nat)
    requires n <= w && v < Pow2(n)
    ensures (x * Pow2(n) + v) % Pow2(w) == (x % Pow2(w - n)) * Pow2(n) + v
  {
    Pow2Add(w - n, n);
    assert w - n + n == w;
    ModProduct(x, Pow2(w - n), Pow2(n), v);
  }

  /** Two packed words are equal exactly if their symbols are. */
  lemma PackInjective(w: nat, b: nat, s: seq<nat>, t: seq<nat>)
    requires s != [] && |s| == |t| && AreDigits(b, s) && AreDigits(b, t) && b * |s| <= w
    ensures Pack(w, b, s) == Pack(w, b, t) <==> s == t
  {
    PackMeaning(w, b, s);
    PackMeaning(w, b, t);
    ValueBound(b, s);
    ValueBound(b, t);
    ValueInjective(b, s, t);
    var e := w - b * |s|;
    DigitOrder(s[0] % Pow2(e), t[0] % Pow2(e), Value(b, s), Value(b, t), Pow2(b * |s|));
  }

  /** The packed window at i, as its high and its low part. */
  lemma {:induction false} PackParts(w: nat, b: nat, t: Text, i: nat, k: nat)
    requires FitsBits(t, b) && k > 0 && b * k <= w
    ensures Pack(w, b, Window(t, i, k)) == (At(t, i) % Pow2(w - b * k)) * Pow2(b * k) + Value(b, Window(t, i, k))
    ensures Value(b, Window(t, i, k)) < Pow2(b * k)
  {
    PackMeaning(w, b, Window(t, i, k));
    ValueBound(b, Window(t, i, k));
  }

  /** If the symbols fill the word, the numeric order of packed words is the order of the windows. */
  lemma {:induction false} PackOrder(w: nat, b: nat, t: Text, i: nat, j: nat, k: nat)
    requires FitsBits(t, b) && k > 0 && b * k == w
    ensures Pack(w, b, Window(t, i, k)) < Pack(w, b, Window(t, j, k)) <==> WindowLess(t, i, j, k)
  {
    PackParts(w, b, t, i, k);
    PackParts(w, b, t, j, k);
    assert Pow2(w - b * k) == 1;
    ValueOrder(b, t, i, j, k);
  }

  /** If bits are left over, they hold the low bits of the first symbol and decide first. */
  lemma {:induction false} PackDisorder(w: nat, b: nat, t: Text, i: nat, j: nat, k: nat)
    requires FitsBits(t, b) && k > 0 && b * k < w
    requires At(t, i) % Pow2(w - b * k) < At(t, j) % Pow2(w - b * k)
    ensures Pack(w, b, Window(t, i, k)) < Pack(w, b, Window(t, j, k))
  {
    var m := Pow2(w - b * k);
    PackParts(w, b, t, i, k);
    PackParts(w, b, t, j, k);
    DigitOrder(At(t, i) % m, At(t, j) % m, Value(b, Window(t, i, k)), Value(b, Window(t, j, k)), Pow2(b * k));
  }

  // ----- the first keys -----

  /** The pair of packed words of the windows at i and at i + k. */
  function PackedKey(w: nat, b: nat, k: nat, t: Text, i: nat): Key
    requires k > 0
  {
    (Pack(w, b, Window(t, i, k)), Pack(w, b, Window(t, i + k, k)))
  }

  function PackedKeys(w: nat, b: nat, k: nat, t: Text): (ks: seq<Key>)
    requires k > 0
    ensures |ks| == |t|
  {
    seq(|t|, i requires 0 <= i < |t| => PackedKey(w, b, k, t, i))
  }

  lemma PackEqual(w: nat, b: nat, t: Text, i: nat, j: nat, k: nat)
    requires FitsBits(t, b) && k > 0 && b * k <= w
    ensures Pack(w, b, Window(t, i, k)) == Pack(w, b, Window(t, j, k)) <==> WindowEqual(t, i, j, k)
  {
    PackInjective(w, b, Window(t, i, k), Window(t, j, k));
    ValueInjective(b, Window(t, i, k), Window(t, j, k));
    ValueOrder(b, t, i, j, k);
  }

  /** The first keys tell windows of length 2k apart, for every width of word and symbol. */
  lemma PackedKeysSeparate(w: nat, b: nat, k: nat, t: Text)
    requires FitsBits(t, b) && k > 0 && b * k <= w
    ensures SeparatesWindows(t, PackedKeys(w, b, k, t), 2 * k)
  {
    forall x: nat, y: nat | x < |t| && y < |t|
      ensures (PackedKeys(w, b, k, t)[x] == PackedKeys(w, b, k, t)[y]) == WindowEqual(t, x, y, 2 * k)
    {
      PackEqual(w, b, t, x, y, k);
      PackEqual(w, b, t, x + k, y + k, k);
      WindowSplit(t, x, y, k, k);
      assert k + k == 2 * k;
    }
  }

  lemma WindowJoin(t: Text, i: nat, k: nat)
    ensures Window(t, i, 2 * k) == Window(t, i, k) + Window(t, i + k, k)
  {
    var s := Window(t, i, k) + Window(t, i + k, k);
    forall m | 0 <= m < 2 * k ensures Window(t, i, 2 * k)[m] == s[m] {
      if m >= k {
        assert i + k + (m - k) == i + m;
      }
    }
  }

  lemma HalvesEqual<T>(a: seq<T>, b: seq<T>, a': seq<T>, b': seq<T>)
    requires |a| == |a'|
    ensures a + b == a' + b' <==> a == a' && b == b'
  {
    if a + b == a' + b' {
      assert (a + b)[..|a|] == a && (a' + b')[..|a|] == a';
      assert (a + b)[|a|..] == b && (a' + b')[|a|..] == b';
    }
  }

  /** Keys of two texts are equal exactly for equal windows of length 2k. */
  lemma {:induction false} PackedKeyEqualIff(w: nat, b: nat, k: nat, t: Text, i: nat, t': Text, i': nat)
    requires FitsBits(t, b) && FitsBits(t', b) && k > 0 && b * k <= w
    ensures PackedKey(w, b, k, t, i) == PackedKey(w, b, k, t', i') <==> Window(t, i, 2 * k) == Window(t', i', 2 * k)
  {
    PackInjective(w, b, Window(t, i, k), Window(t', i', k));
    PackInjective(w, b, Window(t, i + k, k), Window(t', i' + k, k));
    WindowJoin(t, i, k);
    WindowJoin(t', i', k);
    HalvesEqual(Window(t, i, k), Window(t, i + k, k), Window(t', i', k), Window(t', i' + k, k));
  }

  /** If the symbols fill the word, the first keys order windows of length 2k. */
  lemma PackedKeysOrder(w: nat, b: nat, k: nat, t: Text)
    requires FitsBits(t, b) && k > 0 && b * k == w
    ensures OrdersWindows(t, PackedKeys(w, b, k, t), 2 * k)
  {
    forall x: nat, y: nat | x < |t| && y < |t|
      ensures KeyLess(PackedKeys(w, b, k, t)[x], PackedKeys(w, b, k, t)[y]) == WindowLess(t, x, y, 2 * k)
    {
      PackEqual(w, b, t, x, y, k);
      PackOrder(w, b, t, x, y, k);
      PackOrder(w, b, t, x + k, y + k, k);
      WindowSplit(t, x, y, k, k);
      assert k + k == 2 * k;
    }
  }

  /** If bits are left over, some two suffixes are in the wrong order from the start: symbol 2^e, of
      which the e left-over bits keep 0, comes before symbol 1. */
  lemma PackedKeysDisorder(w: nat, b: nat, k: nat, t: Text, x: nat, y: nat)
    requires FitsBits(t, b) && k > 0 && b * k < w
    requires x < |t| && y < |t| && t[x] == Pow2(w - b * k) && t[y] == 1
    ensures KeyLess(PackedKeys(w, b, k, t)[x], PackedKeys(w, b, k, t)[y])
    ensures SuffixLess(t, y, x) && !SuffixLess(t, x, y)
  {
    var m := Pow2(w - b * k);
    assert m >= 2;
    DivisionUnique(1, m, 0);
    SmallMod(1, m);
    PackDisorder(w, b, t, x, y, k);
  }

  // ----- from the first keys to the result -----

  /** The iteration the doubling starts in. */
  function StartIteration(k: nat): nat
    requires k >= 1
  {
    FloorLog2(k) + 1
  }

  predicate IsPowerOf2(k: nat)
    requires k >= 1
  {
    k == Pow2(FloorLog2(k))
  }

  /** The windows of the first keys are at least as long as the first shift, and longer unless k is a
      power of two. */
  lemma FirstShift(k: nat)
    requires k >= 1
    ensures Pow2(StartIteration(k)) <= 2 * k < 2 * Pow2(StartIteration(k))
    ensures 2 * k > Pow2(StartIteration(k)) <==> !IsPowerOf2(k)
  {}

  /** The keys of all positions after the given number of rounds. */
  ghost function FinalKeys(w: nat, b: nat, k: nat, t: Text, rounds: nat): (ks: seq<Key>)
    requires k >= 1
    ensures |ks| == |t|
  {
    KeysAfter(PackedKeys(w, b, k, t), StartIteration(k), rounds)
  }

  /** If the symbols fill the word, the positions in the order of distinct keys are the suffix array. */
  lemma FilledWordGivesSuffixArray(w: nat, b: nat, k: nat, t: Text, rounds: nat, sa: seq<nat>)
    requires FitsBits(t, b) && k >= 1 && b * k == w
    requires SortedByKey(sa, FinalKeys(w, b, k, t, rounds))
    ensures IsSuffixArray(t, sa)
  {
    PackedKeysOrder(w, b, k, t);
    PackedKeysSeparate(w, b, k, t);
    FirstShift(k);
    OrderIsSound(t, PackedKeys(w, b, k, t), 2 * k, Pow2(StartIteration(k)));
    SoundKeysGiveSuffixArray(t, PackedKeys(w, b, k, t), StartIteration(k), rounds, sa);
  }

  /** If bits are left over, they are not, as soon as the text holds the symbols 1 and 2^e. */
  lemma UnfilledWordGivesNoSuffixArray(w: nat, b: nat, k: nat, t: Text, rounds: nat, sa: seq<nat>, x: nat, y: nat)
    requires FitsBits(t, b) && k >= 1 && b * k < w
    requires x < |t| && y < |t| && t[x] == Pow2(w - b * k) && t[y] == 1
    requires SortedByKey(sa, FinalKeys(w, b, k, t, rounds))
    ensures !IsSuffixArray(t, sa)
  {
    PackedKeysDisorder(w, b, k, t, x, y);
    WrongOrderStays(t, PackedKeys(w, b, k, t), StartIteration(k), rounds, x, y, sa);
  }

  /** If k is not a power of two, unfinished rounds are few and their shifts shorter than the text. */
  lemma {:induction false} RoundsAreBounded(w: nat, k: nat, ks: seq<Key>, rounds: nat)
    requires k >= 1 && !IsPowerOf2(k) && TiesInside(ks, 2 * k)
    requires !Distinct(KeysAfter(ks, StartIteration(k), rounds))
    ensures |ks| >= 1 && rounds < RoundBound(|ks|, StartIteration(k))
    ensures Pow2(StartIteration(k) + rounds) < |ks|
    ensures |ks| <= Pow2(w) ==> StartIteration(k) + rounds < w
  {
    FirstShift(k);
    UnfinishedMeansShortShift(ks, 2 * k, StartIteration(k), rounds);
    if w <= StartIteration(k) + rounds {
      Pow2Monotone(w, StartIteration(k) + rounds);
    }
  }

  // ----- when the loop ends for every text -----

  /** Where the first symbols are 0 or 1, left-over bits do no harm. */
  lemma {:induction false} PackOrderOfOnes(w: nat, b: nat, t: Text, i: nat, j: nat, k: nat)
    requires FitsBits(t, b) && k > 0 && b * k <= w && At(t, i) <= 1 && At(t, j) <= 1
    ensures Pack(w, b, Window(t, i, k)) < Pack(w, b, Window(t, j, k)) <==> WindowLess(t, i, j, k)
  {
    var x, y, m := At(t, i), At(t, j), Pow2(w - b * k);
    var u, v := Value(b, Window(t, i, k)), Value(b, Window(t, j, k));
    PackParts(w, b, t, i, k);
    PackParts(w, b, t, j, k);
    ValueOrder(b, t, i, j, k);
    WindowTrichotomy(t, i, j, k);
    assert (u <= v ==> x <= y) && (v <= u ==> y <= x) by {
      assert WindowEqual(t, i, j, k) ==> x == y;
      assert WindowLess(t, i, j, k) ==> x <= y;
      assert WindowLess(t, j, i, k) ==> y <= x;
      ValueOrder(b, t, j, i, k);
    }
    RemaindersOfOnes(x, y, m);
    LowPartDecides(x % m, y % m, u, v, Pow2(b * k));
  }

  lemma RemaindersOfOnes(x: nat, y: nat, m: nat)
    requires x <= 1 && y <= 1 && m > 0
    ensures x <= y ==> x % m <= y % m
    ensures y <= x ==> y % m <= x % m
  {
    if m == 1 {
      assert x % 1 == 0 && y % 1 == 0;
    } else {
      SmallMod(x, m);
      SmallMod(y, m);
    }
  }

  /** If the high parts never disagree with the low parts, the low parts decide. */
  lemma LowPartDecides(p: nat, q: nat, u: nat, v: nat, c: nat)
    requires u < c && v < c
    requires u <= v ==> p <= q
    requires v <= u ==> q <= p
    ensures p * c + u < q * c + v <==> u < v
  {
    DigitOrder(p, q, u, v, c);
  }

  /** The first keys of a text of one symbol order its windows, for every width of word and symbol. */
  lemma UniformKeysOrder(w: nat, b: nat, k: nat, n: nat)
    requires b >= 1 && k >= 1 && b * k <= w
    ensures FitsBits(Uniform(n), b)
    ensures OrdersWindows(Uniform(n), PackedKeys(w, b, k, Uniform(n)), 2 * k)
  {
    var t := Uniform(n);
    Pow2Monotone(1, b);
    assert Pow2(1) == 2;
    forall x: nat, y: nat | x < |t| && y < |t|
      ensures KeyLess(PackedKeys(w, b, k, t)[x], PackedKeys(w, b, k, t)[y]) == WindowLess(t, x, y, 2 * k)
    {
      KeyOrderOfOnes(w, b, k, t, x, y);
    }
  }

  lemma {:induction false} KeyOrderOfOnes(w: nat, b: nat, k: nat, t: Text, x: nat, y: nat)
    requires FitsBits(t, b) && k > 0 && b * k <= w && x < |t| && y < |t|
    requires forall i | 0 <= i < |t| :: t[i] == 1
    ensures KeyLess(PackedKey(w, b, k, t, x), PackedKey(w, b, k, t, y)) == WindowLess(t, x, y, 2 * k)
  {
    PackEqual(w, b, t, x, y, k);
    PackOrderOfOnes(w, b, t, x, y, k);
    PackOrderOfOnes(w, b, t, x + k, y + k, k);
    WindowSplit(t, x, y, k, k);
    assert k + k == 2 * k;
  }

  /** If k is a power of two, the text of one symbol repeated 2k + 2 times is never finished, whether or
      not the symbols fill the word. */
  lemma {:induction false} UniformTextNeverFinishesPacked(w: nat, b: nat, k: nat, rounds: nat)
    requires b >= 1 && k >= 1 && b * k <= w && IsPowerOf2(k)
    ensures FitsBits(Uniform(2 * k + 2), b)
    ensures !Distinct(FinalKeys(w, b, k, Uniform(2 * k + 2), rounds))
  {
    UniformKeysOrder(w, b, k, 2 * k + 2);
    PackedKeysSeparate(w, b, k, Uniform(2 * k + 2));
    UniformKeysNeverDistinct(PackedKeys(w, b, k, Uniform(2 * k + 2)), k, rounds);
  }

  lemma UniformKeysNeverDistinct(ks: seq<Key>, k: nat, rounds: nat)
    requires k >= 1 && IsPowerOf2(k)
    requires OrdersWindows(Uniform(2 * k + 2), ks, 2 * k) && SeparatesWindows(Uniform(2 * k + 2), ks, 2 * k)
    ensures !Distinct(KeysAfter(ks, StartIteration(k), rounds))
  {
    FirstShift(k);
    UniformTextNeverFinishes(ks, StartIteration(k), rounds);
    EqualEntriesAreNotDistinct(KeysAfter(ks, StartIteration(k), rounds), 1, 2);
  }

  /** Every text of b-bit symbols is finished after some number of rounds. */
  ghost predicate AlwaysFinishesPacked(w: nat, b: nat, k: nat)
    requires k >= 1
  {
    forall t: Text | |t| >= 1 && FitsBits(t, b) :: exists rounds: nat :: Distinct(FinalKeys(w, b, k, t, rounds))
  }

  /** The exact condition for the program's own keys: the loop ends for every text if and only if the
      number of symbols per word is not a power of two. */
  lemma {:induction false} PackedFinishesIff(w: nat, b: nat, k: nat)
    requires b >= 1 && k >= 1 && b * k <= w
    ensures AlwaysFinishesPacked(w, b, k) <==> !IsPowerOf2(k)
  {
    if IsPowerOf2(k) {
      var t := Uniform(2 * k + 2);
      UniformTextNeverFinishesPacked(w, b, k, 0);
      forall rounds: nat ensures !Distinct(FinalKeys(w, b, k, t, rounds)) {
        UniformTextNeverFinishesPacked(w, b, k, rounds);
      }
      assert |t| >= 1 && FitsBits(t, b);
    } else {
      forall t: Text | |t| >= 1 && FitsBits(t, b)
        ensures exists rounds: nat :: Distinct(FinalKeys(w, b, k, t, rounds))
      {
        PackedKeysSeparate(w, b, k, t);
        SeparatedTiesAreInside(t, PackedKeys(w, b, k, t), 2 * k);
        FirstShift(k);
        KeysBecomeDistinct(PackedKeys(w, b, k, t), 2 * k, StartIteration(k));
        assert Distinct(FinalKeys(w, b, k, t, RoundBound(|t|, StartIteration(k))));
      }
    }
  }

  /** If k is a power of two and no bits are left over, the packed keys repeat exactly if the text does. */
  lemma {:induction false} PackedRepeatIff(w: nat, b: nat, k: nat, t: Text)
    requires FitsBits(t, b) && k >= 1 && b * k == w && IsPowerOf2(k)
    ensures KeysRepeat(PackedKeys(w, b, k, t), StartIteration(k)) <==> EndRepeats(t, StartIteration(k))
  {
    PackedKeysOrder(w, b, k, t);
    PackedKeysSeparate(w, b, k, t);
    FirstShift(k);
    KeysRepeatIff(t, PackedKeys(w, b, k, t), StartIteration(k));
  }

  lemma EqualEntriesAreNotDistinct<T>(s: seq<T>, i: nat, j: nat)
    requires i < j < |s| && s[i] == s[j]
    ensures !Distinct(s)
  {}

  lemma FloorLog2Unique(n: nat, f: nat)
    requires Pow2(f) <= n < Pow2(f + 1)
    ensures FloorLog2(n) == f
  {
    var g := FloorLog2(n);
    if g < f {
      Pow2Monotone(g + 1, f);
    } else if f < g {
      Pow2Monotone(f + 1, g);
    }
  }

  /** In a word of 2^v bits, symbols that fill the word come in a power of two: the condition under which
      the result is right excludes the condition under which the loop is sure to end. */
  lemma {:induction false} FilledWordMeansPowerOf2(v: nat, b: nat, k: nat)
    requires k >= 1 && b * k == Pow2(v)
    ensures IsPowerOf2(k)
  {
    var c := DivisorOfPowerOf2(v, k, b);
    FloorLog2Unique(k, c);
  }

  lemma {:induction false} DivisorOfPowerOf2(v: nat, k: nat, b: nat) returns (c: nat)
    requires b * k == Pow2(v)
    ensures k == Pow2(c)
  {
    if v == 0 {
      assert k >= 2 ==> b * k >= b * 2;
      c := 0;
    } else if k % 2 == 0 {
      assert b * k == 2 * (b * (k / 2));
      var d := DivisorOfPowerOf2(v - 1, k / 2, b);
      c := d + 1;
    } else {
      OddFactor(b, k, Pow2(v - 1));
      assert b * k == 2 * ((b / 2) * k);
      c := DivisorOfPowerOf2(v - 1, k, b / 2);
    }
  }

  lemma OddFactor(b: nat, k: nat, m: nat)
    requires b * k == 2 * m && k % 2 == 1
    ensures b % 2 == 0
  {
    var h := k / 2;
    assert b * k == 2 * (b * h) + b by {
      assert k == 2 * h + 1;
      assert b * (2 * h + 1) == 2 * (b * h) + b;
    }
  }
}
