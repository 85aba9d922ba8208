/** Fixed-length windows of a text and the order of its suffixes. Symbols are positive; a window that
    reaches past the end of the text is filled up with 0, which is smaller than every symbol. */
module Windows {
  import opened Sequences

  type Symbol = s: nat | s > 0 witness 1
  type Text = seq<Symbol>

  /** The symbol at position i of the text padded with 0. */
  function At(t: Text, i: nat): nat {
    if i < |t| then t[i] else 0
  }

  /** The h symbols from i on equal the h symbols from j on. */
  predicate WindowEqual(t: Text, i: nat, j: nat, h: nat)
    decreases h
  {
    h > 0 ==> At(t, i) == At(t, j) && WindowEqual(t, i + 1, j + 1, h - 1)
  }

  /** The h symbols from i on are lexicographically smaller than the h symbols from j on. */
  predicate WindowLess(t: Text, i: nat, j: nat, h: nat)
    decreases h
  {
    h > 0 && (At(t, i) < At(t, j) || (At(t, i) == At(t, j) && WindowLess(t, i + 1, j + 1, h - 1)))
  }

  /** The lexicographic order of two strings; a proper prefix is smaller. */
  predicate LexLess(a: seq<nat>, b: seq<nat>) {
    b != [] && (a == [] || a[0] < b[0] || (a[0] == b[0] && LexLess(a[1..], b[1..])))
  }

  /** The suffix starting at i is smaller than the suffix starting at j. */
  predicate SuffixLess(t: Text, i: nat, j: nat)
    requires i <= |t| && j <= |t|
  {
    LexLess(t[i..], t[j..])
  }

  /** sa lists all positions of t in increasing order of their suffixes. */
  ghost predicate IsSuffixArray(t: Text, sa: seq<nat>) {
    && |sa| == |t|
    && IsPermutation(sa)
    && forall p, q | 0 <= p < q < |sa| :: SuffixLess(t, sa[p], sa[q])
  }

  /** As far as both suffixes reach, their first h symbols agree. */
  predicate Compatible(t: Text, i: nat, j: nat, h: nat)
    decreases h
  {
    h > 0 && i < |t| && j < |t| ==> t[i] == t[j] && Compatible(t, i + 1, j + 1, h - 1)
  }

  // ----- windows -----

  lemma {:induction false} WindowEqualAt(t: Text, i: nat, j: nat, h: nat, k: nat)
    requires WindowEqual(t, i, j, h) && k < h
    ensures At(t, i + k) == At(t, j + k)
    decreases k
  {
    if k > 0 { WindowEqualAt(t, i + 1, j + 1, h - 1, k - 1); }
  }

  /** A window of length a + b is a window of length a followed by one of length b. */
  lemma {:induction false} WindowSplit(t: Text, i: nat, j: nat, a: nat, b: nat)
    ensures WindowEqual(t, i, j, a + b) == (WindowEqual(t, i, j, a) && WindowEqual(t, i + a, j + a, b))
    ensures WindowLess(t, i, j, a + b)
         == (WindowLess(t, i, j, a) || (WindowEqual(t, i, j, a) && WindowLess(t, i + a, j + a, b)))
    decreases a
  {
    if a > 0 {
      assert a + b - 1 == (a - 1) + b;
      WindowSplit(t, i + 1, j + 1, a - 1, b);
      assert i + 1 + (a - 1) == i + a && j + 1 + (a - 1) == j + a;
    }
  }

  /** Two windows of length h that agree on h and then on h again at distance d <= h agree on h + d. */
  lemma WindowOverlap(t: Text, i: nat, j: nat, h: nat, d: nat)
    requires d <= h
    ensures WindowEqual(t, i, j, h + d) == (WindowEqual(t, i, j, h) && WindowEqual(t, i + d, j + d, h))
    ensures WindowLess(t, i, j, h + d)
         == (WindowLess(t, i, j, h) || (WindowEqual(t, i, j, h) && WindowLess(t, i + d, j + d, h)))
  {
    // length h + d as d + h, and length h as d + (h - d)
    WindowSplit(t, i, j, d, h);
    WindowSplit(t, i, j, d, h - d);
    WindowSplit(t, i + d, j + d, h - d, d);
    assert d + h == h + d && h - d + d == h && d + (h - d) == h;
  }

  /** Exactly one of smaller, equal and greater holds. */
  lemma {:induction false} WindowTrichotomy(t: Text, i: nat, j: nat, h: nat)
    ensures WindowEqual(t, i, j, h) ==> !WindowLess(t, i, j, h) && !WindowLess(t, j, i, h)
    ensures !(WindowLess(t, i, j, h) && WindowLess(t, j, i, h))
    ensures WindowEqual(t, i, j, h) || WindowLess(t, i, j, h) || WindowLess(t, j, i, h)
    decreases h
  {
    if h > 0 { WindowTrichotomy(t, i + 1, j + 1, h - 1); }
  }

  /** If the window at i reaches past the end of the text, only i itself has an equal window. */
  lemma WindowPastEnd(t: Text, i: nat, j: nat, h: nat)
    requires i < |t| && j < |t| && WindowEqual(t, i, j, h)
    requires |t| < i + h || |t| < j + h
    ensures i == j
  {
    if i > j {
      WindowEqualAt(t, i, j, h, |t| - i);
    } else if j > i {
      WindowEqualAt(t, i, j, h, |t| - j);
    }
  }

  // ----- windows and suffixes -----

  lemma {:induction false} WindowLessIsSuffixLess(t: Text, i: nat, j: nat, h: nat)
    requires i <= |t| && j <= |t| && WindowLess(t, i, j, h)
    ensures SuffixLess(t, i, j)
    decreases h
  {
    if j == |t| {
      WindowLessAtEnd(t, i, j, h);
    } else if i < |t| && t[i] == t[j] {
      WindowLessIsSuffixLess(t, i + 1, j + 1, h - 1);
      assert t[i..][1..] == t[i + 1..] && t[j..][1..] == t[j + 1..];
    }
  }

  lemma {:induction false} WindowLessAtEnd(t: Text, i: nat, j: nat, h: nat)
    requires j >= |t|
    ensures !WindowLess(t, i, j, h)
    decreases h
  {
    if h > 0 { WindowLessAtEnd(t, i + 1, j + 1, h - 1); }
  }

  lemma {:induction false} WindowEqualIsCompatible(t: Text, i: nat, j: nat, h: nat)
    requires WindowEqual(t, i, j, h)
    ensures Compatible(t, i, j, h)
    decreases h
  {
    if h > 0 { WindowEqualIsCompatible(t, i + 1, j + 1, h - 1); }
  }

  /** Compatibility extends over adjacent windows; past the end of one suffix it extends by itself. */
  lemma {:induction false} CompatibleSplit(t: Text, i: nat, j: nat, a: nat, b: nat)
    ensures Compatible(t, i, j, a + b) == (Compatible(t, i, j, a) && Compatible(t, i + a, j + a, b))
    decreases a
  {
    if a > 0 {
      assert i + 1 + (a - 1) == i + a && j + 1 + (a - 1) == j + a;
      CompatibleSplit(t, i + 1, j + 1, a - 1, b);
    }
  }

  /** If the first d symbols agree, the suffixes compare as the suffixes d further on. */
  lemma {:induction false} SuffixLessAfter(t: Text, i: nat, j: nat, d: nat)
    requires i + d <= |t| && j + d <= |t|
    requires Compatible(t, i, j, d)
    ensures SuffixLess(t, i, j) == SuffixLess(t, i + d, j + d)
    decreases d
  {
    if d > 0 {
      SuffixLessAfter(t, i + 1, j + 1, d - 1);
      assert t[i..][1..] == t[i + 1..] && t[j..][1..] == t[j + 1..];
    }
  }

  lemma {:induction false} LexLessTrichotomy(a: seq<nat>, b: seq<nat>)
    ensures !(LexLess(a, b) && LexLess(b, a))
    ensures !LexLess(a, a)
    ensures a == b || LexLess(a, b) || LexLess(b, a)
  {
    if a != [] && b != [] {
      LexLessTrichotomy(a[1..], b[1..]);
      assert a == [a[0]] + a[1..] && b == [b[0]] + b[1..];
    }
    LexIrreflexive(a);
  }

  lemma {:induction false} LexIrreflexive(a: seq<nat>)
    ensures !LexLess(a, a)
  {
    if a != [] { LexIrreflexive(a[1..]); }
  }
}
