/** Canonical prefix codes: assignment of codes, the lookahead table, and the loops that pack codes into bytes and
    decode them through a window of eight bits.
 */
module Huffman {
  import opened Bytes

  const MAX_LEN: nat := 16
  const WINDOW: nat := 8

  function Pow2(n: nat): (p: nat)
    ensures p > 0
  {
    if n == 0 then 1 else 2 * Pow2(n - 1)
  }

  lemma {:induction false} Pow2Add(a: nat, b: nat)
    ensures Pow2(a + b) == Pow2(a) * Pow2(b)
  {
    if a > 0 {
      Pow2Add(a - 1, b);
    }
  }

  // --- Canonical codes --------------------------------------------------------------------

  /** The number of symbols with code length `l`. */
  function Count(lengths: seq<nat>, l: nat): nat {
    if lengths == [] then 0
    else Count(lengths[..|lengths| - 1], l) + if lengths[|lengths| - 1] == l && l > 0 then 1 else 0
  }

  /** The first code of length `l`. */
  function FirstCode(lengths: seq<nat>, l: nat): nat {
    if l == 0 then 0 else 2 * (FirstCode(lengths, l - 1) + Count(lengths, l - 1))
  }

  /** Symbols of one length get consecutive codes in symbol order. */
  function Code(lengths: seq<nat>, s: nat): nat
    requires s < |lengths|
  {
    FirstCode(lengths, lengths[s]) + Count(lengths[..s], lengths[s])
  }

  /** The space a code of length `l` takes, in codes of the greatest length. */
  function Weight(l: nat): nat { if 0 < l <= MAX_LEN then Pow2(MAX_LEN - l) else 0 }

  function KraftSum(lengths: seq<nat>): nat {
    if lengths == [] then 0 else KraftSum(lengths[..|lengths| - 1]) + Weight(lengths[|lengths| - 1])
  }

  /** Lengths of at most 16 bits that a prefix code can have. */
  predicate Kraft(lengths: seq<nat>) {
    (forall s :: 0 <= s < |lengths| ==> lengths[s] <= MAX_LEN) && KraftSum(lengths) <= Pow2(MAX_LEN)
  }

  /** The space of all codes shorter than `l`. */
  function SpaceBelow(lengths: seq<nat>, l: nat): nat {
    if l == 0 then 0 else SpaceBelow(lengths, l - 1) + Count(lengths, l - 1) * Weight(l - 1)
  }

  /** The first code of a length starts where the shorter codes end. */
  lemma {:induction false} FirstCodeSpace(lengths: seq<nat>, l: nat)
    requires 0 < l <= MAX_LEN
    ensures FirstCode(lengths, l) * Weight(l) == SpaceBelow(lengths, l)
  {
    hide Count;
    if l == 1 {
      NoZeroLength(lengths);
      assert FirstCode(lengths, 1) == 0 && SpaceBelow(lengths, 1) == SpaceBelow(lengths, 0);
    } else {
      FirstCodeSpace(lengths, l - 1);
      WeightHalves(l);
      Doubled(FirstCode(lengths, l - 1), Count(lengths, l - 1), Weight(l));
    }
  }

  lemma WeightHalves(l: nat)
    requires 1 < l <= MAX_LEN
    ensures Weight(l - 1) == 2 * Weight(l)
  {
  }

  lemma Doubled(f: nat, c: nat, w: nat)
    ensures 2 * (f + c) * w == f * (2 * w) + c * (2 * w)
  {
  }

  lemma {:induction false} NoZeroLength(lengths: seq<nat>)
    ensures Count(lengths, 0) == 0
  {
    if lengths != [] {
      NoZeroLength(lengths[..|lengths| - 1]);
    }
  }

  lemma {:induction false} SpaceSnoc(init: seq<nat>, x: nat, l: nat)
    requires x <= MAX_LEN
    ensures SpaceBelow(init + [x], l) == SpaceBelow(init, l) + if x < l then Weight(x) else 0
  {
    hide Count;
    if l > 0 {
      SpaceSnoc(init, x, l - 1);
      CountSnoc(init, x, l - 1);
      OneMore(Count(init, l - 1), Weight(l - 1));
    }
  }

  lemma CountSnoc(init: seq<nat>, x: nat, l: nat)
    ensures Count(init + [x], l) == Count(init, l) + if x == l && l > 0 then 1 else 0
  {
    assert (init + [x])[..|init|] == init;
  }

  lemma OneMore(c: nat, w: nat)
    ensures (c + 1) * w == c * w + w
  {
  }

  lemma {:induction false} EmptySpace(l: nat)
    ensures SpaceBelow([], l) == 0
  {
    if l > 0 {
      EmptySpace(l - 1);
    }
  }

  /** Counting by length and counting by symbol agree. */
  lemma {:induction false} SpaceIsKraft(lengths: seq<nat>)
    requires forall s :: 0 <= s < |lengths| ==> lengths[s] <= MAX_LEN
    ensures SpaceBelow(lengths, MAX_LEN + 1) == KraftSum(lengths)
  {
    if lengths == [] {
      EmptySpace(MAX_LEN + 1);
    } else {
      var init, x := lengths[..|lengths| - 1], lengths[|lengths| - 1];
      SpaceIsKraft(init);
      SpaceSnoc(init, x, MAX_LEN + 1);
      assert lengths == init + [x];
    }
  }

  lemma {:induction false} SpaceMonotone(lengths: seq<nat>, l: nat, m: nat)
    requires l <= m
    ensures SpaceBelow(lengths, l) <= SpaceBelow(lengths, m)
    decreases m
  {
    if l < m {
      SpaceMonotone(lengths, l, m - 1);
    }
  }

  /** The codes of each length fit into that length. */
  lemma CodesFit(lengths: seq<nat>, l: nat)
    requires Kraft(lengths) && 0 < l <= MAX_LEN
    ensures FirstCode(lengths, l) + Count(lengths, l) <= Pow2(l)
  {
    hide FirstCode, Count, KraftSum, Pow2, SpaceBelow;
    FirstCodeSpace(lengths, l);
    SpaceIsKraft(lengths);
    SpaceMonotone(lengths, l + 1, MAX_LEN + 1);
    SpaceStep(lengths, l);
    Pow2Add(l, MAX_LEN - l);
    CancelSum(FirstCode(lengths, l), Count(lengths, l), Pow2(l), Weight(l));
  }

  lemma SpaceStep(lengths: seq<nat>, l: nat)
    ensures SpaceBelow(lengths, l + 1) == SpaceBelow(lengths, l) + Count(lengths, l) * Weight(l)
  {
  }

  lemma CancelSum(a: nat, b: nat, c: nat, w: nat)
    requires a * w + b * w <= c * w && w > 0
    ensures a + b <= c
  {
    assert (a + b) * w == a * w + b * w;
    CancelStrict(a + b, c + 1, w);
  }

  lemma CancelStrict(a: nat, b: nat, w: nat)
    requires a * w < b * w && w > 0
    ensures a < b
  {
  }

  lemma {:induction false} CountPrefix(lengths: seq<nat>, s: nat, t: nat, l: nat)
    requires s <= t <= |lengths|
    ensures Count(lengths[..s], l) <= Count(lengths[..t], l)
    ensures s < t && lengths[s] == l && l > 0 ==> Count(lengths[..s], l) < Count(lengths[..t], l)
    decreases t
  {
    if s < t {
      CountPrefix(lengths, s, t - 1, l);
      assert lengths[..t][..t - 1] == lengths[..t - 1];
    }
  }

  /** Every code fits into its length. */
  lemma CodeFits(lengths: seq<nat>, s: nat)
    requires Kraft(lengths) && s < |lengths| && lengths[s] > 0
    ensures Code(lengths, s) < FirstCode(lengths, lengths[s]) + Count(lengths, lengths[s]) <= Pow2(lengths[s])
  {
    hide FirstCode, Count, KraftSum;
    CodesFit(lengths, lengths[s]);
    CountPrefix(lengths, s, |lengths|, lengths[s]);
    assert lengths[..|lengths|] == lengths;
  }

  lemma {:induction false} LongerStartsAbove(lengths: seq<nat>, l: nat, m: nat)
    requires l < m
    ensures FirstCode(lengths, m) >= (FirstCode(lengths, l) + Count(lengths, l)) * Pow2(m - l)
    decreases m
  {
    hide Count;
    if l + 1 < m {
      LongerStartsAbove(lengths, l, m - 1);
      Twice(FirstCode(lengths, l) + Count(lengths, l), Pow2(m - 1 - l));
    } else {
      assert Pow2(1) == 2;
    }
  }

  lemma Twice(a: nat, p: nat)
    ensures a * (2 * p) == 2 * (a * p)
  {
  }

  /** No code is a prefix of another: the first bits of a longer or equal code are never a different symbol's code. */
  lemma PrefixFree(lengths: seq<nat>, s: nat, t: nat)
    requires Kraft(lengths) && s < |lengths| && t < |lengths| && s != t && 0 < lengths[s] <= lengths[t]
    ensures Code(lengths, t) / Pow2(lengths[t] - lengths[s]) != Code(lengths, s)
  {
    hide FirstCode, Count, KraftSum, Pow2;
    var l, m := lengths[s], lengths[t];
    if l == m {
      assert Pow2(0) == 1 by { Pow2Add(0, 0); PowZero(); }
      CountPrefix(lengths, if s < t then s else t, if s < t then t else s, l);
    } else {
      LongerStartsAbove(lengths, l, m);
      CodeFits(lengths, s);
      DivAtLeast(Code(lengths, t), FirstCode(lengths, l) + Count(lengths, l), Pow2(m - l));
    }
  }

  lemma PowZero()
    ensures Pow2(0) == 1
  {
  }

  lemma DivAtLeast(x: nat, a: nat, p: nat)
    requires p > 0 && x >= a * p
    ensures x / p >= a
  {
    var q := x / p;
    assert x == p * q + x % p;
    assert (q + 1) * p == p * q + p;
    CancelStrict(a, q + 1, p);
  }

  // --- The order of the codes -------------------------------------------------------------

  lemma {:induction false} CountNone(lengths: seq<nat>, s: nat, t: nat, l: nat)
    requires s <= t <= |lengths| && forall j :: s <= j < t ==> lengths[j] != l
    ensures Count(lengths[..t], l) == Count(lengths[..s], l)
    decreases t
  {
    if s < t {
      CountNone(lengths, s, t - 1, l);
      assert lengths[..t][..t - 1] == lengths[..t - 1];
    }
  }

  lemma CountOne(lengths: seq<nat>, s: nat, t: nat, l: nat)
    requires s < t <= |lengths| && lengths[s] == l > 0 && forall j :: s < j < t ==> lengths[j] != l
    ensures Count(lengths[..t], l) == Count(lengths[..s], l) + 1
  {
    hide Count;
    CountNone(lengths, s + 1, t, l);
    assert lengths[..s + 1] == lengths[..s] + [l];
    CountSnoc(lengths[..s], l, l);
  }

  lemma {:induction false} FirstCodeSkips(lengths: seq<nat>, l: nat, m: nat)
    requires l < m && forall k :: l < k < m ==> Count(lengths, k) == 0
    ensures FirstCode(lengths, m) == (FirstCode(lengths, l) + Count(lengths, l)) * Pow2(m - l)
    decreases m
  {
    hide Count;
    if l + 1 < m {
      FirstCodeSkips(lengths, l, m - 1);
      Twice(FirstCode(lengths, l) + Count(lengths, l), Pow2(m - 1 - l));
    } else {
      assert Pow2(1) == 2;
    }
  }

  /** No symbol has a length between two others. */
  predicate NoneBetween(lengths: seq<nat>, l: nat, m: nat) {
    forall j :: 0 <= j < |lengths| ==> !(l < lengths[j] < m)
  }

  lemma CountsBetween(lengths: seq<nat>, l: nat, m: nat)
    requires NoneBetween(lengths, l, m)
    ensures forall k :: l < k < m ==> Count(lengths, k) == 0
  {
    hide Count;
    forall k | l < k < m
      ensures Count(lengths, k) == 0
    {
      CountNone(lengths, 0, |lengths|, k);
      assert lengths[..|lengths|] == lengths && lengths[..0] == [];
      CountNothing(k);
    }
  }

  lemma CountNothing(l: nat)
    ensures Count([], l) == 0
  {
  }

  /** The first and the last symbol of a length. */
  predicate FirstWith(lengths: seq<nat>, s: nat)
    requires s < |lengths|
  {
    forall j :: 0 <= j < s ==> lengths[j] != lengths[s]
  }

  predicate LastWith(lengths: seq<nat>, s: nat)
    requires s < |lengths|
  {
    forall j :: s < j < |lengths| ==> lengths[j] != lengths[s]
  }

  /** The canonical order: the first symbol of the shortest length has code 0; the next symbol of the same length the
      next number; the first symbol of the next length the next number, shifted to the new length.
   */
  lemma CanonicalOrder(lengths: seq<nat>, s: nat, t: nat)
    requires s < |lengths| && t < |lengths| && lengths[s] > 0 && lengths[t] > 0
    ensures NoneBetween(lengths, 0, lengths[s]) && FirstWith(lengths, s) ==> Code(lengths, s) == 0
    ensures s < t && lengths[s] == lengths[t] && (forall j :: s < j < t ==> lengths[j] != lengths[s]) ==>
      Code(lengths, t) == Code(lengths, s) + 1
    ensures
      var l, m := lengths[s], lengths[t];
      l < m && NoneBetween(lengths, l, m) && LastWith(lengths, s) && FirstWith(lengths, t) ==>
      Code(lengths, t) == (Code(lengths, s) + 1) * Pow2(m - l)
  {
    hide Count, FirstCode, Pow2;
    var l, m := lengths[s], lengths[t];
    if NoneBetween(lengths, 0, l) && FirstWith(lengths, s) {
      FirstOfAll(lengths, s);
    }
    if s < t && l == m && (forall j :: s < j < t ==> lengths[j] != l) {
      CountOne(lengths, s, t, l);
    }
    if l < m && NoneBetween(lengths, l, m) && LastWith(lengths, s) && FirstWith(lengths, t) {
      CountsBetween(lengths, l, m);
      FirstCodeSkips(lengths, l, m);
      CountOne(lengths, s, |lengths|, l);
      assert lengths[..|lengths|] == lengths;
      FirstOfLength(lengths, t);
    }
  }

  lemma FirstOfLength(lengths: seq<nat>, t: nat)
    requires t < |lengths| && forall j :: 0 <= j < t ==> lengths[j] != lengths[t]
    ensures Count(lengths[..t], lengths[t]) == 0
  {
    hide Count;
    CountNone(lengths, 0, t, lengths[t]);
    assert lengths[..0] == [];
    CountNothing(lengths[t]);
  }

  lemma FirstOfAll(lengths: seq<nat>, s: nat)
    requires s < |lengths| && lengths[s] > 0 && NoneBetween(lengths, 0, lengths[s])
    requires forall j :: 0 <= j < s ==> lengths[j] != lengths[s]
    ensures Code(lengths, s) == 0
  {
    hide Count, Pow2;
    CountsBetween(lengths, 0, lengths[s]);
    FirstCodeSkips(lengths, 0, lengths[s]);
    NoZeroLength(lengths);
    FirstOfLength(lengths, s);
  }

  // --- Tables -----------------------------------------------------------------------------

  const ENTRY: nat := 0x100_0000_0000_0000

  /** An encoder entry: the length in the top byte, the code below. */
  function EncoderEntry(code: nat, length: nat): nat { length * ENTRY + code % ENTRY }

  function EntryLength(e: nat): nat { e / ENTRY }

  function EntryCode(e: nat): nat { e % ENTRY }

  function ForestEntry(literal: nat, consumed: nat): nat { literal * 256 + consumed }

  function Literal(e: nat): nat { e / 256 }

  function Consumed(e: nat): nat { e % 256 }

  /** Symbol `s` has a code that the window `w` starts with. */
  predicate Matches(lengths: seq<nat>, s: nat, w: nat)
    requires s < |lengths|
  {
    0 < lengths[s] <= WINDOW && w / Pow2(WINDOW - lengths[s]) == Code(lengths, s)
  }

  /** The entry for a window after the first `n` symbols were entered. */
  function TableAt(lengths: seq<nat>, n: nat, w: nat): nat
    requires n <= |lengths|
  {
    if n == 0 then 0
    else if Matches(lengths, n - 1, w) then ForestEntry(n - 1, lengths[n - 1])
    else TableAt(lengths, n - 1, w)
  }

  /** At most one symbol's code starts a window. */
  lemma OneMatch(lengths: seq<nat>, s: nat, t: nat, w: nat)
    requires Kraft(lengths) && s < |lengths| && t < |lengths| && lengths[s] <= lengths[t]
    requires Matches(lengths, s, w) && Matches(lengths, t, w)
    ensures s == t
  {
    hide Code, Kraft, Pow2;
    var l, m := lengths[s], lengths[t];
    if s != t {
      PrefixFree(lengths, s, t);
      Pow2Add(WINDOW - m, m - l);
      DivDiv(w, Pow2(WINDOW - m), Pow2(m - l));
    }
  }

  lemma DivDiv(x: nat, p: nat, q: nat)
    requires p > 0 && q > 0
    ensures p * q > 0 && x / (p * q) == x / p / q
  {
    var a := x / p;
    DivDivAt(x, p, q, a, x % p, a / q, a % q);
  }

  lemma DivDivAt(x: nat, p: nat, q: nat, a: nat, r: nat, b: nat, t: nat)
    requires x == a * p + r && a == b * q + t && r < p && t < q
    ensures p * q > 0 && x / (p * q) == b
  {
    DivDivParts(x, p, q, b, t, r);
    DivUnique(x, p * q, b, t * p + r);
  }

  lemma DivDivParts(x: nat, p: nat, q: nat, b: nat, t: nat, r: nat)
    requires x == (b * q + t) * p + r && t < q && r < p
    ensures x == b * (p * q) + (t * p + r) && t * p + r < p * q
  {
    Distribute(b * q, t, p);
    MulAssoc(b, q, p);
    Commute(q, p);
    MulBound(t, q, r, p);
  }

  lemma Distribute(a: int, b: int, c: int)
    ensures (a + b) * c == a * c + b * c
  {
  }

  lemma MulAssoc(a: int, b: int, c: int)
    ensures a * b * c == a * (b * c)
  {
  }

  lemma Commute(a: int, b: int)
    ensures a * b == b * a
  {
  }

  /** A number of two digits is below the product of the bases. */
  lemma MulBound(t: nat, q: nat, r: nat, p: nat)
    requires t < q && r < p
    ensures t * p + r < q * p
  {
    Distribute(t, 1, p);
    Distribute(t + 1, q - 1 - t, p);
    NotNegative(q - 1 - t, p);
  }

  lemma NotNegative(a: nat, b: nat)
    ensures a * b >= 0
  {
  }

  lemma DivUnique(x: nat, d: nat, q: nat, r: nat)
    requires d > 0 && x == q * d + r && r < d
    ensures x / d == q && x % d == r
  {
    var q2, r2 := x / d, x % d;
    assert x == q2 * d + r2;
    OneMore(q, d);
    OneMore(q2, d);
    CancelStrict(q, q2 + 1, d);
    CancelStrict(q2, q + 1, d);
  }

  /** The table holds, for every window, the one symbol whose code starts it, and nothing where no code does. */
  lemma {:induction false} TableMeaning(lengths: seq<nat>, n: nat, w: nat, s: nat)
    requires Kraft(lengths) && n <= |lengths| && s < n && Matches(lengths, s, w)
    ensures TableAt(lengths, n, w) == ForestEntry(s, lengths[s])
  {
    hide Code, Kraft, Matches;
    if s == n - 1 {
    } else if Matches(lengths, n - 1, w) {
      if lengths[s] <= lengths[n - 1] {
        OneMatch(lengths, s, n - 1, w);
      } else {
        OneMatch(lengths, n - 1, s, w);
      }
    } else {
      TableMeaning(lengths, n - 1, w, s);
    }
  }

  lemma {:induction false} TableEmpty(lengths: seq<nat>, n: nat, w: nat)
    requires n <= |lengths| && forall s :: 0 <= s < n ==> !Matches(lengths, s, w)
    ensures TableAt(lengths, n, w) == 0
  {
    if n > 0 {
      TableEmpty(lengths, n - 1, w);
    }
  }

  /** The windows that start with a code of length `l` form one block. */
  lemma WindowBlock(code: nat, width: nat, start: nat, w: nat)
    requires width > 0 && start == code * width
    ensures w / width == code <==> start <= w < start + width
  {
    DivMod(w, width);
    if start <= w < start + width {
      DivUnique(w, width, code, w - start);
    }
  }

  class Tables {
    const encoder: array<nat>
    const forest: array<nat>

    ghost predicate Valid()
      reads this
    {
      encoder.Length == 256 && forest.Length == 256 && encoder != forest
    }

    constructor ()
      ensures Valid() && fresh(encoder) && fresh(forest)
    {
      encoder := new nat[256];
      forest := new nat[256];
    }

    /** The tables stand for the canonical code of `lengths`. */
    ghost predicate BuiltFor(lengths: seq<nat>)
      reads this, encoder, forest
    {
      && Valid() && |lengths| <= 256
      && (forall s :: 0 <= s < |lengths| && lengths[s] > 0 ==>
            encoder[s] == EncoderEntry(Code(lengths, s), lengths[s]))
      && (forall w :: 0 <= w < 256 ==> forest[w] == TableAt(lengths, |lengths|, w))
    }

    method CountLengths(lengths: seq<nat>) returns (counts: seq<nat>)
      requires forall s :: 0 <= s < |lengths| ==> lengths[s] <= MAX_LEN
      ensures |counts| == MAX_LEN + 1 && forall l :: 0 <= l <= MAX_LEN ==> counts[l] == Count(lengths, l)
    {
      hide Count;
      counts := seq(MAX_LEN + 1, _ => 0);
      NoSymbols();
      assert lengths[..0] == [];
      for i := 0 to |lengths|
        invariant |counts| == MAX_LEN + 1 && forall l :: 0 <= l <= MAX_LEN ==> counts[l] == Count(lengths[..i], l)
      {
        var l := lengths[i];
        assert lengths[..i + 1] == lengths[..i] + [l];
        forall m: nat
          ensures Count(lengths[..i + 1], m) == Count(lengths[..i], m) + if l == m && m > 0 then 1 else 0
        {
          CountSnoc(lengths[..i], l, m);
        }
        if l > 0 {
          counts := counts[l := counts[l] + 1];
        }
      }
      assert lengths[..|lengths|] == lengths;
    }

    method FirstCodes(lengths: seq<nat>) returns (next: seq<nat>)
      requires forall s :: 0 <= s < |lengths| ==> lengths[s] <= MAX_LEN
      ensures |next| == MAX_LEN + 1 && forall l :: 0 <= l <= MAX_LEN ==> next[l] == FirstCode(lengths, l)
    {
      hide Count;
      var counts := CountLengths(lengths);
      next := seq(MAX_LEN + 1, _ => 0);
      var code := 0;
      for i := 1 to MAX_LEN + 1
        invariant |next| == MAX_LEN + 1 && code == FirstCode(lengths, i - 1)
        invariant forall l :: 0 <= l < i ==> next[l] == FirstCode(lengths, l)
      {
        code := 2 * (code + counts[i - 1]);
        next := next[i := code];
      }
    }

    method BuildDynamicForest(lengths: seq<nat>)
      requires Valid() && |lengths| <= 256 && forall s :: 0 <= s < |lengths| ==> lengths[s] <= MAX_LEN
      modifies encoder, forest
      ensures BuiltFor(lengths)
    {
      hide Count, FirstCode, Pow2;
      forall w | 0 <= w < 256 {
        forest[w] := 0;
      }
      var next := FirstCodes(lengths);
      NoSymbols();
      assert lengths[..0] == [];
      for s := 0 to |lengths|
        invariant |next| == MAX_LEN + 1
        invariant forall l :: 0 < l <= MAX_LEN ==> next[l] == FirstCode(lengths, l) + Count(lengths[..s], l)
        invariant forall t :: 0 <= t < s && lengths[t] > 0 ==> encoder[t] == EncoderEntry(Code(lengths, t), lengths[t])
        invariant forall w :: 0 <= w < 256 ==> forest[w] == TableAt(lengths, s, w)
      {
        var l := lengths[s];
        assert lengths[..s + 1] == lengths[..s] + [l];
        forall m: nat
          ensures Count(lengths[..s + 1], m) == Count(lengths[..s], m) + if l == m && m > 0 then 1 else 0
        {
          CountSnoc(lengths[..s], l, m);
        }
        if l > 0 {
          var code := next[l];
          next := next[l := code + 1];
          encoder[s] := EncoderEntry(code, l);
          if l <= WINDOW {
            FillWindows(code, l, s, lengths);
          }
        }
      }
    }

    method FillWindows(code: nat, l: nat, s: nat, ghost lengths: seq<nat>)
      requires Valid() && s < |lengths| && 0 < l <= WINDOW && l == lengths[s] && code == Code(lengths, s)
      requires forall w :: 0 <= w < 256 ==> forest[w] == TableAt(lengths, s, w)
      modifies forest
      ensures forall w :: 0 <= w < 256 ==> forest[w] == TableAt(lengths, s + 1, w)
    {
      hide Code, TableAt, Pow2, Matches;
      var width := Pow2(WINDOW - l);
      var start := code * width;
      for i := start to start + width
        invariant forall w :: 0 <= w < 256 ==>
          forest[w] == if start <= w < i then ForestEntry(s, l) else TableAt(lengths, s, w)
      {
        if i < 256 {
          forest[i] := ForestEntry(s, l);
        }
      }
      forall w | 0 <= w < 256
        ensures forest[w] == TableAt(lengths, s + 1, w)
      {
        WindowBlock(code, width, start, w);
        TableStep(lengths, s, w);
      }
    }
  }

  lemma TableStep(lengths: seq<nat>, s: nat, w: nat)
    requires s < |lengths|
    ensures Matches(lengths, s, w) <==> 0 < lengths[s] <= WINDOW && w / Pow2(WINDOW - lengths[s]) == Code(lengths, s)
    ensures TableAt(lengths, s + 1, w) ==
      if Matches(lengths, s, w) then ForestEntry(s, lengths[s]) else TableAt(lengths, s, w)
  {
  }

  lemma NoSymbols()
    ensures forall l :: Count([], l) == 0
  {
  }

  // --- Bits -------------------------------------------------------------------------------

  /** The number a string of bits stands for, most significant bit first. */
  function Num(bits: seq<bool>): nat {
    if bits == [] then 0 else 2 * Num(bits[..|bits| - 1]) + if bits[|bits| - 1] then 1 else 0
  }

  /** The low `n` bits of `v`. */
  function Bits(v: nat, n: nat): (bits: seq<bool>)
    ensures |bits| == n
  {
    if n == 0 then [] else Bits(v / 2, n - 1) + [v % 2 == 1]
  }

  lemma {:induction false} NumBits(v: nat, n: nat)
    requires v < Pow2(n)
    ensures Num(Bits(v, n)) == v
  {
    if n > 0 {
      NumBits(v / 2, n - 1);
      assert Bits(v, n)[..n - 1] == Bits(v / 2, n - 1);
    }
  }

  lemma {:induction false} BitsNum(bits: seq<bool>)
    ensures Bits(Num(bits), |bits|) == bits && Num(bits) < Pow2(|bits|)
  {
    if bits != [] {
      BitsNum(bits[..|bits| - 1]);
    }
  }

  lemma {:induction false} NumConcat(a: seq<bool>, b: seq<bool>)
    ensures Num(a + b) == Num(a) * Pow2(|b|) + Num(b)
    decreases |b|
  {
    if b == [] {
      assert a + b == a;
    } else {
      var n := |b| - 1;
      NumConcat(a, b[..n]);
      assert (a + b)[..|a| + n] == a + b[..n];
      Twice(Num(a), Pow2(n));
    }
  }

  /** The low bits of a 64-bit buffer are the pending bits. */
  ghost predicate Buffered(buffer: nat, pending: seq<bool>) {
    buffer % Pow2(|pending|) == Num(pending)
  }

  lemma U64IsPow2()
    ensures U64 == Pow2(64)
  {
    hide Pow2;
    PowWindow();
    Pow2Add(8, 8);
    Pow2Add(16, 16);
    Pow2Add(32, 32);
  }

  lemma DivMod(x: nat, d: nat)
    requires d > 0
    ensures x == (x / d) * d + x % d && x % d < d
  {
  }

  lemma ModUnique(x: nat, d: nat, q: nat, r: nat)
    requires d > 0 && x == q * d + r && r < d
    ensures x % d == r
  {
    DivUnique(x, d, q, r);
  }

  /** Reducing first by a multiple of `d` does not change the remainder by `d`. */
  lemma ModMod(x: nat, d: nat, m: nat)
    requires d > 0 && m > 0
    ensures d * m > 0 && (x % (d * m)) % d == x % d
  {
    var n := d * m;
    assert n > 0;
    var q, r := x / n, x % n;
    ModModAt(x, d, m, q, r, r / d, r % d);
  }

  lemma ModModAt(x: nat, d: nat, m: nat, q: nat, r: nat, a: nat, b: nat)
    requires d > 0 && x == q * (d * m) + r && r == a * d + b && b < d
    ensures x % d == b
  {
    assert q * (d * m) == (q * m) * d;
    assert (q * m + a) * d == (q * m) * d + a * d;
    ModUnique(x, d, q * m + a, b);
  }

  /** Shifting a code into the buffer appends its bits. */
  lemma Push(buffer: nat, pending: seq<bool>, code: nat, l: nat)
    requires Buffered(buffer, pending) && code < Pow2(l) && |pending| + l <= 64
    ensures Buffered((buffer * Pow2(l) + code) % U64, pending + Bits(code, l))
  {
    hide Pow2, Num, Bits;
    NumConcat(pending, Bits(code, l));
    NumBits(code, l);
    BitsNum(pending);
    Pow2Add(|pending|, l);
    Pow2Add(|pending| + l, 64 - (|pending| + l));
    U64IsPow2();
    PushAt(buffer, Pow2(|pending|), Pow2(l), Pow2(|pending| + l), Pow2(64 - (|pending| + l)), Num(pending), code);
  }

  lemma PushAt(buffer: nat, p: nat, q: nat, d: nat, m: nat, n: nat, code: nat)
    requires p > 0 && q > 0 && m > 0 && d > 0 && d == p * q && d * m == U64 && buffer % p == n && code < q
    ensures (buffer * q + code) % U64 % d == n * q + code
  {
    DivMod(buffer, p);
    PushArith(buffer, p, q, buffer / p, n, code);
    ModMod(buffer * q + code, d, m);
  }

  lemma PushArith(buffer: nat, p: nat, q: nat, k: nat, n: nat, code: nat)
    requires p > 0 && q > 0 && buffer == k * p + n && n < p && code < q
    ensures p * q > 0 && (buffer * q + code) % (p * q) == n * q + code
  {
    Distribute(k * p, n, q);
    MulAssoc(k, p, q);
    MulBound(n, p, code, q);
    PushRest(buffer * q, p * q, k, n * q, code);
  }

  lemma PushRest(x: nat, d: nat, k: nat, m: nat, code: nat)
    requires x == k * d + m && m + code < d
    ensures (x + code) % d == m + code
  {
    ModUnique(x + code, d, k, m + code);
  }

  /** The eight oldest pending bits, shifted down. */
  lemma Top(buffer: nat, pending: seq<bool>)
    requires Buffered(buffer, pending) && |pending| >= WINDOW
    ensures buffer / Pow2(|pending| - WINDOW) % 256 == Num(pending[..WINDOW])
  {
    hide Pow2, Num;
    var hi, lo := pending[..WINDOW], pending[WINDOW..];
    assert pending == hi + lo;
    NumConcat(hi, lo);
    BitsNum(hi);
    BitsNum(lo);
    Pow2Add(WINDOW, |lo|);
    var k := TopAt(buffer, Pow2(|lo|), Pow2(WINDOW), Pow2(|pending|), Num(pending), Num(hi), Num(lo));
    PowWindow();
    KeepLow(k, Num(hi));
  }

  lemma PowWindow()
    ensures Pow2(8) == 256
  {
  }

  lemma TopAt(buffer: nat, p: nat, q: nat, d: nat, n: nat, hi: nat, lo: nat) returns (k: nat)
    requires p > 0 && d > 0 && d == q * p && buffer % d == n && n == hi * p + lo && lo < p
    ensures buffer / p == k * q + hi
  {
    k := buffer / d;
    DivMod(buffer, d);
    TopArith(buffer, p, q, k, hi, lo);
  }

  lemma TopArith(buffer: nat, p: nat, q: nat, k: nat, hi: nat, lo: nat)
    requires p > 0 && buffer == k * (q * p) + (hi * p + lo) && lo < p
    ensures buffer / p == k * q + hi
  {
    assert (k * q + hi) * p == k * (q * p) + hi * p;
    DivUnique(buffer, p, k * q + hi, lo);
  }

  lemma KeepLow(k: nat, hi: nat)
    requires hi < 256
    ensures (k * 256 + hi) % 256 == hi
  {
  }

  /** Forgetting the oldest bits only lowers the bit count. */
  lemma Drop(buffer: nat, pending: seq<bool>, n: nat)
    requires Buffered(buffer, pending) && n <= |pending|
    ensures Buffered(buffer, pending[n..])
  {
    hide Pow2, Num;
    var hi, lo := pending[..n], pending[n..];
    assert pending == hi + lo;
    NumConcat(hi, lo);
    BitsNum(lo);
    Pow2Add(|hi|, |lo|);
    DropAt(buffer, Pow2(|lo|), Pow2(|hi|), Pow2(|pending|), Num(pending), Num(hi), Num(lo));
  }

  lemma DropAt(buffer: nat, p: nat, q: nat, d: nat, n: nat, hi: nat, lo: nat)
    requires p > 0 && d > 0 && d == q * p && buffer % d == n && n == hi * p + lo && lo < p
    ensures buffer % p == lo
  {
    DivMod(buffer, d);
    DropArith(buffer, p, q, buffer / d, hi, lo);
  }

  lemma DropArith(buffer: nat, p: nat, q: nat, k: nat, hi: nat, lo: nat)
    requires p > 0 && buffer == k * (q * p) + (hi * p + lo) && lo < p
    ensures buffer % p == lo
  {
    assert (k * q + hi) * p == k * (q * p) + hi * p;
    ModUnique(buffer, p, k * q + hi, lo);
  }
}
