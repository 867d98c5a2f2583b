/** Raw bytes as the engine sees them: little-endian fields, slices written in place,
    and the lexicographic order of keys.
 */
module Bytes {

  type Byte = x: int | 0 <= x < 256
  type Blob = seq<Byte>

  const PAGE_SIZE: nat := 32768
  const U64: nat := 0x1_0000_0000_0000_0000

  /** A page as it stands in memory and on the device. */
  type PageBytes = d: Blob | |d| == PAGE_SIZE witness Zeros(PAGE_SIZE)

  // --- Little-endian fixed-width fields -------------------------------------------------

  function Pow256(width: nat): (p: nat)
    ensures p > 0
  {
    if width == 0 then 1 else 256 * Pow256(width - 1)
  }

  /** The number stored little-endian in `bs`. */
  function Le(bs: Blob): nat {
    if bs == [] then 0 else bs[0] + 256 * Le(bs[1..])
  }

  /** The low `width` bytes of `n`, little-endian. */
  function PutLe(n: nat, width: nat): (bs: Blob)
    ensures |bs| == width
    decreases width
  {
    if width == 0 then [] else [n % 256] + PutLe(n / 256, width - 1)
  }

  lemma {:induction false} LePutLe(n: nat, width: nat)
    requires n < Pow256(width)
    ensures Le(PutLe(n, width)) == n
    decreases width
  {
    if width > 0 {
      assert n / 256 < Pow256(width - 1);
      LePutLe(n / 256, width - 1);
      assert PutLe(n, width)[1..] == PutLe(n / 256, width - 1);
    }
  }

  lemma {:induction false} PutLeLe(bs: Blob)
    ensures PutLe(Le(bs), |bs|) == bs
  {
    if bs != [] {
      PutLeLe(bs[1..]);
      assert Le(bs) % 256 == bs[0] && Le(bs) / 256 == Le(bs[1..]);
    }
  }

  /** Byte `i` counts 256 to the power of `i`: the least significant byte comes first. */
  lemma {:induction false} LittleEndian(n: nat, width: nat, i: nat)
    requires i < width
    ensures PutLe(n, width)[i] == n / Pow256(i) % 256
    decreases i
  {
    if i > 0 {
      LittleEndian(n / 256, width - 1, i - 1);
      DivTwice(n, Pow256(i - 1));
    }
  }

  lemma DivTwice(n: nat, p: nat)
    requires p > 0
    ensures n / 256 / p == n / (256 * p)
  {
    var a, q := n / 256, n / 256 / p;
    assert p * q <= a < p * q + p;
    assert 256 * p * q <= n < 256 * p * q + 256 * p;
    Quotient(n, 256 * p, q);
  }

  lemma Quotient(n: nat, d: nat, q: nat)
    requires d > 0 && d * q <= n < d * q + d
    ensures n / d == q
  {
    var x := n / d;
    assert d * x <= n < d * x + d;
    MoreTimes(d, x, q);
    MoreTimes(d, q, x);
  }

  lemma MoreTimes(d: nat, a: nat, b: nat)
    ensures a < b ==> d * a + d <= d * b
  {
    if a < b {
      assert d * (a + 1) <= d * b;
    }
  }

  lemma {:induction false} LeBound(bs: Blob)
    ensures Le(bs) < Pow256(|bs|)
  {
    if bs != [] {
      LeBound(bs[1..]);
    }
  }

  /** Field widths used by the on-disk formats. */
  lemma FieldWidths()
    ensures Pow256(1) == 0x100
    ensures Pow256(2) == 0x1_0000
    ensures Pow256(4) == 0x1_0000_0000
    ensures Pow256(8) == 0x1_0000_0000_0000_0000
  {
    assert Pow256(3) == 0x100_0000;
    assert Pow256(5) == 0x100_0000_0000;
    assert Pow256(6) == 0x1_0000_0000_0000;
    assert Pow256(7) == 0x100_0000_0000_0000;
  }

  /** A field read back after it was stored. */
  lemma LePut2(n: nat)
    requires n < 0x1_0000
    ensures Le(PutLe(n, 2)) == n
  {
    FieldWidths();
    LePutLe(n, 2);
  }

  lemma LePut4(n: nat)
    requires n < 0x1_0000_0000
    ensures Le(PutLe(n, 4)) == n
  {
    FieldWidths();
    LePutLe(n, 4);
  }

  lemma LePut8(n: nat)
    requires n < 0x1_0000_0000_0000_0000
    ensures Le(PutLe(n, 8)) == n
  {
    FieldWidths();
    LePutLe(n, 8);
  }

  lemma ConcatAssoc<T>(a: seq<T>, b: seq<T>, c: seq<T>)
    ensures (a + b) + c == a + (b + c)
  {
  }

  lemma SliceSlice<T>(s: seq<T>, lo: nat, hi: nat, x: nat, y: nat)
    requires lo <= hi <= |s| && x <= y <= hi - lo
    ensures s[lo..hi][x..y] == s[lo + x..lo + y]
  {
    var w := s[lo..hi];
    assert forall i :: x <= i < y ==> w[i] == s[lo + i];
    assert forall i :: 0 <= i < y - x ==> w[x..y][i] == w[x + i];
  }

  // --- Writing into a fixed buffer ------------------------------------------------------

  /** `s` with the bytes from `off` on overwritten by `bs`. */
  function Splice(s: Blob, off: nat, bs: Blob): (r: Blob)
    requires off + |bs| <= |s|
    ensures |r| == |s|
    ensures r[..off] == s[..off]
    ensures r[off..off + |bs|] == bs
    ensures r[off + |bs|..] == s[off + |bs|..]
  {
    s[..off] + bs + s[off + |bs|..]
  }

  /** A slice that the write does not touch keeps its bytes. */
  lemma SpliceOutside(s: Blob, off: nat, bs: Blob, lo: nat, hi: nat)
    requires off + |bs| <= |s|
    requires lo <= hi <= |s|
    requires hi <= off || off + |bs| <= lo
    ensures Splice(s, off, bs)[lo..hi] == s[lo..hi]
  {
    forall i | lo <= i < hi
      ensures Splice(s, off, bs)[i] == s[i]
    {
    }
  }

  /** `bs` stands in `s` at offset `off`. */
  ghost predicate At(s: Blob, off: nat, bs: Blob) {
    off + |bs| <= |s| && s[off..off + |bs|] == bs
  }

  lemma AtConcat(s: Blob, off: nat, a: Blob, b: Blob)
    ensures At(s, off, a + b) <==> At(s, off, a) && At(s, off + |a|, b)
  {
    if off + |a| + |b| <= |s| {
      var w, mid, end := s[off..off + |a| + |b|], off + |a|, off + |a| + |b|;
      assert s[off..mid] == w[..|a|] && s[mid..end] == w[|a|..];
      assert w == s[off..mid] + s[mid..end];
      assert (a + b)[..|a|] == a && (a + b)[|a|..] == b;
    }
  }

  lemma AtSpliced(s: Blob, off: nat, bs: Blob)
    requires off + |bs| <= |s|
    ensures At(Splice(s, off, bs), off, bs)
  {
  }

  lemma AtOutside(s: Blob, off: nat, bs: Blob, lo: nat, x: Blob)
    requires off + |bs| <= |s|
    requires At(s, lo, x)
    requires lo + |x| <= off || off + |bs| <= lo
    ensures At(Splice(s, off, bs), lo, x)
  {
    SpliceOutside(s, off, bs, lo, lo + |x|);
  }

  /** Stores `bs` at `off`. */
  method Store(a: array<Byte>, off: nat, bs: Blob)
    requires off + |bs| <= a.Length
    modifies a
    ensures a[..] == Splice(old(a[..]), off, bs)
  {
    for i := 0 to |bs|
      invariant a[..] == Splice(old(a[..]), off, bs[..i])
    {
      a[off + i] := bs[i];
    }
    assert bs[..|bs|] == bs;
  }

  /** Go's `copy` between two regions of one buffer: the regions may overlap. */
  method Move(a: array<Byte>, dst: nat, src: nat, n: nat)
    requires dst + n <= a.Length && src + n <= a.Length
    modifies a
    ensures a[..] == Splice(old(a[..]), dst, old(a[..])[src..src + n])
  {
    var bs := a[src..src + n];
    Store(a, dst, bs);
  }

  /** `n` zero bytes. */
  function Zeros(n: nat): (z: Blob)
    ensures |z| == n
    ensures forall i :: 0 <= i < n ==> z[i] == 0
  {
    seq(n, _ => 0)
  }

  // --- Key order ------------------------------------------------------------------------

  /** bytes.Compare(a, b) < 0: byte-wise comparison, a proper prefix comes first. */
  predicate Lex(a: Blob, b: Blob)
    decreases |a|
  {
    if b == [] then false
    else if a == [] then true
    else if a[0] != b[0] then a[0] < b[0]
    else Lex(a[1..], b[1..])
  }

  /** An order-preserving embedding of keys into [0, 1), so that comparisons of keys become
      linear arithmetic in the proofs.
   */
  ghost function Rank(k: Blob): (r: real)
    ensures 0.0 <= r < 1.0
    ensures k != [] ==> r > 0.0
  {
    if k == [] then 0.0 else (1.0 + k[0] as real + Rank(k[1..])) / 258.0
  }

  ghost predicate Below(a: Blob, b: Blob) {
    Rank(a) < Rank(b)
  }

  lemma {:induction false} LexIsBelow(a: Blob, b: Blob)
    ensures Lex(a, b) <==> Below(a, b)
    decreases |a|
  {
    if a != [] && b != [] {
      LexIsBelow(a[1..], b[1..]);
    }
  }

  lemma {:induction false} RankInjective(a: Blob, b: Blob)
    requires Rank(a) == Rank(b)
    ensures a == b
    decreases |a|
  {
    if a != [] && b != [] {
      var x, y := Rank(a[1..]), Rank(b[1..]);
      assert a[0] as real + x == b[0] as real + y;
      assert a[0] == b[0];
      RankInjective(a[1..], b[1..]);
      assert a == [a[0]] + a[1..] && b == [b[0]] + b[1..];
    }
  }

  predicate HasPrefix(k: Blob, prefix: Blob) {
    prefix <= k
  }

  lemma {:induction false} PrefixIsLeast(k: Blob, prefix: Blob)
    requires HasPrefix(k, prefix)
    ensures Rank(prefix) <= Rank(k)
    decreases |k|
  {
    if prefix != [] {
      PrefixIsLeast(k[1..], prefix[1..]);
    }
  }

  /** The keys with a given prefix form one contiguous run of the key order. */
  lemma {:induction false} PrefixContiguous(k: Blob, later: Blob, prefix: Blob)
    requires HasPrefix(later, prefix)
    requires Rank(prefix) <= Rank(k) <= Rank(later)
    ensures HasPrefix(k, prefix)
    decreases |prefix|
  {
    if prefix != [] {
      assert k[0] == prefix[0];
      PrefixContiguous(k[1..], later[1..], prefix[1..]);
      assert k == [k[0]] + k[1..] && prefix == [prefix[0]] + prefix[1..];
    }
  }
}
