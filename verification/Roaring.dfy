/** Compressed bitmaps: per 48-bit chunk key a strictly ascending list of 16-bit values. */
module Roaring {
  const CHUNK: nat := 0x1_0000

  ghost predicate Sorted(s: seq<nat>) {
    forall i, j :: 0 <= i < j < |s| ==> s[i] < s[j]
  }

  ghost predicate WellFormed(chunks: map<nat, seq<nat>>) {
    forall k :: k in chunks ==> Sorted(chunks[k]) && chunks[k] != [] && forall x :: x in chunks[k] ==> x < CHUNK
  }

  /** The value is in the set the chunks stand for. */
  predicate Has(chunks: map<nat, seq<nat>>, v: nat) {
    v / CHUNK in chunks && v % CHUNK in chunks[v / CHUNK]
  }

  // --- Merging two ascending lists --------------------------------------------------------

  /** A merge has consumed `a[..i]` and `b[..j]`: each consumed part lies below the other's rest. */
  ghost predicate Cut(a: seq<nat>, i: nat, b: seq<nat>, j: nat) {
    && Sorted(a) && Sorted(b) && i <= |a| && j <= |b|
    && (i > 0 && j < |b| ==> a[i - 1] < b[j])
    && (j > 0 && i < |a| ==> b[j - 1] < a[i])
  }

  lemma CutMeans(a: seq<nat>, i: nat, b: seq<nat>, j: nat)
    requires Cut(a, i, b, j)
    ensures forall x :: x in a[..i] && x in b ==> x in b[..j]
    ensures forall x :: x in b[..j] && x in a ==> x in a[..i]
  {
    forall x | x in a[..i] && x in b
      ensures x in b[..j]
    {
      var n :| 0 <= n < |b| && b[n] == x;
      var m :| 0 <= m < i && a[m] == x;
      assert m <= i - 1;
      if n < j {
        assert b[..j][n] == x;
      }
    }
    forall x | x in b[..j] && x in a
      ensures x in a[..i]
    {
      var n :| 0 <= n < |a| && a[n] == x;
      var m :| 0 <= m < j && b[m] == x;
      if n < i {
        assert a[..i][n] == x;
      }
    }
  }

  lemma PrefixStep(s: seq<nat>, i: nat)
    requires i < |s|
    ensures forall x :: x in s[..i + 1] <==> x in s[..i] || x == s[i]
  {
    assert s[..i + 1] == s[..i] + [s[i]];
  }

  lemma PrefixAll(s: seq<nat>, i: nat)
    requires i <= |s|
    ensures forall x :: x in s <==> x in s[..i] || x in s[i..]
  {
    assert s == s[..i] + s[i..];
  }

  lemma SortedPush(r: seq<nat>, x: nat)
    requires Sorted(r) && forall y :: y in r ==> y < x
    ensures Sorted(r + [x])
  {
    assert forall i :: 0 <= i < |r| ==> r[i] in r;
  }

  lemma SortedJoin(r: seq<nat>, s: seq<nat>)
    requires Sorted(r) && Sorted(s) && (forall x, y :: x in r && y in s ==> x < y)
    ensures Sorted(r + s)
  {
    assert forall i :: 0 <= i < |r| ==> r[i] in r;
    assert forall i :: 0 <= i < |s| ==> s[i] in s;
  }

  lemma ConsumedBelow(s: seq<nat>, i: nat)
    requires Sorted(s) && i <= |s|
    ensures i < |s| ==> forall x :: x in s[..i] ==> x < s[i]
    ensures forall x, y :: x in s[..i] && y in s[i..] ==> x < y
  {
  }

  method Intersect(a: seq<nat>, b: seq<nat>) returns (r: seq<nat>)
    requires Sorted(a) && Sorted(b)
    ensures Sorted(r) && forall x :: x in r <==> x in a && x in b
  {
    hide Sorted;
    var i, j := 0, 0;
    r := [];
    EmptyCut(a, b);
    while i < |a| && j < |b|
      invariant Cut(a, i, b, j) && i <= |a| && j <= |b|
      invariant Sorted(r) && forall x :: x in r <==> x in a[..i] && x in b[..j]
    {
      Consume(a, i, b, j);
      if a[i] < b[j] {
        i := i + 1;
      } else if a[i] > b[j] {
        j := j + 1;
      } else {
        SortedPush(r, a[i]);
        r := r + [a[i]];
        i, j := i + 1, j + 1;
      }
    }
    CutMeans(a, i, b, j);
    assert a[..|a|] == a && b[..|b|] == b;
  }

  lemma EmptyCut(a: seq<nat>, b: seq<nat>)
    requires Sorted(a) && Sorted(b)
    ensures Cut(a, 0, b, 0) && Sorted([]) && a[..0] == [] && b[..0] == []
  {
  }

  /** What consuming the next value of either list, or one of both, comes to. */
  lemma Consume(a: seq<nat>, i: nat, b: seq<nat>, j: nat)
    requires Cut(a, i, b, j) && i < |a| && j < |b|
    ensures forall x :: x in a[..i + 1] <==> x in a[..i] || x == a[i]
    ensures forall x :: x in b[..j + 1] <==> x in b[..j] || x == b[j]
    ensures forall x :: x in a[..i] || x in b[..j] ==> x < a[i] && x < b[j]
    ensures a[i] < b[j] ==> Cut(a, i + 1, b, j)
    ensures a[i] > b[j] ==> Cut(a, i, b, j + 1)
    ensures a[i] == b[j] ==> Cut(a, i + 1, b, j + 1)
  {
    PrefixStep(a, i);
    PrefixStep(b, j);
    ConsumedBelow(a, i);
    ConsumedBelow(b, j);
    forall x | x in a[..i]
      ensures x < b[j]
    {
      var m :| 0 <= m < i && a[m] == x;
      assert m <= i - 1;
    }
    forall x | x in b[..j]
      ensures x < a[i]
    {
      var m :| 0 <= m < j && b[m] == x;
      assert m <= j - 1;
    }
  }

  method Union(a: seq<nat>, b: seq<nat>) returns (r: seq<nat>)
    requires Sorted(a) && Sorted(b)
    ensures Sorted(r) && forall x :: x in r <==> x in a || x in b
  {
    hide Sorted;
    var i, j := 0, 0;
    r := [];
    EmptyCut(a, b);
    while i < |a| && j < |b|
      invariant Cut(a, i, b, j) && i <= |a| && j <= |b|
      invariant Sorted(r) && forall x :: x in r <==> x in a[..i] || x in b[..j]
    {
      Consume(a, i, b, j);
      if a[i] < b[j] {
        SortedPush(r, a[i]);
        r := r + [a[i]];
        i := i + 1;
      } else if a[i] > b[j] {
        SortedPush(r, b[j]);
        r := r + [b[j]];
        j := j + 1;
      } else {
        SortedPush(r, a[i]);
        r := r + [a[i]];
        i, j := i + 1, j + 1;
      }
    }
    Rest(a, i, b, j);
    PrefixAll(a, i);
    PrefixAll(b, j);
    SortedJoin(r, a[i..]);
    r := r + a[i..];
    SortedJoin(r, b[j..]);
    r := r + b[j..];
  }

  /** What is left of one list when the other is used up. */
  lemma Rest(a: seq<nat>, i: nat, b: seq<nat>, j: nat)
    requires Cut(a, i, b, j) && (i == |a| || j == |b|)
    ensures Sorted(a[i..]) && Sorted(b[j..])
    ensures a[i..] == [] || b[j..] == []
    ensures forall x, y :: (x in a[..i] || x in b[..j]) && (y in a[i..] || y in b[j..]) ==> x < y
  {
    ConsumedBelow(a, i);
    ConsumedBelow(b, j);
    forall x, y | x in a[..i] && y in b[j..]
      ensures x < y
    {
      var m :| 0 <= m < i && a[m] == x;
      var n :| j <= n < |b| && b[n] == y;
      assert m <= i - 1 && j <= n;
    }
    forall x, y | x in b[..j] && y in a[i..]
      ensures x < y
    {
      var m :| 0 <= m < j && b[m] == x;
      var n :| i <= n < |a| && a[n] == y;
      assert m <= j - 1 && i <= n;
    }
  }

  method Difference(a: seq<nat>, b: seq<nat>) returns (r: seq<nat>)
    requires Sorted(a) && Sorted(b)
    ensures Sorted(r) && forall x :: x in r <==> x in a && x !in b
  {
    hide Sorted;
    var i, j := 0, 0;
    r := [];
    EmptyCut(a, b);
    while i < |a| && j < |b|
      invariant Cut(a, i, b, j) && i <= |a| && j <= |b|
      invariant Sorted(r) && forall x :: x in r <==> x in a[..i] && x !in b[..j]
    {
      Consume(a, i, b, j);
      if a[i] < b[j] {
        SortedPush(r, a[i]);
        r := r + [a[i]];
        i := i + 1;
      } else if a[i] > b[j] {
        j := j + 1;
      } else {
        i, j := i + 1, j + 1;
      }
    }
    Rest(a, i, b, j);
    CutMeans(a, i, b, j);
    PrefixAll(a, i);
    PrefixAll(b, j);
    SortedJoin(r, a[i..]);
    r := r + a[i..];
  }

  // --- Inserting one value ----------------------------------------------------------------

  /** Binary search for the first value not below `x`. */
  method Search(s: seq<nat>, x: nat) returns (i: nat)
    requires Sorted(s)
    ensures i <= |s| && (forall m :: 0 <= m < i ==> s[m] < x) && (forall m :: i <= m < |s| ==> s[m] >= x)
  {
    var lo, hi := 0, |s|;
    while lo < hi
      invariant 0 <= lo <= hi <= |s|
      invariant forall m :: 0 <= m < lo ==> s[m] < x
      invariant forall m :: hi <= m < |s| ==> s[m] >= x
    {
      var mid := (lo + hi) / 2;
      if s[mid] >= x {
        hi := mid;
      } else {
        lo := mid + 1;
      }
    }
    i := lo;
  }

  lemma InsertSorted(s: seq<nat>, x: nat, i: nat)
    requires Sorted(s) && i <= |s| && (forall m :: 0 <= m < i ==> s[m] < x) && (forall m :: i <= m < |s| ==> s[m] > x)
    ensures Sorted(s[..i] + [x] + s[i..]) && forall y :: y in s[..i] + [x] + s[i..] <==> y == x || y in s
  {
    PrefixAll(s, i);
  }

  // --- Bitmaps ----------------------------------------------------------------------------

  class Bitmap {
    var chunks: map<nat, seq<nat>>

    ghost predicate Valid()
      reads this
    {
      WellFormed(chunks)
    }

    constructor ()
      ensures Valid() && chunks == map[]
    {
      chunks := map[];
    }

    method Add(v: nat)
      requires Valid()
      modifies this
      ensures Valid() && forall x :: Has(chunks, x) <==> x == v || old(Has(chunks, x))
    {
      hide Sorted;
      var k, lsb := v / CHUNK, v % CHUNK;
      var l := if k in chunks then chunks[k] else [];
      EmptySorted();
      var idx := Search(l, lsb);
      if idx < |l| && l[idx] == lsb {
        return;
      }
      AboveFrom(l, lsb, idx);
      InsertSorted(l, lsb, idx);
      chunks := chunks[k := l[..idx] + [lsb] + l[idx..]];
    }
  }

  lemma EmptySorted()
    ensures Sorted([])
  {
  }

  lemma AboveFrom(s: seq<nat>, x: nat, i: nat)
    requires Sorted(s) && i <= |s| && (forall m :: i <= m < |s| ==> s[m] >= x) && (i < |s| ==> s[i] != x)
    ensures forall m :: i <= m < |s| ==> s[m] > x
  {
  }

  /** The chunks of keys `done` agree with `want`; other chunks are absent. */
  ghost predicate Built(res: map<nat, seq<nat>>, done: set<nat>, want: nat -> bool) {
    && WellFormed(res) && (forall k :: k in res ==> k in done)
    && forall v: nat :: v / CHUNK in done ==> (Has(res, v) <==> want(v))
  }

  ghost function Both(a: map<nat, seq<nat>>, b: map<nat, seq<nat>>): nat -> bool {
    (v: nat) => Has(a, v) && Has(b, v)
  }

  ghost function Minus(a: map<nat, seq<nat>>, b: map<nat, seq<nat>>): nat -> bool {
    (v: nat) => Has(a, v) && !Has(b, v)
  }

  /** One more chunk key is done. */
  lemma BuiltStep(res: map<nat, seq<nat>>, done: set<nat>, want: nat -> bool, k: nat, l: seq<nat>)
    requires Built(res, done, want) && k !in done
    requires Sorted(l) && (forall x :: x in l ==> x < CHUNK)
    requires forall v: nat :: v / CHUNK == k ==> (v % CHUNK in l <==> want(v))
    ensures Built(if l == [] then res else res[k := l], done + {k}, want)
  {
    hide Sorted;
  }

  lemma BothStep(res: map<nat, seq<nat>>, done: set<nat>, a: map<nat, seq<nat>>, b: map<nat, seq<nat>>, k: nat,
                 l: seq<nat>)
    requires Built(res, done, Both(a, b)) && k !in done && k in a && WellFormed(a)
    requires Sorted(l) && forall x :: x in l <==> x in a[k] && k in b && x in b[k]
    ensures Built(if l == [] then res else res[k := l], done + {k}, Both(a, b))
  {
    hide Sorted, Built;
    ChunkOf(a, k);
    BuiltStep(res, done, Both(a, b), k, l);
  }

  lemma MinusStep(res: map<nat, seq<nat>>, done: set<nat>, a: map<nat, seq<nat>>, b: map<nat, seq<nat>>, k: nat,
                  l: seq<nat>)
    requires Built(res, done, Minus(a, b)) && k !in done && k in a && WellFormed(a)
    requires Sorted(l) && forall x :: x in l <==> x in a[k] && !(k in b && x in b[k])
    ensures Built(if l == [] then res else res[k := l], done + {k}, Minus(a, b))
  {
    hide Sorted, Built;
    ChunkOf(a, k);
    BuiltStep(res, done, Minus(a, b), k, l);
  }

  method RoaringIntersect(a: Bitmap, b: Bitmap) returns (r: Bitmap)
    requires a.Valid() && b.Valid()
    ensures fresh(r) && r.Valid() && forall v :: Has(r.chunks, v) <==> Has(a.chunks, v) && Has(b.chunks, v)
  {
    hide Sorted, WellFormed, Built, Both, Minus, Has;
    r := new Bitmap();
    var todo := a.chunks.Keys;
    ghost var done := {};
    BuiltNothing(Both(a.chunks, b.chunks));
    while todo != {}
      invariant todo <= a.chunks.Keys && done == a.chunks.Keys - todo && fresh(r)
      invariant Built(r.chunks, done, Both(a.chunks, b.chunks))
      decreases |todo|
    {
      var k :| k in todo;
      ChunkOf(a.chunks, k);
      if k in b.chunks {
        ChunkOf(b.chunks, k);
        var l := Intersect(a.chunks[k], b.chunks[k]);
        BothStep(r.chunks, done, a.chunks, b.chunks, k, l);
        if |l| > 0 {
          r.chunks := r.chunks[k := l];
        }
      } else {
        EmptySorted();
        BothStep(r.chunks, done, a.chunks, b.chunks, k, []);
      }
      todo, done := todo - {k}, done + {k};
    }
    BothAll(r.chunks, a.chunks, b.chunks, done);
  }

  method RoaringDifference(a: Bitmap, b: Bitmap) returns (r: Bitmap)
    requires a.Valid() && b.Valid()
    ensures fresh(r) && r.Valid() && forall v :: Has(r.chunks, v) <==> Has(a.chunks, v) && !Has(b.chunks, v)
  {
    hide Sorted, WellFormed, Built, Both, Minus, Has;
    r := new Bitmap();
    var todo := a.chunks.Keys;
    ghost var done := {};
    BuiltNothing(Minus(a.chunks, b.chunks));
    while todo != {}
      invariant todo <= a.chunks.Keys && done == a.chunks.Keys - todo && fresh(r)
      invariant Built(r.chunks, done, Minus(a.chunks, b.chunks))
      decreases |todo|
    {
      var k :| k in todo;
      ChunkOf(a.chunks, k);
      if k in b.chunks {
        ChunkOf(b.chunks, k);
        var l := Difference(a.chunks[k], b.chunks[k]);
        MinusStep(r.chunks, done, a.chunks, b.chunks, k, l);
        if |l| > 0 {
          r.chunks := r.chunks[k := l];
        }
      } else {
        MinusStep(r.chunks, done, a.chunks, b.chunks, k, a.chunks[k]);
        r.chunks := r.chunks[k := a.chunks[k]];
      }
      todo, done := todo - {k}, done + {k};
    }
    MinusAll(r.chunks, a.chunks, b.chunks, done);
  }

  lemma BuiltNothing(want: nat -> bool)
    ensures Built(map[], {}, want)
  {
  }

  lemma ChunkOf(chunks: map<nat, seq<nat>>, k: nat)
    requires WellFormed(chunks) && k in chunks
    ensures Sorted(chunks[k]) && chunks[k] != [] && forall x :: x in chunks[k] ==> x < CHUNK
  {
  }

  lemma BothAll(res: map<nat, seq<nat>>, a: map<nat, seq<nat>>, b: map<nat, seq<nat>>, done: set<nat>)
    requires Built(res, done, Both(a, b)) && done == a.Keys
    ensures WellFormed(res) && forall v :: Has(res, v) <==> Has(a, v) && Has(b, v)
  {
  }

  lemma MinusAll(res: map<nat, seq<nat>>, a: map<nat, seq<nat>>, b: map<nat, seq<nat>>, done: set<nat>)
    requires Built(res, done, Minus(a, b)) && done == a.Keys
    ensures WellFormed(res) && forall v :: Has(res, v) <==> Has(a, v) && !Has(b, v)
  {
  }

  /** `a` with the chunks of `b` whose keys are in `done` merged in. */
  ghost predicate Merged(res: map<nat, seq<nat>>, a: map<nat, seq<nat>>, b: map<nat, seq<nat>>, done: set<nat>) {
    && WellFormed(res)
    && (forall k :: k !in done ==> (k in res <==> k in a) && (k in res && k in a ==> res[k] == a[k]))
    && forall v: nat :: v / CHUNK in done ==> (Has(res, v) <==> Has(a, v) || Has(b, v))
  }

  lemma MergedStep(res: map<nat, seq<nat>>, a: map<nat, seq<nat>>, b: map<nat, seq<nat>>, done: set<nat>, k: nat,
                   l: seq<nat>)
    requires Merged(res, a, b, done) && k !in done && k in b && b[k] != []
    requires Sorted(l) && forall x :: x in l <==> (k in a && x in a[k]) || x in b[k]
    requires forall x :: x in l ==> x < CHUNK
    ensures Merged(res[k := l], a, b, done + {k})
  {
    hide Sorted;
    assert b[k][0] in l;
  }

  method RoaringUnion(a: Bitmap, b: Bitmap) returns (r: Bitmap)
    requires a.Valid() && b.Valid()
    ensures fresh(r) && r.Valid() && forall v :: Has(r.chunks, v) <==> Has(a.chunks, v) || Has(b.chunks, v)
  {
    hide Sorted, WellFormed, Merged, Has;
    r := new Bitmap();
    r.chunks := a.chunks;
    var todo := b.chunks.Keys;
    ghost var done := {};
    MergedNothing(a.chunks, b.chunks);
    while todo != {}
      invariant todo <= b.chunks.Keys && done == b.chunks.Keys - todo && fresh(r)
      invariant Merged(r.chunks, a.chunks, b.chunks, done)
      decreases |todo|
    {
      var k :| k in todo;
      ChunkOf(b.chunks, k);
      MergedSame(r.chunks, a.chunks, b.chunks, done, k);
      var l := b.chunks[k];
      if k in r.chunks {
        ChunkOf(a.chunks, k);
        l := Union(r.chunks[k], b.chunks[k]);
      }
      MergedStep(r.chunks, a.chunks, b.chunks, done, k, l);
      r.chunks := r.chunks[k := l];
      todo, done := todo - {k}, done + {k};
    }
    MergedAll(r.chunks, a.chunks, b.chunks, done);
  }

  lemma MergedNothing(a: map<nat, seq<nat>>, b: map<nat, seq<nat>>)
    requires WellFormed(a)
    ensures Merged(a, a, b, {})
  {
  }

  lemma MergedSame(res: map<nat, seq<nat>>, a: map<nat, seq<nat>>, b: map<nat, seq<nat>>, done: set<nat>, k: nat)
    requires Merged(res, a, b, done) && k !in done
    ensures (k in res <==> k in a) && (k in res && k in a ==> res[k] == a[k])
  {
  }

  lemma MergedAll(res: map<nat, seq<nat>>, a: map<nat, seq<nat>>, b: map<nat, seq<nat>>, done: set<nat>)
    requires Merged(res, a, b, done) && done == b.Keys
    ensures WellFormed(res) && forall v :: Has(res, v) <==> Has(a, v) || Has(b, v)
  {
  }
}
