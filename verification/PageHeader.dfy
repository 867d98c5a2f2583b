/** B-tree pages as byte buffers: the 24-byte header, and the two ways in which the cell area behind
    it is edited (opening a gap for new bytes, sliding bytes away).
 */
module PageHeader {
  import opened Bytes

  const HEADER_SIZE: nat := 24
  const TYPE_INTERNAL: nat := 1
  const TYPE_LEAF: nat := 2

  function PageType(d: PageBytes): nat { Le(d[0..2]) }
  function NumCells(d: PageBytes): nat { Le(d[2..4]) }
  function NextLeaf(d: PageBytes): nat { Le(d[4..12]) }
  function Rightmost(d: PageBytes): nat { Le(d[20..24]) }

  // --- The cell count ---------------------------------------------------------------------

  /** All header fields agree, except perhaps the cell count. */
  ghost predicate SameHeader(d: PageBytes, e: PageBytes) {
    d[0..2] == e[0..2] && d[4..24] == e[4..24]
  }

  lemma SameHeaderFields(d: PageBytes, e: PageBytes)
    requires SameHeader(d, e)
    ensures PageType(d) == PageType(e) && NextLeaf(d) == NextLeaf(e) && Rightmost(d) == Rightmost(e)
  {
    hide Le;
    assert d[4..12] == d[4..24][0..8] && e[4..12] == e[4..24][0..8];
    assert d[20..24] == d[4..24][16..20] && e[20..24] == e[4..24][16..20];
  }

  lemma SameHeaderRefl(d: PageBytes)
    ensures SameHeader(d, d)
  {
  }

  lemma SameHeaderTrans(a: PageBytes, b: PageBytes, c: PageBytes)
    requires SameHeader(a, b) && SameHeader(b, c)
    ensures SameHeader(a, c)
  {
  }

  /** A write behind the header leaves the header alone. */
  lemma HeaderKept(d: PageBytes, off: nat, bs: Blob)
    requires HEADER_SIZE <= off && off + |bs| <= PAGE_SIZE
    ensures SameHeader(Splice(d, off, bs), d) && NumCells(Splice(d, off, bs)) == NumCells(d)
  {
    hide Le, Splice;
    SpliceOutside(d, off, bs, 0, 2);
    SpliceOutside(d, off, bs, 2, 4);
    SpliceOutside(d, off, bs, 4, 24);
  }

  /** `d` with the cell count set to `n`. */
  ghost function WithCount(d: PageBytes, n: nat): PageBytes {
    Splice(d, 2, PutLe(n, 2))
  }

  lemma CountStored(d: PageBytes, n: nat)
    requires n < 0x1_0000
    ensures NumCells(WithCount(d, n)) == n && SameHeader(WithCount(d, n), d)
  {
    hide Le, PutLe, Splice;
    LePut2(n);
    SpliceOutside(d, 2, PutLe(n, 2), 0, 2);
    SpliceOutside(d, 2, PutLe(n, 2), 4, 24);
  }

  lemma BodyKept(d: PageBytes, n: nat, off: nat, bs: Blob)
    requires HEADER_SIZE <= off && At(d, off, bs)
    ensures At(WithCount(d, n), off, bs)
  {
    hide At, Splice, PutLe;
    AtOutside(d, 2, PutLe(n, 2), off, bs);
  }

  method SetNumCells(a: array<Byte>, n: nat)
    requires a.Length == PAGE_SIZE
    modifies a
    ensures a[..] == WithCount(old(a[..]), n)
  {
    Store(a, 2, PutLe(n, 2));
  }

  // --- Sliding bytes away -----------------------------------------------------------------

  /** The page after the `size` bytes at `off` are overwritten by what follows them up to `tail`, the
      freed bytes are cleared and the count is set.
   */
  ghost function Slid(d: PageBytes, off: nat, size: nat, tail: nat, n: nat): PageBytes
    requires off + size <= tail <= PAGE_SIZE
  {
    WithCount(Splice(Splice(d, off, d[off + size..tail]), tail - size, Zeros(size)), n)
  }

  lemma SlidBody(d: PageBytes, size: nat, pre: Blob, post: Blob, n: nat)
    requires At(d, HEADER_SIZE, pre) && At(d, HEADER_SIZE + |pre| + size, post)
    ensures var off := HEADER_SIZE + |pre|;
      At(Slid(d, off, size, off + size + |post|, n), HEADER_SIZE, pre + post)
  {
    var off := HEADER_SIZE + |pre|;
    assert d[off + size..off + size + |post|] == post;
    SlidBodyOf(d, size, pre, post, n);
  }

  lemma SlidBodyOf(d: PageBytes, size: nat, pre: Blob, post: Blob, n: nat)
    requires At(d, HEADER_SIZE, pre) && HEADER_SIZE + |pre| + size + |post| <= PAGE_SIZE
    ensures var off := HEADER_SIZE + |pre|;
      At(WithCount(Splice(Splice(d, off, post), off + |post|, Zeros(size)), n), HEADER_SIZE, pre + post)
  {
    hide Splice, WithCount, Zeros, Le, PutLe, At;
    var off := HEADER_SIZE + |pre|;
    var d1 := Splice(d, off, post);
    var d2 := Splice(d1, off + |post|, Zeros(size));
    AtSpliced(d, off, post);
    AtOutside(d, off, post, HEADER_SIZE, pre);
    AtOutside(d1, off + |post|, Zeros(size), HEADER_SIZE, pre);
    AtOutside(d1, off + |post|, Zeros(size), off, post);
    AtConcat(d2, HEADER_SIZE, pre, post);
    BodyKept(d2, n, HEADER_SIZE, pre + post);
  }

  /** The bytes where a first cell would begin are zero. */
  ghost predicate Cleared(d: PageBytes) { At(d, HEADER_SIZE, Zeros(4)) }

  lemma AtStart(s: Blob, off: nat, bs: Blob, n: nat)
    requires At(s, off, bs) && n <= |bs|
    ensures At(s, off, bs[..n])
  {
    assert s[off..off + n] == s[off..off + |bs|][..n];
  }

  lemma ZerosStart(n: nat)
    requires 4 <= n
    ensures Zeros(n)[..4] == Zeros(4)
  {
  }

  /** Sliding the only cell away clears its bytes. */
  lemma SlidCleared(d: PageBytes, size: nat, n: nat)
    requires 4 <= size && HEADER_SIZE + size <= PAGE_SIZE
    ensures Cleared(Slid(d, HEADER_SIZE, size, HEADER_SIZE + size, n))
  {
    hide Splice, WithCount, Zeros, Le, PutLe, At;
    var end := HEADER_SIZE + size;
    var d1 := Splice(d, HEADER_SIZE, d[end..end]);
    var d2 := Splice(d1, HEADER_SIZE, Zeros(size));
    AtSpliced(d1, HEADER_SIZE, Zeros(size));
    ZerosStart(size);
    AtStart(d2, HEADER_SIZE, Zeros(size), 4);
    BodyKept(d2, n, HEADER_SIZE, Zeros(4));
  }

  lemma SlidHeader(d: PageBytes, off: nat, size: nat, tail: nat, n: nat)
    requires HEADER_SIZE <= off && off + size <= tail <= PAGE_SIZE && n < 0x1_0000
    ensures NumCells(Slid(d, off, size, tail, n)) == n && SameHeader(Slid(d, off, size, tail, n), d)
  {
    hide Splice, WithCount, Zeros, NumCells, SameHeader, Le, PutLe;
    var moved, end := d[off + size..tail], tail - size;
    var d1 := Splice(d, off, moved);
    var d2 := Splice(d1, end, Zeros(size));
    HeaderKept(d, off, moved);
    HeaderKept(d1, end, Zeros(size));
    CountStored(d2, n);
    SameHeaderTrans(WithCount(d2, n), d2, d1);
    SameHeaderTrans(WithCount(d2, n), d1, d);
  }

  method Slide(a: array<Byte>, off: nat, size: nat, tail: nat, n: nat)
    requires a.Length == PAGE_SIZE
    requires off + size <= tail <= PAGE_SIZE
    modifies a
    ensures a[..] == Slid(old(a[..]), off, size, tail, n)
  {
    hide Splice, Zeros, WithCount;
    Move(a, off, off + size, tail - size - off);
    Store(a, tail - size, Zeros(size));
    SetNumCells(a, n);
  }

  // --- Opening a gap ----------------------------------------------------------------------

  /** The page after the bytes from `off` to `tail` are shifted right, `bs` is written into the gap
      and the count is set.
   */
  ghost function Opened(d: PageBytes, off: nat, bs: Blob, tail: nat, n: nat): PageBytes
    requires off <= tail && tail + |bs| <= PAGE_SIZE
  {
    WithCount(Splice(Splice(d, off + |bs|, d[off..tail]), off, bs), n)
  }

  lemma OpenedBody(d: PageBytes, bs: Blob, pre: Blob, post: Blob, n: nat)
    requires At(d, HEADER_SIZE, pre) && At(d, HEADER_SIZE + |pre|, post)
    requires HEADER_SIZE + |pre| + |post| + |bs| <= PAGE_SIZE
    ensures var off := HEADER_SIZE + |pre|;
      At(Opened(d, off, bs, off + |post|, n), HEADER_SIZE, (pre + bs) + post)
  {
    var off := HEADER_SIZE + |pre|;
    assert d[off..off + |post|] == post;
    OpenedBodyOf(d, bs, pre, post, n);
  }

  lemma OpenedBodyOf(d: PageBytes, bs: Blob, pre: Blob, post: Blob, n: nat)
    requires At(d, HEADER_SIZE, pre)
    requires HEADER_SIZE + |pre| + |post| + |bs| <= PAGE_SIZE
    ensures var off := HEADER_SIZE + |pre|;
      At(WithCount(Splice(Splice(d, off + |bs|, post), off, bs), n), HEADER_SIZE, (pre + bs) + post)
  {
    hide Splice, WithCount, Le, PutLe, At;
    var off := HEADER_SIZE + |pre|;
    var d1 := Splice(d, off + |bs|, post);
    var d2 := Splice(d1, off, bs);
    AtSpliced(d, off + |bs|, post);
    AtOutside(d, off + |bs|, post, HEADER_SIZE, pre);
    AtSpliced(d1, off, bs);
    AtOutside(d1, off, bs, HEADER_SIZE, pre);
    AtOutside(d1, off, bs, off + |bs|, post);
    AtConcat(d2, HEADER_SIZE, pre, bs);
    AtConcat(d2, HEADER_SIZE, pre + bs, post);
    BodyKept(d2, n, HEADER_SIZE, (pre + bs) + post);
  }

  lemma OpenedHeader(d: PageBytes, off: nat, bs: Blob, tail: nat, n: nat)
    requires HEADER_SIZE <= off <= tail && tail + |bs| <= PAGE_SIZE && n < 0x1_0000
    ensures NumCells(Opened(d, off, bs, tail, n)) == n && SameHeader(Opened(d, off, bs, tail, n), d)
  {
    hide Splice, WithCount, NumCells, SameHeader, Le, PutLe;
    var moved, mid := d[off..tail], off + |bs|;
    var d1 := Splice(d, mid, moved);
    var d2 := Splice(d1, off, bs);
    HeaderKept(d, mid, moved);
    HeaderKept(d1, off, bs);
    CountStored(d2, n);
    SameHeaderTrans(WithCount(d2, n), d2, d1);
    SameHeaderTrans(WithCount(d2, n), d1, d);
  }

  method OpenGap(a: array<Byte>, off: nat, bs: Blob, tail: nat, n: nat)
    requires a.Length == PAGE_SIZE
    requires off <= tail && tail + |bs| <= PAGE_SIZE
    modifies a
    ensures a[..] == Opened(old(a[..]), off, bs, tail, n)
  {
    hide Splice, WithCount;
    Move(a, off + |bs|, off, tail - off);
    Store(a, off, bs);
    SetNumCells(a, n);
  }
}
