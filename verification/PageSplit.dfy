/** Splitting a full page in two, and formatting fresh pages. */
module PageSplit {
  import opened Bytes
  import opened PageHeader
  import opened PageCells
  import Leaf = LeafPage
  import Inner = InternalPage

  // --- Fresh pages ------------------------------------------------------------------------

  /** A header cleared and then filled field by field. */
  ghost function Formatted(d: PageBytes, pageType: nat, next: nat, parent: nat): PageBytes {
    Splice(Splice(Splice(Splice(d, 0, Zeros(24)), 0, PutLe(pageType, 2)), 4, PutLe(next, 8)), 12, PutLe(parent, 8))
  }

  lemma FormattedFields(d: PageBytes, pageType: nat, next: nat, parent: nat)
    requires pageType < 0x1_0000 && next < 0x1_0000_0000_0000_0000
    ensures var f := Formatted(d, pageType, next, parent);
      PageType(f) == pageType && NextLeaf(f) == next
  {
    hide Splice, PutLe, Le, At, Zeros;
    var d1 := Splice(d, 0, Zeros(24));
    var d2 := Splice(d1, 0, PutLe(pageType, 2));
    var d3 := Splice(d2, 4, PutLe(next, 8));
    var d4 := Splice(d3, 12, PutLe(parent, 8));
    AtSpliced(d1, 0, PutLe(pageType, 2));
    AtOutside(d2, 4, PutLe(next, 8), 0, PutLe(pageType, 2));
    AtOutside(d3, 12, PutLe(parent, 8), 0, PutLe(pageType, 2));
    AtSpliced(d2, 4, PutLe(next, 8));
    AtOutside(d3, 12, PutLe(parent, 8), 4, PutLe(next, 8));
    LePut2(pageType);
    LePut8(next);
    AtIs(d4, 0, PutLe(pageType, 2));
    AtIs(d4, 4, PutLe(next, 8));
  }

  method Format(b: array<Byte>, pageType: nat, next: nat, parent: nat)
    requires b.Length == PAGE_SIZE
    modifies b
    ensures b[..] == Formatted(old(b[..]), pageType, next, parent)
  {
    hide Splice, PutLe, Zeros;
    Store(b, 0, Zeros(24));
    Store(b, 0, PutLe(pageType, 2));
    Store(b, 4, PutLe(next, 8));
    Store(b, 12, PutLe(parent, 8));
  }

  /** Fills the cell area of a page whose header is in place. */
  method Fill(leaf: bool, b: array<Byte>, body: Blob, n: nat, ghost raws: seq<Blob>)
    requires b.Length == PAGE_SIZE && HEADER_SIZE + |body| <= PAGE_SIZE
    requires n == |raws| < 0x1_0000 && AllValid(leaf, raws)
    requires |Pack(raws)| <= |body| && body[..|Pack(raws)|] == Pack(raws)
    modifies b
    ensures Whole(leaf, b[..]) && RawCells(leaf, b[..]) == raws
    ensures SameHeader(b[..], old(b[..])) && At(b[..], HEADER_SIZE, body)
  {
    hide Pack, ValidCell, RawCells, Whole, Splice, At, SameHeader, NumCells, WithCount;
    ghost var d := b[..];
    Store(b, HEADER_SIZE, body);
    ghost var d1 := b[..];
    SetNumCells(b, n);
    AtSpliced(d, HEADER_SIZE, body);
    AtConcat(d1, HEADER_SIZE, Pack(raws), body[|Pack(raws)|..]);
    assert body == Pack(raws) + body[|Pack(raws)|..];
    BodyKept(d1, n, HEADER_SIZE, Pack(raws));
    BodyKept(d1, n, HEADER_SIZE, body);
    HeaderKept(d, HEADER_SIZE, body);
    CountStored(d1, n);
    SameHeaderTrans(b[..], d1, d);
    Repacked(leaf, b[..], raws);
  }

  /** Formats the page that becomes the new root above two siblings. */
  method FormatRoot(b: array<Byte>, pivot: Blob, left: nat, right: nat)
    requires b.Length == PAGE_SIZE && HEADER_SIZE + 10 + |pivot| <= PAGE_SIZE
    requires left < 0x1_0000_0000 && right < 0x1_0000_0000
    modifies b
    ensures PageType(b[..]) == TYPE_INTERNAL && Inner.WholeInner(b[..])
    ensures Inner.Seps(b[..]) == [Inner.Sep(left, pivot)] && Rightmost(b[..]) == right
  {
    hide Pack, ValidCell, RawCells, Whole, Splice, At, SameHeader, Formatted, Le, Inner.EncodeSep, Inner.DecodeSep,
         Inner.DecodeAll;
    ghost var d := b[..];
    Format(b, TYPE_INTERNAL, 0, 0);
    FormattedFields(d, TYPE_INTERNAL, 0, 0);
    ghost var d1 := b[..];
    var raw := Inner.EncodeSep(Inner.Sep(left, pivot));
    Inner.DecodeEncodeSep(Inner.Sep(left, pivot));
    AllValidOne(false, raw);
    PackOne(raw);
    Fill(false, b, raw, 1, [raw]);
    SameHeaderFields(b[..], d1);
    Inner.SetRightmost(b, right);
    Inner.DecodeOne(raw);
  }

  lemma PackOne(raw: Blob)
    ensures Pack([raw]) == raw && raw[..|raw|] == raw
  {
    assert [raw][1..] == [];
  }

  // --- The cell in the middle -------------------------------------------------------------

  /** Where the middle cell starts and how long it is; an empty page has no middle cell. */
  method FindMiddle(leaf: bool, a: array<Byte>, mid: nat) returns (offset: nat, size: nat)
    requires a.Length == PAGE_SIZE && Whole(leaf, a[..])
    requires mid <= |RawCells(leaf, a[..])|
    ensures offset == OffsetOf(RawCells(leaf, a[..]), mid) <= PAGE_SIZE
    ensures mid < |RawCells(leaf, a[..])| ==>
              && size == |RawCells(leaf, a[..])[mid]| && offset + size <= PAGE_SIZE
              && a[..][offset..offset + size] == RawCells(leaf, a[..])[mid]
    ensures mid == |RawCells(leaf, a[..])| ==> size == 0
  {
    hide *;
    var d := a[..];
    var n := NumCells(d);
    WholePage(leaf, d);
    OffsetEnds(RawCells(leaf, d));
    offset, size := HEADER_SIZE, 0;
    for i := 0 to n
      invariant i <= mid
      invariant offset == OffsetOf(RawCells(leaf, d), i)
    {
      CellAt(leaf, d, i);
      if offset + HeadSize(leaf) > PAGE_SIZE {
        break;
      }
      var s := SizeAt(leaf, d, offset);
      if offset + s > PAGE_SIZE {
        break;
      }
      if i == mid {
        return offset, s;
      }
      offset := offset + s;
    }
  }

  // --- Leaf split -------------------------------------------------------------------------

  /** The left half of a split leaf. */
  ghost function LeftLeaf(d: PageBytes, newId: nat, off: nat, mid: nat): PageBytes
    requires off <= PAGE_SIZE
  {
    WithCount(Splice(Splice(d, 4, PutLe(newId, 8)), off, Zeros(PAGE_SIZE - off)), mid)
  }

  lemma LeftLeafIs(d: PageBytes, newId: nat, mid: nat)
    requires Whole(true, d) && mid <= |RawCells(true, d)| && newId < 0x1_0000_0000
    ensures var off := OffsetOf(RawCells(true, d), mid);
      && HEADER_SIZE <= off <= PAGE_SIZE
      && var l := LeftLeaf(d, newId, off, mid);
         && Whole(true, l) && RawCells(true, l) == RawCells(true, d)[..mid]
         && PageType(l) == PageType(d) && NextLeaf(l) == newId
  {
    hide Pack, ValidCell, RawCells, Whole, Splice, At, SameHeader, PutLe, Zeros, Le, NumCells, WithCount;
    var raws := RawCells(true, d);
    var off, bs := OffsetOf(raws, mid), PutLe(newId, 8);
    WholePage(true, d);
    SplitAt(true, d, mid);
    var d1 := Splice(d, 4, bs);
    var d2 := Splice(d1, off, Zeros(PAGE_SIZE - off));
    AtOutside(d, 4, bs, HEADER_SIZE, Pack(raws[..mid]));
    AtOutside(d1, off, Zeros(PAGE_SIZE - off), HEADER_SIZE, Pack(raws[..mid]));
    BodyKept(d2, mid, HEADER_SIZE, Pack(raws[..mid]));
    HeaderKept(d1, off, Zeros(PAGE_SIZE - off));
    CountStored(d2, mid);
    SameHeaderTrans(WithCount(d2, mid), d2, d1);
    SameHeaderFields(WithCount(d2, mid), d1);
    SpliceOutside(d, 4, bs, 0, 2);
    LePut8(newId);
    AllValidSplit(true, raws, mid);
    Repacked(true, WithCount(d2, mid), raws[..mid]);
  }

  /** Moves the upper half of a leaf into a fresh page and links it behind the leaf; the first key of
      the upper half becomes the pivot.
   */
  method SplitLeaf(a: array<Byte>, b: array<Byte>, newId: nat) returns (midKey: Blob)
    requires a != b && a.Length == PAGE_SIZE && b.Length == PAGE_SIZE
    requires Leaf.WholeLeaf(a[..]) && PageType(a[..]) == TYPE_LEAF && newId < 0x1_0000_0000
    modifies a, b
    ensures var cells := old(Leaf.Cells(a[..]));
      var mid := |cells| / 2;
      && Leaf.WholeLeaf(a[..]) && Leaf.WholeLeaf(b[..])
      && PageType(a[..]) == TYPE_LEAF && PageType(b[..]) == TYPE_LEAF
      && Leaf.Cells(a[..]) == cells[..mid] && Leaf.Cells(b[..]) == cells[mid..]
      && NextLeaf(a[..]) == newId && NextLeaf(b[..]) == old(NextLeaf(a[..]))
      && midKey == (if cells == [] then [] else cells[mid].key)
    ensures Leaf.ClearedIfEmpty(a[..]) && (old(Leaf.ClearedIfEmpty(a[..])) ==> Leaf.ClearedIfEmpty(b[..]))
  {
    hide Pack, ValidCell, RawCells, Whole, Splice, At, SameHeader, PutLe, Zeros, Le, WithCount, OffsetOf, Formatted,
         LeftLeaf, Leaf.DecodeCell, Leaf.DecodeAll, Cleared;
    ghost var d, b0 := a[..], b[..];
    ghost var raws := RawCells(true, d);
    var n := NumCells(a[..]);
    var mid := n / 2;
    Leaf.RawCount(d);
    WholePage(true, d);
    NextBound(d);
    Format(b, TYPE_LEAF, NextLeaf(a[..]), Le(a[..][12..20]));
    FormattedFields(b0, TYPE_LEAF, NextLeaf(d), Le(d[12..20]));
    ghost var b1 := b[..];
    var offset, size := FindMiddle(true, a, mid);
    midKey := [];
    if mid < n {
      midKey := Leaf.DecodeCell(a[..][offset..offset + size]).key;
    }
    SplitAt(true, d, mid);
    TailIs(d, offset, Pack(raws[mid..]));
    AllValidSplit(true, raws, mid);
    Fill(true, b, a[..][offset..], n - mid, raws[mid..]);
    SameHeaderFields(b[..], b1);
    LeftLeafIs(d, newId, mid);
    OffsetEnds(raws);
    LeftCleared(d, newId);
    RightCleared(d, b[..], offset);
    WriteLeft(a, newId, offset, mid);
    Leaf.DecodeSplit(raws, mid);
    if mid < n {
      DecodedMiddle(d, mid);
    }
  }

  lemma LeftCleared(d: PageBytes, newId: nat)
    ensures Cleared(LeftLeaf(d, newId, HEADER_SIZE, 0))
  {
    hide Splice, WithCount, Zeros, Le, PutLe, At;
    var n := PAGE_SIZE - HEADER_SIZE;
    var d1 := Splice(d, 4, PutLe(newId, 8));
    AtSpliced(d1, HEADER_SIZE, Zeros(n));
    ZerosStart(n);
    AtStart(Splice(d1, HEADER_SIZE, Zeros(n)), HEADER_SIZE, Zeros(n), 4);
    BodyKept(Splice(d1, HEADER_SIZE, Zeros(n)), 0, HEADER_SIZE, Zeros(4));
  }

  lemma RightCleared(d: PageBytes, b: PageBytes, off: nat)
    requires off <= PAGE_SIZE && At(b, HEADER_SIZE, d[off..])
    ensures off == HEADER_SIZE && Cleared(d) ==> Cleared(b)
  {
    hide Zeros;
    if off == HEADER_SIZE && Cleared(d) {
      AtStart(b, HEADER_SIZE, d[off..], 4);
      assert d[off..][..4] == d[HEADER_SIZE..HEADER_SIZE + 4];
    }
  }

  lemma DecodedMiddle(d: PageBytes, mid: nat)
    requires mid < |RawCells(true, d)|
    ensures mid < |Leaf.Cells(d)| && Leaf.DecodeCell(RawCells(true, d)[mid]) == Leaf.Cells(d)[mid]
  {
    hide RawCells, Leaf.DecodeCell;
  }

  lemma NextBound(d: PageBytes)
    ensures NextLeaf(d) < 0x1_0000_0000_0000_0000
  {
    hide Le;
    FieldWidths();
    LeBound(d[4..12]);
  }

  lemma TailIs(d: PageBytes, off: nat, bs: Blob)
    requires At(d, off, bs)
    ensures off + |bs| <= PAGE_SIZE && d[off..][..|bs|] == bs
  {
    SliceSlice(d, off, PAGE_SIZE, 0, |bs|);
    assert d[off..] == d[off..PAGE_SIZE];
    assert d[off..][..|bs|] == d[off..PAGE_SIZE][0..|bs|];
  }

  method WriteLeft(a: array<Byte>, newId: nat, offset: nat, mid: nat)
    requires a.Length == PAGE_SIZE && offset <= PAGE_SIZE
    modifies a
    ensures a[..] == LeftLeaf(old(a[..]), newId, offset, mid)
  {
    hide Splice, PutLe, Zeros, WithCount;
    Store(a, 4, PutLe(newId, 8));
    Store(a, offset, Zeros(PAGE_SIZE - offset));
    SetNumCells(a, mid);
  }

  // --- Internal split ---------------------------------------------------------------------

  /** The left half of a split internal page: cleared from `end` on. */
  ghost function LeftInner(d: PageBytes, end: nat, mid: nat): PageBytes
    requires end <= PAGE_SIZE
  {
    WithCount(Splice(d, end, Zeros(PAGE_SIZE - end)), mid)
  }

  lemma LeftInnerIs(d: PageBytes, end: nat, mid: nat)
    requires Whole(false, d) && mid <= |RawCells(false, d)|
    requires OffsetOf(RawCells(false, d), mid) <= end <= PAGE_SIZE
    ensures var l := LeftInner(d, end, mid);
      && Whole(false, l) && RawCells(false, l) == RawCells(false, d)[..mid] && SameHeader(l, d)
  {
    hide Pack, ValidCell, RawCells, Whole, Splice, At, SameHeader, Zeros, Le, NumCells, WithCount;
    var raws := RawCells(false, d);
    WholePage(false, d);
    SplitAt(false, d, mid);
    var d2 := Splice(d, end, Zeros(PAGE_SIZE - end));
    AtOutside(d, end, Zeros(PAGE_SIZE - end), HEADER_SIZE, Pack(raws[..mid]));
    BodyKept(d2, mid, HEADER_SIZE, Pack(raws[..mid]));
    HeaderKept(d, end, Zeros(PAGE_SIZE - end));
    CountStored(d2, mid);
    SameHeaderTrans(WithCount(d2, mid), d2, d);
    AllValidSplit(false, raws, mid);
    Repacked(false, WithCount(d2, mid), raws[..mid]);
  }

  method ClearFrom(a: array<Byte>, end: nat, mid: nat)
    requires a.Length == PAGE_SIZE && end <= PAGE_SIZE
    modifies a
    ensures a[..] == LeftInner(old(a[..]), end, mid)
  {
    hide Splice, Zeros, WithCount;
    Store(a, end, Zeros(PAGE_SIZE - end));
    SetNumCells(a, mid);
  }

  /** The two halves of the separators, around the one in the middle. */
  ghost predicate InnerHalves(seps: seq<Inner.Sep>, right: nat, left: PageBytes, upper: PageBytes, pivot: Blob)
    requires seps != []
  {
    var mid := |seps| / 2;
    && Inner.WholeInner(left) && Inner.WholeInner(upper)
    && PageType(left) == TYPE_INTERNAL && PageType(upper) == TYPE_INTERNAL
    && pivot == seps[mid].key
    && Inner.Seps(left) == seps[..mid] && Rightmost(left) == seps[mid].child
    && Inner.Seps(upper) == seps[mid + 1..] && Rightmost(upper) == right
  }

  /** Splits an internal page. The middle separator leaves both pages: its key becomes the pivot, its child the
      rightmost child of the left page. A page without separators has no middle one: the left page then loses its only
      child, and the cell count of the new page wraps to 65535.
   */
  method SplitInternal(a: array<Byte>, b: array<Byte>) returns (pivot: Blob)
    requires a != b && a.Length == PAGE_SIZE && b.Length == PAGE_SIZE
    requires Inner.WholeInner(a[..]) && PageType(a[..]) == TYPE_INTERNAL
    requires var seps := Inner.Seps(a[..]); seps != [] ==> seps[|seps| / 2].child < 0x1_0000_0000
    modifies a, b
    ensures var seps := old(Inner.Seps(a[..]));
      if seps != [] then InnerHalves(seps, old(Rightmost(a[..])), a[..], b[..], pivot)
      else && pivot == [] && Rightmost(a[..]) == 0 && NumCells(a[..]) == 0
           && Rightmost(b[..]) == old(Rightmost(a[..])) && NumCells(b[..]) == 65535
  {
    hide RawCells, Inner.DecodeAll, Le, InnerHalves;
    Inner.RawCount(a[..]);
    if NumCells(a[..]) == 0 {
      SplitNoSeparators(a, b);
      pivot := [];
    } else {
      pivot := SplitSeparators(a, b);
    }
  }

  method SplitNoSeparators(a: array<Byte>, b: array<Byte>)
    requires a != b && a.Length == PAGE_SIZE && b.Length == PAGE_SIZE && NumCells(a[..]) == 0
    modifies a, b
    ensures Rightmost(a[..]) == 0 && NumCells(a[..]) == 0
    ensures Rightmost(b[..]) == old(Rightmost(a[..])) && NumCells(b[..]) == 65535
  {
    hide Splice, PutLe, Zeros, Le, RawCells, Whole, Formatted, SameHeader, WithCount;
    var right := Rightmost(a[..]);
    RightmostBound(a[..]);
    Format(b, TYPE_INTERNAL, 0, Le(a[..][12..20]));
    Inner.SetRightmost(b, right);
    Inner.SetRightmost(a, 0);
    ghost var b1, a1 := b[..], a[..];
    Store(b, HEADER_SIZE, a[..][HEADER_SIZE..]);
    HeaderKept(b1, HEADER_SIZE, a1[HEADER_SIZE..]);
    ghost var b2 := b[..];
    SetNumCells(b, 0 - 0 - 1 + 0x1_0000);
    CountStored(b2, 65535);
    SameHeaderFields(b2, b1);
    SameHeaderFields(b[..], b2);
    SetNumCells(a, 0);
    CountStored(a1, 0);
    SameHeaderFields(a[..], a1);
    ghost var a2 := a[..];
    Store(a, HEADER_SIZE, Zeros(PAGE_SIZE - HEADER_SIZE));
    HeaderKept(a2, HEADER_SIZE, Zeros(PAGE_SIZE - HEADER_SIZE));
    SameHeaderFields(a[..], a2);
  }

  method SplitSeparators(a: array<Byte>, b: array<Byte>) returns (pivot: Blob)
    requires a != b && a.Length == PAGE_SIZE && b.Length == PAGE_SIZE
    requires Inner.WholeInner(a[..]) && PageType(a[..]) == TYPE_INTERNAL && Inner.Seps(a[..]) != []
    requires Inner.Seps(a[..])[|Inner.Seps(a[..])| / 2].child < 0x1_0000_0000
    modifies a, b
    ensures InnerHalves(old(Inner.Seps(a[..])), old(Rightmost(a[..])), a[..], b[..], pivot)
  {
    hide Pack, ValidCell, RawCells, Whole, Splice, At, SameHeader, PutLe, Zeros, Le, WithCount, OffsetOf, Formatted,
         LeftInner, Inner.DecodeSep, Inner.DecodeAll;
    ghost var d, b0 := a[..], b[..];
    ghost var raws := RawCells(false, d);
    var n := NumCells(a[..]);
    var mid := n / 2;
    Inner.RawCount(d);
    WholePage(false, d);
    Format(b, TYPE_INTERNAL, 0, Le(a[..][12..20]));
    FormattedFields(b0, TYPE_INTERNAL, 0, Le(d[12..20]));
    ghost var b1 := b[..];
    var offset, size := FindMiddle(false, a, mid);
    var sep := Inner.DecodeSep(a[..][offset..offset + size]);
    pivot := sep.key;
    var right := Rightmost(a[..]);
    var end := offset + size;
    DecodedSep(d, mid);
    CellSplit(false, d, mid);
    TailIs(d, end, Pack(raws[mid + 1..]));
    AllValidSplit(false, raws, mid + 1);
    Fill(false, b, a[..][end..], n - mid - 1, raws[mid + 1..]);
    SameHeaderFields(b[..], b1);
    RightmostBound(d);
    Inner.SetRightmost(b, right);
    Inner.SetRightmost(a, sep.child);
    ghost var d1 := a[..];
    LeftInnerIs(d1, end, mid);
    ClearFrom(a, end, mid);
    SameHeaderFields(a[..], d1);
    Inner.DecodeSplit(raws, mid);
    Inner.DecodeSplit(raws, mid + 1);
  }

  lemma DecodedSep(d: PageBytes, mid: nat)
    requires mid < |RawCells(false, d)|
    ensures mid < |Inner.Seps(d)| && Inner.DecodeSep(RawCells(false, d)[mid]) == Inner.Seps(d)[mid]
  {
    hide RawCells, Inner.DecodeSep;
  }

  lemma RightmostBound(d: PageBytes)
    ensures Rightmost(d) < 0x1_0000_0000
  {
    hide Le;
    FieldWidths();
    LeBound(d[20..24]);
  }
}
