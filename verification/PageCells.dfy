/** The cell area of a B-tree page: self-sizing cells packed after the header. Leaf cells carry a key
    length and a value length, separator cells of internal pages a key length and a child id.
 */
module PageCells {
  import opened Bytes
  import opened PageHeader

  /** Bytes of a cell before its variable part. */
  function HeadSize(leaf: bool): nat { if leaf then 4 else 10 }

  /** The size that a cell starting with `head` announces. */
  function SizeOf(leaf: bool, head: Blob): nat
    requires |head| >= HeadSize(leaf)
  {
    if leaf then 4 + Le(head[0..2]) + Le(head[2..4]) else 10 + Le(head[0..2])
  }

  predicate ValidCell(leaf: bool, c: Blob) {
    |c| >= HeadSize(leaf) && SizeOf(leaf, c) == |c|
  }

  /** The size announced by the bytes at `off`. */
  function SizeAt(leaf: bool, d: PageBytes, off: nat): (size: nat)
    requires off + HeadSize(leaf) <= PAGE_SIZE
  {
    SizeOf(leaf, d[off..off + HeadSize(leaf)])
  }

  // --- Cells and bytes --------------------------------------------------------------------

  /** The raw cells that a scan starting at `off` and meant to see `n` cells does see: it stops early
      at a cell that leaves the page.
   */
  function Parse(leaf: bool, d: PageBytes, off: nat, n: nat): (cells: seq<Blob>)
    ensures |cells| <= n
    decreases n
  {
    if n == 0 || off + HeadSize(leaf) > PAGE_SIZE then []
    else
      var size := SizeAt(leaf, d, off);
      if off + size > PAGE_SIZE then []
      else [d[off..off + size]] + Parse(leaf, d, off + size, n - 1)
  }

  function RawCells(leaf: bool, d: PageBytes): seq<Blob> {
    Parse(leaf, d, HEADER_SIZE, NumCells(d))
  }

  /** Every announced cell lies inside the page. */
  predicate Whole(leaf: bool, d: PageBytes) {
    |RawCells(leaf, d)| == NumCells(d)
  }

  /** The bytes of a cell list. */
  function Pack(cells: seq<Blob>): Blob {
    if cells == [] then [] else cells[0] + Pack(cells[1..])
  }

  ghost predicate AllValid(leaf: bool, cells: seq<Blob>) {
    forall c :: c in cells ==> ValidCell(leaf, c)
  }

  lemma ParseNone(leaf: bool, d: PageBytes, off: nat)
    ensures Parse(leaf, d, off, 0) == []
  {
  }

  lemma ParseShort(leaf: bool, d: PageBytes, off: nat, n: nat)
    requires off + HeadSize(leaf) > PAGE_SIZE || off + SizeAt(leaf, d, off) > PAGE_SIZE
    ensures Parse(leaf, d, off, n) == []
  {
    hide SizeAt;
  }

  lemma ParseCons(leaf: bool, d: PageBytes, off: nat, n: nat)
    requires n > 0 && off + HeadSize(leaf) <= PAGE_SIZE
    requires off + SizeAt(leaf, d, off) <= PAGE_SIZE
    ensures Parse(leaf, d, off, n)
         == [d[off..off + SizeAt(leaf, d, off)]] + Parse(leaf, d, off + SizeAt(leaf, d, off), n - 1)
  {
    hide SizeAt;
  }

  lemma {:induction false} PackConcat(a: seq<Blob>, b: seq<Blob>)
    ensures Pack(a + b) == Pack(a) + Pack(b)
  {
    if a == [] {
      assert a + b == b;
    } else {
      PackConcat(a[1..], b);
      assert (a + b)[1..] == a[1..] + b;
      ConcatAssoc(a[0], Pack(a[1..]), Pack(b));
    }
  }

  lemma PackSnoc(a: seq<Blob>, c: Blob)
    ensures Pack(a + [c]) == Pack(a) + c
  {
    PackConcat(a, [c]);
    assert [c][1..] == [];
    assert Pack([c]) == c;
  }

  lemma PackCons(cells: seq<Blob>)
    requires cells != []
    ensures Pack(cells) == cells[0] + Pack(cells[1..])
  {
  }

  lemma {:induction false} PackSize(leaf: bool, cells: seq<Blob>)
    requires AllValid(leaf, cells)
    ensures |Pack(cells)| >= 4 * |cells|
  {
    hide SizeOf;
    if cells != [] {
      assert cells[0] in cells;
      PackSize(leaf, cells[1..]);
    }
  }

  /** A valid cell in the page announces its own size. */
  lemma SizeAtCell(leaf: bool, d: PageBytes, off: nat, c: Blob)
    requires ValidCell(leaf, c) && At(d, off, c)
    ensures off + HeadSize(leaf) <= PAGE_SIZE && SizeAt(leaf, d, off) == |c|
  {
    hide Le;
    var h := d[off..off + HeadSize(leaf)];
    assert h == d[off..off + |c|][..HeadSize(leaf)];
    assert h[0..2] == c[0..2];
    if leaf {
      assert h[2..4] == c[2..4];
    }
  }

  lemma AtIs(d: PageBytes, off: nat, c: Blob)
    requires At(d, off, c)
    ensures off + |c| <= PAGE_SIZE && d[off..off + |c|] == c
  {
  }

  /** Parsing inverts packing. */
  lemma {:induction false} ParsePack(leaf: bool, d: PageBytes, off: nat, cells: seq<Blob>)
    requires AllValid(leaf, cells) && At(d, off, Pack(cells))
    ensures Parse(leaf, d, off, |cells|) == cells
    decreases |cells|
  {
    hide Pack, At, Parse, ValidCell, SizeAt, SizeOf;
    if cells == [] {
      ParseNone(leaf, d, off);
    } else {
      var c := cells[0];
      assert c in cells;
      PackCons(cells);
      AtConcat(d, off, c, Pack(cells[1..]));
      SizeAtCell(leaf, d, off, c);
      AtIs(d, off, c);
      ParseCons(leaf, d, off, |cells|);
      ParsePack(leaf, d, off + |c|, cells[1..]);
    }
  }

  lemma EmptyAt(d: PageBytes, off: nat)
    requires off <= PAGE_SIZE
    ensures At(d, off, Pack([]))
  {
  }

  /** The cell read at an offset is valid. */
  lemma ReadCellValid(leaf: bool, d: PageBytes, off: nat)
    requires off + HeadSize(leaf) <= PAGE_SIZE && off + SizeAt(leaf, d, off) <= PAGE_SIZE
    ensures ValidCell(leaf, d[off..off + SizeAt(leaf, d, off)])
    ensures At(d, off, d[off..off + SizeAt(leaf, d, off)])
  {
    hide Le;
    var h, c := d[off..off + HeadSize(leaf)], d[off..off + SizeAt(leaf, d, off)];
    SliceSlice(d, off, off + HeadSize(leaf), 0, 2);
    SliceSlice(d, off, off + |c|, 0, 2);
    if leaf {
      SliceSlice(d, off, off + HeadSize(leaf), 2, 4);
      SliceSlice(d, off, off + |c|, 2, 4);
    }
  }

  /** Packing inverts a parse that was not cut short. */
  lemma {:induction false} PackParse(leaf: bool, d: PageBytes, off: nat, n: nat)
    requires |Parse(leaf, d, off, n)| == n && off <= PAGE_SIZE
    ensures At(d, off, Pack(Parse(leaf, d, off, n)))
    decreases n
  {
    hide Pack, At, SizeAt, HeadSize;
    if n == 0 {
      EmptyAt(d, off);
    } else {
      var size := SizeAt(leaf, d, off);
      ParseCons(leaf, d, off, n);
      PackParse(leaf, d, off + size, n - 1);
      ReadCellValid(leaf, d, off);
      var cells := Parse(leaf, d, off, n);
      PackCons(cells);
      assert cells[1..] == Parse(leaf, d, off + size, n - 1);
      AtConcat(d, off, cells[0], Pack(cells[1..]));
    }
  }

  lemma {:induction false} ParseValid(leaf: bool, d: PageBytes, off: nat, n: nat)
    ensures AllValid(leaf, Parse(leaf, d, off, n))
    decreases n
  {
    hide SizeAt, SizeOf, ValidCell;
    if n > 0 && off + HeadSize(leaf) <= PAGE_SIZE && off + SizeAt(leaf, d, off) <= PAGE_SIZE {
      ParseCons(leaf, d, off, n);
      ReadCellValid(leaf, d, off);
      ParseValid(leaf, d, off + SizeAt(leaf, d, off), n - 1);
    }
  }

  /** The cells of a whole page, packed, are its cell area; there are fewer than 2^13 of them. */
  lemma WholePage(leaf: bool, d: PageBytes)
    requires Whole(leaf, d)
    ensures |RawCells(leaf, d)| == NumCells(d) && |RawCells(leaf, d)| + 1 < 0x1_0000
    ensures AllValid(leaf, RawCells(leaf, d))
    ensures At(d, HEADER_SIZE, Pack(RawCells(leaf, d)))
    ensures HEADER_SIZE + |Pack(RawCells(leaf, d))| <= PAGE_SIZE
  {
    hide Parse, Le, Pack, ValidCell;
    PackParse(leaf, d, HEADER_SIZE, NumCells(d));
    ParseValid(leaf, d, HEADER_SIZE, NumCells(d));
    PackSize(leaf, RawCells(leaf, d));
  }

  lemma CellsAre(leaf: bool, d: PageBytes, cells: seq<Blob>)
    requires NumCells(d) == |cells| && Parse(leaf, d, HEADER_SIZE, |cells|) == cells
    ensures Whole(leaf, d) && RawCells(leaf, d) == cells
  {
    hide Parse, Le;
  }

  /** A page whose cell area starts with packed cells, as many as it announces, has those cells. */
  lemma Repacked(leaf: bool, d: PageBytes, cells: seq<Blob>)
    requires NumCells(d) == |cells| && AllValid(leaf, cells)
    requires At(d, HEADER_SIZE, Pack(cells))
    ensures Whole(leaf, d) && RawCells(leaf, d) == cells
  {
    hide *;
    ParsePack(leaf, d, HEADER_SIZE, cells);
    CellsAre(leaf, d, cells);
  }

  // --- Offsets of cells -------------------------------------------------------------------

  /** Where cell `i` starts. */
  ghost function OffsetOf(cells: seq<Blob>, i: nat): nat
    requires i <= |cells|
  {
    HEADER_SIZE + |Pack(cells[..i])|
  }

  lemma OffsetEnds(cells: seq<Blob>)
    ensures OffsetOf(cells, 0) == HEADER_SIZE
    ensures OffsetOf(cells, |cells|) == HEADER_SIZE + |Pack(cells)|
  {
    assert cells[..|cells|] == cells;
  }

  lemma OffsetStep(cells: seq<Blob>, i: nat)
    requires i < |cells|
    ensures OffsetOf(cells, i + 1) == OffsetOf(cells, i) + |cells[i]|
  {
    hide Pack;
    assert cells[..i + 1] == cells[..i] + [cells[i]];
    PackSnoc(cells[..i], cells[i]);
  }

  /** The bytes of a page before and from the start of cell `at`. */
  lemma SplitAt(leaf: bool, d: PageBytes, at: nat)
    requires Whole(leaf, d) && at <= |RawCells(leaf, d)|
    ensures var cells := RawCells(leaf, d);
      && OffsetOf(cells, at) == HEADER_SIZE + |Pack(cells[..at])|
      && OffsetOf(cells, at) + |Pack(cells[at..])| == HEADER_SIZE + |Pack(cells)| <= PAGE_SIZE
      && At(d, HEADER_SIZE, Pack(cells[..at]))
      && At(d, OffsetOf(cells, at), Pack(cells[at..]))
  {
    hide Parse, Le, Pack, RawCells, At;
    var cells := RawCells(leaf, d);
    WholePage(leaf, d);
    PackConcat(cells[..at], cells[at..]);
    assert cells == cells[..at] + cells[at..];
    AtConcat(d, HEADER_SIZE, Pack(cells[..at]), Pack(cells[at..]));
  }

  /** The bytes of a page before, in and after cell `at`. */
  lemma CellSplit(leaf: bool, d: PageBytes, at: nat)
    requires Whole(leaf, d) && at < |RawCells(leaf, d)|
    ensures var cells := RawCells(leaf, d);
      var off, next := OffsetOf(cells, at), OffsetOf(cells, at) + |cells[at]|;
      && off == HEADER_SIZE + |Pack(cells[..at])|
      && next + |Pack(cells[at + 1..])| == HEADER_SIZE + |Pack(cells)| <= PAGE_SIZE
      && At(d, HEADER_SIZE, Pack(cells[..at]))
      && At(d, off, cells[at])
      && At(d, next, Pack(cells[at + 1..]))
  {
    hide *;
    SplitAt(leaf, d, at);
    var cells := RawCells(leaf, d);
    PackCons(cells[at..]);
    assert cells[at..][0] == cells[at] && cells[at..][1..] == cells[at + 1..];
    AtConcat(d, OffsetOf(cells, at), cells[at], Pack(cells[at + 1..]));
  }

  /** What a scan finds at the offset of cell `i`. */
  lemma CellAt(leaf: bool, d: PageBytes, i: nat)
    requires Whole(leaf, d) && i < |RawCells(leaf, d)|
    ensures var c, off := RawCells(leaf, d)[i], OffsetOf(RawCells(leaf, d), i);
      && off + HeadSize(leaf) <= PAGE_SIZE && off + |c| <= PAGE_SIZE
      && SizeAt(leaf, d, off) == |c|
      && d[off..off + |c|] == c
      && OffsetOf(RawCells(leaf, d), i + 1) == off + |c|
  {
    hide *;
    var cells := RawCells(leaf, d);
    CellSplit(leaf, d, i);
    OffsetStep(cells, i);
    WholePage(leaf, d);
    ValidMember(leaf, cells, i);
    SizeAtCell(leaf, d, OffsetOf(cells, i), cells[i]);
    AtIs(d, OffsetOf(cells, i), cells[i]);
  }

  lemma ValidMember(leaf: bool, cells: seq<Blob>, i: nat)
    requires AllValid(leaf, cells) && i < |cells|
    ensures ValidCell(leaf, cells[i])
  {
    hide ValidCell;
  }

  // --- Scans of the page buffer -----------------------------------------------------------

  /** Progress of a scan that has read the cells `done` and stands at `off`. */
  ghost predicate Scanned(leaf: bool, d: PageBytes, done: seq<Blob>, off: nat) {
    && |done| <= NumCells(d)
    && off == HEADER_SIZE + |Pack(done)|
    && RawCells(leaf, d) == done + Parse(leaf, d, off, NumCells(d) - |done|)
  }

  lemma ScanStart(leaf: bool, d: PageBytes)
    ensures Scanned(leaf, d, [], HEADER_SIZE)
  {
    hide Parse, Le;
  }

  lemma ScanStep(leaf: bool, d: PageBytes, done: seq<Blob>, off: nat)
    requires Scanned(leaf, d, done, off) && |done| < NumCells(d)
    ensures off + HeadSize(leaf) > PAGE_SIZE ==> !Whole(leaf, d)
    ensures off + HeadSize(leaf) <= PAGE_SIZE ==>
              var size := SizeAt(leaf, d, off);
              if off + size > PAGE_SIZE then !Whole(leaf, d)
              else Scanned(leaf, d, done + [d[off..off + size]], off + size)
  {
    hide Le, Pack, Parse, SizeAt, HeadSize;
    var n := NumCells(d) - |done|;
    if off + HeadSize(leaf) > PAGE_SIZE || off + SizeAt(leaf, d, off) > PAGE_SIZE {
      ParseShort(leaf, d, off, n);
    } else {
      var size := SizeAt(leaf, d, off);
      ParseCons(leaf, d, off, n);
      PackSnoc(done, d[off..off + size]);
      ConcatAssoc(done, [d[off..off + size]], Parse(leaf, d, off + size, n - 1));
    }
  }

  lemma ScanDone(leaf: bool, d: PageBytes, done: seq<Blob>, off: nat)
    requires Scanned(leaf, d, done, off) && |done| == NumCells(d)
    ensures done == RawCells(leaf, d) && Whole(leaf, d) && off == HEADER_SIZE + |Pack(done)|
  {
    hide Le, Pack, Parse;
    ParseNone(leaf, d, off);
  }

  /** Whether `required` more bytes leave the page strictly below its end; a page with a cell out
      of bounds is never safe.
   */
  method IsSafeForInsert(a: array<Byte>, required: nat) returns (safe: bool)
    requires a.Length == PAGE_SIZE
    ensures var leaf := PageType(a[..]) == TYPE_LEAF;
      safe <==> Whole(leaf, a[..]) && HEADER_SIZE + |Pack(RawCells(leaf, a[..]))| + required < PAGE_SIZE
  {
    hide *;
    var d := a[..];
    var n := NumCells(d);
    var leaf := PageType(d) == TYPE_LEAF;
    var offset: nat := HEADER_SIZE;
    ghost var done: seq<Blob> := [];
    ScanStart(leaf, d);
    for i := 0 to n
      invariant |done| == i && Scanned(leaf, d, done, offset)
    {
      ScanStep(leaf, d, done, offset);
      if offset + HeadSize(leaf) > PAGE_SIZE {
        return false;
      }
      var size := SizeAt(leaf, d, offset);
      if offset + size > PAGE_SIZE {
        return false;
      }
      done := done + [d[offset..offset + size]];
      offset := offset + size;
    }
    ScanDone(leaf, d, done, offset);
    return offset + required < PAGE_SIZE;
  }

  /** The offset just past the last cell. */
  method TailOffset(leaf: bool, a: array<Byte>) returns (tail: nat)
    requires a.Length == PAGE_SIZE && Whole(leaf, a[..])
    ensures tail == HEADER_SIZE + |Pack(RawCells(leaf, a[..]))| <= PAGE_SIZE
  {
    hide *;
    var d := a[..];
    var n := NumCells(d);
    WholePage(leaf, d);
    OffsetEnds(RawCells(leaf, d));
    tail := HEADER_SIZE;
    for i := 0 to n
      invariant tail == OffsetOf(RawCells(leaf, d), i)
    {
      CellAt(leaf, d, i);
      if tail + HeadSize(leaf) > PAGE_SIZE {
        break;
      }
      tail := tail + SizeAt(leaf, d, tail);
    }
  }

  // --- Updates of the page buffer ---------------------------------------------------------

  lemma AllValidParts(leaf: bool, a: seq<Blob>, b: seq<Blob>)
    requires AllValid(leaf, a) && AllValid(leaf, b)
    ensures AllValid(leaf, a + b)
  {
    hide ValidCell;
  }

  lemma AllValidSplit(leaf: bool, cells: seq<Blob>, at: nat)
    requires AllValid(leaf, cells) && at <= |cells|
    ensures AllValid(leaf, cells[..at]) && AllValid(leaf, cells[at..])
  {
    hide ValidCell;
  }

  /** Sliding a cell away leaves the other cells. */
  lemma SlidCells(leaf: bool, d: PageBytes, at: nat)
    requires Whole(leaf, d) && at < |RawCells(leaf, d)|
    ensures var cells := RawCells(leaf, d);
      var off, size, tail := OffsetOf(cells, at), |cells[at]|, HEADER_SIZE + |Pack(cells)|;
      && off + size <= tail <= PAGE_SIZE
      && var d' := Slid(d, off, size, tail, |cells| - 1);
         Whole(leaf, d') && SameHeader(d', d) && RawCells(leaf, d') == cells[..at] + cells[at + 1..]
  {
    hide *;
    var cells := RawCells(leaf, d);
    WholePage(leaf, d);
    CellSplit(leaf, d, at);
    var pre, post, size := Pack(cells[..at]), Pack(cells[at + 1..]), |cells[at]|;
    var off, tail, n := HEADER_SIZE + |pre|, HEADER_SIZE + |pre| + size + |post|, |cells| - 1;
    SlidBody(d, size, pre, post, n);
    SlidHeader(d, off, size, tail, n);
    AllValidSplit(leaf, cells, at);
    AllValidSplit(leaf, cells, at + 1);
    AllValidParts(leaf, cells[..at], cells[at + 1..]);
    PackConcat(cells[..at], cells[at + 1..]);
    Repacked(leaf, Slid(d, off, size, tail, n), cells[..at] + cells[at + 1..]);
  }

  /** Slides the cells behind cell `at` over it and clears the bytes that become free. */
  method DeleteCell(leaf: bool, a: array<Byte>, offset: nat, cellBytes: nat, ghost at: nat)
    requires a.Length == PAGE_SIZE && Whole(leaf, a[..])
    requires at < |RawCells(leaf, a[..])|
    requires offset == OffsetOf(RawCells(leaf, a[..]), at) && cellBytes == |RawCells(leaf, a[..])[at]|
    modifies a
    ensures Whole(leaf, a[..]) && SameHeader(a[..], old(a[..]))
    ensures RawCells(leaf, a[..]) == old(RawCells(leaf, a[..]))[..at] + old(RawCells(leaf, a[..]))[at + 1..]
    ensures |old(RawCells(leaf, a[..]))| == 1 ==> Cleared(a[..])
  {
    hide *;
    ghost var d := a[..];
    WholePage(leaf, d);
    SlidCells(leaf, d, at);
    if |RawCells(leaf, d)| == 1 {
      SlidLast(leaf, d);
    }
    var n := NumCells(a[..]);
    var tail := TailOffset(leaf, a);
    Slide(a, offset, cellBytes, tail, n - 1);
  }

  /** The last cell of a page. */
  lemma SlidLast(leaf: bool, d: PageBytes)
    requires Whole(leaf, d) && |RawCells(leaf, d)| == 1
    ensures var cells := RawCells(leaf, d);
      var size, tail := |cells[0]|, HEADER_SIZE + |Pack(cells)|;
      && OffsetOf(cells, 0) == HEADER_SIZE && tail == HEADER_SIZE + size <= PAGE_SIZE
      && Cleared(Slid(d, HEADER_SIZE, size, tail, 0))
  {
    hide Slid, Cleared, RawCells, SizeOf;
    var cells := RawCells(leaf, d);
    WholePage(leaf, d);
    OffsetEnds(cells);
    assert cells[0] in cells && cells[1..] == [];
    SlidCleared(d, |cells[0]|, 0);
  }

  /** Writing a cell into a gap adds exactly that cell. */
  lemma OpenedCells(leaf: bool, d: PageBytes, at: nat, c: Blob)
    requires Whole(leaf, d) && at <= |RawCells(leaf, d)| && ValidCell(leaf, c)
    requires HEADER_SIZE + |Pack(RawCells(leaf, d))| + |c| <= PAGE_SIZE
    ensures var cells := RawCells(leaf, d);
      var off, tail := OffsetOf(cells, at), HEADER_SIZE + |Pack(cells)|;
      && off <= tail
      && var d' := Opened(d, off, c, tail, |cells| + 1);
         Whole(leaf, d') && SameHeader(d', d) && RawCells(leaf, d') == (cells[..at] + [c]) + cells[at..]
  {
    hide *;
    var cells := RawCells(leaf, d);
    WholePage(leaf, d);
    SplitAt(leaf, d, at);
    var pre, post := Pack(cells[..at]), Pack(cells[at..]);
    var off, tail, n := HEADER_SIZE + |pre|, HEADER_SIZE + |pre| + |post|, |cells| + 1;
    OpenedBody(d, c, pre, post, n);
    OpenedHeader(d, off, c, tail, n);
    PackSnoc(cells[..at], c);
    PackConcat(cells[..at] + [c], cells[at..]);
    AllValidSplit(leaf, cells, at);
    AllValidOne(leaf, c);
    AllValidParts(leaf, cells[..at], [c]);
    AllValidParts(leaf, cells[..at] + [c], cells[at..]);
    Repacked(leaf, Opened(d, off, c, tail, n), (cells[..at] + [c]) + cells[at..]);
  }

  lemma AllValidOne(leaf: bool, c: Blob)
    requires ValidCell(leaf, c)
    ensures AllValid(leaf, [c])
  {
    hide ValidCell;
  }

  /** Shifts the cells from `at` on to the right and writes the new cell into the gap. */
  method WriteCell(leaf: bool, a: array<Byte>, offset: nat, tail: nat, c: Blob, ghost at: nat)
    requires a.Length == PAGE_SIZE && Whole(leaf, a[..]) && ValidCell(leaf, c)
    requires at <= |RawCells(leaf, a[..])| && offset == OffsetOf(RawCells(leaf, a[..]), at)
    requires tail == HEADER_SIZE + |Pack(RawCells(leaf, a[..]))|
    requires tail + |c| <= PAGE_SIZE
    modifies a
    ensures Whole(leaf, a[..]) && SameHeader(a[..], old(a[..]))
    ensures RawCells(leaf, a[..])
         == (old(RawCells(leaf, a[..]))[..at] + [c]) + old(RawCells(leaf, a[..]))[at..]
  {
    hide *;
    WholePage(leaf, a[..]);
    OpenedCells(leaf, a[..], at, c);
    OpenGap(a, offset, c, tail, NumCells(a[..]) + 1);
  }
}
