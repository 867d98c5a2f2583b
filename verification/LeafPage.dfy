/** Leaf pages: sorted (key, value) cells. */
module LeafPage {
  import opened Bytes
  import opened PageHeader
  import opened PageCells

  datatype Cell = Cell(key: Blob, val: Blob)

  // --- One cell as bytes ------------------------------------------------------------------

  function EncodeCell(c: Cell): (bs: Blob)
    ensures |bs| == 4 + |c.key| + |c.val|
  {
    PutLe(|c.key|, 2) + PutLe(|c.val|, 2) + c.key + c.val
  }

  /** The cell in raw bytes that announce their own size; any other bytes count as an empty cell. */
  function DecodeCell(raw: Blob): Cell {
    if ValidCell(true, raw) then
      var k := Le(raw[0..2]);
      Cell(raw[4..4 + k], raw[4 + k..])
    else Cell([], [])
  }

  lemma DecodeEncodeCell(c: Cell)
    requires |c.key| < 0x1_0000 && |c.val| < 0x1_0000
    ensures ValidCell(true, EncodeCell(c)) && DecodeCell(EncodeCell(c)) == c
  {
    hide Le, PutLe;
    LePut2(|c.key|);
    LePut2(|c.val|);
    var e := EncodeCell(c);
    assert e[0..2] == PutLe(|c.key|, 2);
    assert e[2..4] == PutLe(|c.val|, 2);
  }

  function DecodeAll(raws: seq<Blob>): seq<Cell> {
    seq(|raws|, i requires 0 <= i < |raws| => DecodeCell(raws[i]))
  }

  lemma DecodeConcat(a: seq<Blob>, b: seq<Blob>)
    ensures DecodeAll(a + b) == DecodeAll(a) + DecodeAll(b)
  {
    hide DecodeCell;
  }

  lemma DecodeSplit(raws: seq<Blob>, at: nat)
    requires at <= |raws|
    ensures DecodeAll(raws[..at]) == DecodeAll(raws)[..at]
    ensures DecodeAll(raws[at..]) == DecodeAll(raws)[at..]
  {
    hide DecodeCell;
  }

  // --- The cells of a page ----------------------------------------------------------------

  function Cells(d: PageBytes): (cells: seq<Cell>) {
    DecodeAll(RawCells(true, d))
  }

  /** Every announced cell lies inside the page. */
  predicate WholeLeaf(d: PageBytes) {
    Whole(true, d)
  }

  /** An empty leaf has zeros where its first cell would begin. */
  ghost predicate ClearedIfEmpty(d: PageBytes) { Cells(d) == [] ==> Cleared(d) }

  /** Bytes taken by the cells. */
  function Size(cells: seq<Cell>): nat {
    if cells == [] then 0 else 4 + |cells[0].key| + |cells[0].val| + Size(cells[1..])
  }

  lemma CellLength(raw: Blob)
    requires ValidCell(true, raw)
    ensures |raw| == 4 + |DecodeCell(raw).key| + |DecodeCell(raw).val|
  {
    hide Le;
  }

  lemma {:induction false} PackedSize(raws: seq<Blob>)
    requires AllValid(true, raws)
    ensures |Pack(raws)| == Size(DecodeAll(raws))
  {
    hide ValidCell, DecodeCell;
    if raws != [] {
      assert raws[0] in raws;
      CellLength(raws[0]);
      PackedSize(raws[1..]);
      assert DecodeAll(raws)[1..] == DecodeAll(raws[1..]);
    }
  }

  lemma PageUse(d: PageBytes)
    requires WholeLeaf(d)
    ensures |Pack(RawCells(true, d))| == Size(Cells(d))
    ensures |Cells(d)| == NumCells(d) && HEADER_SIZE + Size(Cells(d)) <= PAGE_SIZE
  {
    hide RawCells, Pack, Size, DecodeCell;
    WholePage(true, d);
    PackedSize(RawCells(true, d));
  }

  // --- Abstract effect of the leaf operations ---------------------------------------------

  /** What a lookup that stops at the first match returns. */
  datatype Found = Missing | Hit(val: Blob)

  function FirstMatch(cells: seq<Cell>, key: Blob): Found {
    if cells == [] then Missing
    else if cells[0].key == key then Hit(cells[0].val)
    else FirstMatch(cells[1..], key)
  }

  /** All cells of other keys, in order. */
  function Purge(cells: seq<Cell>, key: Blob): seq<Cell> {
    if cells == [] then []
    else if cells[0].key == key then Purge(cells[1..], key)
    else [cells[0]] + Purge(cells[1..], key)
  }

  lemma {:induction false} PurgeConcat(a: seq<Cell>, b: seq<Cell>, key: Blob)
    ensures Purge(a + b, key) == Purge(a, key) + Purge(b, key)
  {
    if a == [] {
      assert a + b == b;
    } else {
      PurgeConcat(a[1..], b, key);
      assert (a + b)[1..] == a[1..] + b;
      ConcatAssoc([a[0]], Purge(a[1..], key), Purge(b, key));
    }
  }

  lemma {:induction false} PurgeAbsent(cells: seq<Cell>, key: Blob)
    requires forall c :: c in cells ==> c.key != key
    ensures Purge(cells, key) == cells
  {
    if cells != [] {
      PurgeAbsent(cells[1..], key);
    }
  }

  lemma PurgeOne(cells: seq<Cell>, at: nat, key: Blob)
    requires at < |cells| && cells[at].key == key
    ensures Purge(cells[..at] + cells[at + 1..], key) == Purge(cells, key)
  {
    var pre, post := cells[..at], cells[at + 1..];
    assert cells == pre + ([cells[at]] + post);
    assert ([cells[at]] + post)[1..] == post;
    PurgeConcat(pre, [cells[at]] + post, key);
    PurgeConcat(pre, post, key);
  }

  /** The first cell whose key is above `key`, or the end. */
  function InsertPoint(cells: seq<Cell>, key: Blob): (i: nat)
    ensures i <= |cells|
    ensures forall j :: 0 <= j < i ==> !Lex(key, cells[j].key)
    ensures i < |cells| ==> Lex(key, cells[i].key)
  {
    if cells == [] || Lex(key, cells[0].key) then 0 else 1 + InsertPoint(cells[1..], key)
  }

  /** The cells after a successful insert: every older cell of the key is gone. */
  function Put(cells: seq<Cell>, key: Blob, val: Blob): seq<Cell> {
    var rest := Purge(cells, key);
    var i := InsertPoint(rest, key);
    (rest[..i] + [Cell(key, val)]) + rest[i..]
  }

  /** Room for the new cell once the old cells of the key are gone. */
  predicate HasRoom(cells: seq<Cell>, key: Blob, val: Blob) {
    HEADER_SIZE + Size(Purge(cells, key)) + 4 + |key| + |val| < PAGE_SIZE
  }

  // --- Scans ------------------------------------------------------------------------------

  /** Looks a key up by scanning the cells; correct on every page, even a damaged one. */
  method Get(a: array<Byte>, key: Blob) returns (r: Found)
    requires a.Length == PAGE_SIZE
    ensures r == FirstMatch(Cells(a[..]), key)
  {
    hide Le, Parse, SizeAt, DecodeCell, DecodeAll, FirstMatch, ValidCell;
    var d := a[..];
    var n := NumCells(d);
    var offset: nat := HEADER_SIZE;
    for i := 0 to n
      invariant FirstMatch(Cells(d), key) == FirstMatch(DecodeAll(Parse(true, d, offset, n - i)), key)
    {
      if offset + 4 > PAGE_SIZE {
        ParseShort(true, d, offset, n - i);
        NoMatch(key);
        return Missing;
      }
      var size := SizeAt(true, d, offset);
      if offset + size > PAGE_SIZE {
        ParseShort(true, d, offset, n - i);
        NoMatch(key);
        return Missing;
      }
      ParseCons(true, d, offset, n - i);
      ReadCellValid(true, d, offset);
      var cell := DecodeCell(d[offset..offset + size]);
      MatchStep(d[offset..offset + size], Parse(true, d, offset + size, n - i - 1), key);
      if key == cell.key {
        return Hit(cell.val);
      }
      offset := offset + size;
    }
    ParseNone(true, d, offset);
    NoMatch(key);
    return Missing;
  }

  lemma NoMatch(key: Blob)
    ensures FirstMatch(DecodeAll([]), key) == Missing
  {
  }

  lemma MatchStep(raw: Blob, raws: seq<Blob>, key: Blob)
    ensures FirstMatch(DecodeAll([raw] + raws), key)
         == if DecodeCell(raw).key == key then Hit(DecodeCell(raw).val) else FirstMatch(DecodeAll(raws), key)
  {
    hide DecodeCell;
    assert DecodeAll([raw] + raws)[1..] == DecodeAll(raws);
  }

  /** The cell that stands at the offset of cell `i`. */
  lemma DecodedAt(d: PageBytes, i: nat)
    requires WholeLeaf(d) && i < |Cells(d)|
    ensures i < |RawCells(true, d)|
    ensures var raws := RawCells(true, d);
      var off := OffsetOf(raws, i);
      && off + HeadSize(true) <= PAGE_SIZE
      && var size := SizeAt(true, d, off);
         && off + size <= PAGE_SIZE && size == |raws[i]|
         && DecodeCell(d[off..off + size]) == Cells(d)[i]
         && OffsetOf(raws, i + 1) == off + size
  {
    hide RawCells, DecodeCell, OffsetOf, SizeAt;
    CellAt(true, d, i);
  }

  /** The position of the first cell with the given key. */
  method FindKey(a: array<Byte>, key: Blob) returns (found: bool, offset: nat, cellBytes: nat, ghost at: nat)
    requires a.Length == PAGE_SIZE && WholeLeaf(a[..])
    ensures found ==> at < |Cells(a[..])| == |RawCells(true, a[..])| && Cells(a[..])[at].key == key
    ensures found ==> offset == OffsetOf(RawCells(true, a[..]), at) && cellBytes == |RawCells(true, a[..])[at]|
    ensures found ==> forall j :: 0 <= j < at ==> Cells(a[..])[j].key != key
    ensures !found ==> forall c :: c in Cells(a[..]) ==> c.key != key
  {
    hide RawCells, DecodeCell, OffsetOf, SizeAt, NumCells, Le, DecodeAll, Cells, Whole;
    var d := a[..];
    var n := NumCells(d);
    PageUse(d);
    RawCount(d);
    OffsetEnds(RawCells(true, d));
    offset := HEADER_SIZE;
    for i := 0 to n
      invariant offset == OffsetOf(RawCells(true, d), i)
      invariant forall j :: 0 <= j < i ==> Cells(d)[j].key != key
    {
      DecodedAt(d, i);
      if offset + 4 > PAGE_SIZE {
        break;
      }
      cellBytes := SizeAt(true, d, offset);
      if offset + cellBytes > PAGE_SIZE {
        break;
      }
      if key == DecodeCell(d[offset..offset + cellBytes]).key {
        return true, offset, cellBytes, i;
      }
      offset := offset + cellBytes;
    }
    return false, 0, 0, 0;
  }

  lemma RawCount(d: PageBytes)
    ensures |RawCells(true, d)| == |Cells(d)|
  {
    hide RawCells, DecodeCell;
  }

  /** Where a new cell goes: before the first larger key. */
  method FindInsertOffset(a: array<Byte>, key: Blob) returns (at: nat, tail: nat)
    requires a.Length == PAGE_SIZE && WholeLeaf(a[..])
    ensures |RawCells(true, a[..])| == |Cells(a[..])|
    ensures at == OffsetOf(RawCells(true, a[..]), InsertPoint(Cells(a[..]), key))
    ensures tail == HEADER_SIZE + |Pack(RawCells(true, a[..]))| <= PAGE_SIZE
  {
    hide RawCells, DecodeCell, OffsetOf, SizeAt, NumCells, Le, DecodeAll, Cells, Whole, Lex, InsertPoint, Pack;
    var d := a[..];
    var n := NumCells(d);
    PageUse(d);
    RawCount(d);
    OffsetEnds(RawCells(true, d));
    var found := false;
    at, tail := 0, HEADER_SIZE;
    ghost var p := InsertPoint(Cells(d), key);
    for i := 0 to n
      invariant tail == OffsetOf(RawCells(true, d), i)
      invariant found <==> p < i
      invariant found ==> at == OffsetOf(RawCells(true, d), p)
    {
      DecodedAt(d, i);
      if tail + 4 > PAGE_SIZE {
        break;
      }
      var size := SizeAt(true, d, tail);
      if tail + size > PAGE_SIZE {
        break;
      }
      if !found && Lex(key, DecodeCell(d[tail..tail + size]).key) {
        at, found := tail, true;
      }
      tail := tail + size;
    }
    if !found {
      at := tail;
    }
  }

  // --- Updates ----------------------------------------------------------------------------

  /** Drops one cell. */
  method DeleteAt(a: array<Byte>, offset: nat, cellBytes: nat, ghost at: nat)
    requires a.Length == PAGE_SIZE && WholeLeaf(a[..])
    requires at < |Cells(a[..])| == |RawCells(true, a[..])|
    requires offset == OffsetOf(RawCells(true, a[..]), at) && cellBytes == |RawCells(true, a[..])[at]|
    modifies a
    ensures WholeLeaf(a[..]) && SameHeader(a[..], old(a[..]))
    ensures Cells(a[..]) == old(Cells(a[..]))[..at] + old(Cells(a[..]))[at + 1..]
    ensures ClearedIfEmpty(a[..])
  {
    hide RawCells, OffsetOf, Whole, SameHeader, DecodeAll, Cleared;
    ghost var raws := RawCells(true, a[..]);
    DeleteCell(true, a, offset, cellBytes, at);
    DecodeConcat(raws[..at], raws[at + 1..]);
    DecodeSplit(raws, at);
    DecodeSplit(raws, at + 1);
  }

  /** Deletes the first cell of a key; reports whether there was one. */
  method Delete(a: array<Byte>, key: Blob) returns (found: bool)
    requires a.Length == PAGE_SIZE && WholeLeaf(a[..])
    modifies a
    ensures WholeLeaf(a[..]) && SameHeader(a[..], old(a[..]))
    ensures found <==> exists c :: c in old(Cells(a[..])) && c.key == key
    ensures Cells(a[..]) == DropFirst(old(Cells(a[..])), key)
    ensures old(ClearedIfEmpty(a[..])) ==> ClearedIfEmpty(a[..])
  {
    hide RawCells, OffsetOf, Whole, SameHeader, Cells, DropFirst, ClearedIfEmpty;
    SameHeaderRefl(a[..]);
    ghost var cells := Cells(a[..]);
    var offset, cellBytes;
    ghost var at;
    found, offset, cellBytes, at := FindKey(a, key);
    if found {
      DropFirstAt(cells, at, key);
      assert cells[at] in cells;
      DeleteAt(a, offset, cellBytes, at);
    } else {
      DropFirstAbsent(cells, key);
    }
  }

  /** `cells` without the first cell of the key. */
  function DropFirst(cells: seq<Cell>, key: Blob): seq<Cell> {
    if cells == [] then []
    else if cells[0].key == key then cells[1..]
    else [cells[0]] + DropFirst(cells[1..], key)
  }

  lemma {:induction false} DropFirstAt(cells: seq<Cell>, at: nat, key: Blob)
    requires at < |cells| && cells[at].key == key
    requires forall j :: 0 <= j < at ==> cells[j].key != key
    ensures DropFirst(cells, key) == cells[..at] + cells[at + 1..]
    decreases at
  {
    if at > 0 {
      DropFirstAt(cells[1..], at - 1, key);
      assert [cells[0]] + cells[1..][..at - 1] == cells[..at];
      assert cells[1..][at - 1 + 1..] == cells[at + 1..];
    }
  }

  lemma {:induction false} DropFirstAbsent(cells: seq<Cell>, key: Blob)
    requires forall c :: c in cells ==> c.key != key
    ensures DropFirst(cells, key) == cells
  {
    if cells != [] {
      DropFirstAbsent(cells[1..], key);
    }
  }

  /** Removes every cell of the key, restarting the scan after each slide. */
  method PurgeKey(a: array<Byte>, key: Blob)
    requires a.Length == PAGE_SIZE && WholeLeaf(a[..])
    modifies a
    ensures WholeLeaf(a[..]) && SameHeader(a[..], old(a[..]))
    ensures Cells(a[..]) == Purge(old(Cells(a[..])), key)
    ensures old(ClearedIfEmpty(a[..])) ==> ClearedIfEmpty(a[..])
  {
    hide RawCells, OffsetOf, Whole, SameHeader, Cells, Purge, ClearedIfEmpty;
    SameHeaderRefl(a[..]);
    while true
      invariant WholeLeaf(a[..]) && SameHeader(a[..], old(a[..]))
      invariant old(ClearedIfEmpty(a[..])) ==> ClearedIfEmpty(a[..])
      invariant Purge(Cells(a[..]), key) == Purge(old(Cells(a[..])), key)
      decreases |Cells(a[..])|
    {
      ghost var before := a[..];
      var found, offset, cellBytes, at := FindKey(a, key);
      if !found {
        PurgeAbsent(Cells(a[..]), key);
        return;
      }
      DeleteAt(a, offset, cellBytes, at);
      PurgeOne(Cells(before), at, key);
      SameHeaderTrans(a[..], before, old(a[..]));
    }
  }

  /** Puts one cell at a given place. */
  method WriteAt(a: array<Byte>, offset: nat, tail: nat, c: Cell, ghost at: nat)
    requires a.Length == PAGE_SIZE && WholeLeaf(a[..])
    requires at <= |Cells(a[..])| == |RawCells(true, a[..])| && offset == OffsetOf(RawCells(true, a[..]), at)
    requires tail == HEADER_SIZE + |Pack(RawCells(true, a[..]))|
    requires tail + 4 + |c.key| + |c.val| <= PAGE_SIZE
    modifies a
    ensures WholeLeaf(a[..]) && SameHeader(a[..], old(a[..]))
    ensures Cells(a[..]) == (old(Cells(a[..]))[..at] + [c]) + old(Cells(a[..]))[at..]
  {
    hide RawCells, OffsetOf, Whole, SameHeader, DecodeAll, EncodeCell, DecodeCell, ValidCell, Pack;
    ghost var raws := RawCells(true, a[..]);
    var raw := EncodeCell(c);
    DecodeEncodeCell(c);
    WriteCell(true, a, offset, tail, raw, at);
    DecodeSplit(raws, at);
    DecodeConcat(raws[..at], [raw]);
    DecodeConcat(raws[..at] + [raw], raws[at..]);
    DecodeOne(raw);
  }

  lemma DecodeOne(raw: Blob)
    ensures DecodeAll([raw]) == [DecodeCell(raw)]
  {
    hide DecodeCell;
  }

  /** Inserts a cell in key order, replacing all cells of the same key. When the page has no room
      even after those are gone, the old cells of the key stay removed and nothing is added.
   */
  method InsertIntoLeaf(a: array<Byte>, key: Blob, val: Blob) returns (ok: bool)
    requires a.Length == PAGE_SIZE && WholeLeaf(a[..]) && PageType(a[..]) == TYPE_LEAF
    modifies a
    ensures WholeLeaf(a[..]) && SameHeader(a[..], old(a[..]))
    ensures ok <==> HasRoom(old(Cells(a[..])), key, val)
    ensures Cells(a[..]) == if ok then Put(old(Cells(a[..])), key, val)
                            else Purge(old(Cells(a[..])), key)
    ensures old(ClearedIfEmpty(a[..])) ==> ClearedIfEmpty(a[..])
  {
    hide RawCells, OffsetOf, Whole, SameHeader, Cells, Purge, Lex, InsertPoint, Pack, Le, Size, Cleared;
    var required := 4 + |key| + |val|;
    PurgeKey(a, key);
    ghost var d := a[..];
    SameHeaderFields(d, old(a[..]));
    PageUse(d);
    var safe := IsSafeForInsert(a, required);
    if !safe {
      return false;
    }
    var offset, tail := FindInsertOffset(a, key);
    ghost var at := InsertPoint(Cells(d), key);
    SplitAt(true, d, at);
    if offset + required > PAGE_SIZE {
      assert false;
    }
    WriteAt(a, offset, tail, Cell(key, val), at);
    SameHeaderTrans(a[..], d, old(a[..]));
    return true;
  }
}
