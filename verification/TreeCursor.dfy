/** Cursors over the leaf chain, prefix iteration and the sort-merge join. */
module TreeCursor {
  import opened Bytes
  import opened PageHeader
  import opened PageCells
  import opened LeafPage
  import opened InternalPage
  import opened TreeModel
  import opened TreeOps
  import opened TreeSplit
  import opened BTree
  import opened TreeScan

  /** What one step of an iteration returns: the end, an item, or an error. */
  datatype Step = End | Item(cell: Cell) | Failed

  // --- The leftmost leaf ------------------------------------------------------------------

  /** No page on the leftmost path is an internal page without separators. */
  ghost predicate LeftSpine(p: Pages, id: nat, h: nat)
    decreases h
  {
    h == 0 || (id in p && p[id].InnerNode? && p[id].seps != [] && LeftSpine(p, p[id].seps[0].child, h - 1))
  }

  lemma {:induction false} LeftmostLeaf(p: Pages, id: nat, h: nat, lo: Bound, hi: Bound)
    requires WF(p, id, h, lo, hi) && h > 0 && p[id].seps != []
    ensures WF(p, p[id].seps[0].child, h - 1, lo, Key(p[id].seps[0].key))
    ensures Leaves(p, p[id].seps[0].child, h - 1) != []
    ensures Leaves(p, p[id].seps[0].child, h - 1) <= Leaves(p, id, h)
  {
    hide Rank, CellsIn, SortedCells;
    SomeLeaf(p, p[id].seps[0].child, h - 1);
  }

  lemma {:induction false} SomeLeaf(p: Pages, id: nat, h: nat)
    ensures Leaves(p, id, h) != []
    decreases h, 0
  {
    if h > 0 && id in p && p[id].InnerNode? {
      SomeLeafAll(p, p[id].seps, p[id].right, h - 1);
    }
  }

  lemma {:induction false} SomeLeafAll(p: Pages, seps: seq<Sep>, right: nat, h: nat)
    ensures LeavesAll(p, seps, right, h) != []
    decreases h, 1 + |seps|
  {
    if seps == [] {
      SomeLeaf(p, right, h);
    } else {
      SomeLeaf(p, seps[0].child, h);
    }
  }

  /** The first separator sits right behind the header. */
  lemma FirstChild(d: PageBytes)
    requires WholeInner(d) && NumCells(d) > 0
    ensures Seps(d) != [] && Le(d[26..34]) == Seps(d)[0].child
  {
    hide Le, RawCells, Whole, Parse, ValidCell, SizeAt, Pack;
    PageUse0(d);
    InternalPage.DecodedAt(d, 0);
    OffsetEnds(RawCells(false, d));
    var size := SizeAt(false, d, HEADER_SIZE);
    ReadCellValid(false, d, HEADER_SIZE);
    CellRoom(d[HEADER_SIZE..HEADER_SIZE + size]);
    SliceSlice(d, HEADER_SIZE, HEADER_SIZE + size, 2, 10);
  }

  lemma PageUse0(d: PageBytes)
    requires WholeInner(d)
    ensures |Seps(d)| == NumCells(d)
  {
    hide Le, RawCells, Pack, InternalPage.Size, InternalPage.DecodeAll;
    InternalPage.PageUse(d);
  }

  /** Descends along first children; gives up at an internal page without separators. */
  method FirstLeaf(t: Tree) returns (ok: bool, id: nat)
    requires t.Valid()
    ensures ok <==> LeftSpine(t.Pages(), t.root, t.height)
    ensures t.LeafChain() != []
    ensures ok ==> id == t.LeafChain()[0]
  {
    hide Rank, WF, Leaves, Chained, View, Cells, Seps, Le, PageOk, Decode, Flatten, LeftSpine, WholeInner;
    id := t.root;
    ghost var h: nat := t.height;
    ghost var lo, hi := Open, Open;
    ghost var p := t.Pages();
    ViewKeys(t.store);
    StartsInStore(p, t.root, t.height);
    SomeLeaf(p, id, h);
    while PageType(t.store[id]) == TYPE_INTERNAL
      invariant id in t.store && WF(p, id, h, lo, hi)
      invariant Leaves(p, id, h) != [] && Leaves(p, id, h)[0] == t.LeafChain()[0]
      invariant LeftSpine(p, id, h) == LeftSpine(p, t.root, t.height)
      decreases h
    {
      DecodeInner(t.store, id);
      InternalOk(t.store[id]);
      InnerHeight(p, id, h, lo, hi);
      PageUse0(t.store[id]);
      LeftSpineStep(p, id, h);
      var n := NumCells(t.store[id]);
      if n == 0 {
        return false, 0;
      }
      FirstChild(t.store[id]);
      LeftmostLeaf(p, id, h, lo, hi);
      var child := Le(t.store[id][26..34]);
      hi := Key(p[id].seps[0].key);
      InStore(p, child, h - 1, lo, hi);
      id, h := child, h - 1;
    }
    DecodeOther(t.store, id);
    Arrive(p, id, h, lo, hi, []);
    LeafOfHeight0(p, id);
    LeftSpineEnd(p, id);
    ok := true;
  }

  lemma InternalOk(d: PageBytes)
    requires PageOk(d) && PageType(d) == TYPE_INTERNAL
    ensures WholeInner(d)
  {
    hide WholeInner, Le;
  }

  lemma InnerHeight(p: Pages, id: nat, h: nat, lo: Bound, hi: Bound)
    requires WF(p, id, h, lo, hi) && p[id].InnerNode?
    ensures h > 0
  {
  }

  lemma LeftSpineStep(p: Pages, id: nat, h: nat)
    requires h > 0 && id in p && p[id].InnerNode?
    ensures LeftSpine(p, id, h) <==> p[id].seps != [] && LeftSpine(p, p[id].seps[0].child, h - 1)
  {
  }

  lemma LeftSpineEnd(p: Pages, id: nat)
    ensures LeftSpine(p, id, 0)
  {
  }

  // --- What a cursor returns --------------------------------------------------------------

  /** The items a cursor returns one after another, and whether it then fails instead of coming to an end. */
  datatype Feed = Feed(cells: seq<Cell>, fails: bool)

  /** The items from the `i`-th on. */
  ghost function From(f: Feed, i: nat): Feed
    requires i <= |f.cells|
  {
    Feed(f.cells[i..], f.fails)
  }

  /** The rest of one feed from the `i`-th item on, then another; nothing comes behind a failure. */
  ghost function Then(f: Feed, i: nat, rest: Feed): Feed {
    if f.fails || i > |f.cells| then f else Feed(f.cells[i..] + rest.cells, rest.fails)
  }

  /** What a leaf contributes. Of an empty leaf the bytes behind the header are read as a cell all the same, which is an
      error if it would not end within the page.
   */
  ghost function LeafFeed(d: PageBytes): Feed {
    if Cells(d) != [] then Feed(Cells(d), false)
    else
      var size := SizeAt(true, d, HEADER_SIZE);
      if HEADER_SIZE + size > PAGE_SIZE then Feed([], true)
      else Feed([DecodeCell(d[HEADER_SIZE..HEADER_SIZE + size])], false)
  }

  ghost function FeedOf(store: map<nat, PageBytes>, leaves: seq<nat>): Feed {
    if leaves == [] || leaves[0] !in store then Feed([], false)
    else Then(LeafFeed(store[leaves[0]]), 0, FeedOf(store, leaves[1..]))
  }

  ghost predicate IsEmptyLeaf(store: map<nat, PageBytes>, id: nat) { id in store && Cells(store[id]) == [] }

  /** What a cursor over the tree returns: nothing if the first leaf is empty, else leaf by leaf what each
      contributes.
   */
  ghost function CursorFeed(t: Tree): Feed
    reads t
  {
    if t.LeafChain() == [] || IsEmptyLeaf(t.store, t.LeafChain()[0]) then Feed([], false)
    else FeedOf(t.store, t.LeafChain())
  }

  // --- The cursor -------------------------------------------------------------------------

  class Cursor {
    const tree: Tree
    var page: PageBytes
    var cellIdx: nat
    var offset: nat
    var isEof: bool
    /** The position in the leaf chain, and how many items have been returned. */
    ghost var leafIdx: nat
    ghost var pos: nat

    /** What is still to come. */
    ghost function Rest(): Feed
      reads this, tree
    {
      if isEof then Feed([], false) else Then(LeafFeed(page), cellIdx, FeedOf(tree.store, Tail()))
    }

    /** The leaves behind the current one. */
    ghost function Tail(): seq<nat>
      reads this, tree
    {
      if leafIdx < |tree.LeafChain()| then tree.LeafChain()[leafIdx + 1..] else []
    }

    /** The cursor has read its page from the leaf chain. */
    ghost predicate OnLeaf()
      reads this, tree
    {
      && leafIdx < |tree.LeafChain()|
      && tree.LeafChain()[leafIdx] in tree.store && page == tree.store[tree.LeafChain()[leafIdx]]
      && WholeLeaf(page) && |Cells(page)| == |RawCells(true, page)| == NumCells(page)
    }

    /** It stands at one of the cells, or right behind the header of a page without cells. */
    ghost predicate OnCell()
      reads this, tree
    {
      && OnLeaf() && (cellIdx < |Cells(page)| || (Cells(page) == [] && cellIdx == 0))
      && |RawCells(true, page)| == |Cells(page)| && offset == OffsetOf(RawCells(true, page), cellIdx)
    }

    ghost predicate Valid()
      reads this, tree
    {
      && tree.Valid() && (!isEof ==> OnCell())
      && pos <= |CursorFeed(tree).cells| && Rest() == From(CursorFeed(tree), pos)
    }

    /** Opens a cursor on the leftmost leaf, found by FirstLeaf. */
    constructor (t: Tree, first: nat)
      requires t.Valid() && t.LeafChain() != [] && first == t.LeafChain()[0]
      ensures Valid() && tree == t && pos == 0
    {
      hide Tree.Valid, WholeLeaf, Leaves;
      tree := t;
      ChainLeaf(t, 0);
      page, cellIdx, offset := t.store[first], 0, HEADER_SIZE;
      isEof := NumCells(t.store[first]) == 0;
      leafIdx, pos := 0, 0;
      new;
      OffsetEnds(RawCells(true, t.store[first]));
      FromStart(CursorFeed(t));
    }

    /** Returns the next item of the feed; behind the last one it comes to the end or fails. */
    method Next() returns (r: Step)
      requires Valid()
      modifies this
      ensures Valid()
      ensures var f := CursorFeed(tree);
        if old(pos) < |f.cells| then r == Item(f.cells[old(pos)]) && pos == old(pos) + 1
        else r == (if f.fails then Failed else End) && pos == old(pos)
    {
      hide Rank, WF, Leaves, Chained, View, Cells, RawCells, OffsetOf, Le, PageOk, Flatten, FeedOf, LeafFeed,
           WholeLeaf, Tree.Valid, NumCells, Tree.LeafChain, CursorFeed, Tail;
      ghost var f := CursorFeed(tree);
      FromStep(f, pos);
      if isEof {
        return End;
      }
      var ok, cell, size := ReadCell();
      if !ok {
        return Failed;
      }
      ThenStep(LeafFeed(page), cellIdx, FeedOf(tree.store, Tail()));
      r := Item(cell);
      Pass(size);
    }

    /** Steps over the item at the cursor. */
    method Pass(size: nat)
      requires Valid() && !isEof && pos < |CursorFeed(tree).cells| && !LeafFeed(page).fails
      requires |LeafFeed(page).cells| == (if Cells(page) == [] then 1 else |Cells(page)|)
      requires cellIdx < |Cells(page)| ==>
        |RawCells(true, page)| == |Cells(page)| && offset + size == OffsetOf(RawCells(true, page), cellIdx + 1)
      modifies this
      ensures Valid() && pos == old(pos) + 1
    {
      hide Rank, WF, Leaves, Chained, View, Cells, RawCells, OffsetOf, Le, PageOk, Flatten, FeedOf, LeafFeed,
           WholeLeaf, Tree.Valid, NumCells, Tree.LeafChain, CursorFeed, From, Then;
      FromStep(CursorFeed(tree), pos);
      ThenStep(LeafFeed(page), cellIdx, FeedOf(tree.store, Tail()));
      cellIdx := cellIdx + 1;
      offset := offset + size;
      pos := pos + 1;
      Advance();
    }

    /** The item at the cursor and its size, unless it would not end within the page. */
    method ReadCell() returns (ok: bool, cell: Cell, size: nat)
      requires OnCell()
      ensures if ok then !LeafFeed(page).fails else LeafFeed(page) == Feed([], true)
      ensures ok ==> cellIdx < |LeafFeed(page).cells| && cell == LeafFeed(page).cells[cellIdx]
      ensures ok ==> LeafFeed(page).cells != [] && (Cells(page) != [] ==> LeafFeed(page).cells == Cells(page))
      ensures ok ==> (Cells(page) == [] ==> |LeafFeed(page).cells| == 1)
      ensures ok && cellIdx < |Cells(page)| ==> |RawCells(true, page)| == |Cells(page)|
      ensures ok && cellIdx < |Cells(page)| ==> offset + size == OffsetOf(RawCells(true, page), cellIdx + 1)
    {
      hide Cells, RawCells, OffsetOf, Le, WholeLeaf, SizeAt, DecodeCell, NumCells, Leaves, View;
      if cellIdx < |Cells(page)| {
        CellOnPage(page, cellIdx);
      } else {
        OffsetEnds(RawCells(true, page));
      }
      if offset + 4 > PAGE_SIZE {
        assert false;
      }
      size := SizeAt(true, page, offset);
      if offset + size > PAGE_SIZE {
        return false, Cell([], []), 0;
      }
      ok, cell := true, DecodeCell(page[offset..offset + size]);
    }

    /** Moves on to the next leaf once the cells of the current one are used up. */
    method Advance()
      requires tree.Valid() && !isEof && OnLeaf() && !LeafFeed(page).fails
      requires |LeafFeed(page).cells| == (if Cells(page) == [] then 1 else |Cells(page)|)
      requires 1 <= cellIdx <= |LeafFeed(page).cells|
      requires cellIdx < |Cells(page)| ==> offset == OffsetOf(RawCells(true, page), cellIdx)
      requires pos <= |CursorFeed(tree).cells| && Rest() == From(CursorFeed(tree), pos)
      modifies this
      ensures Valid() && pos == old(pos)
    {
      hide Rank, WF, Leaves, Chained, View, Cells, RawCells, OffsetOf, Le, PageOk, Flatten, FeedOf, LeafFeed,
           WholeLeaf, Tree.Valid, NumCells, Tree.LeafChain, NextLeaf, CursorFeed;
      if cellIdx >= NumCells(page) {
        ChainLeaf(tree, leafIdx);
        ThenEnd(LeafFeed(page), cellIdx, FeedOf(tree.store, Tail()));
        var next := NextLeaf(page);
        if next == 0 {
          NoFeed(tree.store, tree.LeafChain(), leafIdx);
          isEof := true;
        } else {
          OpenLeaf(next);
        }
      }
    }

    /** Goes on to the leaf behind the current one, whose items have all been returned. */
    method OpenLeaf(next: nat)
      requires tree.Valid() && !isEof && pos <= |CursorFeed(tree).cells|
      requires leafIdx + 1 < |tree.LeafChain()| && next == tree.LeafChain()[leafIdx + 1]
      requires FeedOf(tree.store, tree.LeafChain()[leafIdx + 1..]) == From(CursorFeed(tree), pos)
      modifies this
      ensures Valid() && pos == old(pos)
    {
      hide Rank, WF, Leaves, Chained, View, Cells, RawCells, OffsetOf, Le, PageOk, Flatten, FeedOf, LeafFeed,
           WholeLeaf, Tree.Valid, NumCells, Tree.LeafChain, NextLeaf, CursorFeed;
      ChainLeaf(tree, leafIdx + 1);
      FeedStep(tree.store, tree.LeafChain(), leafIdx + 1);
      OffsetEnds(RawCells(true, tree.store[next]));
      NonEmpty(Cells(tree.store[next]));
      page := tree.store[next];
      leafIdx := leafIdx + 1;
      cellIdx, offset := 0, HEADER_SIZE;
    }
  }

  lemma NonEmpty(cells: seq<Cell>)
    ensures 0 < |cells| || cells == []
  {
  }

  /** A leaf of the chain is a whole leaf page. */
  lemma ChainLeaf(t: Tree, i: nat)
    requires t.Valid() && i < |t.LeafChain()|
    ensures t.LeafChain()[i] in t.store && t.LeafChain()[i] in t.Pages()
    ensures var d := t.store[t.LeafChain()[i]];
      && WholeLeaf(d) && |Cells(d)| == NumCells(d) && |Cells(d)| == |RawCells(true, d)|
      && t.Pages()[t.LeafChain()[i]] == LeafNode(Cells(d), NextLeaf(d))
      && NextLeaf(d) == NextOf(t.LeafChain(), i)
      && (NextLeaf(d) == 0 <==> i + 1 == |t.LeafChain()|)
  {
    hide Rank, WF, View, Cells, RawCells, Le, Flatten, Leaves, Chained, WholeLeaf, NumCells;
    ChainAt(t.Pages(), t.LeafChain(), i);
    ViewKeys(t.store);
    var id := t.LeafChain()[i];
    LeafInStore(t.store, id);
    LeafOk(t.store[id], t.store, id);
    CellCount(t.store[id]);
  }

  lemma LeafOk(d: PageBytes, store: map<nat, PageBytes>, id: nat)
    requires id in store && store[id] == d && PageOk(d) && View(store)[id].LeafNode?
    ensures WholeLeaf(d)
  {
    hide WholeLeaf, Le, Cells, Seps;
  }

  lemma CellCount(d: PageBytes)
    requires WholeLeaf(d)
    ensures |Cells(d)| == NumCells(d) && |Cells(d)| == |RawCells(true, d)|
  {
    hide Le, RawCells, Pack, LeafPage.Size, LeafPage.DecodeAll;
    LeafPage.PageUse(d);
    LeafPage.RawCount(d);
  }

  lemma CellOnPage(d: PageBytes, i: nat)
    requires WholeLeaf(d) && i < |Cells(d)| == |RawCells(true, d)|
    ensures var off := OffsetOf(RawCells(true, d), i);
      && off + 4 <= PAGE_SIZE && off + HeadSize(true) <= PAGE_SIZE
      && off + SizeAt(true, d, off) <= PAGE_SIZE
      && DecodeCell(d[off..off + SizeAt(true, d, off)]) == Cells(d)[i]
      && OffsetOf(RawCells(true, d), i + 1) == off + SizeAt(true, d, off)
  {
    hide RawCells, Cells, OffsetOf, SizeAt, DecodeCell, WholeLeaf;
    LeafPage.DecodedAt(d, i);
  }

  lemma FromStart(f: Feed)
    ensures From(f, 0) == f
  {
  }

  lemma FromStep(f: Feed, i: nat)
    requires i <= |f.cells|
    ensures i < |f.cells| ==> From(f, i).cells[0] == f.cells[i] && From(From(f, i), 1) == From(f, i + 1)
    ensures i == |f.cells| <==> From(f, i).cells == []
  {
  }

  lemma ThenStep(f: Feed, i: nat, rest: Feed)
    requires !f.fails && i < |f.cells|
    ensures Then(f, i, rest).cells != [] && Then(f, i, rest).cells[0] == f.cells[i]
    ensures From(Then(f, i, rest), 1) == Then(f, i + 1, rest)
  {
    assert f.cells[i..][1..] == f.cells[i + 1..];
  }

  lemma ThenEnd(f: Feed, i: nat, rest: Feed)
    requires !f.fails
    ensures i == |f.cells| ==> Then(f, i, rest) == rest
  {
  }

  lemma NoFeed(store: map<nat, PageBytes>, leaves: seq<nat>, i: nat)
    requires i + 1 == |leaves|
    ensures FeedOf(store, leaves[i + 1..]) == Feed([], false)
  {
  }

  lemma FeedStep(store: map<nat, PageBytes>, leaves: seq<nat>, i: nat)
    requires i < |leaves| && leaves[i] in store
    ensures FeedOf(store, leaves[i..]) == Then(LeafFeed(store[leaves[i]]), 0, FeedOf(store, leaves[i + 1..]))
  {
    hide LeafFeed;
    assert leaves[i..][1..] == leaves[i + 1..];
  }

  // --- When a cursor returns what is stored -----------------------------------------------

  ghost predicate SomeEmpty(store: map<nat, PageBytes>, leaves: seq<nat>) {
    exists x :: x in leaves && IsEmptyLeaf(store, x)
  }

  ghost predicate AllLeaves(store: map<nat, PageBytes>, leaves: seq<nat>) {
    forall x :: x in leaves ==> x in store && x in View(store) && View(store)[x].LeafNode?
  }

  /** Each empty leaf adds an item, or a failure. */
  lemma {:induction false} FeedOfLeaves(store: map<nat, PageBytes>, leaves: seq<nat>)
    requires AllLeaves(store, leaves)
    ensures var f, flat := FeedOf(store, leaves), FlatLeaves(View(store), leaves);
      && (!SomeEmpty(store, leaves) ==> f == Feed(flat, false))
      && (!f.fails ==> |f.cells| >= |flat|)
      && (!f.fails && SomeEmpty(store, leaves) ==> |f.cells| > |flat|)
  {
    hide View, Cells, SizeAt, DecodeCell;
    if leaves != [] {
      assert leaves[0] in leaves;
      LeafInStore(store, leaves[0]);
      FeedOfLeaves(store, leaves[1..]);
      EmptyCons(store, leaves);
    }
  }

  lemma EmptyCons(store: map<nat, PageBytes>, leaves: seq<nat>)
    requires leaves != []
    ensures SomeEmpty(store, leaves) <==> IsEmptyLeaf(store, leaves[0]) || SomeEmpty(store, leaves[1..])
  {
    hide IsEmptyLeaf;
    assert forall x :: x in leaves <==> x == leaves[0] || x in leaves[1..];
  }

  /** What the chain of a tree consists of. */
  lemma ChainLeaves(t: Tree)
    requires t.Valid()
    ensures t.LeafChain() != [] && AllLeaves(t.store, t.LeafChain())
    ensures FlatLeaves(View(t.store), t.LeafChain()) == t.Contents()
  {
    hide Rank, WF, View, Flatten, Leaves, FlatLeaves, Tree.Stored;
    SomeLeaf(t.Pages(), t.root, t.height);
    FlattenIsFlatLeaves(t.Pages(), t.root, t.height, Open, Open);
    ChainParts(t.Pages(), t.LeafChain());
    ViewKeys(t.store);
  }

  /** A cursor returns exactly what is stored, and then the end, if and only if no leaf is empty, or the first leaf is
      empty and nothing is stored.
   */
  lemma CursorExact(t: Tree)
    requires t.Valid()
    ensures t.LeafChain() != []
    ensures CursorFeed(t) == Feed(t.Contents(), false) <==>
      !SomeEmpty(t.store, t.LeafChain()) || (IsEmptyLeaf(t.store, t.LeafChain()[0]) && t.Contents() == [])
  {
    hide Rank, WF, View, Flatten, Leaves, FlatLeaves, FeedOf, Tree.Valid, IsEmptyLeaf;
    ChainLeaves(t);
    FeedOfLeaves(t.store, t.LeafChain());
    assert t.LeafChain()[0] in t.LeafChain();
  }

  // --- Prefix iteration -------------------------------------------------------------------

  /** What an iteration over the keys with a prefix returns of a feed: it skips the others and stops at the first that
      is greater than the prefix.
   */
  ghost function Iterated(f: Feed, prefix: Blob): Feed
    decreases |f.cells|
  {
    if f.cells == [] then f
    else if HasPrefix(f.cells[0].key, prefix) then
      var rest := Iterated(From(f, 1), prefix);
      Feed([f.cells[0]] + rest.cells, rest.fails)
    else if Lex(prefix, f.cells[0].key) then Feed([], false)
    else Iterated(From(f, 1), prefix)
  }

  /** The step from position `i` to `j` returns the first item of what is left of the iteration, and leaves the
      others; or the end or the failure that comes when none is left.
   */
  ghost predicate Yields(f: Feed, i: nat, j: nat, prefix: Blob, r: Step) {
    && i <= j <= |f.cells|
    && var left := Iterated(From(f, i), prefix);
       if left.cells == [] then r == if left.fails then Failed else End
       else r == Item(left.cells[0]) && Iterated(From(f, j), prefix) == From(left, 1)
  }

  /** One step of a prefix iteration. */
  method NextWithPrefix(cursor: Cursor, prefix: Blob) returns (r: Step)
    requires cursor.Valid()
    modifies cursor
    ensures cursor.Valid() && Yields(CursorFeed(cursor.tree), old(cursor.pos), cursor.pos, prefix, r)
  {
    hide Rank, Lex, Iterated, CursorFeed, Cursor.Valid, From, HasPrefix;
    ghost var f := CursorFeed(cursor.tree);
    PosBound(cursor);
    while true
      invariant cursor.Valid() && old(cursor.pos) <= cursor.pos <= |f.cells|
      invariant Iterated(From(f, cursor.pos), prefix) == Iterated(From(f, old(cursor.pos)), prefix)
      decreases |f.cells| - cursor.pos
    {
      IterateStep(f, cursor.pos, prefix);
      r := cursor.Next();
      if !r.Item? {
        return;
      }
      AnyPrefix(r.cell.key);
      if |prefix| == 0 || HasPrefix(r.cell.key, prefix) {
        return;
      }
      if Lex(prefix, r.cell.key) {
        return End;
      }
    }
  }

  lemma PosBound(c: Cursor)
    requires c.Valid()
    ensures c.pos <= |CursorFeed(c.tree).cells|
  {
    hide Tree.Valid, CursorFeed;
  }

  lemma AnyPrefix(key: Blob)
    ensures HasPrefix(key, [])
  {
  }

  lemma IterateStep(f: Feed, i: nat, prefix: Blob)
    requires i <= |f.cells|
    ensures i == |f.cells| ==> Iterated(From(f, i), prefix) == Feed([], f.fails)
    ensures i < |f.cells| ==>
      var x, it, rest := f.cells[i], Iterated(From(f, i), prefix), Iterated(From(f, i + 1), prefix);
      if HasPrefix(x.key, prefix) then it.cells != [] && it.cells[0] == x && rest == From(it, 1)
      else if Lex(prefix, x.key) then it == Feed([], false)
      else it == rest
  {
    hide Lex, HasPrefix;
    FromStep(f, i);
  }

  /** With the empty prefix an iteration is the cursor itself. */
  lemma {:induction false} IteratedAll(f: Feed)
    ensures Iterated(f, []) == f
    decreases |f.cells|
  {
    if f.cells != [] {
      IteratedAll(From(f, 1));
    }
  }

  /** Sorted, but for items with the empty key. */
  ghost predicate Ordered(cells: seq<Cell>) {
    forall i, j :: 0 <= i < j < |cells| ==> cells[j].key == [] || Rank(cells[i].key) <= Rank(cells[j].key)
  }

  /** In such a list, a key above the prefix that lacks it ends the run of keys that have it. */
  lemma MatchingPast(all: seq<Cell>, prefix: Blob)
    requires Ordered(all) && all != [] && prefix != []
    requires Lex(prefix, all[0].key) && !HasPrefix(all[0].key, prefix)
    ensures Filter(all, prefix) == []
  {
    hide Rank, Filter;
    LexIsBelow(prefix, all[0].key);
    forall c | c in all
      ensures !HasPrefix(c.key, prefix)
    {
      var j :| 0 <= j < |all| && all[j] == c;
      if HasPrefix(c.key, prefix) {
        PrefixContiguous(all[0].key, c.key, prefix);
      }
    }
    FilterNone(all, prefix);
  }

  /** Stopping early loses nothing. */
  lemma {:induction false} IteratedIsFilter(cells: seq<Cell>, prefix: Blob)
    requires Ordered(cells) && prefix != []
    ensures Iterated(Feed(cells, false), prefix) == Feed(Filter(cells, prefix), false)
    decreases |cells|
  {
    hide Rank, Lex, HasPrefix;
    if cells != [] {
      assert From(Feed(cells, false), 1) == Feed(cells[1..], false);
      IteratedIsFilter(cells[1..], prefix);
      if Lex(prefix, cells[0].key) && !HasPrefix(cells[0].key, prefix) {
        MatchingPast(cells, prefix);
      }
    }
  }

  /** The empty leaves have zeros behind the header. */
  ghost predicate BlankLeaves(store: map<nat, PageBytes>, leaves: seq<nat>) {
    forall x :: x in leaves && IsEmptyLeaf(store, x) ==> Cleared(store[x])
  }

  /** Such a leaf contributes one item, with the empty key. */
  lemma ZeroLeaf(d: PageBytes)
    requires Cells(d) == [] && Cleared(d)
    ensures LeafFeed(d) == Feed([Cell([], [])], false)
  {
    hide Cells, Le;
    var raw := d[HEADER_SIZE..HEADER_SIZE + 4];
    assert raw[0..2] == Zeros(2) && raw[2..4] == Zeros(2);
    ZeroField(2);
    assert SizeAt(true, d, HEADER_SIZE) == 4;
    assert DecodeCell(raw) == Cell([], []);
  }

  lemma {:induction false} ZeroFeed(store: map<nat, PageBytes>, leaves: seq<nat>, prefix: Blob)
    requires AllLeaves(store, leaves) && BlankLeaves(store, leaves) && prefix != []
    requires SortedCells(FlatLeaves(View(store), leaves))
    ensures var f, flat := FeedOf(store, leaves), FlatLeaves(View(store), leaves);
      && !f.fails && Ordered(f.cells) && Filter(f.cells, prefix) == Filter(flat, prefix)
      && forall c :: c in f.cells ==> c.key == [] || c in flat
  {
    hide View, Cells, LeafFeed, Rank, Filter, HasPrefix, SortedCells, Ordered;
    if leaves == [] {
      NoneOrdered();
    } else {
      var d, rest := store[leaves[0]], leaves[1..];
      assert leaves[0] in leaves;
      LeafInStore(store, leaves[0]);
      var flat, f := FlatLeaves(View(store), rest), FeedOf(store, rest);
      SortedParts(Cells(d), flat);
      ZeroFeed(store, rest, prefix);
      if Cells(d) == [] {
        ZeroLeaf(d);
        OrderedEmpty(f.cells);
        FilterConcat([Cell([], [])], f.cells, prefix);
        FilterEmptyKey(prefix);
        assert Cells(d) + flat == flat;
      } else {
        CellsFeed(d);
        OrderedJoin(Cells(d), f.cells, flat);
        FilterConcat(Cells(d), f.cells, prefix);
        FilterConcat(Cells(d), flat, prefix);
      }
    }
  }

  lemma NoneOrdered()
    ensures Ordered([])
  {
  }

  lemma CellsFeed(d: PageBytes)
    ensures Cells(d) != [] ==> LeafFeed(d) == Feed(Cells(d), false) && Cells(d)[0..] == Cells(d)
  {
    hide Cells;
  }

  lemma FilterEmptyKey(prefix: Blob)
    requires prefix != []
    ensures Filter([Cell([], [])], prefix) == []
  {
    var s := [Cell([], [])];
    assert s[1..] == [];
  }

  lemma SortedParts(a: seq<Cell>, b: seq<Cell>)
    requires SortedCells(a + b)
    ensures SortedCells(b)
  {
    hide Rank;
    forall i, j | 0 <= i < j < |b|
      ensures Rank(b[i].key) <= Rank(b[j].key)
    {
      assert (a + b)[|a| + i] == b[i] && (a + b)[|a| + j] == b[j];
    }
  }

  lemma OrderedEmpty(cells: seq<Cell>)
    requires Ordered(cells)
    ensures Ordered([Cell([], [])] + cells)
  {
    hide Rank;
    var s := [Cell([], [])] + cells;
    forall i, j | 0 <= i < j < |s|
      ensures s[j].key == [] || Rank(s[i].key) <= Rank(s[j].key)
    {
      if i == 0 {
        PrefixIsLeast(s[j].key, []);
      } else {
        assert s[i] == cells[i - 1] && s[j] == cells[j - 1];
      }
    }
  }

  lemma OrderedJoin(a: seq<Cell>, b: seq<Cell>, flat: seq<Cell>)
    requires SortedCells(a + flat) && Ordered(b) && forall c :: c in b ==> c.key == [] || c in flat
    ensures Ordered(a + b)
  {
    hide Rank;
    var s := a + b;
    forall i, j | 0 <= i < j < |s|
      ensures s[j].key == [] || Rank(s[i].key) <= Rank(s[j].key)
    {
      if j < |a| {
        assert (a + flat)[i] == s[i] && (a + flat)[j] == s[j];
      } else if i < |a| {
        assert s[j] in b;
        if s[j].key != [] {
          var k :| 0 <= k < |flat| && flat[k] == s[j];
          assert (a + flat)[i] == s[i] && (a + flat)[|a| + k] == s[j];
        }
      } else {
        assert s[i] == b[i - |a|] && s[j] == b[j - |a|];
      }
    }
  }

  lemma ChainBlank(t: Tree)
    requires t.Valid() && t.Blank()
    ensures BlankLeaves(t.store, t.LeafChain())
  {
    hide Rank, WF, View, Flatten, Leaves, Cells, Le, Cleared;
    forall x | x in t.LeafChain() && IsEmptyLeaf(t.store, x)
      ensures Cleared(t.store[x])
    {
      var i: nat :| i < |t.LeafChain()| && t.LeafChain()[i] == x;
      ChainAt(t.Pages(), t.LeafChain(), i);
      LeafType(t.store, x);
    }
  }

  lemma LeafType(store: map<nat, PageBytes>, id: nat)
    requires id in store && PageOk(store[id]) && id in View(store) && View(store)[id].LeafNode?
    ensures PageType(store[id]) == TYPE_LEAF
  {
    hide WholeLeaf, Le, Cells, Seps;
  }

  /** With such leaves a cursor never fails. */
  lemma NeverFails(t: Tree)
    requires t.Valid() && t.Blank()
    ensures !CursorFeed(t).fails
  {
    hide Rank, WF, View, Flatten, Leaves, FlatLeaves, FeedOf, IsEmptyLeaf, Filter, BlankLeaves, Chained, Tree.Stored,
         Tree.Blank;
    ChainLeaves(t);
    ChainBlank(t);
    FlattenRange(t.Pages(), t.root, t.height, Open, Open);
    ZeroFeed(t.store, t.LeafChain(), [0]);
  }

  /** An iteration over a non-empty prefix returns exactly the stored cells with the prefix if and only if the first
      leaf is not empty or there are none.
   */
  lemma PrefixExact(t: Tree, prefix: Blob)
    requires t.Valid() && t.Blank() && prefix != []
    ensures t.LeafChain() != []
    ensures Iterated(CursorFeed(t), prefix) == Feed(Filter(t.Contents(), prefix), false) <==>
      !IsEmptyLeaf(t.store, t.LeafChain()[0]) || Filter(t.Contents(), prefix) == []
  {
    hide Rank, WF, View, Flatten, Leaves, FlatLeaves, FeedOf, IsEmptyLeaf, Filter, BlankLeaves, Chained, Tree.Stored,
         Tree.Blank;
    ChainLeaves(t);
    ChainBlank(t);
    FlattenRange(t.Pages(), t.root, t.height, Open, Open);
    ZeroFeed(t.store, t.LeafChain(), prefix);
    IteratedIsFilter(FeedOf(t.store, t.LeafChain()).cells, prefix);
  }
}
