/** The sort-merge join of two trees, and what an empty first leaf does to it. */
module TreeJoin {
  import opened Bytes
  import opened PageHeader
  import opened LeafPage
  import opened InternalPage
  import opened TreeModel
  import opened TreeOps
  import opened TreeSplit
  import opened TreeLookups
  import opened TreeCascade
  import opened TreeLatch
  import opened BTree
  import opened TreeCursor

  datatype Joined = Joined(key: Blob, left: Blob, right: Blob)

  /** The inner join: every left cell whose key also occurs on the right. */
  function InnerJoin(l: seq<Cell>, r: seq<Cell>): seq<Joined> {
    if l == [] then []
    else
      var rest := InnerJoin(l[1..], r);
      match FirstMatch(r, l[0].key)
      case Hit(v) => [Joined(l[0].key, l[0].val, v)] + rest
      case Missing => rest
  }

  lemma {:induction false} JoinDropRight(l: seq<Cell>, r: seq<Cell>)
    requires r != [] && forall c :: c in l ==> c.key != r[0].key
    ensures InnerJoin(l, r) == InnerJoin(l, r[1..])
  {
    if l != [] {
      JoinDropRight(l[1..], r);
    }
  }

  lemma {:induction false} JoinEmptyRight(l: seq<Cell>)
    ensures InnerJoin(l, []) == []
  {
    if l != [] {
      JoinEmptyRight(l[1..]);
    }
  }

  lemma AboveAvoids(s: seq<Cell>, key: Blob)
    requires StrictCells(s) && s != [] && Rank(key) <= Rank(s[0].key)
    ensures forall c :: c in s[1..] ==> c.key != key
  {
    hide Rank;
  }

  lemma NoMatchIn(s: seq<Cell>, key: Blob)
    requires forall c :: c in s ==> c.key != key
    ensures FirstMatch(s, key) == Missing
  {
    hide FirstMatch;
    MatchSkip(s, [], key);
    assert s + [] == s;
    NoMatchInNil(key);
  }

  lemma NoMatchInNil(key: Blob)
    ensures FirstMatch([], key) == Missing
  {
  }

  /** What each comparison of the merge may discard. */
  lemma JoinStep(l: seq<Cell>, r: seq<Cell>)
    requires StrictCells(l) && StrictCells(r) && l != [] && r != []
    ensures l[0].key == r[0].key ==>
              InnerJoin(l, r) == [Joined(l[0].key, l[0].val, r[0].val)] + InnerJoin(l[1..], r[1..])
    ensures Below(l[0].key, r[0].key) ==> InnerJoin(l, r) == InnerJoin(l[1..], r)
    ensures Below(r[0].key, l[0].key) ==> InnerJoin(l, r) == InnerJoin(l, r[1..])
  {
    hide Rank;
    if l[0].key == r[0].key {
      AboveAvoids(l, r[0].key);
      JoinDropRight(l[1..], r);
    } else if Below(l[0].key, r[0].key) {
      AboveAvoids(r, l[0].key);
      NoMatchIn(r, l[0].key);
    } else if Below(r[0].key, l[0].key) {
      AboveAvoids(l, r[0].key);
      JoinDropRight(l, r);
    }
  }

  lemma StrictFrom(s: seq<Cell>, i: nat)
    requires StrictCells(s) && i <= |s|
    ensures StrictCells(s[i..])
  {
    hide Rank;
  }

  lemma NotBelow(a: Blob, b: Blob)
    requires a != b && !Below(a, b)
    ensures Below(b, a)
  {
    if Rank(a) == Rank(b) {
      RankInjective(a, b);
    }
  }

  // --- The merge --------------------------------------------------------------------------

  datatype JoinResult = Rows(rows: seq<Joined>) | JoinFailed

  function Plus(rows: seq<Joined>, o: JoinResult): JoinResult {
    if o.Rows? then Rows(rows + o.rows) else o
  }

  /** The merge of two feeds. It fails only if a side fails when the merge asks it for an item. */
  ghost function Merge(l: Feed, r: Feed): JoinResult
    decreases |l.cells| + |r.cells|
  {
    if l.cells == [] || r.cells == [] then
      if (l.cells == [] && l.fails) || (r.cells == [] && r.fails) then JoinFailed else Rows([])
    else
      var x, y := l.cells[0], r.cells[0];
      if x.key == y.key then Plus([Joined(x.key, x.val, y.val)], Merge(From(l, 1), From(r, 1)))
      else if Lex(x.key, y.key) then Merge(From(l, 1), r)
      else Merge(l, From(r, 1))
  }

  lemma PlusPlus(a: seq<Joined>, b: seq<Joined>, o: JoinResult)
    ensures Plus(a, Plus(b, o)) == Plus(a + b, o)
  {
    if o.Rows? {
      assert a + (b + o.rows) == (a + b) + o.rows;
    }
  }

  /** `out` has been produced of the first `i` and `j` items. */
  ghost predicate Merging(l: Feed, i: nat, r: Feed, j: nat, out: seq<Joined>) {
    i <= |l.cells| && j <= |r.cells| && Merge(l, r) == Plus(out, Merge(From(l, i), From(r, j)))
  }

  lemma MergeStart(l: Feed, r: Feed)
    ensures Merging(l, 0, r, 0, [])
  {
    hide Lex, Merge;
    FromStart(l);
    FromStart(r);
    var o := Merge(l, r);
    assert o.Rows? ==> [] + o.rows == o.rows;
  }

  lemma MergeStep(l: Feed, i: nat, r: Feed, j: nat, out: seq<Joined>)
    requires Merging(l, i, r, j, out) && i < |l.cells| && j < |r.cells|
    ensures var x, y := l.cells[i], r.cells[j];
      && (x.key == y.key ==> Merging(l, i + 1, r, j + 1, out + [Joined(x.key, x.val, y.val)]))
      && (x.key != y.key && Lex(x.key, y.key) ==> Merging(l, i + 1, r, j, out))
      && (x.key != y.key && !Lex(x.key, y.key) ==> Merging(l, i, r, j + 1, out))
  {
    hide Lex;
    FromStep(l, i);
    FromStep(r, j);
    var x, y := l.cells[i], r.cells[j];
    PlusPlus(out, [Joined(x.key, x.val, y.val)], Merge(From(l, i + 1), From(r, j + 1)));
  }

  /** The step `s` of a side is its `i`-th item, or what comes behind the last one. */
  ghost predicate StepAt(f: Feed, i: nat, s: Step) {
    i <= |f.cells| && s == if i < |f.cells| then Item(f.cells[i]) else if f.fails then Failed else End
  }

  lemma MergeEnd(l: Feed, i: nat, r: Feed, j: nat, out: seq<Joined>)
    requires Merging(l, i, r, j, out) && (i == |l.cells| || j == |r.cells|)
    ensures Merge(l, r)
         == if (i == |l.cells| && l.fails) || (j == |r.cells| && r.fails) then JoinFailed else Rows(out)
  {
    hide Lex;
    FromStep(l, i);
    FromStep(r, j);
    assert out + [] == out;
  }

  /** Joins two trees by one pass over each. */
  method SortMergeJoin(l: Cursor, r: Cursor) returns (o: JoinResult)
    requires l != r && l.Valid() && r.Valid() && l.pos == 0 && r.pos == 0
    modifies l, r
    ensures o == Merge(CursorFeed(l.tree), CursorFeed(r.tree))
  {
    hide Rank, Lex, CursorFeed, Cursor.Valid, Merge, Merging;
    ghost var lf, rf := CursorFeed(l.tree), CursorFeed(r.tree);
    ghost var i, j: nat := 0, 0;
    MergeStart(lf, rf);
    var out: seq<Joined> := [];
    PosBound(l);
    PosBound(r);
    var x := l.Next();
    var y := r.Next();
    while x.Item? && y.Item?
      invariant l.Valid() && r.Valid() && Merging(lf, i, rf, j, out)
      invariant StepAt(lf, i, x) && (x.Item? ==> l.pos == i + 1)
      invariant StepAt(rf, j, y) && (y.Item? ==> r.pos == j + 1)
      decreases |lf.cells| - i + |rf.cells| - j
    {
      MergeStep(lf, i, rf, j, out);
      if x.cell.key == y.cell.key {
        out := out + [Joined(x.cell.key, x.cell.val, y.cell.val)];
        x := l.Next();
        y := r.Next();
        i, j := i + 1, j + 1;
      } else if Lex(x.cell.key, y.cell.key) {
        x := l.Next();
        i := i + 1;
      } else {
        y := r.Next();
        j := j + 1;
      }
    }
    MergeEnd(lf, i, rf, j, out);
    o := if x.Failed? || y.Failed? then JoinFailed else Rows(out);
  }

  // --- What the join is -------------------------------------------------------------------

  /** Over two strictly sorted lists the merge is the inner join. */
  lemma {:induction false} MergeIsJoin(l: seq<Cell>, r: seq<Cell>)
    requires StrictCells(l) && StrictCells(r)
    ensures Merge(Feed(l, false), Feed(r, false)) == Rows(InnerJoin(l, r))
    decreases |l| + |r|
  {
    hide Rank, Lex, InnerJoin, StrictCells;
    if l == [] || r == [] {
      JoinEmpty(l, r);
    } else {
      assert From(Feed(l, false), 1) == Feed(l[1..], false) && From(Feed(r, false), 1) == Feed(r[1..], false);
      StrictFrom(l, 1);
      StrictFrom(r, 1);
      JoinStep(l, r);
      LexIsBelow(l[0].key, r[0].key);
      if l[0].key == r[0].key {
        MergeIsJoin(l[1..], r[1..]);
      } else if Lex(l[0].key, r[0].key) {
        MergeIsJoin(l[1..], r);
      } else {
        NotBelow(l[0].key, r[0].key);
        MergeIsJoin(l, r[1..]);
      }
    }
  }

  lemma JoinEmpty(l: seq<Cell>, r: seq<Cell>)
    requires l == [] || r == []
    ensures InnerJoin(l, r) == []
  {
    if l != [] {
      JoinEmptyRight(l);
    }
  }

  /** The values stored under a key, in order. */
  function ValuesOf(cells: seq<Cell>, k: Blob): seq<Blob> {
    if cells == [] then []
    else (if cells[0].key == k then [cells[0].val] else []) + ValuesOf(cells[1..], k)
  }

  /** The pairs of values in the rows of a key, in order. */
  function PairsOf(rows: seq<Joined>, k: Blob): seq<(Blob, Blob)> {
    if rows == [] then []
    else (if rows[0].key == k then [(rows[0].left, rows[0].right)] else []) + PairsOf(rows[1..], k)
  }

  /** The first with the first, the second with the second, until one side ends. */
  function Zip(a: seq<Blob>, b: seq<Blob>): seq<(Blob, Blob)> {
    if a == [] || b == [] then [] else [(a[0], b[0])] + Zip(a[1..], b[1..])
  }

  ghost predicate FromKey(rows: seq<Joined>, k: Blob) {
    forall i :: 0 <= i < |rows| ==> Rank(k) <= Rank(rows[i].key)
  }

  ghost predicate SortedRows(rows: seq<Joined>) {
    forall i, j :: 0 <= i < j < |rows| ==> Rank(rows[i].key) <= Rank(rows[j].key)
  }

  lemma {:induction false} NoValues(cells: seq<Cell>, k: Blob)
    requires forall i :: 0 <= i < |cells| ==> cells[i].key != k
    ensures ValuesOf(cells, k) == []
  {
    if cells != [] {
      NoValues(cells[1..], k);
    }
  }

  lemma ValuesCons(cells: seq<Cell>, k: Blob)
    requires cells != []
    ensures ValuesOf(cells, k)
         == if cells[0].key == k then [cells[0].val] + ValuesOf(cells[1..], k) else ValuesOf(cells[1..], k)
  {
  }

  lemma PairsCons(x: Joined, rows: seq<Joined>, k: Blob)
    ensures PairsOf([x] + rows, k) == if x.key == k then [(x.left, x.right)] + PairsOf(rows, k) else PairsOf(rows, k)
  {
    assert ([x] + rows)[1..] == rows;
  }

  lemma ZipCons(a: Blob, xs: seq<Blob>, b: Blob, bs: seq<Blob>)
    ensures Zip([a] + xs, [b] + bs) == [(a, b)] + Zip(xs, bs)
  {
    assert ([a] + xs)[1..] == xs && ([b] + bs)[1..] == bs;
  }

  lemma SortedRest(cells: seq<Cell>)
    requires SortedCells(cells) && cells != []
    ensures SortedCells(cells[1..])
    ensures forall i :: 0 <= i < |cells| ==> Rank(cells[0].key) <= Rank(cells[i].key)
  {
    hide Rank;
  }

  /** A key below all of a sorted list has no values there. */
  lemma BelowAll(cells: seq<Cell>, k: Blob)
    requires SortedCells(cells) && cells != [] && Below(k, cells[0].key)
    ensures ValuesOf(cells, k) == []
  {
    hide Rank;
    SortedRest(cells);
    NoValues(cells, k);
  }

  /** Over any two sorted lists, duplicates included: the rows come in key order, and those of a key pair the values
      of the two sides one by one until one side has no more.
   */
  lemma {:induction false} MergePairs(l: seq<Cell>, r: seq<Cell>, k: Blob)
    requires SortedCells(l) && SortedCells(r)
    ensures var o := Merge(Feed(l, false), Feed(r, false));
      && o.Rows? && PairsOf(o.rows, k) == Zip(ValuesOf(l, k), ValuesOf(r, k))
      && SortedRows(o.rows) && (l != [] ==> FromKey(o.rows, l[0].key))
    decreases |l| + |r|
  {
    hide Rank, Lex, SortedCells, SortedRows, FromKey, Zip, ValuesOf, PairsOf;
    if l == [] || r == [] {
      NoRows(l, r, k);
    } else {
      assert From(Feed(l, false), 1) == Feed(l[1..], false) && From(Feed(r, false), 1) == Feed(r[1..], false);
      SortedRest(l);
      SortedRest(r);
      LexIsBelow(l[0].key, r[0].key);
      if l[0].key == r[0].key {
        MergePairs(l[1..], r[1..], k);
        PairedHeads(l, r, Merge(Feed(l[1..], false), Feed(r[1..], false)).rows, k);
      } else if Lex(l[0].key, r[0].key) {
        MergePairs(l[1..], r, k);
        SkippedLeft(l, r, Merge(Feed(l[1..], false), Feed(r, false)).rows, k);
      } else {
        NotBelow(l[0].key, r[0].key);
        MergePairs(l, r[1..], k);
        SkippedRight(l, r, k);
      }
    }
  }

  lemma NoRows(l: seq<Cell>, r: seq<Cell>, k: Blob)
    requires l == [] || r == []
    ensures Zip(ValuesOf(l, k), ValuesOf(r, k)) == [] && PairsOf([], k) == [] && SortedRows([])
    ensures forall x :: FromKey([], x)
  {
  }

  lemma PairedHeads(l: seq<Cell>, r: seq<Cell>, rows: seq<Joined>, k: Blob)
    requires SortedCells(l) && l != [] && r != [] && l[0].key == r[0].key
    requires PairsOf(rows, k) == Zip(ValuesOf(l[1..], k), ValuesOf(r[1..], k))
    requires SortedRows(rows) && (l[1..] != [] ==> FromKey(rows, l[1].key)) && (l[1..] == [] ==> rows == [])
    ensures var all := [Joined(l[0].key, l[0].val, r[0].val)] + rows;
      && PairsOf(all, k) == Zip(ValuesOf(l, k), ValuesOf(r, k))
      && SortedRows(all) && FromKey(all, l[0].key)
  {
    hide Rank, ValuesOf, PairsOf, Zip;
    var x := Joined(l[0].key, l[0].val, r[0].val);
    SortedRest(l);
    PairsCons(x, rows, k);
    ValuesCons(l, k);
    ValuesCons(r, k);
    ZipCons(x.left, ValuesOf(l[1..], k), x.right, ValuesOf(r[1..], k));
  }

  lemma SkippedLeft(l: seq<Cell>, r: seq<Cell>, rows: seq<Joined>, k: Blob)
    requires SortedCells(l) && SortedCells(r) && l != [] && r != [] && Below(l[0].key, r[0].key)
    requires PairsOf(rows, k) == Zip(ValuesOf(l[1..], k), ValuesOf(r, k))
    requires (l[1..] != [] ==> FromKey(rows, l[1].key)) && (l[1..] == [] ==> rows == [])
    ensures PairsOf(rows, k) == Zip(ValuesOf(l, k), ValuesOf(r, k)) && FromKey(rows, l[0].key)
  {
    hide Rank, ValuesOf, PairsOf;
    SortedRest(l);
    ValuesCons(l, k);
    if l[0].key == k {
      BelowAll(r, k);
    }
  }

  lemma SkippedRight(l: seq<Cell>, r: seq<Cell>, k: Blob)
    requires SortedCells(l) && SortedCells(r) && l != [] && r != [] && Below(r[0].key, l[0].key)
    ensures Zip(ValuesOf(l, k), ValuesOf(r, k)) == Zip(ValuesOf(l, k), ValuesOf(r[1..], k))
  {
    hide Rank, ValuesOf;
    ValuesCons(r, k);
    if r[0].key == k {
      BelowAll(l, k);
    }
  }

  /** Over trees without duplicates and without empty leaves the result is the inner join of what they store. */
  lemma JoinExact(t: Tree, u: Tree)
    requires t.Valid() && u.Valid() && StrictCells(t.Contents()) && StrictCells(u.Contents())
    requires !SomeEmpty(t.store, t.LeafChain()) && !SomeEmpty(u.store, u.LeafChain())
    ensures Merge(CursorFeed(t), CursorFeed(u)) == Rows(InnerJoin(t.Contents(), u.Contents()))
  {
    hide Rank, Tree.Valid, Tree.Contents, Tree.LeafChain, Merge, InnerJoin, CursorFeed, SomeEmpty, StrictCells;
    CursorExact(t);
    CursorExact(u);
    MergeIsJoin(t.Contents(), u.Contents());
  }

  /** With an empty first leaf on either side the result is empty, whatever is stored: it is the inner join if and
      only if that is empty too.
   */
  lemma EmptyFirstLeafJoin(t: Tree, u: Tree)
    requires t.Valid() && u.Valid() && t.LeafChain() != [] && u.LeafChain() != []
    requires IsEmptyLeaf(t.store, t.LeafChain()[0]) || IsEmptyLeaf(u.store, u.LeafChain()[0])
    ensures Merge(CursorFeed(t), CursorFeed(u)) == Rows([])
  {
    hide Rank, Tree.Valid, Tree.LeafChain, Lex, FeedOf, IsEmptyLeaf;
    FirstItem(t);
    FirstItem(u);
  }

  /** A cursor that starts at a cell returns it. */
  lemma FirstItem(t: Tree)
    requires t.Valid() && t.LeafChain() != []
    ensures if IsEmptyLeaf(t.store, t.LeafChain()[0]) then CursorFeed(t) == Feed([], false)
      else CursorFeed(t).cells != []
  {
    hide Rank, Tree.Valid, Tree.LeafChain, Cells, WholeLeaf;
    ChainLeaf(t, 0);
  }

  // --- A tree with an empty first leaf ----------------------------------------------------

  /** One cell, in the second of two leaves. */
  function SecondLeaf(value: Blob): Pages {
    map[1 := LeafNode([], 2), 2 := LeafNode([Cell([7], value)], 0), 3 := InnerNode([Sep(1, [7])], 2)]
  }

  /** A tree of these pages stores its cell, but a cursor returns nothing. */
  lemma SecondLeafHidden(t: Tree, value: Blob)
    requires t.Valid() && t.Pages() == SecondLeaf(value) && t.root == 3 && t.height == 1
    ensures t.Contents() == [Cell([7], value)] && CursorFeed(t) == Feed([], false)
    ensures Merge(CursorFeed(t), CursorFeed(t)) == Rows([]) != Rows(InnerJoin(t.Contents(), t.Contents()))
  {
    hide Rank, Tree.Valid, Cells, View, FeedOf, Chained;
    SecondLeafParts(value);
    ChainLeaf(t, 0);
    FirstItem(t);
    EmptyFirstLeafJoin(t, t);
    var all := [Cell([7], value)];
    assert all[1..] == [];
    assert InnerJoin(all, all) != [];
  }

  lemma SecondLeafParts(value: Blob)
    ensures var p := SecondLeaf(value);
      Leaves(p, 3, 1) == [1, 2] && Flatten(p, 3, 1) == [Cell([7], value)]
  {
    var p := SecondLeaf(value);
    var seps := [Sep(1, [7])];
    assert seps[1..] == [];
    assert Leaves(p, 1, 0) == [1] && LeavesAll(p, [], 2, 0) == [2];
    assert LeavesAll(p, seps, 2, 0) == [1] + [2];
    assert Flatten(p, 1, 0) == [] && FlattenAll(p, [], 2, 0) == [Cell([7], value)];
    assert FlattenAll(p, seps, 2, 0) == [] + [Cell([7], value)];
  }

  lemma OneCellCascade(value: Blob, p: Pages)
    requires p == map[1 := LeafNode([Cell([7], value)], 0)]
    ensures LeafOf(p, 1, 0, [8]) == 1 && CanCut(p, 1)
    ensures Cascade(p, 1, 0, [8], 0, [2], 3) == SecondLeaf(value)
  {
    var cells := p[1].cells;
    assert cells[..0] == [] && cells[0..] == cells;
    assert CutUp(p, 1, 0, [8], 0, [2]) == p;
    assert CutUp(p, 1, 0, [8], 1, [2]) == LeafCut(p, 1, 2);
  }

  /** A tree of one leaf, as an insertion sees it. */
  lemma OneLeaf(t: Tree, cells: seq<Cell>, key: Blob)
    requires t.Valid() && t.root == 1 && t.height == 0 && t.Pages() == map[1 := LeafNode(cells, 0)]
    ensures t.LeafCells(key) == cells && t.store.Keys == {1} && NewIds(t.Pages(), [2])
    ensures forall p :: FullHaveSeps(p, 1, 0, key)
    ensures forall other :: Written(t.Pages(), 1, 0, key, other) == map[1 := LeafNode(other, 0)]
    ensures Purged(t.Pages(), 1, 0, key) == map[1 := LeafNode(Purge(cells, key), 0)]
  {
    hide Rank, View, WF, Chained, PageOk;
    ViewKeys(t.store);
  }

  lemma PutFirst(key: Blob, val: Blob)
    ensures Put([], key, val) == [Cell(key, val)]
      && (HasRoom([], key, val) <==> HEADER_SIZE + 4 + |key| + |val| < PAGE_SIZE)
  {
  }

  lemma NoRoomBeside(value: Blob, big: Blob)
    requires |big| == PAGE_SIZE
    ensures var cells := [Cell([7], value)];
      Purge(cells, [8]) == cells && !HasRoom(cells, [8], big) && MiddleKey(cells) == [7] && CleanCut(cells, 0)
  {
    var cells := [Cell([7], value)];
    assert cells[1..] == [];
  }

  lemma SplitAtRoot(p: Pages, key: Blob, need: nat, n: nat, panicked: bool, p': Pages, root': nat, h': nat)
    requires SplitUpTo(p, 1, 0, key, need, n, [2], 3, panicked, p', root', h')
    ensures n == 0 && !panicked && root' == 3 && h' == 1 && CanCut(p, LeafOf(p, 1, 0, key))
    ensures p' == Cascade(p, 1, 0, key, 0, [2], 3)
  {
    hide IsTree, CanCutTo, CanCut, Cascade, CutUp, NoRoom, SafeAt;
  }

  /** Two insertions come to such a tree: the second one does not fit beside the first. */
  method SplitOneCell(value: Blob) returns (t: Tree)
    requires HEADER_SIZE + 5 + |value| < PAGE_SIZE
    ensures t.Valid() && t.Pages() == SecondLeaf(value) && t.root == 3 && t.height == 1
  {
    hide Rank, View, Chained, WF, Lex, SplitUpTo, Cascade, FirstMatch, Tree.Valid, Put, Purge, HasRoom, MiddleKey,
         CleanCut, FullHaveSeps, NewIds, Written, Purged, Tree.Contents, Tree.LeafCells, LeafOf, CanCut, StrictCells;
    t := new Tree(1);
    OneLeaf(t, [], [7]);
    PutFirst([7], value);
    var r, n := t.Insert([7], value, [2], 3);
    ghost var cells := [Cell([7], value)];
    OneLeaf(t, cells, [8]);
    var big := Zeros(PAGE_SIZE);
    NoRoomBeside(value, big);
    ghost var p := t.Pages();
    r, n := t.Insert([8], big, [2], 3);
    SplitAtRoot(Purged(p, 1, 0, [8]), [8], 4 + 1 + |big|, n, r.Panicked?, t.Pages(), t.root, t.height);
    OneCellCascade(value, p);
  }
}
