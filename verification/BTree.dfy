/** The B+ tree over page bytes. Pages are fetched into a buffer, edited there and written back. */
module BTree {
  import opened Bytes
  import opened PageHeader
  import opened LeafPage
  import opened InternalPage
  import opened TreeModel
  import opened TreeOps
  import opened TreeSplit
  import opened TreeLookups
  import opened TreeCascade
  import opened TreeLatch
  import PageSplit
  import PageCells

  /** Page ids fit the 32 bits in which a rightmost child is stored. */
  const MAX_ID: nat := 0x1_0000_0000

  ghost function Decode(d: PageBytes): Node {
    if PageType(d) == TYPE_INTERNAL then InnerNode(Seps(d), Rightmost(d)) else LeafNode(Cells(d), NextLeaf(d))
  }

  /** A leaf or an internal page whose cells all lie inside it. */
  ghost predicate PageOk(d: PageBytes) {
    if PageType(d) == TYPE_INTERNAL then WholeInner(d) else PageType(d) == TYPE_LEAF && WholeLeaf(d)
  }

  ghost function View(store: map<nat, PageBytes>): Pages {
    map id | id in store :: Decode(store[id])
  }

  lemma ViewKeys(store: map<nat, PageBytes>)
    ensures View(store).Keys == store.Keys
  {
    hide Decode;
  }

  lemma ViewUpdate(store: map<nat, PageBytes>, id: nat, d: PageBytes)
    ensures View(store[id := d]) == View(store)[id := Decode(d)]
  {
    hide Decode;
  }

  lemma DecodeLeaf(d: PageBytes, e: PageBytes)
    requires PageType(d) == TYPE_LEAF && SameHeader(e, d)
    ensures PageType(e) == TYPE_LEAF && NextLeaf(e) == NextLeaf(d)
    ensures Decode(d) == LeafNode(Cells(d), NextLeaf(d)) && Decode(e) == LeafNode(Cells(e), NextLeaf(d))
  {
    hide Cells, Seps, Le;
    SameHeaderFields(e, d);
  }

  lemma DecodeInner(store: map<nat, PageBytes>, id: nat)
    requires id in store && PageType(store[id]) == TYPE_INTERNAL
    ensures View(store)[id] == InnerNode(Seps(store[id]), Rightmost(store[id]))
  {
    hide Seps, Cells, Rightmost, PageType;
  }

  lemma DecodeOther(store: map<nat, PageBytes>, id: nat)
    requires id in store && PageType(store[id]) != TYPE_INTERNAL
    ensures View(store)[id] == LeafNode(Cells(store[id]), NextLeaf(store[id]))
  {
    hide Seps, Cells, NextLeaf, PageType;
  }

  /** One step of a descent. */
  lemma Descend(p: Pages, id: nat, h: nat, lo: Bound, hi: Bound, key: Blob)
    requires WF(p, id, h, lo, hi) && InRange(key, lo, hi) && p[id].InnerNode?
    ensures h > 0
    ensures var c, r := Route(p[id].seps, p[id].right, key), ChildRange(p[id].seps, lo, hi, key);
      && WF(p, c, h - 1, r.0, r.1) && InRange(key, r.0, r.1)
      && NodeAt(p, id, h, key, 0) == NodeAt(p, c, h - 1, key, 0)
      && (h > 1 ==> NodeAt(p, id, h, key, 1) == NodeAt(p, c, h - 1, key, 1))
      && (h == 1 ==> NodeAt(p, id, h, key, 1) == id)
  {
    hide Rank, Lex, WFAll, Route, ChildRange;
    PathAllWF(p, p[id].seps, p[id].right, h - 1, lo, hi, key);
  }

  /** A descent ends at a leaf page. */
  lemma Arrive(p: Pages, id: nat, h: nat, lo: Bound, hi: Bound, key: Blob)
    requires WF(p, id, h, lo, hi) && p[id].LeafNode?
    ensures h == 0 && NodeAt(p, id, h, key, 0) == id
  {
    hide Rank, WFAll;
  }

  lemma ZeroField(n: nat)
    ensures Le(Zeros(n)) == 0
  {
    if n > 0 {
      ZeroField(n - 1);
      assert Zeros(n)[1..] == Zeros(n - 1);
    }
  }

  /** A page of zeros but for its type is an empty leaf without a neighbour. */
  lemma EmptyLeaf(d: PageBytes)
    requires d == Splice(Zeros(PAGE_SIZE), 0, PutLe(TYPE_LEAF, 2))
    ensures PageOk(d) && Decode(d) == LeafNode([], 0) && Cleared(d)
  {
    hide Le, PutLe, Splice;
    LePut2(TYPE_LEAF);
    var z := Zeros(PAGE_SIZE);
    SpliceOutside(z, 0, PutLe(TYPE_LEAF, 2), 2, 4);
    SpliceOutside(z, 0, PutLe(TYPE_LEAF, 2), 4, 12);
    assert d[0..2] == PutLe(TYPE_LEAF, 2);
    assert z[2..4] == Zeros(2);
    assert z[4..12] == Zeros(8);
    assert z[HEADER_SIZE..HEADER_SIZE + 4] == Zeros(4);
    AtOutside(z, 0, PutLe(TYPE_LEAF, 2), HEADER_SIZE, Zeros(4));
    ZeroField(2);
    ZeroField(8);
  }

  class Tree {
    var store: map<nat, PageBytes>
    var root: nat
    ghost var height: nat

    ghost function Pages(): TreeModel.Pages
      reads this
    {
      View(store)
    }

    /** Everything stored, in key order. */
    ghost function Contents(): seq<Cell>
      reads this
    {
      Flatten(Pages(), root, height)
    }

    ghost function LeafChain(): seq<nat>
      reads this
    {
      Leaves(Pages(), root, height)
    }

    /** Every page is well formed by itself. */
    ghost predicate Stored()
      reads this
    {
      forall id :: id in store ==> id < MAX_ID && PageOk(store[id])
    }

    /** Empty leaves have zeros behind the header. */
    ghost predicate Blank()
      reads this
    {
      forall id :: id in store && PageType(store[id]) == TYPE_LEAF ==> ClearedIfEmpty(store[id])
    }

    ghost predicate Valid()
      reads this
    {
      && Stored()
      && IsTree(Pages(), root, height)
      && Chained(Pages(), LeafChain())
    }

    /** A tree of one empty leaf. */
    constructor (root: nat)
      requires root < MAX_ID
      ensures Valid() && Contents() == [] && this.root == root && height == 0
      ensures Pages() == map[root := LeafNode([], 0)] && Blank()
    {
      hide Rank, WholeLeaf, Cells, Seps, Le, PutLe, Cleared;
      var page := Splice(Zeros(PAGE_SIZE), 0, PutLe(TYPE_LEAF, 2));
      store := map[root := page];
      this.root := root;
      height := 0;
      new;
      EmptyLeaf(page);
      assert View(store)[root] == LeafNode([], 0);
    }

    /** The cells of the leaf responsible for a key. */
    ghost function LeafCells(key: Blob): seq<Cell>
      requires Valid()
      reads this
    {
      LeafIsLeaf(Pages(), root, height, key);
      Pages()[LeafOf(Pages(), root, height, key)].cells
    }

    /** Reads a page into a buffer of its own. */
    method Fetch(id: nat) returns (a: array<Byte>)
      requires id in store
      ensures fresh(a) && a.Length == PAGE_SIZE && a[..] == store[id]
    {
      a := new Byte[PAGE_SIZE];
      Store(a, 0, store[id]);
    }

    /** Descends from the root to the leaf responsible for a key, remembering the page above it. */
    method FindLeaf(key: Blob) returns (id: nat, parent: nat)
      requires Valid()
      ensures id == LeafOf(Pages(), root, height, key)
      ensures id in store && PageType(store[id]) == TYPE_LEAF && WholeLeaf(store[id])
      ensures Pages()[id] == LeafNode(Cells(store[id]), NextLeaf(store[id]))
      ensures height > 0 ==> parent == NodeAt(Pages(), root, height, key, 1)
      ensures height == 0 ==> id == root
    {
      hide Rank, Lex, WF, NodeAt, Decode, Route, ChildRange, Leaves, Flatten, Chained, Seps, Cells, Le;
      id, parent := root, root;
      ghost var h: nat := height;
      ghost var lo, hi := Open, Open;
      StartsInStore(Pages(), root, height);
      while PageType(store[id]) == TYPE_INTERNAL
        invariant id in store
        invariant h <= height && WF(Pages(), id, h, lo, hi) && InRange(key, lo, hi)
        invariant NodeAt(Pages(), id, h, key, 0) == LeafOf(Pages(), root, height, key)
        invariant h > 0 ==> NodeAt(Pages(), id, h, key, 1) == NodeAt(Pages(), root, height, key, 1)
        invariant h == 0 && height > 0 ==> parent == NodeAt(Pages(), root, height, key, 1)
        invariant h == height ==> id == root
        decreases h
      {
        var a := Fetch(id);
        var child := FindChild(a, key);
        DecodeInner(store, id);
        Descend(Pages(), id, h, lo, hi, key);
        ghost var r := ChildRange(Pages()[id].seps, lo, hi, key);
        InStore(Pages(), child, h - 1, r.0, r.1);
        parent := id;
        id, h, lo, hi := child, h - 1, r.0, r.1;
      }
      DecodeOther(store, id);
      Arrive(Pages(), id, h, lo, hi, key);
    }

    /** Looks a key up: the answer is that of a search through everything stored. */
    method Get(key: Blob) returns (r: Found)
      requires Valid()
      ensures r == FirstMatch(Contents(), key)
      ensures match r
              case Missing => forall i :: 0 <= i < |Contents()| ==> Contents()[i].key != key
              case Hit(v) =>
                exists i :: 0 <= i < |Contents()| && Contents()[i] == Cell(key, v) && Avoids(Contents()[..i], key)
    {
      hide Rank, WF, NodeAt, Decode, FirstMatch, Flatten, Cells, Chained, Leaves, View;
      var id, _ := FindLeaf(key);
      var a := Fetch(id);
      r := LeafPage.Get(a, key);
      LookupRefines(Pages(), root, height, key);
      FirstMatchIs(Contents(), key);
    }

    /** Writes back a leaf whose cells changed and whose header did not. */
    method WriteBack(id: nat, a: array<Byte>, ghost key: Blob)
      requires Valid() && id == LeafOf(Pages(), root, height, key)
      requires id in store && PageType(store[id]) == TYPE_LEAF && a.Length == PAGE_SIZE
      requires SameHeader(a[..], store[id]) && WholeLeaf(a[..])
      requires id in Pages() && Pages()[id].LeafNode?
      requires var p' := Pages()[id := Pages()[id].(cells := Cells(a[..]))];
        IsTree(p', root, height) && Leaves(p', root, height) == LeafChain()
      modifies this
      ensures root == old(root) && height == old(height)
      ensures store == old(store)[id := a[..]]
      ensures Pages() == old(Pages())[id := old(Pages()[id]).(cells := Cells(a[..]))]
      ensures Valid() && PageType(store[id]) == TYPE_LEAF
      ensures old(Blank()) && ClearedIfEmpty(a[..]) ==> Blank()
      ensures Pages()[id] == LeafNode(Cells(store[id]), NextLeaf(store[id]))
    {
      hide Rank, WF, NodeAt, Flatten, Leaves, Cells, Seps, Chained, SameHeader, Decode, Le, ClearedIfEmpty;
      ViewUpdate(store, id, a[..]);
      DecodeOther(store, id);
      DecodeLeaf(store[id], a[..]);
      LeafPageOk(a[..]);
      ChainKept(Pages(), id, Cells(a[..]), LeafChain());
      store := store[id := a[..]];
    }

    /** Deletes the first cell of a key from the tree; the others keep their order. */
    method Delete(key: Blob) returns (found: bool)
      requires Valid()
      modifies this
      ensures Valid() && root == old(root) && height == old(height)
      ensures found <==> FirstMatch(old(Contents()), key).Hit?
      ensures Contents() == DropFirst(old(Contents()), key) && (old(Blank()) ==> Blank())
      ensures var was := old(Contents());
        if found then exists i :: 0 <= i < |was| && FirstOut(was, key, i, Contents())
        else Contents() == was && Avoids(was, key)
      ensures StrictCells(old(Contents())) ==> Contents() == Purge(old(Contents()), key) && StrictCells(Contents())
    {
      hide ClearedIfEmpty, Rank, WF, NodeAt, Flatten, Leaves, Cells, Chained, SameHeader, Decode, Le, DropFirst,
           FirstMatch, View, WholeLeaf, StrictCells, Purge;
      var id, _ := FindLeaf(key);
      var a := Fetch(id);
      found := LeafPage.Delete(a, key);
      DropRefines(Pages(), root, height, key);
      LookupRefines(Pages(), root, height, key);
      MatchExists(Cells(store[id]), key);
      MatchExists(Contents(), key);
      DropFirstIs(Contents(), key);
      if StrictCells(Contents()) {
        DropFirstStrict(Contents(), key);
        PurgeStrict(Contents(), key);
      }
      WriteBack(id, a, key);
    }

    /** Descends to the leaf responsible for a key and keeps the pages latched that may have to change: a page that is
        safe for `need` bytes lets go of those above it.
     */
    method LatchPath(key: Blob, need: nat) returns (id: nat, latched: seq<nat>)
      requires Valid()
      ensures id == LeafOf(Pages(), root, height, key)
      ensures id in store && PageType(store[id]) == TYPE_LEAF && WholeLeaf(store[id])
      ensures Pages()[id] == LeafNode(Cells(store[id]), NextLeaf(store[id]))
      ensures Latched(Pages(), root, height, key, 0, need, latched)
    {
      hide Rank, Lex, WF, NodeAt, Decode, Route, Leaves, Flatten, Chained, Seps, Cells, Le, Latched, View, SafeAt, Safe;
      id, latched := root, [root];
      ghost var i: nat := height;
      LatchRoot(Pages(), root, height, key, need);
      ViewKeys(store);
      while PageType(store[id]) == TYPE_INTERNAL
        invariant id in store && i <= height && id == NodeAt(Pages(), root, height, key, i)
        invariant Latched(Pages(), root, height, key, i, need, latched)
        decreases i
      {
        var a := Fetch(id);
        var child := FindChild(a, key);
        DecodeInner(store, id);
        LevelDown(Pages(), root, height, key, i);
        var b := Fetch(child);
        var safe := PageCells.IsSafeForInsert(b, need);
        SafePage(store, child, need);
        SafeAtIs(Pages(), root, height, key, i - 1, need);
        LatchChild(Pages(), root, height, key, i, need, latched, child);
        if safe {
          latched := [];
        }
        latched := latched + [child];
        id, i := child, i - 1;
      }
      DecodeOther(store, id);
      CutHeights(Pages(), root, height, key, i);
    }

    /** The pages of `p` cut up to level `i`, and what the next steps of the promotion need. */
    ghost predicate Climbing(p: TreeModel.Pages, key: Blob, i: nat, ids: seq<nat>, newRoot: nat)
      reads this
    {
      && Stored() && IsTree(p, root, height) && (forall x :: x in p ==> x < MAX_ID)
        && FullHaveSeps(p, root, height, key)
      && i <= height + 1 == |ids| && CanCutTo(p, root, height, key, i)
      && Pages() == CutUp(p, root, height, key, i, ids)
      && NewIds(p, ids) && (forall x :: x in ids ==> 0 < x < MAX_ID)
      && newRoot !in p && newRoot !in ids && newRoot < MAX_ID
    }

    /** Puts the pivot of the split page at level `i` into the page above it; where there is no room that page is split
        instead, and the pivot is dropped.
     */
    method PromoteToParent(left: nat, right: nat, pivot: Blob, latched: seq<nat>, ids: seq<nat>, newRoot: nat,
                           i: nat, ghost p: TreeModel.Pages, ghost key: Blob)
      returns (done: bool, ghost n: nat)
      requires i <= height && Climbing(p, key, i + 1, ids, newRoot) && OnPath(p, root, height, key, i, latched)
      requires left == NodeAt(p, root, height, key, i) && right == ids[i]
      requires CanCut(p, left) && pivot == Offered(p, left)
      requires i == height ==> HEADER_SIZE + 10 + |pivot| <= PAGE_SIZE
      modifies this
      ensures Stored() && (old(Blank()) ==> Blank())
      ensures Ended(p, old(root), old(height), key, i, n, ids, newRoot, i + |latched| - 1, done, Pages(), root, height)
      decreases |latched|, 0
    {
      hide ClearedIfEmpty, Rank, WF, NodeAt, View, Seps, Cells, Le, CutUp, WithPivot, Used, CanCut, Offered, PageOk,
           FullHaveSeps, HasSeps, OnPath, CanCutTo, NewIds;
      n := i;
      assert right in ids;
      RootLevel(p, root, height, key, i);
      LastLevel(p, root, height, key, i, latched);
      if left == root {
        PromoteToRoot(pivot, left, right, newRoot);
        done := true;
      } else if |latched| < 2 {
        done := false;
      } else {
        OnPathBelow(p, root, height, key, i, latched);
        var parent := latched[|latched| - 2];
        ParentKept(p, root, height, key, i, ids);
        ViewKeys(store);
        done := InsertPivot(pivot, left, right, parent);
        RoomAbove(p, root, height, key, i);
        if !done {
          CanCutNext(p, root, height, key, i);
          done, n := SplitInternalNode(parent, latched[..|latched| - 1], ids, newRoot, i + 1, p, key);
        }
      }
    }

    /** Splits the internal page at level `i`, which had no room, and promotes its own pivot. */
    method SplitInternalNode(id: nat, latched: seq<nat>, ids: seq<nat>, newRoot: nat, i: nat,
                             ghost p: TreeModel.Pages, ghost key: Blob)
      returns (done: bool, ghost n: nat)
      requires 1 <= i <= height && Climbing(p, key, i, ids, newRoot) && OnPath(p, root, height, key, i, latched)
      requires id == NodeAt(p, root, height, key, i) && CanCutTo(p, root, height, key, i + 1)
      modifies this
      ensures Stored() && (old(Blank()) ==> Blank())
      ensures Ended(p, old(root), old(height), key, i, n, ids, newRoot, i + |latched| - 1, done, Pages(), root, height)
      decreases |latched|, 1
    {
      hide ClearedIfEmpty, Rank, WF, NodeAt, View, Seps, Cells, Le, CutUp, Cut, InnerCut, PageOk, Decode,
           FullHaveSeps, OnPath, CanCutTo, NewIds, Ended, WholeInner;
      ViewKeys(store);
      assert ids[i] in ids;
      InnerKept(p, root, height, key, i, ids);
      InnerPageOk(store, id);
      SepFits(store[id], |Seps(store[id])| / 2);
      var a := Fetch(id);
      var b := new Byte[PAGE_SIZE];
      var pivot := PageSplit.SplitInternal(a, b);
      InnerDecoded(a[..]);
      InnerDecoded(b[..]);
      ViewUpdate(store, id, a[..]);
      ViewUpdate(store[id := a[..]], ids[i], b[..]);
      InnerCutIs(Pages(), id, ids[i]);
      CutUpStep(p, root, height, key, i, ids);
      store := store[id := a[..]][ids[i] := b[..]];
      done, n := PromoteToParent(id, ids[i], pivot, latched, ids, newRoot, i, p, key);
    }

    /** Splits the leaf responsible for a key, whatever it holds, and promotes its middle key. */
    method SplitLeaf(id: nat, latched: seq<nat>, ids: seq<nat>, newRoot: nat, ghost key: Blob)
      returns (done: bool, ghost n: nat)
      requires Valid() && Climbing(Pages(), key, 0, ids, newRoot) && OnPath(Pages(), root, height, key, 0, latched)
      requires id == LeafOf(Pages(), root, height, key) && id in store
      requires PageType(store[id]) == TYPE_LEAF && WholeLeaf(store[id])
      requires Pages()[id] == LeafNode(Cells(store[id]), NextLeaf(store[id]))
      requires height == 0 ==> HEADER_SIZE + 10 + |MiddleKey(LeafCells(key))| <= PAGE_SIZE
      modifies this
      ensures Stored() && (old(Blank()) ==> Blank())
      ensures Ended(old(Pages()), old(root), old(height), key, 0, n, ids, newRoot, |latched| - 1, done, Pages(), root,
                    height)
    {
      hide ClearedIfEmpty, Rank, WF, NodeAt, View, Cells, Le, Cut, LeafCut, PageOk, Decode, FullHaveSeps, OnPath,
           NewIds, Ended, WholeLeaf, Leaves, Chained, Flatten, MiddleKey;
      ghost var p := Pages();
      ViewKeys(store);
      assert ids[0] in ids;
      var a := Fetch(id);
      var b := new Byte[PAGE_SIZE];
      var midKey := PageSplit.SplitLeaf(a, b, ids[0]);
      LeafPageOk(a[..]);
      LeafPageOk(b[..]);
      ViewUpdate(store, id, a[..]);
      ViewUpdate(store[id := a[..]], ids[0], b[..]);
      LeafCutIs(p, root, height, key, ids);
      store := store[id := a[..]][ids[0] := b[..]];
      done, n := PromoteToParent(id, ids[0], midKey, latched, ids, newRoot, 0, p, key);
    }

    /** Puts a new root above the two halves of the old root page. */
    method PromoteToRoot(pivot: Blob, left: nat, right: nat, newRoot: nat)
      requires Stored() && left < MAX_ID && right < MAX_ID && newRoot < MAX_ID
        && HEADER_SIZE + 10 + |pivot| <= PAGE_SIZE
      modifies this
      ensures Stored() && (old(Blank()) ==> Blank()) && root == newRoot && height == old(height) + 1
      ensures Pages() == old(Pages())[newRoot := InnerNode([Sep(left, pivot)], right)]
    {
      hide ClearedIfEmpty, Rank, WF, Seps, Le, View, WholeInner, PageOk, Decode;
      var c := new Byte[PAGE_SIZE];
      PageSplit.FormatRoot(c, pivot, left, right);
      InnerDecoded(c[..]);
      ViewUpdate(store, newRoot, c[..]);
      store := store[newRoot := c[..]];
      root, height := newRoot, height + 1;
    }

    /** Inserts the pivot of a split page into the page above it, if there is room. */
    method InsertPivot(pivot: Blob, left: nat, right: nat, parent: nat) returns (ok: bool)
      requires Stored() && left < MAX_ID && right < MAX_ID && parent in store && Pages()[parent].InnerNode?
      modifies this
      ensures Stored() && (old(Blank()) ==> Blank()) && root == old(root) && height == old(height)
      ensures ok <==> Safe(old(Pages()[parent]), 10 + |pivot|)
      ensures ok ==> Pages() == old(Pages())[parent := WithPivot(old(Pages()[parent]), pivot, left, right)]
      ensures !ok ==> Pages() == old(Pages())
    {
      hide ClearedIfEmpty, Rank, WF, Seps, Le, View, WholeInner, InsertSep, InsertRight, PageOk, Decode,
           InternalPage.Size;
      var q := Fetch(parent);
      InnerPageOk(store, parent);
      ok := InsertIntoInternal(q, pivot, left, right);
      if ok {
        InnerDecoded(q[..]);
        ViewUpdate(store, parent, q[..]);
        store := store[parent := q[..]];
      }
    }

    /** Inserts a key. With room in the leaf, once the old cells of the key are gone, the key has the new value
        afterwards and all other keys keep theirs. Otherwise the leaf without the key is split and with it the `n`
        pages above it that have no room; the key ends up absent, and the caller is told nothing about it.
     */
    method Insert(key: Blob, val: Blob, ids: seq<nat>, newRoot: nat) returns (r: Outcome, ghost n: nat)
      requires Valid()
      requires !HasRoom(LeafCells(key), key, val) ==>
        var p := Purged(Pages(), root, height, key);
        && FullHaveSeps(p, root, height, key)
        && (height == 0 ==> HEADER_SIZE + 10 + |MiddleKey(Purge(LeafCells(key), key))| <= PAGE_SIZE)
      requires |ids| == height + 1 && NewIds(Pages(), ids) && (forall x :: x in ids ==> 0 < x < MAX_ID)
      requires newRoot !in store && newRoot !in ids && newRoot < MAX_ID
      modifies this
      ensures Stored() && (old(Blank()) ==> Blank()) && (r.Inserted? <==> old(HasRoom(LeafCells(key), key, val)))
      ensures r.Inserted? ==> Valid() && Contents() == Put(old(Contents()), key, val)
      ensures r.Inserted? ==> root == old(root) && height == old(height)
      ensures r.Inserted? ==>
        Pages() == Written(old(Pages()), old(root), old(height), key, old(Put(LeafCells(key), key, val)))
      ensures r.Inserted? ==> forall other ::
        FirstMatch(Contents(), other) == if other == key then Hit(val) else FirstMatch(old(Contents()), other)
      ensures !r.Inserted? ==>
        SplitUpTo(Purged(old(Pages()), old(root), old(height), key), old(root), old(height), key, 4 + |key| + |val|, n,
                  ids, newRoot, r.Panicked?, Pages(), root, height)
      ensures !r.Inserted? ==> Lookup(Pages(), root, height, key) == Missing
      ensures !r.Inserted? ==> exists leaves ::
        Chained(Pages(), leaves) && FlatLeaves(Pages(), leaves) == Purge(old(Contents()), key)
      ensures var rest := old(Purge(LeafCells(key), key));
        !r.Inserted? && n == 0 && rest != [] && (CleanCut(rest, |rest| / 2) || StrictCells(old(Contents()))) ==>
          && Valid() && Contents() == Purge(old(Contents()), key)
          && forall other ::
               FirstMatch(Contents(), other) == if other == key then Missing else FirstMatch(old(Contents()), other)
      ensures StrictCells(old(Contents())) && (r.Inserted? || (n == 0 && old(Purge(LeafCells(key), key)) != [])) ==>
        StrictCells(Contents())
    {
      hide ClearedIfEmpty, Rank, WF, NodeAt, Flatten, Leaves, Cells, Chained, SameHeader, Decode, Le, Purge, Put,
           FirstMatch, View, WholeLeaf, HasRoom, InternalPage.Size, LeafPage.Size, StrictCells, Lookup, CleanCut,
           Latched, Ended, OnPath, NewIds, FullHaveSeps, MiddleKey, SplitUpTo, FlatLeaves;
      ghost var p, all := Pages(), Contents();
      var id, latched := LatchPath(key, 4 + |key| + |val|);
      var a := Fetch(id);
      var inserted := InsertIntoLeaf(a, key, val);
      PutRefines(p, root, height, key, val);
      PurgeRefines(p, root, height, key);
      WriteBack(id, a, key);
      PutAnswers(all, key, val);
      KeptStrict(all, key, val);
      r := Inserted;
      n := 0;
      if !inserted {
        StartClimb(p, root, height, key, val, latched, ids);
        ViewKeys(old(store));
        ViewKeys(store);
        StrictCut(p, root, height, key);
        ghost var p1, root1, h1 := Pages(), root, height;
        var done: bool;
        done, n := SplitLeaf(id, latched, ids, newRoot, key);
        SplitEnds(p1, root1, h1, key, 4 + |key| + |val|, latched, n, ids, newRoot, done, Pages(), root, height);
        PurgedMissing(p, root1, h1, key, 4 + |key| + |val|, n, ids, newRoot, !done, Pages(), root, height);
        ghost var leaves := ChainEnds(p1, root1, h1, key, latched, n, ids, newRoot, done, Pages(), root, height);
        CleanEnds(p1, root1, h1, key, latched, n, ids, newRoot, done, Pages(), root, height);
        r := if done then Split else Panicked;
      }
    }
  }

  /** How an insertion ends. After a panic the latched pages stay latched. */
  datatype Outcome = Inserted | Split | Panicked

  /** The split of a leaf below `n` full pages, as lookups see it, and when it panics. */
  ghost predicate SplitUpTo(p: Pages, root: nat, h: nat, key: Blob, need: nat, n: nat, ids: seq<nat>, newRoot: nat,
                            panicked: bool, p': Pages, root': nat, h': nat) {
    && IsTree(p, root, h) && n <= h && n < |ids| && CanCutTo(p, root, h, key, n + 1)
    && CanCut(p, NodeAt(p, root, h, key, n))
    && (forall j: nat :: 1 <= j <= n ==> NoRoom(p, root, h, key, j))
    && (panicked <==> exists m: nat :: PanicsAt(p, root, h, key, need, m))
    && (panicked ==> PanicsAt(p, root, h, key, need, n) && root' == root && h' == h)
    && (panicked ==> p' == CutUp(p, root, h, key, n + 1, ids))
    && (panicked ==> forall other :: Lookup(p', root', h', other) == CutAnswer(p, root, h, key, n + 1, other))
    && (!panicked && n < h ==> !NoRoom(p, root, h, key, n + 1))
    && (!panicked ==> root' == TopAfter(root, h, n, newRoot) && h' == HeightAfter(h, n))
    && (!panicked ==> p' == Cascade(p, root, h, key, n, ids, newRoot))
    && (!panicked ==> forall other :: Lookup(p', root', h', other) == CascadeAnswer(p, root, h, key, n, other))
  }

  /** The pages once the leaf responsible for a key holds other cells. */
  ghost function Written(p: Pages, root: nat, h: nat, key: Blob, cells: seq<Cell>): Pages {
    var c := LeafOf(p, root, h, key);
    if c in p && p[c].LeafNode? then p[c := p[c].(cells := cells)] else p
  }

  /** The pages once the leaf responsible for a key is purged of it. */
  ghost function Purged(p: Pages, root: nat, h: nat, key: Blob): Pages {
    var c := LeafOf(p, root, h, key);
    if c in p && p[c].LeafNode? then Written(p, root, h, key, Purge(p[c].cells, key)) else p
  }

  // --- The descent of an insertion --------------------------------------------------------

  lemma LatchRoot(p: Pages, root: nat, h: nat, key: Blob, need: nat)
    requires IsTree(p, root, h)
    ensures root in p && NodeAt(p, root, h, key, h) == root && Latched(p, root, h, key, h, need, [root])
  {
    hide Rank, WFAll;
  }

  lemma LevelDown(p: Pages, root: nat, h: nat, key: Blob, i: nat)
    requires IsTree(p, root, h) && i <= h
    requires var c := NodeAt(p, root, h, key, i); c in p && p[c].InnerNode?
    ensures i > 0
    ensures var c, d := NodeAt(p, root, h, key, i), NodeAt(p, root, h, key, i - 1);
      d == Route(p[c].seps, p[c].right, key) && d in p
  {
    hide Rank, Lex, NodeAt, RangeAt, WF, Route, ChildRange;
    CutHeights(p, root, h, key, i);
    PathStep(p, root, h, Open, Open, key, i - 1);
    CutHeights(p, root, h, key, i - 1);
  }

  /** The test on the bytes is the one on the cells. */
  lemma SafePage(store: map<nat, PageBytes>, id: nat, need: nat)
    requires id in store && PageOk(store[id])
    ensures var d := store[id];
      var leaf := PageType(d) == TYPE_LEAF;
      Safe(View(store)[id], need) <==>
      PageCells.Whole(leaf, d) && HEADER_SIZE + |PageCells.Pack(PageCells.RawCells(leaf, d))| + need < PAGE_SIZE
  {
    hide PageCells.Pack, PageCells.RawCells, LeafPage.Size, InternalPage.Size, Cells, Seps, Le, PageCells.Whole;
    if PageType(store[id]) == TYPE_LEAF {
      LeafPage.PageUse(store[id]);
    } else {
      InternalPage.PageUse(store[id]);
    }
  }

  lemma SafeAtIs(p: Pages, root: nat, h: nat, key: Blob, i: nat, need: nat)
    requires i <= h && NodeAt(p, root, h, key, i) in p
    ensures SafeAt(p, root, h, key, i, need) <==> Safe(p[NodeAt(p, root, h, key, i)], need)
  {
  }

  // --- The way up -------------------------------------------------------------------------

  lemma RootLevel(p: Pages, root: nat, h: nat, key: Blob, i: nat)
    requires IsTree(p, root, h) && i <= h
    ensures NodeAt(p, root, h, key, i) == root <==> i == h
    ensures NodeAt(p, root, h, key, i) in p
  {
    hide Rank, Lex, NodeAt, RangeAt, WFAll;
    PathWF(p, root, h, Open, Open, key, i);
    WholeRange(p, root, h, key);
    var c, r := NodeAt(p, root, h, key, i), RangeAt(p, root, h, Open, Open, key, i);
    if c == root {
      OneHeight(p, c, i, r.0, r.1, h, Open, Open);
    }
  }

  lemma LastLevel(p: Pages, root: nat, h: nat, key: Blob, i: nat, latched: seq<nat>)
    requires OnPath(p, root, h, key, i, latched)
    ensures 1 <= |latched| && i + |latched| - 1 <= h
  {
  }

  /** The page above the cut ones is as it was. */
  lemma ParentKept(p: Pages, root: nat, h: nat, key: Blob, i: nat, ids: seq<nat>)
    requires i < h && i < |ids| && IsTree(p, root, h) && CanCutTo(p, root, h, key, i + 1) && NewIds(p, ids)
    ensures var q, b := NodeAt(p, root, h, key, i + 1), CutUp(p, root, h, key, i + 1, ids);
      q in p && p[q].InnerNode? && q in b && b[q] == p[q]
  {
    hide Rank, Lex, NodeAt, RangeAt, WF, CutUp, CanCut;
    CutUpAbove(p, root, h, key, i + 1, ids, key, i + 1);
    CutHeights(p, root, h, key, i + 1);
  }

  lemma RoomAbove(p: Pages, root: nat, h: nat, key: Blob, i: nat)
    requires i < h && CanCut(p, NodeAt(p, root, h, key, i)) && NodeAt(p, root, h, key, i + 1) in p
    ensures NoRoom(p, root, h, key, i + 1) <==>
      !Safe(p[NodeAt(p, root, h, key, i + 1)], 10 + |Offered(p, NodeAt(p, root, h, key, i))|)
  {
    hide NodeAt, Offered, CanCut, Safe;
  }

  lemma CanCutNext(p: Pages, root: nat, h: nat, key: Blob, i: nat)
    requires i < h && CanCutTo(p, root, h, key, i + 1) && NoRoom(p, root, h, key, i + 1)
      && FullHaveSeps(p, root, h, key)
    ensures CanCutTo(p, root, h, key, i + 2)
  {
    hide NodeAt, NoRoom;
  }

  /** The page that is split next is as it was, and its parts are ids and keys that fit. */
  lemma InnerKept(p: Pages, root: nat, h: nat, key: Blob, i: nat, ids: seq<nat>)
    requires 1 <= i <= h && i < |ids| && IsTree(p, root, h) && CanCutTo(p, root, h, key, i + 1) && NewIds(p, ids)
    requires CanCutTo(p, root, h, key, i)
    ensures var c, b := NodeAt(p, root, h, key, i), CutUp(p, root, h, key, i, ids);
      && HasSeps(p, c) && HasSeps(b, c) && b[c] == p[c] && p[c].seps[|p[c].seps| / 2].child in p
      && CanCut(p, c) && Offered(p, c) == PivotOf(b, c)
  {
    hide Rank, Lex, NodeAt, RangeAt, WF, CutUp, CanCutTo, WFAll;
    CutUpAbove(p, root, h, key, i, ids, key, i);
    CanCutLess(p, root, h, key, i);
    PathWF(p, root, h, Open, Open, key, i);
    var c, r := NodeAt(p, root, h, key, i), RangeAt(p, root, h, Open, Open, key, i);
    MiddleChild(p, c, i, r, |p[c].seps| / 2);
  }

  lemma MiddleChild(p: Pages, c: nat, h: nat, r: (Bound, Bound), mid: nat)
    requires h > 0 && WF(p, c, h, r.0, r.1) && p[c].InnerNode? && mid < |p[c].seps|
    ensures p[c].seps[mid].child in p
  {
    hide Rank, WFAll;
    ChildrenIn(p, p[c].seps, p[c].right, h - 1, r.0, r.1, mid);
  }

  lemma {:induction false} ChildrenIn(p: Pages, seps: seq<Sep>, right: nat, h: nat, lo: Bound, hi: Bound, mid: nat)
    requires WFAll(p, seps, right, h, lo, hi) && mid < |seps|
    ensures seps[mid].child in p
    decreases mid
  {
    hide Rank;
    if mid > 0 {
      ChildrenIn(p, seps[1..], right, h, Key(seps[0].key), hi, mid - 1);
    }
  }

  /** A separator of a page fits a page of its own. */
  lemma SepFits(d: PageBytes, i: nat)
    requires WholeInner(d) && i < |Seps(d)|
    ensures HEADER_SIZE + 10 + |Seps(d)[i].key| <= PAGE_SIZE
  {
    hide WholeInner, Seps, InternalPage.Size;
    InternalPage.PageUse(d);
    SepInSize(Seps(d), i);
  }

  lemma {:induction false} SepInSize(seps: seq<Sep>, i: nat)
    requires i < |seps|
    ensures 10 + |seps[i].key| <= InternalPage.Size(seps)
    decreases i
  {
    if i > 0 {
      SepInSize(seps[1..], i - 1);
    }
  }

  lemma InnerCutIs(p: Pages, c: nat, newId: nat)
    requires HasSeps(p, c)
    ensures var seps, mid := p[c].seps, |p[c].seps| / 2;
      InnerCut(p, c, newId)
      == p[c := InnerNode(seps[..mid], seps[mid].child)][newId := InnerNode(seps[mid + 1..], p[c].right)]
  {
  }

  lemma LeafCutIs(p: Pages, root: nat, h: nat, key: Blob, ids: seq<nat>)
    requires ids != [] && LeafOf(p, root, h, key) in p && p[LeafOf(p, root, h, key)].LeafNode?
    ensures var c := LeafOf(p, root, h, key);
      var cells, mid := p[c].cells, |p[c].cells| / 2;
      && CutUp(p, root, h, key, 1, ids)
         == p[c := LeafNode(cells[..mid], ids[0])][ids[0] := LeafNode(cells[mid..], p[c].next)]
      && CanCutTo(p, root, h, key, 1) && CanCut(p, c)
      && Offered(p, c) == (if cells == [] then [] else cells[mid].key) == MiddleKey(cells)
  {
    hide NodeAt;
    assert CutUp(p, root, h, key, 0, ids) == p;
  }

  // --- A whole insertion ------------------------------------------------------------------

  lemma {:induction false} PurgeSize(cells: seq<Cell>, key: Blob)
    ensures LeafPage.Size(Purge(cells, key)) <= LeafPage.Size(cells)
  {
    if cells != [] {
      PurgeSize(cells[1..], key);
    }
  }

  /** A leaf without room for the key keeps the page above it latched, also once it is purged. */
  lemma StartClimb(p: Pages, root: nat, h: nat, key: Blob, val: Blob, latched: seq<nat>, ids: seq<nat>)
    requires IsTree(p, root, h) && Latched(p, root, h, key, 0, 4 + |key| + |val|, latched)
    requires var c := LeafOf(p, root, h, key); c in p && p[c].LeafNode? && !HasRoom(p[c].cells, key, val)
    ensures var c, p' := LeafOf(p, root, h, key), Purged(p, root, h, key);
      && LeafOf(p', root, h, key) == c && |latched| > 0 && (h > 0 ==> |latched| > 1)
      && Latched(p', root, h, key, 0, 4 + |key| + |val|, latched) && OnPath(p', root, h, key, 0, latched)
      && (NewIds(p, ids) ==> NewIds(p', ids))
  {
    hide Rank, Lex, NodeAt, WF, LeafPage.Size, InternalPage.Size, Purge;
    var c, p' := LeafOf(p, root, h, key), Purged(p, root, h, key);
    PurgeSize(p[c].cells, key);
    SameRoute(p, p', root, h, Open, Open, key, c, 0);
    if h > 0 {
      SameLevels(p, p', root, h, key, 4 + |key| + |val|, latched);
    }
  }

  /** What a split comes to, in terms of lookups. */
  lemma SplitEnds(p: Pages, root: nat, h: nat, key: Blob, need: nat, latched: seq<nat>, n: nat, ids: seq<nat>,
                  newRoot: nat, done: bool, p': Pages, root': nat, h': nat)
    requires IsTree(p, root, h) && Latched(p, root, h, key, 0, need, latched) && (h > 0 ==> |latched| > 1)
    requires NewIds(p, ids) && (forall x :: x in ids ==> 0 < x) && newRoot !in p && newRoot !in ids
    requires Ended(p, root, h, key, 0, n, ids, newRoot, |latched| - 1, done, p', root', h')
    ensures SplitUpTo(p, root, h, key, need, n, ids, newRoot, !done, p', root', h')
  {
    hide Rank, Lex, NodeAt, WF, Latched, NewIds, CanCut, CanCutTo, NoRoom, PanicsAt, Cascade, CascadeAnswer, CutUp,
         CutAnswer, Lookup, Flatten, PivotFits;
    PanicsExactly(p, root, h, key, need, latched, n, ids, newRoot, done, p', root', h');
    assert ids[0] in ids;
    if done {
      FullAncestors(p, root, h, key, n, ids, newRoot);
    } else {
      forall other
        ensures Lookup(p', root', h', other) == CutAnswer(p, root, h, key, n + 1, other)
      {
        CutUpLookups(p, root, h, key, n + 1, ids, other);
      }
    }
  }

  lemma {:induction false} CutKeepsMissing(p: Pages, root: nat, h: nat, key: Blob, n: nat)
    requires 1 <= n <= h + 1 && IsTree(p, root, h) && CanCutTo(p, root, h, key, n)
    requires var c := LeafOf(p, root, h, key); c in p && p[c].LeafNode? && Avoids(p[c].cells, key)
    ensures CutAnswer(p, root, h, key, n, key) == Missing
    decreases n
  {
    hide Rank, Lex, NodeAt, RangeAt, WF, InRange, FirstMatch;
    if n == 1 {
      var cells := p[LeafOf(p, root, h, key)].cells;
      var low := cells[..|cells| / 2];
      MatchSkip(low, [], key);
      assert low + [] == low;
      NothingFound(key);
    } else {
      CutKeepsMissing(p, root, h, key, n - 1);
    }
  }

  /** The key is not found after the purged leaf is split. */
  lemma PurgedMissing(p: Pages, root: nat, h: nat, key: Blob, need: nat, n: nat, ids: seq<nat>, newRoot: nat,
                      panicked: bool, p': Pages, root': nat, h': nat)
    requires IsTree(p, root, h) && LeafOf(p, root, h, key) in p && p[LeafOf(p, root, h, key)].LeafNode?
    requires SplitUpTo(Purged(p, root, h, key), root, h, key, need, n, ids, newRoot, panicked, p', root', h')
    requires LeafOf(Purged(p, root, h, key), root, h, key) == LeafOf(p, root, h, key)
    ensures Lookup(p', root', h', key) == Missing
  {
    hide Rank, WF, NodeAt, Purge, FirstMatch, GoesFirst, CanCutTo, NoRoom, PanicsAt, CutAnswer, Overwritten, Cascade,
         CutUp, CanCut;
    var q := Purged(p, root, h, key);
    var cells := p[LeafOf(p, root, h, key)].cells;
    var rest := Purge(cells, key);
    MatchPurged(cells, key, key);
    PurgeMembers(cells, key);
    if rest != [] {
      assert rest[|rest| / 2] in rest;
    }
    if panicked {
      CutKeepsMissing(q, root, h, key, n + 1);
    } else if n > 0 {
      CanCutLess(q, root, h, key, n);
      CutKeepsMissing(q, root, h, key, n);
    }
  }

  /** Whatever lookups miss, the leaf chain still lists it. */
  lemma ChainEnds(p: Pages, root: nat, h: nat, key: Blob, latched: seq<nat>, n: nat, ids: seq<nat>, newRoot: nat,
                  done: bool, p': Pages, root': nat, h': nat)
    returns (leaves: seq<nat>)
    requires IsTree(p, root, h) && Chained(p, Leaves(p, root, h)) && |latched| > 0
    requires NewIds(p, ids) && (forall x :: x in ids ==> 0 < x) && newRoot !in p && newRoot !in ids
    requires Ended(p, root, h, key, 0, n, ids, newRoot, |latched| - 1, done, p', root', h')
    ensures Chained(p', leaves) && FlatLeaves(p', leaves) == Flatten(p, root, h)
  {
    hide Rank, Lex, NodeAt, WF, CanCutTo, NoRoom, Cascade, CutUp, Flatten, Chained, Leaves, LeafParts, FlatLeaves,
         CanCut;
    assert ids[0] in ids;
    if done {
      CascadeLeaves(p, root, h, key, n, ids, newRoot);
    } else {
      CutUpLeaves(p, root, h, key, n + 1, ids);
    }
    leaves := SplitChain(p, p', root, h, key, ids[0]);
  }

  /** A clean cut below a page with room changes nothing that is stored. */
  lemma CleanEnds(p: Pages, root: nat, h: nat, key: Blob, latched: seq<nat>, n: nat, ids: seq<nat>, newRoot: nat,
                  done: bool, p': Pages, root': nat, h': nat)
    requires IsTree(p, root, h) && Chained(p, Leaves(p, root, h)) && |latched| > 0 && (h > 0 ==> |latched| > 1)
    requires NewIds(p, ids) && (forall x :: x in ids ==> 0 < x) && newRoot !in p && newRoot !in ids
    requires Ended(p, root, h, key, 0, n, ids, newRoot, |latched| - 1, done, p', root', h')
    requires LeafOf(p, root, h, key) in p && p[LeafOf(p, root, h, key)].LeafNode?
    ensures var cells := p[LeafOf(p, root, h, key)].cells;
      n == 0 && cells != [] && CleanCut(cells, |cells| / 2) ==>
      IsTree(p', root', h') && Flatten(p', root', h') == Flatten(p, root, h) && Chained(p', Leaves(p', root', h'))
  {
    hide Rank, Lex, NodeAt, WF, CanCutTo, NoRoom, Cascade, CutUp, Flatten, Chained, Leaves, LeafSplit, CleanCut;
    var cells := p[LeafOf(p, root, h, key)].cells;
    assert ids[0] in ids;
    if n == 0 && cells != [] && CleanCut(cells, |cells| / 2) {
      CascadeIsLeafSplit(p, root, h, key, ids, newRoot);
      CleanSplit(p, root, h, key, ids[0], newRoot);
    }
  }

  lemma PutAnswers(all: seq<Cell>, key: Blob, val: Blob)
    ensures forall other ::
      FirstMatch(Put(all, key, val), other) == if other == key then Hit(val) else FirstMatch(all, other)
    ensures forall other ::
      FirstMatch(Purge(all, key), other) == if other == key then Missing else FirstMatch(all, other)
  {
    hide Put, Purge, FirstMatch;
    forall other
      ensures FirstMatch(Put(all, key, val), other) == if other == key then Hit(val) else FirstMatch(all, other)
      ensures FirstMatch(Purge(all, key), other) == if other == key then Missing else FirstMatch(all, other)
    {
      MatchPut(all, key, val, other);
      MatchPurged(all, key, other);
    }
  }

  lemma KeptStrict(all: seq<Cell>, key: Blob, val: Blob)
    ensures StrictCells(all) ==> StrictCells(Put(all, key, val)) && StrictCells(Purge(all, key))
  {
    hide Rank, Put, Purge, StrictCells;
    if StrictCells(all) {
      PutStrict(all, key, val);
      PurgeStrict(all, key);
    }
  }

  /** In a tree without duplicates every cut is clean. */
  lemma StrictCut(p: TreeModel.Pages, root: nat, h: nat, key: Blob)
    requires IsTree(p, root, h) && LeafOf(p, root, h, key) in p && p[LeafOf(p, root, h, key)].LeafNode?
    ensures StrictCells(Flatten(p, root, h)) ==>
      var rest := Purge(p[LeafOf(p, root, h, key)].cells, key); CleanCut(rest, |rest| / 2)
  {
    hide Rank, WF, NodeAt, Flatten, Leaves, Purge;
    if StrictCells(Flatten(p, root, h)) {
      LeafIsLeaf(p, root, h, key);
      var cells := p[LeafOf(p, root, h, key)].cells;
      var pre, post := ReplaceLeaf(p, root, h, key, cells);
      StrictPart(pre, cells, post);
      PurgeStrict(cells, key);
    }
  }

  lemma LeafPageOk(d: PageBytes)
    requires PageType(d) == TYPE_LEAF && WholeLeaf(d)
    ensures PageOk(d) && Decode(d) == LeafNode(Cells(d), NextLeaf(d))
  {
    hide WholeLeaf, Le, Cells, Seps;
  }

  lemma InnerDecoded(d: PageBytes)
    requires PageType(d) == TYPE_INTERNAL && WholeInner(d)
    ensures PageOk(d) && Decode(d) == InnerNode(Seps(d), Rightmost(d))
  {
    hide WholeInner, Le, Seps, Cells;
  }

  lemma InnerPageOk(store: map<nat, PageBytes>, id: nat)
    requires id in store && PageOk(store[id]) && View(store)[id].InnerNode?
    ensures PageType(store[id]) == TYPE_INTERNAL && WholeInner(store[id])
    ensures View(store)[id] == InnerNode(Seps(store[id]), Rightmost(store[id]))
  {
    hide WholeInner, Le, Seps, Cells;
  }

  lemma {:induction false} MatchExists(cells: seq<Cell>, key: Blob)
    ensures FirstMatch(cells, key).Hit? <==> exists c :: c in cells && c.key == key
  {
    if cells != [] {
      MatchExists(cells[1..], key);
      assert forall c :: c in cells <==> c == cells[0] || c in cells[1..];
    }
  }

  lemma StartsInStore(p: Pages, root: nat, h: nat)
    requires IsTree(p, root, h)
    ensures root in p
  {
  }

  lemma InStore(p: Pages, id: nat, h: nat, lo: Bound, hi: Bound)
    requires WF(p, id, h, lo, hi)
    ensures id in p
  {
  }
}
