/** Prefix scans along the leaf chain. */
module TreeScan {
  import opened Bytes
  import opened PageHeader
  import opened PageCells
  import opened LeafPage
  import opened InternalPage
  import opened TreeModel
  import opened TreeOps
  import opened TreeSplit
  import opened BTree

  // --- The leaves left of a key -----------------------------------------------------------

  /** Every cell left of the leaf responsible for a key is below the key. */
  lemma {:induction false} LeavesBelow(p: Pages, id: nat, h: nat, lo: Bound, hi: Bound, key: Blob)
    returns (left: seq<nat>, right: seq<nat>)
    requires WF(p, id, h, lo, hi) && InRange(key, lo, hi)
    ensures Leaves(p, id, h) == left + [NodeAt(p, id, h, key, 0)] + right
    ensures forall c :: c in FlatLeaves(p, left) ==> Rank(c.key) < Rank(key)
    decreases h, 0
  {
    hide Rank, Lex, FlatLeaves;
    if h == 0 {
      left, right := [], [];
      NoLeaves(p);
    } else {
      PathAllWF(p, p[id].seps, p[id].right, h - 1, lo, hi, key);
      left, right := LeavesAllBelow(p, p[id].seps, p[id].right, h - 1, lo, hi, key);
    }
  }

  lemma {:induction false} LeavesAllBelow(p: Pages, seps: seq<Sep>, right: nat, h: nat, lo: Bound, hi: Bound, key: Blob)
    returns (left: seq<nat>, post: seq<nat>)
    requires WFAll(p, seps, right, h, lo, hi) && InRange(key, lo, hi)
    ensures LeavesAll(p, seps, right, h) == left + [NodeAt(p, Route(seps, right, key), h, key, 0)] + post
    ensures forall c :: c in FlatLeaves(p, left) ==> Rank(c.key) < Rank(key)
    decreases h, 1 + |seps|
  {
    hide Rank, Lex, FlatLeaves, WF, Flatten, Leaves, NodeAt;
    if seps == [] {
      left, post := LeavesBelow(p, right, h, lo, hi, key);
    } else {
      var k, c0, rest := seps[0].key, seps[0].child, seps[1..];
      LexIsBelow(key, k);
      if Lex(key, k) {
        left, post := LeavesBelow(p, c0, h, lo, Key(k), key);
        ConcatAssoc(left + [NodeAt(p, c0, h, key, 0)], post, LeavesAll(p, rest, right, h));
        post := post + LeavesAll(p, rest, right, h);
      } else {
        left, post := LeavesAllBelow(p, rest, right, h, Key(k), hi, key);
        var l0, n := Leaves(p, c0, h), NodeAt(p, Route(rest, right, key), h, key, 0);
        FlattenIsFlatLeaves(p, c0, h, lo, Key(k));
        FlattenRange(p, c0, h, lo, Key(k));
        FlatLeavesConcat(p, l0, left);
        ConcatAssoc(l0, left, [n]);
        ConcatAssoc(l0, left + [n], post);
        left := l0 + left;
      }
    }
  }

  // --- Prefix scan ------------------------------------------------------------------------

  /** The cells whose key has the prefix. */
  function Filter(cells: seq<Cell>, prefix: Blob): seq<Cell> {
    if cells == [] then []
    else (if HasPrefix(cells[0].key, prefix) then [cells[0]] else []) + Filter(cells[1..], prefix)
  }

  lemma {:induction false} FilterConcat(a: seq<Cell>, b: seq<Cell>, prefix: Blob)
    ensures Filter(a + b, prefix) == Filter(a, prefix) + Filter(b, prefix)
  {
    if a == [] {
      assert a + b == b;
    } else {
      FilterConcat(a[1..], b, prefix);
      assert (a + b)[1..] == a[1..] + b;
      ConcatAssoc(if HasPrefix(a[0].key, prefix) then [a[0]] else [], Filter(a[1..], prefix), Filter(b, prefix));
    }
  }

  lemma {:induction false} FilterNone(cells: seq<Cell>, prefix: Blob)
    requires forall c :: c in cells ==> !HasPrefix(c.key, prefix)
    ensures Filter(cells, prefix) == []
  {
    if cells != [] {
      FilterNone(cells[1..], prefix);
    }
  }

  lemma FilterBelow(cells: seq<Cell>, prefix: Blob)
    requires forall c :: c in cells ==> Rank(c.key) < Rank(prefix)
    ensures Filter(cells, prefix) == []
  {
    hide Rank, Filter;
    forall c | c in cells
      ensures !HasPrefix(c.key, prefix)
    {
      if HasPrefix(c.key, prefix) {
        PrefixIsLeast(c.key, prefix);
      }
    }
    FilterNone(cells, prefix);
  }

  lemma FilterStep(raw: Blob, raws: seq<Blob>, prefix: Blob)
    ensures Filter(LeafPage.DecodeAll([raw] + raws), prefix)
         == (if HasPrefix(DecodeCell(raw).key, prefix) then [DecodeCell(raw)] else [])
            + Filter(LeafPage.DecodeAll(raws), prefix)
  {
    hide DecodeCell;
    assert LeafPage.DecodeAll([raw] + raws)[1..] == LeafPage.DecodeAll(raws);
  }

  lemma FilterEmpty(prefix: Blob)
    ensures Filter(LeafPage.DecodeAll([]), prefix) == []
  {
  }

  /** Collects the matching cells of one leaf, appended to what was found before. */
  method ScanLeaf(a: array<Byte>, prefix: Blob, found: seq<Cell>) returns (out: seq<Cell>)
    requires a.Length == PAGE_SIZE
    ensures out == found + Filter(Cells(a[..]), prefix)
  {
    hide Le, Parse, SizeAt, DecodeCell, LeafPage.DecodeAll, Filter, ValidCell;
    var d := a[..];
    var n := NumCells(d);
    var offset: nat := HEADER_SIZE;
    out := found;
    for i := 0 to n
      invariant found + Filter(Cells(d), prefix)
        == out + Filter(LeafPage.DecodeAll(Parse(true, d, offset, n - i)), prefix)
    {
      if offset + 4 > PAGE_SIZE {
        ParseShort(true, d, offset, n - i);
        break;
      }
      var size := SizeAt(true, d, offset);
      if offset + size > PAGE_SIZE {
        ParseShort(true, d, offset, n - i);
        break;
      }
      ParseCons(true, d, offset, n - i);
      var cell := DecodeCell(d[offset..offset + size]);
      FilterStep(d[offset..offset + size], Parse(true, d, offset + size, n - i - 1), prefix);
      ConcatAssoc(out, if HasPrefix(cell.key, prefix) then [cell] else [],
                  Filter(LeafPage.DecodeAll(Parse(true, d, offset + size, n - i - 1)), prefix));
      if HasPrefix(cell.key, prefix) {
        out := out + [cell];
      }
      offset := offset + size;
    }
    ParseNone(true, d, offset);
    FilterEmpty(prefix);
  }

  lemma FlatTail(p: Pages, leaves: seq<nat>, i: nat)
    requires i < |leaves| && leaves[i] in p && p[leaves[i]].LeafNode?
    ensures FlatLeaves(p, leaves[i..]) == p[leaves[i]].cells + FlatLeaves(p, leaves[i + 1..])
  {
    assert leaves[i..][1..] == leaves[i + 1..];
  }

  lemma ChainAt(p: Pages, leaves: seq<nat>, i: nat)
    requires Chained(p, leaves) && i < |leaves|
    ensures leaves[i] in p && p[leaves[i]].LeafNode? && p[leaves[i]].next == NextOf(leaves, i)
    ensures i + 1 < |leaves| ==> p[leaves[i]].next != 0
  {
  }

  /** The scan starts at the leaf of the prefix: no matching cell is left of it. */
  lemma ScanStart(t: Tree, prefix: Blob) returns (start: nat)
    requires t.Valid()
    ensures start < |t.LeafChain()| && t.LeafChain()[start] == LeafOf(t.Pages(), t.root, t.height, prefix)
    ensures Filter(FlatLeaves(t.Pages(), t.LeafChain()[start..]), prefix) == Filter(t.Contents(), prefix)
  {
    hide Rank, WF, NodeAt, Flatten, Leaves, FlatLeaves, Filter, Chained, View;
    var p := t.Pages();
    var left, right := LeavesBelow(p, t.root, t.height, Open, Open, prefix);
    start := |left|;
    var tail := t.LeafChain()[start..];
    assert t.LeafChain() == left + tail;
    FlattenIsFlatLeaves(p, t.root, t.height, Open, Open);
    FlatLeavesConcat(p, left, tail);
    FilterConcat(FlatLeaves(p, left), FlatLeaves(p, tail), prefix);
    FilterBelow(FlatLeaves(p, left), prefix);
  }

  /** A prefix scan returns exactly the stored cells with the prefix, in key order. */
  method Scan(t: Tree, prefix: Blob) returns (out: seq<Cell>)
    requires t.Valid()
    ensures out == Filter(t.Contents(), prefix)
    ensures exists at :: Picked(t.Contents(), prefix, out, at)
  {
    hide Rank, Picked, WF, NodeAt, Flatten, Leaves, FlatLeaves, Filter, Chained, View, Cells, Le, PageOk;
    ghost var p, leaves := t.Pages(), t.LeafChain();
    var id, _ := t.FindLeaf(prefix);
    ghost var i := ScanStart(t, prefix);
    ViewKeys(t.store);
    out := [];
    while true
      invariant i < |leaves| && id == leaves[i]
      invariant Filter(t.Contents(), prefix) == out + Filter(FlatLeaves(p, leaves[i..]), prefix)
      decreases |leaves| - i
    {
      ChainAt(p, leaves, i);
      LeafInStore(t.store, id);
      var a := t.Fetch(id);
      FlatTail(p, leaves, i);
      FilterConcat(p[id].cells, FlatLeaves(p, leaves[i + 1..]), prefix);
      ConcatAssoc(out, Filter(p[id].cells, prefix), Filter(FlatLeaves(p, leaves[i + 1..]), prefix));
      out := ScanLeaf(a, prefix, out);
      var next := NextLeaf(t.store[id]);
      if next == 0 {
        ScanEnd(p, leaves, i, prefix);
        ghost var at := FilterPicks(t.Contents(), prefix);
        break;
      }
      id, i := next, i + 1;
    }
  }

  /** `out` lists the cells at the ascending places `at`, and these are exactly those whose key begins with the
      prefix.
   */
  ghost predicate Picked(all: seq<Cell>, prefix: Blob, out: seq<Cell>, at: seq<nat>) {
    && |at| == |out|
    && (forall i :: 0 <= i < |at| ==> at[i] < |all| && out[i] == all[at[i]])
    && (forall i, j :: 0 <= i < j < |at| ==> at[i] < at[j])
    && (forall n: nat :: n < |all| ==> (n in at <==> |prefix| <= |all[n].key| && all[n].key[..|prefix|] == prefix))
  }

  lemma {:induction false} FilterPicks(all: seq<Cell>, prefix: Blob) returns (at: seq<nat>)
    ensures Picked(all, prefix, Filter(all, prefix), at)
    decreases |all|
  {
    hide Picked, HasPrefix;
    at := [];
    if all == [] {
      PickedNone(prefix);
    } else {
      var n := |all| - 1;
      var init, last := all[..n], all[n];
      at := FilterPicks(init, prefix);
      assert all == init + [last];
      FilterConcat(init, [last], prefix);
      FilterOne(last, prefix);
      assert Filter(init, prefix) + [] == Filter(init, prefix);
      PickedMore(init, prefix, Filter(init, prefix), at, last);
      if HasPrefix(last.key, prefix) {
        at := at + [n];
      }
    }
  }

  lemma FilterOne(c: Cell, prefix: Blob)
    ensures Filter([c], prefix) == if HasPrefix(c.key, prefix) then [c] else []
  {
    assert [c][1..] == [];
  }

  lemma PickedNone(prefix: Blob)
    ensures Picked([], prefix, [], [])
  {
  }

  lemma PickedMore(all: seq<Cell>, prefix: Blob, out: seq<Cell>, at: seq<nat>, c: Cell)
    requires Picked(all, prefix, out, at)
    ensures if HasPrefix(c.key, prefix) then Picked(all + [c], prefix, out + [c], at + [|all|])
            else Picked(all + [c], prefix, out, at)
  {
    var more := all + [c];
    assert forall n :: 0 <= n < |all| ==> more[n] == all[n];
    PrefixBytes(c.key, prefix);
    assert |all| !in at;
  }

  lemma PrefixBytes(k: Blob, prefix: Blob)
    ensures HasPrefix(k, prefix) <==> |prefix| <= |k| && k[..|prefix|] == prefix
  {
  }

  lemma ScanEnd(p: Pages, leaves: seq<nat>, i: nat, prefix: Blob)
    requires i + 1 == |leaves|
    ensures Filter(FlatLeaves(p, leaves[i + 1..]), prefix) == []
  {
    assert leaves[i + 1..] == [];
  }

  lemma LeafInStore(store: map<nat, PageBytes>, id: nat)
    requires id in store && View(store)[id].LeafNode?
    ensures View(store)[id] == LeafNode(Cells(store[id]), NextLeaf(store[id]))
  {
    hide Cells, Seps, Le;
  }
}
