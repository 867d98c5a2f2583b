/** Page splits preserve what the tree stores, what every lookup returns and the leaf chain, provided
    the pivot reaches the parent.
 */
module TreeSplit {
  import opened Bytes
  import opened LeafPage
  import opened InternalPage
  import opened TreeModel
  import opened TreeOps

  // --- The two halves ---------------------------------------------------------------------

  /** The key at the split point differs from the one before it. */
  ghost predicate CleanCut(cells: seq<Cell>, mid: nat) {
    0 < mid < |cells| ==> cells[mid - 1].key != cells[mid].key
  }

  lemma CutCells(cells: seq<Cell>, mid: nat, lo: Bound, hi: Bound)
    requires SortedCells(cells) && CellsIn(cells, lo, hi) && mid < |cells| && CleanCut(cells, mid)
    ensures var k := cells[mid].key;
      && InRange(k, lo, hi)
      && CellsIn(cells[..mid], lo, Key(k)) && CellsIn(cells[mid..], Key(k), hi)
  {
    hide Rank;
    var k := cells[mid].key;
    assert cells[mid] in cells;
    forall x | x in cells[..mid]
      ensures InRange(x.key, lo, Key(k))
    {
      var i :| 0 <= i < mid && cells[i] == x;
      assert x in cells;
      assert Rank(cells[i].key) <= Rank(cells[mid - 1].key) <= Rank(k);
      if Rank(cells[mid - 1].key) == Rank(k) {
        RankInjective(cells[mid - 1].key, k);
      }
    }
    forall x | x in cells[mid..]
      ensures InRange(x.key, Key(k), hi)
    {
      var i :| mid <= i < |cells| && cells[i] == x;
      assert x in cells;
    }
  }

  /** The two halves of a leaf. */
  lemma LeafHalves(p: Pages, p': Pages, c: nat, range: (Bound, Bound), mid: nat, newId: nat)
    requires WF(p, c, 0, range.0, range.1) && mid < |p[c].cells| && CleanCut(p[c].cells, mid)
    requires newId !in p && c in p' && newId in p'
    requires p'[c] == LeafNode(p[c].cells[..mid], newId) && p'[newId] == LeafNode(p[c].cells[mid..], p[c].next)
    ensures InRange(p[c].cells[mid].key, range.0, range.1)
    ensures SplitOf(p, p', c, 0, range, p[c].cells[mid].key, newId)
  {
    hide Rank, CellsIn, InRange;
    var cells := p[c].cells;
    CutCells(cells, mid, range.0, range.1);
    assert cells == cells[..mid] + cells[mid..];
  }

  /** The two halves of a separator list. */
  lemma {:induction false} SepHalves(p: Pages, seps: seq<Sep>, right: nat, h: nat, lo: Bound, hi: Bound, mid: nat)
    requires WFAll(p, seps, right, h, lo, hi) && mid < |seps|
    ensures var k, c, l, r := seps[mid].key, seps[mid].child, seps[..mid], seps[mid + 1..];
      && SepInRange(k, lo, hi)
      && WFAll(p, l, c, h, lo, Key(k)) && WFAll(p, r, right, h, Key(k), hi)
      && FlattenAll(p, seps, right, h) == FlattenAll(p, l, c, h) + FlattenAll(p, r, right, h)
      && LeavesAll(p, seps, right, h) == LeavesAll(p, l, c, h) + LeavesAll(p, r, right, h)
      && FootAll(p, seps, right, h) == FootAll(p, l, c, h) + FootAll(p, r, right, h)
      && FootAll(p, l, c, h) !! FootAll(p, r, right, h)
    decreases mid
  {
    hide Rank, WF, Foot, Flatten, Leaves, WFAll, FootAll, FlattenAll, LeavesAll;
    var s0, rest := seps[0], seps[1..];
    assert seps == [s0] + rest;
    AllCons(p, s0, rest, right, h, lo, hi);
    if mid == 0 {
      assert seps[..0] == [];
      AllNil(p, s0.child, h, lo, Key(s0.key));
    } else {
      SepHalves(p, rest, right, h, Key(s0.key), hi, mid - 1);
      var c, l, r := seps[mid].child, rest[..mid - 1], seps[mid + 1..];
      assert seps[..mid] == [s0] + l;
      assert rest[mid - 1] == seps[mid] && rest[mid..] == r;
      AllCons(p, s0, l, c, h, lo, Key(seps[mid].key));
      ConcatAssoc(Flatten(p, s0.child, h), FlattenAll(p, l, c, h), FlattenAll(p, r, right, h));
      ConcatAssoc(Leaves(p, s0.child, h), LeavesAll(p, l, c, h), LeavesAll(p, r, right, h));
    }
  }

  /** The two halves of an internal page. */
  lemma InnerHalves(p: Pages, p': Pages, c: nat, h: nat, range: (Bound, Bound), mid: nat, newId: nat)
    requires h > 0 && WF(p, c, h, range.0, range.1) && mid < |p[c].seps|
    requires forall x :: x in p && x in FootAll(p, p[c].seps, p[c].right, h - 1) ==> x in p' && p'[x] == p[x]
    requires newId !in p && c in p' && newId in p'
    requires p'[c] == InnerNode(p[c].seps[..mid], p[c].seps[mid].child)
    requires p'[newId] == InnerNode(p[c].seps[mid + 1..], p[c].right)
    ensures SplitOf(p, p', c, h, range, p[c].seps[mid].key, newId)
    ensures Leaves(p', c, h) + Leaves(p', newId, h) == Leaves(p, c, h)
  {
    hide Rank, WFAll, FootAll, FlattenAll, LeavesAll;
    var seps, right, k := p[c].seps, p[c].right, p[c].seps[mid].key;
    SepHalves(p, seps, right, h - 1, range.0, range.1, mid);
    FootAllIn(p, seps, right, h - 1, range.0, range.1);
    FrameAll(p, p', seps[..mid], seps[mid].child, h - 1, range.0, Key(k));
    FrameAll(p, p', seps[mid + 1..], right, h - 1, Key(k), range.1);
  }

  // --- Promoting the pivot ----------------------------------------------------------------

  /** The last step of a path. */
  lemma {:induction false} PathStep(p: Pages, id: nat, h: nat, lo: Bound, hi: Bound, key: Blob, hq: nat)
    requires hq < h && WF(p, id, h, lo, hi) && InRange(key, lo, hi)
    ensures var q, r := NodeAt(p, id, h, key, hq + 1), RangeAt(p, id, h, lo, hi, key, hq + 1);
      && q in p && p[q].InnerNode?
      && NodeAt(p, id, h, key, hq) == Route(p[q].seps, p[q].right, key)
      && RangeAt(p, id, h, lo, hi, key, hq) == ChildRange(p[q].seps, r.0, r.1, key)
    decreases h
  {
    hide Rank, Lex;
    if h > hq + 1 {
      PathAllWF(p, p[id].seps, p[id].right, h - 1, lo, hi, key);
      var r := ChildRange(p[id].seps, lo, hi, key);
      PathStep(p, Route(p[id].seps, p[id].right, key), h - 1, r.0, r.1, key, hq);
    }
  }

  /** Keys with one routing index share child and range. */
  lemma {:induction false} SameIndex(seps: seq<Sep>, right: nat, lo: Bound, hi: Bound, a: Blob, b: Blob)
    requires RouteIndex(seps, a) == RouteIndex(seps, b)
    ensures Route(seps, right, a) == Route(seps, right, b)
    ensures ChildRange(seps, lo, hi, a) == ChildRange(seps, lo, hi, b)
    decreases |seps|
  {
    hide Lex;
    if seps != [] && !Lex(a, seps[0].key) {
      SameIndex(seps[1..], right, Key(seps[0].key), hi, a, b);
    }
  }

  /** What fits between a child's ends fits between its parent's. */
  lemma {:induction false} SepOutwards(p: Pages, seps: seq<Sep>, right: nat, h: nat, lo: Bound, hi: Bound, key: Blob,
                                       k: Blob)
    requires WFAll(p, seps, right, h, lo, hi)
    requires var r := ChildRange(seps, lo, hi, key); SepInRange(k, r.0, r.1)
    ensures SepInRange(k, lo, hi)
    decreases |seps|
  {
    hide Rank, Lex, WF, Foot;
    if seps != [] && !Lex(key, seps[0].key) {
      SepOutwards(p, seps[1..], right, h, Key(seps[0].key), hi, key, k);
    }
  }

  /** `p'` holds the two halves of the page `c` at height `hc` on the path of a key and, in its parent `q`, the pivot
      between them. The pivot goes where the page is: it does not equal the separator behind the page.
   */
  ghost predicate Promoted(p: Pages, p': Pages, root: nat, h: nat, key: Blob, pivot: Blob, hc: nat, newId: nat)
    requires hc < h
  {
    var c, q := NodeAt(p, root, h, key, hc), NodeAt(p, root, h, key, hc + 1);
    var r := RangeAt(p, root, h, Open, Open, key, hc);
    && SplitOf(p, p', c, hc, r, pivot, newId) && SepInRange(pivot, r.0, r.1)
    && q in p && p[q].InnerNode? && RouteIndex(p[q].seps, pivot) == RouteIndex(p[q].seps, key) && q in p'
    && p'[q] == InnerNode(InsertSep(p[q].seps, pivot, c, newId), InsertRight(p[q].seps, p[q].right, pivot, newId))
    && (forall x :: x in p && x !in Foot(p, c, hc) && x != q ==> x in p' && p'[x] == p[x])
  }

  /** A split whose pivot reaches the parent leaves a well-formed tree with the same contents; the leaf
      list changes only where the page was.
   */
  lemma SplitKeepsTree(p: Pages, p': Pages, root: nat, h: nat, key: Blob, pivot: Blob, hc: nat, newId: nat)
    returns (left: seq<nat>, right: seq<nat>)
    requires hc < h && IsTree(p, root, h) && Promoted(p, p', root, h, key, pivot, hc, newId)
    ensures var c := NodeAt(p, root, h, key, hc);
      && IsTree(p', root, h) && Flatten(p', root, h) == Flatten(p, root, h)
      && Leaves(p, root, h) == left + Leaves(p, c, hc) + right
      && Leaves(p', root, h) == left + (Leaves(p', c, hc) + Leaves(p', newId, hc)) + right
      && (forall x :: x in left + right ==> x in p && x !in Foot(p, c, hc))
  {
    hide Rank, Lex, NodeAt, RangeAt, WFAll, FootAll, FlattenAll, LeavesAll, InsertSep, InsertRight, Route, ChildRange,
         RouteIndex;
    var c, q := NodeAt(p, root, h, key, hc), NodeAt(p, root, h, key, hc + 1);
    var r := RangeAt(p, root, h, Open, Open, key, hc + 1);
    PathStep(p, root, h, Open, Open, key, hc);
    PathWF(p, root, h, Open, Open, key, hc + 1);
    var seps, last := p[q].seps, p[q].right;
    SameIndex(seps, last, r.0, r.1, key, pivot);
    SepOutwards(p, seps, last, hc, r.0, r.1, key, pivot);
    FootAllIn(p, seps, last, hc, r.0, r.1);
    PathFoot(p, seps, last, hc, pivot);
    left, right := SplitChild(p, p', seps, last, hc, r.0, r.1, pivot, newId);
    var a := Rebuild(p, p', root, h, Open, Open, key, hc + 1);
    SurroundedLeaves(a.left, left, Leaves(p, c, hc), right, a.right);
    SurroundedLeaves(a.left, left, Leaves(p', c, hc) + Leaves(p', newId, hc), right, a.right);
    forall x | x in (a.left + left) + (right + a.right)
      ensures x in p && x !in Foot(p, c, hc)
    {
      if x in a.left || x in a.right {
        assert x in a.left + a.right;
      } else {
        assert x in left + right;
      }
    }
    left, right := a.left + left, right + a.right;
  }

  lemma SurroundedLeaves(a: seq<nat>, b: seq<nat>, c: seq<nat>, d: seq<nat>, e: seq<nat>)
    ensures a + (b + c + d) + e == (a + b) + c + (d + e)
  {
    ConcatAssoc(a, b + c, d);
    ConcatAssoc(a, b, c);
    ConcatAssoc(a + b + c, d, e);
  }

  /** A split of the root page under a new root keeps the contents and the leaf order. */
  lemma RootSplitKeepsTree(p: Pages, p': Pages, root: nat, h: nat, pivot: Blob, newId: nat, newRoot: nat)
    requires IsTree(p, root, h) && SplitOf(p, p', root, h, (Open, Open), pivot, newId)
    requires newRoot !in Foot(p', root, h) + Foot(p', newId, h)
    requires newRoot in p' && p'[newRoot] == InnerNode([Sep(root, pivot)], newId)
    ensures IsTree(p', newRoot, h + 1) && Flatten(p', newRoot, h + 1) == Flatten(p, root, h)
    ensures Leaves(p', newRoot, h + 1) == Leaves(p', root, h) + Leaves(p', newId, h)
  {
    hide Rank, Foot, Flatten, Leaves, WF, FootAll, FlattenAll, LeavesAll, WFAll;
    assert [Sep(root, pivot)] == [Sep(root, pivot)] + [];
    AllCons(p', Sep(root, pivot), [], newId, h, Open, Open);
    AllNil(p', newId, h, Key(pivot), Open);
    NewRoot(p', newRoot, h);
  }

  lemma NewRoot(p: Pages, id: nat, h: nat)
    requires id in p && p[id].InnerNode?
    requires WFAll(p, p[id].seps, p[id].right, h, Open, Open) && id !in FootAll(p, p[id].seps, p[id].right, h)
    ensures WF(p, id, h + 1, Open, Open)
    ensures Flatten(p, id, h + 1) == FlattenAll(p, p[id].seps, p[id].right, h)
    ensures Leaves(p, id, h + 1) == LeavesAll(p, p[id].seps, p[id].right, h)
  {
  }

  /** Every lookup answers as before when the contents are the same. */
  lemma SameContentsSameLookups(p: Pages, root: nat, h: nat, p': Pages, root': nat, h': nat, key: Blob)
    requires IsTree(p, root, h) && IsTree(p', root', h') && Flatten(p', root', h') == Flatten(p, root, h)
    ensures LeafOf(p, root, h, key) in p && p[LeafOf(p, root, h, key)].LeafNode?
    ensures LeafOf(p', root', h', key) in p' && p'[LeafOf(p', root', h', key)].LeafNode?
    ensures FirstMatch(p'[LeafOf(p', root', h', key)].cells, key) == FirstMatch(p[LeafOf(p, root, h, key)].cells, key)
  {
    hide Rank, WF, Flatten, NodeAt, FirstMatch;
    LookupRefines(p, root, h, key);
    LookupRefines(p', root', h', key);
  }

  /** Changing leaves only does not change the routing. */
  lemma {:induction false} SameRoute(p: Pages, p': Pages, id: nat, h: nat, lo: Bound, hi: Bound, key: Blob,
                                     c: nat, hq: nat)
    requires hq <= h && WF(p, id, h, lo, hi) && InRange(key, lo, hi)
    requires c in p && p[c].LeafNode? && c in p' && p'[c].LeafNode?
    requires forall x :: x in p && x != c ==> x in p' && p'[x] == p[x]
    ensures NodeAt(p', id, h, key, hq) == NodeAt(p, id, h, key, hq)
    decreases h
  {
    hide Rank, Lex;
    if h > hq {
      PathAllWF(p, p[id].seps, p[id].right, h - 1, lo, hi, key);
      var r := ChildRange(p[id].seps, lo, hi, key);
      SameRoute(p, p', Route(p[id].seps, p[id].right, key), h - 1, r.0, r.1, key, c, hq);
    }
  }

  // --- The leaf chain ---------------------------------------------------------------------

  function NextOf(leaves: seq<nat>, i: nat): nat {
    if i + 1 < |leaves| then leaves[i + 1] else 0
  }

  /** Each leaf points to the one right of it, the last one to 0; no later leaf has page id 0. */
  ghost predicate Chained(p: Pages, leaves: seq<nat>) {
    forall i :: 0 <= i < |leaves| ==>
      && leaves[i] in p && p[leaves[i]].LeafNode? && p[leaves[i]].next == NextOf(leaves, i)
      && (i > 0 ==> leaves[i] != 0)
  }

  /** A split leaf and its new right neighbour keep the chain. */
  lemma ChainSplit(p: Pages, p': Pages, left: seq<nat>, c: nat, newId: nat, right: seq<nat>)
    requires Chained(p, left + [c] + right)
    requires newId != 0 && newId != c && c !in left + right && newId !in left + right
    requires c in p' && p'[c].LeafNode? && p'[c].next == newId
    requires newId in p' && p'[newId].LeafNode? && c in p && p[c].LeafNode? && p'[newId].next == p[c].next
    requires forall x :: x in left + right ==> x in p && x in p' && p'[x] == p[x]
    ensures Chained(p', left + [c, newId] + right)
  {
    var l, l' := left + [c] + right, left + [c, newId] + right;
    var n := |left|;
    forall i | 0 <= i < |l'|
      ensures l'[i] in p' && p'[l'[i]].LeafNode? && p'[l'[i]].next == NextOf(l', i)
      ensures i > 0 ==> l'[i] != 0
    {
      if i < n {
        assert l'[i] == left[i] == l[i] && left[i] in left + right;
      } else if i == n {
        assert l'[i] == c == l[n];
      } else if i == n + 1 {
        assert l'[i] == newId && l[n] == c;
      } else {
        assert l'[i] == right[i - n - 2] == l[i - 1] && right[i - n - 2] in left + right;
      }
    }
  }

  // --- The leaf chain lists everything stored ---------------------------------------------

  ghost function FlatLeaves(p: Pages, leaves: seq<nat>): seq<Cell> {
    if leaves == [] then []
    else (if leaves[0] in p && p[leaves[0]].LeafNode? then p[leaves[0]].cells else []) + FlatLeaves(p, leaves[1..])
  }

  lemma {:induction false} FlatLeavesConcat(p: Pages, a: seq<nat>, b: seq<nat>)
    ensures FlatLeaves(p, a + b) == FlatLeaves(p, a) + FlatLeaves(p, b)
  {
    if a == [] {
      assert a + b == b;
    } else {
      FlatLeavesConcat(p, a[1..], b);
      assert (a + b)[1..] == a[1..] + b;
      var first := if a[0] in p && p[a[0]].LeafNode? then p[a[0]].cells else [];
      ConcatAssoc(first, FlatLeaves(p, a[1..]), FlatLeaves(p, b));
    }
  }

  /** The cells of the leaves, left to right, are the contents. */
  lemma {:induction false} FlattenIsFlatLeaves(p: Pages, id: nat, h: nat, lo: Bound, hi: Bound)
    requires WF(p, id, h, lo, hi)
    ensures FlatLeaves(p, Leaves(p, id, h)) == Flatten(p, id, h)
    decreases h, 0
  {
    hide Rank, CellsIn, SortedCells;
    if h == 0 {
      assert [id][1..] == [];
      assert FlatLeaves(p, [id]) == p[id].cells + [];
    } else {
      FlattenAllIsFlatLeaves(p, p[id].seps, p[id].right, h - 1, lo, hi);
    }
  }

  lemma {:induction false} FlattenAllIsFlatLeaves(p: Pages, seps: seq<Sep>, right: nat, h: nat, lo: Bound, hi: Bound)
    requires WFAll(p, seps, right, h, lo, hi)
    ensures FlatLeaves(p, LeavesAll(p, seps, right, h)) == FlattenAll(p, seps, right, h)
    decreases h, 1 + |seps|
  {
    hide Rank, FlatLeaves, WF, Flatten, Leaves;
    if seps == [] {
      FlattenIsFlatLeaves(p, right, h, lo, hi);
    } else {
      FlattenIsFlatLeaves(p, seps[0].child, h, lo, Key(seps[0].key));
      FlattenAllIsFlatLeaves(p, seps[1..], right, h, Key(seps[0].key), hi);
      FlatLeavesConcat(p, Leaves(p, seps[0].child, h), LeavesAll(p, seps[1..], right, h));
    }
  }

  lemma NoLeaves(p: Pages)
    ensures FlatLeaves(p, []) == []
  {
  }

  /** Pages that hold the same leaves list the same cells. */
  lemma {:induction false} FlatLeavesSame(p: Pages, p': Pages, leaves: seq<nat>)
    requires forall x :: x in leaves ==> x in p && x in p' && p'[x] == p[x]
    ensures FlatLeaves(p', leaves) == FlatLeaves(p, leaves)
  {
    if leaves != [] {
      FlatLeavesSame(p, p', leaves[1..]);
    }
  }

  /** Keys of one child share the routing index. */
  lemma {:induction false} SameChildIndex(p: Pages, seps: seq<Sep>, right: nat, h: nat, lo: Bound, hi: Bound,
                                          key: Blob, other: Blob)
    requires WFAll(p, seps, right, h, lo, hi)
    requires var r := ChildRange(seps, lo, hi, key); InRange(other, r.0, r.1)
    ensures RouteIndex(seps, other) == RouteIndex(seps, key) && InRange(other, lo, hi)
    decreases |seps|
  {
    hide Rank, Lex, WF, Foot;
    if seps != [] {
      var k := seps[0].key;
      LexIsBelow(key, k);
      LexIsBelow(other, k);
      if !Lex(key, k) {
        SameChildIndex(p, seps[1..], right, h, Key(k), hi, key, other);
        ChildAtLeast(p, seps[1..], right, h, Key(k), hi, key, other);
      }
    }
  }

  lemma {:induction false} ChildAtLeast(p: Pages, seps: seq<Sep>, right: nat, h: nat, lo: Bound, hi: Bound,
                                        key: Blob, other: Blob)
    requires WFAll(p, seps, right, h, lo, hi)
    requires var r := ChildRange(seps, lo, hi, key); InRange(other, r.0, r.1)
    ensures AtLeast(other, lo)
    decreases |seps|
  {
    hide Rank, Lex, WF, Foot;
    if seps != [] && !Lex(key, seps[0].key) {
      ChildAtLeast(p, seps[1..], right, h, Key(seps[0].key), hi, key, other);
    }
  }

  // --- A whole leaf split -----------------------------------------------------------------

  /** The pages after the leaf `c` is split at `mid` and the pivot inserted into the page `q` above it. */
  ghost function AfterSplit(p: Pages, c: nat, q: nat, newId: nat, mid: nat, pivot: Blob): Pages
    requires c in p && p[c].LeafNode? && mid <= |p[c].cells| && q in p && p[q].InnerNode?
  {
    p[c := LeafNode(p[c].cells[..mid], newId)][newId := LeafNode(p[c].cells[mid..], p[c].next)]
     [q := InnerNode(InsertSep(p[q].seps, pivot, c, newId), InsertRight(p[q].seps, p[q].right, pivot, newId))]
  }

  /** Splitting the leaf responsible for a key and promoting the key at the split into the parent keeps the
      tree, its contents and the leaf chain.
   */
  lemma LeafSplitKeepsTree(p: Pages, root: nat, h: nat, key: Blob, newId: nat, mid: nat)
    requires h > 0 && IsTree(p, root, h) && newId !in p && newId != 0
    requires var c := LeafOf(p, root, h, key);
      c in p && p[c].LeafNode? && mid < |p[c].cells| && CleanCut(p[c].cells, mid)
    ensures var c, q := LeafOf(p, root, h, key), NodeAt(p, root, h, key, 1);
      && q in p && p[q].InnerNode?
      && var p' := AfterSplit(p, c, q, newId, mid, p[c].cells[mid].key);
         && IsTree(p', root, h) && Flatten(p', root, h) == Flatten(p, root, h)
         && (Chained(p, Leaves(p, root, h)) ==> Chained(p', Leaves(p', root, h)))
  {
    hide Rank, Lex, NodeAt, RangeAt, Flatten, InsertSep, InsertRight, Route, ChildRange, CellsIn, SortedCells,
         FootAll, WFAll, LeavesAll, Chained;
    var c, q := LeafOf(p, root, h, key), NodeAt(p, root, h, key, 1);
    PathStep(p, root, h, Open, Open, key, 0);
    var pivot := p[c].cells[mid].key;
    var p' := AfterSplit(p, c, q, newId, mid, pivot);
    var r, r1 := RangeAt(p, root, h, Open, Open, key, 0), RangeAt(p, root, h, Open, Open, key, 1);
    PathWF(p, root, h, Open, Open, key, 0);
    PathWF(p, root, h, Open, Open, key, 1);
    LeafHalves(p, p', c, r, mid, newId);
    SameChildIndex(p, p[q].seps, p[q].right, 0, r1.0, r1.1, key, pivot);
    var left, right := SplitKeepsTree(p, p', root, h, key, pivot, 0, newId);
    LeafOfHeight0(p, c);
    LeafOfHeight0(p', c);
    LeafOfHeight0(p', newId);
    assert [c] + [newId] == [c, newId];
    if Chained(p, Leaves(p, root, h)) {
      ChainParts(p, left + [c] + right);
      ChainSplit(p, p', left, c, newId, right);
    }
  }

  lemma LeafOfHeight0(p: Pages, c: nat)
    ensures Leaves(p, c, 0) == [c] && Foot(p, c, 0) == {c}
  {
  }

  lemma ChainParts(p: Pages, leaves: seq<nat>)
    requires Chained(p, leaves)
    ensures forall x :: x in leaves ==> x in p && p[x].LeafNode?
  {
  }

  /** The pages after the root leaf is split under a new root. */
  ghost function AfterRootSplit(p: Pages, c: nat, newId: nat, newRoot: nat, mid: nat, pivot: Blob): Pages
    requires c in p && p[c].LeafNode? && mid <= |p[c].cells|
  {
    p[c := LeafNode(p[c].cells[..mid], newId)][newId := LeafNode(p[c].cells[mid..], p[c].next)]
     [newRoot := InnerNode([Sep(c, pivot)], newId)]
  }

  lemma RootLeafSplitKeepsTree(p: Pages, c: nat, newId: nat, newRoot: nat, mid: nat)
    requires IsTree(p, c, 0)
    requires newId !in p && newId != 0 && newRoot !in p && newRoot != newId
    requires mid < |p[c].cells| && CleanCut(p[c].cells, mid)
    ensures var p' := AfterRootSplit(p, c, newId, newRoot, mid, p[c].cells[mid].key);
      && IsTree(p', newRoot, 1) && Flatten(p', newRoot, 1) == Flatten(p, c, 0)
      && (Chained(p, Leaves(p, c, 0)) ==> Chained(p', Leaves(p', newRoot, 1)))
  {
    hide Rank, Lex, CellsIn, SortedCells, FootAll, WFAll, LeavesAll, Chained;
    var p' := AfterRootSplit(p, c, newId, newRoot, mid, p[c].cells[mid].key);
    LeafHalves(p, p', c, (Open, Open), mid, newId);
    LeafOfHeight0(p, c);
    LeafOfHeight0(p', c);
    LeafOfHeight0(p', newId);
    RootSplitKeepsTree(p, p', c, 0, p[c].cells[mid].key, newId, newRoot);
    assert [] + [c] + [] == [c] && [c] + [newId] == [] + [c, newId] + [];
    if Chained(p, Leaves(p, c, 0)) {
      ChainSplit(p, p', [], c, newId, []);
    }
  }

  /** Changing the cells of a leaf keeps the chain. */
  lemma ChainKept(p: Pages, q: nat, cells: seq<Cell>, leaves: seq<nat>)
    requires Chained(p, leaves) && q in p && p[q].LeafNode?
    ensures Chained(p[q := p[q].(cells := cells)], leaves)
  {
  }
}
