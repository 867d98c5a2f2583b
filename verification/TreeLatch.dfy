/** Which pages an insertion keeps latched on its way down, and how far up it then splits. */
module TreeLatch {
  import opened Bytes
  import opened PageHeader
  import opened LeafPage
  import opened InternalPage
  import opened TreeModel
  import opened TreeOps
  import opened TreeSplit
  import opened TreeLookups
  import opened TreeCascade

  /** Bytes the cells of a page take. */
  function Used(n: Node): nat { if n.LeafNode? then LeafPage.Size(n.cells) else InternalPage.Size(n.seps) }

  predicate Safe(n: Node, need: nat) { HEADER_SIZE + Used(n) + need < PAGE_SIZE }

  /** The page at level `i` on the path of a key takes `need` more bytes. */
  ghost predicate SafeAt(p: Pages, root: nat, h: nat, key: Blob, i: nat, need: nat)
    requires i <= h
  {
    var c := NodeAt(p, root, h, key, i);
    c in p && Safe(p[c], need)
  }

  /** The page at level `i` has no room for the key that the page below it offers when it is split. */
  ghost predicate NoRoom(p: Pages, root: nat, h: nat, key: Blob, i: nat)
    requires 1 <= i <= h
  {
    var c := NodeAt(p, root, h, key, i - 1);
    CanCut(p, c) && !SafeAt(p, root, h, key, i, 10 + |Offered(p, c)|)
  }

  /** A page without separators cannot be split; it has no room only for a key of almost a page. */
  ghost predicate FullHaveSeps(p: Pages, root: nat, h: nat, key: Blob) {
    forall i: nat :: 1 <= i <= h && NoRoom(p, root, h, key, i) ==> HasSeps(p, NodeAt(p, root, h, key, i))
  }

  lemma NoSepsNoRoom(p: Pages, root: nat, h: nat, key: Blob, i: nat)
    requires 1 <= i <= h && NoRoom(p, root, h, key, i)
    requires var q := NodeAt(p, root, h, key, i); q in p && p[q].InnerNode? && p[q].seps == []
    ensures |Offered(p, NodeAt(p, root, h, key, i - 1))| >= PAGE_SIZE - HEADER_SIZE - 10
  {
  }

  // --- The latched pages ------------------------------------------------------------------

  /** The pages at the levels from `i` up to the last latched one, that one first. */
  ghost predicate OnPath(p: Pages, root: nat, h: nat, key: Blob, i: nat, latched: seq<nat>) {
    && 1 <= |latched| && i + |latched| - 1 <= h
    && forall j: nat :: j < |latched| ==> latched[j] == NodeAt(p, root, h, key, i + |latched| - 1 - j)
  }

  /** What the descent has latched when it comes to level `i`: everything down from the lowest page that is safe for the
      new cell, or from the root.
   */
  ghost predicate Latched(p: Pages, root: nat, h: nat, key: Blob, i: nat, need: nat, latched: seq<nat>) {
    && OnPath(p, root, h, key, i, latched)
    && (i + |latched| - 1 < h ==> SafeAt(p, root, h, key, i + |latched| - 1, need))
    && (forall j: nat :: i <= j < i + |latched| - 1 ==> !SafeAt(p, root, h, key, j, need))
  }

  lemma LatchChild(p: Pages, root: nat, h: nat, key: Blob, i: nat, need: nat, latched: seq<nat>, child: nat)
    requires 1 <= i <= h && Latched(p, root, h, key, i, need, latched) && child == NodeAt(p, root, h, key, i - 1)
    ensures Latched(p, root, h, key, i - 1, need,
                    (if SafeAt(p, root, h, key, i - 1, need) then [] else latched) + [child])
  {
    hide NodeAt, SafeAt;
  }

  lemma OnPathBelow(p: Pages, root: nat, h: nat, key: Blob, i: nat, latched: seq<nat>)
    requires OnPath(p, root, h, key, i, latched) && |latched| > 1
    ensures latched[|latched| - 1] == NodeAt(p, root, h, key, i)
    ensures latched[|latched| - 2] == NodeAt(p, root, h, key, i + 1)
    ensures OnPath(p, root, h, key, i + 1, latched[..|latched| - 1])
  {
    hide NodeAt;
  }

  // --- The panic --------------------------------------------------------------------------

  /** The lowest page above the leaf that is safe for the new cell is not the root, and neither it nor a page below it
      has room for the key it is offered: the page above it is no longer latched when it is needed.
   */
  ghost predicate PanicsAt(p: Pages, root: nat, h: nat, key: Blob, need: nat, n: nat) {
    && 1 <= n < h && SafeAt(p, root, h, key, n, need)
    && (forall j: nat :: 1 <= j < n ==> !SafeAt(p, root, h, key, j, need))
    && (forall j: nat :: 1 <= j <= n ==> NoRoom(p, root, h, key, j))
  }

  /** The last latched page, for a leaf that is not safe. */
  lemma PanicOnlyAtLast(p: Pages, root: nat, h: nat, key: Blob, need: nat, latched: seq<nat>, m: nat)
    requires Latched(p, root, h, key, 0, need, latched) && |latched| > 1
    requires PanicsAt(p, root, h, key, need, m)
    ensures m == |latched| - 1
  {
    hide NodeAt, SafeAt, NoRoom;
  }

  /** Only the pages above the leaf matter for the panic. */
  lemma SameLevels(p: Pages, p': Pages, root: nat, h: nat, key: Blob, need: nat, latched: seq<nat>)
    requires IsTree(p, root, h) && Latched(p, root, h, key, 0, need, latched) && |latched| > 1
    requires var c := LeafOf(p, root, h, key);
      && c in p && p[c].LeafNode? && c in p' && p'[c].LeafNode? && !Safe(p'[c], need)
      && forall x :: x in p && x != c ==> x in p' && p'[x] == p[x]
    ensures Latched(p', root, h, key, 0, need, latched)
  {
    hide Rank, Lex, NodeAt, WF, Safe;
    var c := LeafOf(p, root, h, key);
    forall i: nat | i <= h
      ensures NodeAt(p', root, h, key, i) == NodeAt(p, root, h, key, i)
      ensures i > 0 ==> (SafeAt(p', root, h, key, i, need) <==> SafeAt(p, root, h, key, i, need))
    {
      SameRoute(p, p', root, h, Open, Open, key, c, i);
      CutHeights(p, root, h, key, i);
    }
  }

  // --- How far the splits go --------------------------------------------------------------

  /** What the promotion from level `i` ends with: the pages at the levels up to `n` are cut, those above `i` because
      they had no room; then the last pivot found its place, or the page above was no longer latched.
   */
  ghost predicate Ended(p: Pages, root: nat, h: nat, key: Blob, i: nat, n: nat, ids: seq<nat>, newRoot: nat, last: nat,
                        done: bool, p': Pages, root': nat, h': nat) {
    && i <= n <= last <= h && n < |ids| && CanCutTo(p, root, h, key, n + 1) && CanCut(p, NodeAt(p, root, h, key, n))
    && (forall j: nat :: i < j <= n ==> NoRoom(p, root, h, key, j))
    && (done ==> p' == Cascade(p, root, h, key, n, ids, newRoot))
    && (done ==> root' == TopAfter(root, h, n, newRoot) && h' == HeightAfter(h, n))
    && (done && n < h ==> n < last && !NoRoom(p, root, h, key, n + 1))
    && (!done ==> n == last < h && p' == CutUp(p, root, h, key, n + 1, ids) && root' == root && h' == h)
  }

  /** The promotion panics exactly at an insertion that `PanicsAt` describes. */
  lemma PanicsExactly(p: Pages, root: nat, h: nat, key: Blob, need: nat, latched: seq<nat>, n: nat, ids: seq<nat>,
                      newRoot: nat, done: bool, p': Pages, root': nat, h': nat)
    requires Latched(p, root, h, key, 0, need, latched) && (h > 0 ==> |latched| > 1)
    requires Ended(p, root, h, key, 0, n, ids, newRoot, |latched| - 1, done, p', root', h')
    ensures !done ==> PanicsAt(p, root, h, key, need, n)
    ensures done ==> forall m: nat :: !PanicsAt(p, root, h, key, need, m)
  {
    hide NodeAt, SafeAt, NoRoom, Cascade, CutUp, CanCut, CanCutTo;
    if done {
      forall m: nat
        ensures !PanicsAt(p, root, h, key, need, m)
      {
        if PanicsAt(p, root, h, key, need, m) {
          PanicOnlyAtLast(p, root, h, key, need, latched, m);
        }
      }
    }
  }
}
