/** The split of a leaf below full pages: every page on the way up that has no room for the pivot it is offered is split
    itself, and the offered pivot is dropped.
 */
module TreeCascade {
  import opened Bytes
  import opened LeafPage
  import opened InternalPage
  import opened TreeModel
  import opened TreeOps
  import opened TreeSplit
  import opened TreeLookups

  // --- Cutting one page -------------------------------------------------------------------

  predicate CanCut(p: Pages, c: nat) { c in p && (p[c].LeafNode? || p[c].seps != []) }

  /** The key a page offers to the page above when it is cut. */
  function Offered(p: Pages, c: nat): Blob
    requires CanCut(p, c)
  {
    if p[c].LeafNode? then MiddleKey(p[c].cells) else PivotOf(p, c)
  }

  ghost function LeafCut(p: Pages, c: nat, newId: nat): Pages
    requires c in p && p[c].LeafNode?
  {
    var cells, mid := p[c].cells, |p[c].cells| / 2;
    p[c := LeafNode(cells[..mid], newId)][newId := LeafNode(cells[mid..], p[c].next)]
  }

  ghost function Cut(p: Pages, c: nat, newId: nat): Pages
    requires CanCut(p, c)
  {
    if p[c].LeafNode? then LeafCut(p, c, newId) else InnerCut(p, c, newId)
  }

  lemma CutKeys(p: Pages, c: nat, newId: nat)
    requires CanCut(p, c)
    ensures Cut(p, c, newId).Keys == p.Keys + {newId}
    ensures forall x :: x in p && x != c && x != newId ==> Cut(p, c, newId)[x] == p[x]
  {
  }

  /** The first half of a leaf in place of the leaf. */
  lemma LeafCutLookups(p: Pages, root: nat, h: nat, key: Blob, newId: nat)
    requires IsTree(p, root, h) && newId !in p
    ensures var c := LeafOf(p, root, h, key);
      && c in p && p[c].LeafNode?
      && IsTree(LeafCut(p, c, newId), root, h)
      && forall other ::
           Lookup(LeafCut(p, c, newId), root, h, other)
           == if LeafOf(p, root, h, other) == c then FirstMatch(p[c].cells[..|p[c].cells| / 2], other)
              else Lookup(p, root, h, other)
  {
    hide Rank, Lex, NodeAt, RangeAt, Flatten, FirstMatch, WFAll, Leaves;
    var c, r := LeafOf(p, root, h, key), RangeAt(p, root, h, Open, Open, key, 0);
    PathWF(p, root, h, Open, Open, key, 0);
    var p' := LeafCut(p, c, newId);
    LeafOfHeight0(p, c);
    LeafOfHeight0(p', c);
    var a := Rebuild(p, p', root, h, Open, Open, key, 0);
    forall other
      ensures LeafOf(p', root, h, other) == LeafOf(p, root, h, other) && LeafOf(p, root, h, other) in p
    {
      SameRoute(p, p', root, h, Open, Open, other, c, 0);
      LeafIsLeaf(p, root, h, other);
    }
  }

  /** Cutting a page on the path of a key leaves a tree and does not show above the page. */
  lemma OneCut(p: Pages, root: nat, h: nat, key: Blob, k: nat, newId: nat)
    requires k <= h && IsTree(p, root, h) && newId !in p && CanCut(p, NodeAt(p, root, h, key, k))
    ensures IsTree(Cut(p, NodeAt(p, root, h, key, k), newId), root, h)
    ensures k == 0 <==> p[NodeAt(p, root, h, key, k)].LeafNode?
  {
    hide Rank, Lex, NodeAt, RangeAt, WFAll, Lookup, LeafCut, InnerCut, HalvesOnly;
    PathWF(p, root, h, Open, Open, key, k);
    if k == 0 {
      LeafCutLookups(p, root, h, key, newId);
    } else {
      var c := NodeAt(p, root, h, key, k);
      InnerCutHalves(p, root, h, key, k, newId);
      LostPivot(p, InnerCut(p, c, newId), root, h, key, k, PivotOf(p, c), newId);
    }
  }

  lemma CutAbove(p: Pages, root: nat, h: nat, key: Blob, k: nat, newId: nat, other: Blob, i: nat)
    requires k < i <= h && IsTree(p, root, h) && newId !in p && CanCut(p, NodeAt(p, root, h, key, k))
    ensures var c, n := NodeAt(p, root, h, key, k), NodeAt(p, root, h, other, i);
      var p' := Cut(p, c, newId);
      && NodeAt(p', root, h, other, i) == n && n in p && n in p' && p'[n] == p[n]
      && RangeAt(p', root, h, Open, Open, other, i) == RangeAt(p, root, h, Open, Open, other, i)
  {
    hide Rank, Lex, NodeAt, RangeAt, WF, Cut;
    var c, r := NodeAt(p, root, h, key, k), RangeAt(p, root, h, Open, Open, key, k);
    PathWF(p, root, h, Open, Open, key, k);
    CutKeys(p, c, newId);
    SameAbove(p, Cut(p, c, newId), root, h, Open, Open, other, c, k, r, i);
  }

  // --- Cutting the pages of a path --------------------------------------------------------

  /** Every page below level `n` on the path can be cut. */
  ghost predicate CanCutTo(p: Pages, root: nat, h: nat, key: Blob, n: nat)
    requires n <= h + 1
  {
    forall i: nat :: i < n ==> CanCut(p, NodeAt(p, root, h, key, i))
  }

  /** Ids of new pages. */
  ghost predicate NewIds(p: Pages, ids: seq<nat>) {
    && (forall i :: 0 <= i < |ids| ==> ids[i] !in p)
    && (forall i, j :: 0 <= i < j < |ids| ==> ids[i] != ids[j])
  }

  /** The pages after the `n` lowest pages on the path of a key are cut and no pivot is promoted. */
  ghost function CutUp(p: Pages, root: nat, h: nat, key: Blob, n: nat, ids: seq<nat>): Pages
    requires n <= h + 1 && n <= |ids|
    decreases n
  {
    if n == 0 then p
    else
      var b, c := CutUp(p, root, h, key, n - 1, ids), NodeAt(p, root, h, key, n - 1);
      if CanCut(b, c) then Cut(b, c, ids[n - 1]) else b
  }

  lemma {:induction false} CutUpTree(p: Pages, root: nat, h: nat, key: Blob, n: nat, ids: seq<nat>)
    requires n <= h + 1 && n <= |ids| && IsTree(p, root, h) && CanCutTo(p, root, h, key, n) && NewIds(p, ids)
    ensures IsTree(CutUp(p, root, h, key, n, ids), root, h)
    ensures forall x :: x in CutUp(p, root, h, key, n, ids) <==> x in p || x in ids[..n]
    decreases n, 1
  {
    hide Rank, Lex, NodeAt, WF, Cut;
    if n > 0 {
      var b, c := CutUp(p, root, h, key, n - 1, ids), NodeAt(p, root, h, key, n - 1);
      CutUpTree(p, root, h, key, n - 1, ids);
      CutUpAbove(p, root, h, key, n - 1, ids, key, n - 1);
      assert CanCut(p, c);
      OneCut(b, root, h, key, n - 1, ids[n - 1]);
      CutKeys(b, c, ids[n - 1]);
      assert ids[..n] == ids[..n - 1] + [ids[n - 1]];
    }
  }

  /** The cuts do not show above them. */
  lemma {:induction false} CutUpAbove(p: Pages, root: nat, h: nat, key: Blob, n: nat, ids: seq<nat>, other: Blob,
                                      i: nat)
    requires n <= i <= h && n <= |ids| && IsTree(p, root, h) && CanCutTo(p, root, h, key, n) && NewIds(p, ids)
    ensures var b, c := CutUp(p, root, h, key, n, ids), NodeAt(p, root, h, other, i);
      && NodeAt(b, root, h, other, i) == c && c in p && c in b && b[c] == p[c]
      && RangeAt(b, root, h, Open, Open, other, i) == RangeAt(p, root, h, Open, Open, other, i)
    decreases n, 0
  {
    hide Rank, Lex, NodeAt, RangeAt, WF, Cut;
    if n == 0 {
      PathWF(p, root, h, Open, Open, other, i);
      InStoreOf(p, NodeAt(p, root, h, other, i), i, RangeAt(p, root, h, Open, Open, other, i));
    } else {
      var b, c := CutUp(p, root, h, key, n - 1, ids), NodeAt(p, root, h, key, n - 1);
      CutUpTree(p, root, h, key, n - 1, ids);
      CutUpAbove(p, root, h, key, n - 1, ids, other, i);
      CutUpAbove(p, root, h, key, n - 1, ids, key, n - 1);
      assert CanCut(p, c);
      CutAbove(b, root, h, key, n - 1, ids[n - 1], other, i);
    }
  }

  lemma InStoreOf(p: Pages, id: nat, h: nat, r: (Bound, Bound))
    requires WF(p, id, h, r.0, r.1)
    ensures id in p
  {
  }

  /** What a lookup answers once the `n` lowest pages on the path of a key are cut: the first half of the leaf is
      searched, and the keys from each dropped pivot to the end of its page's range are gone.
   */
  ghost function CutAnswer(p: Pages, root: nat, h: nat, key: Blob, n: nat, other: Blob): Found
    requires n <= h + 1 && CanCutTo(p, root, h, key, n)
    decreases n
  {
    if n == 0 then Lookup(p, root, h, other)
    else
      var c := NodeAt(p, root, h, key, n - 1);
      assert CanCut(p, c);
      if n == 1 && p[c].LeafNode? then
        if LeafOf(p, root, h, other) == c then FirstMatch(p[c].cells[..|p[c].cells| / 2], other)
        else Lookup(p, root, h, other)
      else if InRange(other, Key(Offered(p, c)), RangeAt(p, root, h, Open, Open, key, n - 1).1) then Missing
      else CutAnswer(p, root, h, key, n - 1, other)
  }

  lemma {:induction false} CutUpLookups(p: Pages, root: nat, h: nat, key: Blob, n: nat, ids: seq<nat>, other: Blob)
    requires n <= h + 1 && n <= |ids| && IsTree(p, root, h) && CanCutTo(p, root, h, key, n) && NewIds(p, ids)
    ensures Lookup(CutUp(p, root, h, key, n, ids), root, h, other) == CutAnswer(p, root, h, key, n, other)
    decreases n
  {
    hide Rank, Lex, NodeAt, RangeAt, WF, FirstMatch, Lookup, LeafCut, InnerCut, HalvesOnly, InRange, CanCut;
    if n > 0 {
      var b, c := CutUp(p, root, h, key, n - 1, ids), NodeAt(p, root, h, key, n - 1);
      CutUpTree(p, root, h, key, n - 1, ids);
      CutUpAbove(p, root, h, key, n - 1, ids, key, n - 1);
      assert CanCut(p, c);
      SameCanCut(p, b, c);
      CutHeights(p, root, h, key, n - 1);
      if n == 1 {
        LeafCutLookups(p, root, h, key, ids[0]);
      } else {
        CutUpLookups(p, root, h, key, n - 1, ids, other);
        CutHasSeps(b, c);
        InnerCutHalves(b, root, h, key, n - 1, ids[n - 1]);
        LostPivot(b, InnerCut(b, c, ids[n - 1]), root, h, key, n - 1, PivotOf(b, c), ids[n - 1]);
      }
    }
  }

  lemma SameCanCut(p: Pages, b: Pages, c: nat)
    requires CanCut(p, c) && c in b && b[c] == p[c]
    ensures CanCut(b, c) && Offered(b, c) == Offered(p, c)
  {
  }

  lemma CutHasSeps(p: Pages, c: nat)
    requires CanCut(p, c) && p[c].InnerNode?
    ensures HasSeps(p, c) && Offered(p, c) == PivotOf(p, c)
  {
  }

  lemma CutHeights(p: Pages, root: nat, h: nat, key: Blob, k: nat)
    requires k <= h && IsTree(p, root, h)
    ensures var c := NodeAt(p, root, h, key, k); c in p && (k == 0 <==> p[c].LeafNode?)
  {
    hide Rank, Lex, NodeAt, RangeAt, WFAll;
    PathWF(p, root, h, Open, Open, key, k);
  }

  // --- The whole split --------------------------------------------------------------------

  /** The pages after the pages at levels 0 to `n` are cut and the last pivot is promoted, to level `n + 1` or a new
      root.
   */
  ghost function Cascade(p: Pages, root: nat, h: nat, key: Blob, n: nat, ids: seq<nat>, newRoot: nat): Pages
    requires n <= h && n < |ids| && CanCut(p, NodeAt(p, root, h, key, n))
  {
    var b, c := CutUp(p, root, h, key, n + 1, ids), NodeAt(p, root, h, key, n);
    if n == h then b[newRoot := InnerNode([Sep(c, Offered(p, c))], ids[n])]
    else
      var q := NodeAt(p, root, h, key, n + 1);
      if q in p && p[q].InnerNode? then b[q := WithPivot(p[q], Offered(p, c), c, ids[n])] else b
  }

  /** A split root page gets a new root above it. */
  function TopAfter(root: nat, h: nat, n: nat, newRoot: nat): nat { if n == h then newRoot else root }

  function HeightAfter(h: nat, n: nat): nat { if n == h then h + 1 else h }

  /** What a lookup answers afterwards. */
  ghost function CascadeAnswer(p: Pages, root: nat, h: nat, key: Blob, n: nat, other: Blob): Found
    requires n <= h && IsTree(p, root, h) && CanCutTo(p, root, h, key, n + 1)
  {
    if n == 0 then SplitAnswer(p, root, h, key, other)
    else
      CanCutLess(p, root, h, key, n);
      if Overwritten(p, root, h, key, n, other) then Missing else CutAnswer(p, root, h, key, n, other)
  }

  lemma CanCutLess(p: Pages, root: nat, h: nat, key: Blob, n: nat)
    requires 1 <= n <= h && IsTree(p, root, h) && CanCutTo(p, root, h, key, n + 1)
    ensures CanCutTo(p, root, h, key, n) && HasSeps(p, NodeAt(p, root, h, key, n))
  {
    hide WF, NodeAt;
    CutHeights(p, root, h, key, n);
    assert CanCut(p, NodeAt(p, root, h, key, n));
  }

  lemma CascadeIsLeafSplit(p: Pages, root: nat, h: nat, key: Blob, ids: seq<nat>, newRoot: nat)
    requires IsTree(p, root, h) && ids != [] && CanCut(p, LeafOf(p, root, h, key))
    ensures Cascade(p, root, h, key, 0, ids, newRoot) == LeafSplit(p, root, h, key, ids[0], newRoot)
  {
    hide Rank, Lex, NodeAt, RangeAt, WF, InsertSep, InsertRight;
    LeafIsLeaf(p, root, h, key);
    ParentIsInner(p, root, h, key);
    assert CutUp(p, root, h, key, 0, ids) == p;
  }

  lemma CascadeIsPromoted(p: Pages, root: nat, h: nat, key: Blob, n: nat, ids: seq<nat>, newRoot: nat)
    requires 1 <= n <= h && n < |ids| && IsTree(p, root, h) && CanCutTo(p, root, h, key, n + 1) && NewIds(p, ids)
    ensures var b, c := CutUp(p, root, h, key, n, ids), NodeAt(p, root, h, key, n);
      && HasSeps(p, c) && HasSeps(b, c) && NodeAt(b, root, h, key, n) == c
      && Cascade(p, root, h, key, n, ids, newRoot) == PromotedPages(b, root, h, key, n, ids[n], newRoot)
      && (PivotFits(b, root, h, key, n) <==> PivotFits(p, root, h, key, n))
      && forall other :: Overwritten(b, root, h, key, n, other) <==> Overwritten(p, root, h, key, n, other)
  {
    hide Rank, Lex, NodeAt, RangeAt, WF, WithPivot, InnerCut, RouteIndex, CutUp;
    var b, c := CutUp(p, root, h, key, n, ids), NodeAt(p, root, h, key, n);
    CanCutLess(p, root, h, key, n);
    CutUpAbove(p, root, h, key, n, ids, key, n);
    CutUpStep(p, root, h, key, n, ids);
    if n < h {
      CutUpAbove(p, root, h, key, n, ids, key, n + 1);
      forall other
        ensures Overwritten(b, root, h, key, n, other) <==> Overwritten(p, root, h, key, n, other)
      {
        CutUpAbove(p, root, h, key, n, ids, other, n + 1);
      }
    }
  }

  lemma CutUpStep(p: Pages, root: nat, h: nat, key: Blob, n: nat, ids: seq<nat>)
    requires n <= h && n < |ids|
    ensures var b, c := CutUp(p, root, h, key, n, ids), NodeAt(p, root, h, key, n);
      HasSeps(b, c) ==> CutUp(p, root, h, key, n + 1, ids) == InnerCut(b, c, ids[n])
  {
  }

  /** A leaf split below `n` full pages: what every lookup answers afterwards. If the last pivot fits what is left is a
      tree, with what the pages below still held.
   */
  lemma FullAncestors(p: Pages, root: nat, h: nat, key: Blob, n: nat, ids: seq<nat>, newRoot: nat)
    requires n <= h && n < |ids| && IsTree(p, root, h) && CanCutTo(p, root, h, key, n + 1)
    requires NewIds(p, ids) && ids[0] != 0 && newRoot !in p && newRoot !in ids
    ensures CanCut(p, NodeAt(p, root, h, key, n))
    ensures forall other ::
      Lookup(Cascade(p, root, h, key, n, ids, newRoot), TopAfter(root, h, n, newRoot), HeightAfter(h, n), other)
      == CascadeAnswer(p, root, h, key, n, other)
    ensures n > 0 && HasSeps(p, NodeAt(p, root, h, key, n)) && PivotFits(p, root, h, key, n) ==>
      var p', root', h' :=
        Cascade(p, root, h, key, n, ids, newRoot), TopAfter(root, h, n, newRoot), HeightAfter(h, n);
      IsTree(p', root', h') && Flatten(p', root', h') == Flatten(CutUp(p, root, h, key, n, ids), root, h)
  {
    hide Rank, Lex, NodeAt, RangeAt, WF, CanCut, Cascade, Lookup, SplitAnswer, CutAnswer, CutUp, Flatten, PivotFits,
         PromotedPages, LeafSplit, Overwritten;
    assert CanCut(p, NodeAt(p, root, h, key, n));
    var p', root', h' :=
      Cascade(p, root, h, key, n, ids, newRoot), TopAfter(root, h, n, newRoot), HeightAfter(h, n);
    if n == 0 {
      CascadeIsLeafSplit(p, root, h, key, ids, newRoot);
      forall other
        ensures Lookup(p', root', h', other) == CascadeAnswer(p, root, h, key, n, other)
      {
        SplitAnswers(p, root, h, key, ids[0], newRoot, other);
      }
    } else {
      var b := CutUp(p, root, h, key, n, ids);
      CanCutLess(p, root, h, key, n);
      CascadeIsPromoted(p, root, h, key, n, ids, newRoot);
      CutUpTree(p, root, h, key, n, ids);
      assert ids[n] !in ids[..n];
      forall other
        ensures Lookup(p', root', h', other) == CascadeAnswer(p, root, h, key, n, other)
      {
        PromotedLookups(b, root, h, key, n, ids[n], newRoot, other);
        CutUpLookups(p, root, h, key, n, ids, other);
      }
      if PivotFits(p, root, h, key, n) {
        PromotedKeeps(b, root, h, key, n, ids[n], newRoot);
      }
    }
  }

  /** Without a pivot above it the second half of a leaf is lost: the key at a clean cut, which was stored, is no longer
      found below a full page.
   */
  lemma UpperHalfLost(p: Pages, root: nat, h: nat, key: Blob, n: nat)
    requires 1 <= n <= h && IsTree(p, root, h) && CanCutTo(p, root, h, key, n + 1)
    requires var c := LeafOf(p, root, h, key);
      c in p && p[c].LeafNode? && p[c].cells != [] && CleanCut(p[c].cells, |p[c].cells| / 2)
    ensures var k := MiddleKey(p[LeafOf(p, root, h, key)].cells);
      Lookup(p, root, h, k) != Missing && CascadeAnswer(p, root, h, key, n, k) == Missing
  {
    hide Rank, Lex, NodeAt, RangeAt, WF, CutAnswer, SplitAnswer, Overwritten, FirstMatch, CanCutTo;
    var c := LeafOf(p, root, h, key);
    var cells, mid := p[c].cells, |p[c].cells| / 2;
    LeafIsLeaf(p, root, h, key);
    CutKeyHere(p, root, h, key, mid);
    assert cells[mid] in cells;
    MemberFound(cells, cells[mid]);
    CanCutLess(p, root, h, key, n);
    CutKeyGone(p, root, h, key, n);
  }

  lemma {:induction false} CutKeyGone(p: Pages, root: nat, h: nat, key: Blob, n: nat)
    requires 1 <= n <= h + 1 && IsTree(p, root, h) && CanCutTo(p, root, h, key, n)
    requires var c := LeafOf(p, root, h, key);
      && c in p && p[c].LeafNode? && SortedCells(p[c].cells) && p[c].cells != []
      && CleanCut(p[c].cells, |p[c].cells| / 2) && LeafOf(p, root, h, MiddleKey(p[c].cells)) == c
    ensures CutAnswer(p, root, h, key, n, MiddleKey(p[LeafOf(p, root, h, key)].cells)) == Missing
    decreases n
  {
    hide Rank, Lex, NodeAt, RangeAt, WF, InRange, FirstMatch;
    if n == 1 {
      var cells, mid := p[LeafOf(p, root, h, key)].cells, |p[LeafOf(p, root, h, key)].cells| / 2;
      BeforeRun(cells, mid, mid);
      MatchSkip(cells[..mid], [], cells[mid].key);
      assert cells[..mid] + [] == cells[..mid];
      NothingFound(cells[mid].key);
    } else {
      CutKeyGone(p, root, h, key, n - 1);
    }
  }

  // --- The leaf chain ---------------------------------------------------------------------

  /** `p'` holds the two halves of the leaf `c`, and every other leaf as it was. */
  ghost predicate LeafParts(p: Pages, p': Pages, c: nat, newId: nat)
    requires c in p && p[c].LeafNode?
  {
    var cells, mid := p[c].cells, |p[c].cells| / 2;
    && c in p' && p'[c] == LeafNode(cells[..mid], newId)
    && newId in p' && p'[newId] == LeafNode(cells[mid..], p[c].next)
    && forall x :: x in p && x != c && p[x].LeafNode? ==> x in p' && p'[x] == p[x]
  }

  lemma {:induction false} CutUpLeaves(p: Pages, root: nat, h: nat, key: Blob, n: nat, ids: seq<nat>)
    requires 1 <= n <= h + 1 && n <= |ids| && IsTree(p, root, h) && CanCutTo(p, root, h, key, n) && NewIds(p, ids)
    ensures var c := LeafOf(p, root, h, key);
      c in p && p[c].LeafNode? && LeafParts(p, CutUp(p, root, h, key, n, ids), c, ids[0])
    decreases n
  {
    hide Rank, Lex, NodeAt, RangeAt, WF;
    LeafIsLeaf(p, root, h, key);
    var b, d := CutUp(p, root, h, key, n - 1, ids), NodeAt(p, root, h, key, n - 1);
    assert CanCut(p, d);
    if n == 1 {
      assert b == p;
    } else {
      CutUpLeaves(p, root, h, key, n - 1, ids);
      CutUpAbove(p, root, h, key, n - 1, ids, key, n - 1);
      CutHeights(p, root, h, key, n - 1);
      CutKeys(b, d, ids[n - 1]);
      assert ids[n - 1] != ids[0];
    }
  }

  lemma CascadeLeaves(p: Pages, root: nat, h: nat, key: Blob, n: nat, ids: seq<nat>, newRoot: nat)
    requires n <= h && n < |ids| && IsTree(p, root, h) && CanCutTo(p, root, h, key, n + 1)
    requires NewIds(p, ids) && newRoot !in p && newRoot !in ids && CanCut(p, NodeAt(p, root, h, key, n))
    ensures var c := LeafOf(p, root, h, key);
      c in p && p[c].LeafNode? && LeafParts(p, Cascade(p, root, h, key, n, ids, newRoot), c, ids[0])
  {
    hide Rank, Lex, NodeAt, RangeAt, WF, CutUp, CanCut, Offered, WithPivot;
    CutUpLeaves(p, root, h, key, n + 1, ids);
    assert ids[0] in ids;
  }

  /** However a leaf is split, at a duplicate, empty or below full pages: a walk along the chain still meets every
      cell, in order.
   */
  lemma SplitChain(p: Pages, p': Pages, root: nat, h: nat, key: Blob, newId: nat) returns (leaves: seq<nat>)
    requires IsTree(p, root, h) && Chained(p, Leaves(p, root, h)) && newId !in p && newId != 0
    requires LeafOf(p, root, h, key) in p && p[LeafOf(p, root, h, key)].LeafNode?
    requires LeafParts(p, p', LeafOf(p, root, h, key), newId)
    ensures Chained(p', leaves) && FlatLeaves(p', leaves) == Flatten(p, root, h)
  {
    hide Rank, Lex, NodeAt, RangeAt, Flatten, Leaves, Chained, FlatLeaves, WFAll;
    var c := LeafOf(p, root, h, key);
    PathWF(p, root, h, Open, Open, key, 0);
    var a := Rebuild(p, p, root, h, Open, Open, key, 0);
    LeafOfHeight0(p, c);
    var cells, mid := p[c].cells, |p[c].cells| / 2;
    ChainParts(p, a.left + [c] + a.right);
    ChainSplit(p, p', a.left, c, newId, a.right);
    leaves := a.left + [c, newId] + a.right;
    FlattenIsFlatLeaves(p, root, h, Open, Open);
    FlatLeavesSame(p, p', a.left);
    FlatLeavesSame(p, p', a.right);
    FlatAround(p, a.left, [c], a.right);
    FlatAround(p', a.left, [c, newId], a.right);
    FlatHalves(p, p', c, newId);
  }

  lemma FlatAround(p: Pages, a: seq<nat>, b: seq<nat>, c: seq<nat>)
    ensures FlatLeaves(p, a + b + c) == FlatLeaves(p, a) + FlatLeaves(p, b) + FlatLeaves(p, c)
  {
    hide FlatLeaves;
    FlatLeavesConcat(p, a + b, c);
    FlatLeavesConcat(p, a, b);
  }

  lemma FlatOne(p: Pages, c: nat)
    requires c in p && p[c].LeafNode?
    ensures FlatLeaves(p, [c]) == p[c].cells
  {
    assert [c][1..] == [];
  }

  lemma FlatHalves(p: Pages, p': Pages, c: nat, newId: nat)
    requires c in p && p[c].LeafNode? && LeafParts(p, p', c, newId)
    ensures FlatLeaves(p', [c, newId]) == FlatLeaves(p, [c])
  {
    var cells, mid := p[c].cells, |p[c].cells| / 2;
    FlatOne(p, c);
    FlatOne(p', c);
    FlatOne(p', newId);
    FlatLeavesConcat(p', [c], [newId]);
    assert [c, newId] == [c] + [newId];
    assert cells == cells[..mid] + cells[mid..];
  }
}
