/** What lookups return after splits that do not keep the tree: a cut through duplicates of a key, a pivot that does not
    reach the parent, the split of an empty leaf.
 */
module TreeLookups {
  import opened Bytes
  import opened LeafPage
  import opened InternalPage
  import opened TreeModel
  import opened TreeOps
  import opened TreeSplit

  /** Descending from the root and searching the leaf, on whatever pages. */
  ghost function Lookup(p: Pages, root: nat, h: nat, key: Blob): Found {
    var c := LeafOf(p, root, h, key);
    if c in p && p[c].LeafNode? then FirstMatch(p[c].cells, key) else Missing
  }

  lemma LookupIs(p: Pages, root: nat, h: nat, key: Blob)
    requires IsTree(p, root, h)
    ensures Lookup(p, root, h, key) == FirstMatch(Flatten(p, root, h), key)
  {
    hide Rank, WF, NodeAt, Flatten, FirstMatch;
    LookupRefines(p, root, h, key);
  }

  // --- A cut through duplicates -----------------------------------------------------------

  /** Where the run of `k` that ends before `n` begins. */
  function RunStart(cells: seq<Cell>, k: Blob, n: nat): (a: nat)
    requires n <= |cells|
    ensures a <= n && (a == 0 || cells[a - 1].key != k)
    ensures forall i :: a <= i < n ==> cells[i].key == k
  {
    if n == 0 || cells[n - 1].key != k then n else RunStart(cells, k, n - 1)
  }

  /** The cells without those left of the cut that have the key at the cut. */
  function Trimmed(cells: seq<Cell>, mid: nat): seq<Cell>
    requires mid < |cells|
  {
    cells[..RunStart(cells, cells[mid].key, mid)] + cells[mid..]
  }

  lemma TrimmedAt(cells: seq<Cell>, mid: nat, i: nat)
    requires mid < |cells| && i < |Trimmed(cells, mid)|
    ensures var a := RunStart(cells, cells[mid].key, mid);
      var x := if i < a then i else mid + i - a;
      a <= mid && 0 <= x < |cells| && Trimmed(cells, mid)[i] == cells[x]
  {
    hide RunStart;
  }

  lemma TrimmedSorted(cells: seq<Cell>, mid: nat)
    requires SortedCells(cells) && mid < |cells|
    ensures SortedCells(Trimmed(cells, mid))
    ensures forall c :: c in Trimmed(cells, mid) ==> c in cells
  {
    hide Rank, RunStart, Trimmed;
    var t := Trimmed(cells, mid);
    forall i, j | 0 <= i < j < |t|
      ensures Rank(t[i].key) <= Rank(t[j].key)
    {
      TrimmedAt(cells, mid, i);
      TrimmedAt(cells, mid, j);
    }
    forall c | c in t
      ensures c in cells
    {
      var i: nat :| i < |t| && t[i] == c;
      TrimmedAt(cells, mid, i);
    }
  }

  /** Trimming makes the cut clean. */
  lemma TrimmedCut(cells: seq<Cell>, mid: nat)
    requires mid < |cells|
    ensures var a, t := RunStart(cells, cells[mid].key, mid), Trimmed(cells, mid);
      a < |t| && t[a] == cells[mid] && CleanCut(t, a) && t[..a] == cells[..a] && t[a..] == cells[mid..]
  {
  }

  /** Left of the run, no cell has the key. */
  lemma BeforeRun(cells: seq<Cell>, mid: nat, a: nat)
    requires SortedCells(cells) && a <= mid < |cells| && (a > 0 ==> cells[a - 1].key != cells[mid].key)
    ensures Avoids(cells[..a], cells[mid].key)
  {
    hide *;
    forall i | 0 <= i < a
      ensures cells[i].key != cells[mid].key
    {
      BeforeRunAt(cells, mid, a, i);
    }
    AvoidsPrefix(cells, a, cells[mid].key);
  }

  lemma AvoidsPrefix(cells: seq<Cell>, a: nat, k: Blob)
    requires a <= |cells| && forall i :: 0 <= i < a ==> cells[i].key != k
    ensures Avoids(cells[..a], k)
  {
  }

  lemma BeforeRunAt(cells: seq<Cell>, mid: nat, a: nat, i: nat)
    requires SortedCells(cells) && i < a <= mid < |cells| && cells[a - 1].key != cells[mid].key
    ensures cells[i].key != cells[mid].key
  {
    hide Rank;
    assert i < a - 1 ==> Rank(cells[i].key) <= Rank(cells[a - 1].key);
    assert Rank(cells[a - 1].key) <= Rank(cells[mid].key);
    if cells[i].key == cells[mid].key {
      RankInjective(cells[a - 1].key, cells[mid].key);
    }
  }

  lemma MatchDrop(x: seq<Cell>, m: seq<Cell>, y: seq<Cell>, key: Blob)
    requires Avoids(m, key)
    ensures FirstMatch(x + m + y, key) == FirstMatch(x + y, key)
  {
    MatchSkip(m, y, key);
    MatchTail(x, m + y, y, key);
    ConcatAssoc(x, m, y);
  }

  /** Trimming changes what is found of the one key only: the cell at the cut comes first. */
  lemma TrimmedMatch(cells: seq<Cell>, mid: nat, key: Blob)
    requires SortedCells(cells) && mid < |cells|
    ensures var k, a := cells[mid].key, RunStart(cells, cells[mid].key, mid);
      && FirstMatch(Trimmed(cells, mid), key) == (if key == k then Hit(cells[mid].val) else FirstMatch(cells, key))
      && (key != k ==> FirstMatch(cells[..mid], key) == FirstMatch(cells[..a], key))
      && FirstMatch(cells[..a], k) == Missing
  {
    hide Rank, SortedCells;
    var k, a := cells[mid].key, RunStart(cells, cells[mid].key, mid);
    var x, m, y := cells[..a], cells[a..mid], cells[mid..];
    BeforeRun(cells, mid, a);
    assert cells[..mid] == x + m && cells == x + m + y;
    MatchSkip(x, [], k);
    assert x + [] == x && x + m + [] == x + m;
    if key == k {
      MatchSkip(x, y, k);
    } else {
      MatchDrop(x, m, y, key);
      MatchDrop(x, m, [], key);
    }
  }

  /** Lookups on pages that differ from a tree in the one leaf that kept part of a run. */
  lemma RunLookups(p: Pages, root: nat, h: nat, c: nat, mid: nat, t: Pages, q: Pages, root': nat, h': nat, key: Blob)
    requires IsTree(p, root, h) && c in p && p[c].LeafNode? && SortedCells(p[c].cells) && mid < |p[c].cells|
    requires LeafOf(p, root, h, p[c].cells[mid].key) == c
    requires var f := p[c := p[c].(cells := Trimmed(p[c].cells, mid))];
      IsTree(f, root, h) && IsTree(t, root', h') && Flatten(t, root', h') == Flatten(f, root, h)
    requires c in t && t[c].LeafNode? && t[c].cells == p[c].cells[..RunStart(p[c].cells, p[c].cells[mid].key, mid)]
    requires c in q && q[c].LeafNode? && q[c].cells == p[c].cells[..mid]
    requires forall x :: x in t && x != c ==> x in q && q[x] == t[x]
    ensures Lookup(q, root', h', key)
         == if key == p[c].cells[mid].key then Hit(p[c].cells[mid].val) else Lookup(p, root, h, key)
  {
    hide Rank, Lex, WF, NodeAt, Flatten, FirstMatch, SortedCells, Trimmed, RunStart;
    var cells := p[c].cells;
    var f := p[c := p[c].(cells := Trimmed(cells, mid))];
    SameRoute(p, f, root, h, Open, Open, key, c, 0);
    SameRoute(t, q, root', h', Open, Open, key, c, 0);
    LookupIs(f, root, h, key);
    LookupIs(t, root', h', key);
    LeafIsLeaf(p, root, h, key);
    LeafIsLeaf(t, root', h', key);
    TrimmedMatch(cells, mid, key);
  }

  /** Splitting any non-empty leaf and promoting the key at the split into the parent: every key keeps its value but the
      key at the split, which gets that of the cell there.
   */
  lemma SplitLookups(p: Pages, root: nat, h: nat, key: Blob, newId: nat, mid: nat, other: Blob)
    requires h > 0 && IsTree(p, root, h) && newId !in p && newId != 0
    requires var c := LeafOf(p, root, h, key); c in p && p[c].LeafNode? && mid < |p[c].cells|
    ensures var c, q := LeafOf(p, root, h, key), NodeAt(p, root, h, key, 1);
      && q in p && p[q].InnerNode?
      && var pivot := p[c].cells[mid];
         Lookup(AfterSplit(p, c, q, newId, mid, pivot.key), root, h, other)
         == if other == pivot.key then Hit(pivot.val) else Lookup(p, root, h, other)
  {
    hide Rank, Lex, WF, NodeAt, RangeAt, Flatten, FirstMatch, SortedCells, Trimmed, RunStart, CleanCut, Leaves,
         InsertSep, InsertRight, Chained, Route, ChildRange;
    var c, q := LeafOf(p, root, h, key), NodeAt(p, root, h, key, 1);
    PathStep(p, root, h, Open, Open, key, 0);
    LeafIsLeaf(p, root, h, key);
    var cells := p[c].cells;
    var k := cells[mid].key;
    var a := RunStart(cells, k, mid);
    CutKeyHere(p, root, h, key, mid);
    TrimmedSorted(cells, mid);
    var pre, post := ReplaceLeaf(p, root, h, key, Trimmed(cells, mid));
    var f := p[c := p[c].(cells := Trimmed(cells, mid))];
    SameRoute(p, f, root, h, Open, Open, key, c, 0);
    SameRoute(p, f, root, h, Open, Open, key, c, 1);
    TrimmedCut(cells, mid);
    LeafSplitKeepsTree(f, root, h, key, newId, a);
    var t, r := AfterSplit(f, c, q, newId, a, k), AfterSplit(p, c, q, newId, mid, k);
    RunLookups(p, root, h, c, mid, t, r, root, h, other);
  }

  /** The key at the split belongs to the leaf. */
  lemma CutKeyHere(p: Pages, root: nat, h: nat, key: Blob, mid: nat)
    requires IsTree(p, root, h)
    requires var c := LeafOf(p, root, h, key); c in p && p[c].LeafNode? && mid < |p[c].cells|
    ensures LeafOf(p, root, h, p[LeafOf(p, root, h, key)].cells[mid].key) == LeafOf(p, root, h, key)
  {
    hide Rank, Lex, NodeAt, RangeAt;
    PathWF(p, root, h, Open, Open, key, 0);
    var c := LeafOf(p, root, h, key);
    assert p[c].cells[mid] in p[c].cells;
    SamePath(p, root, h, Open, Open, key, p[c].cells[mid].key, 0);
  }

  /** The same for a root leaf. */
  lemma RootSplitLookups(p: Pages, c: nat, newId: nat, newRoot: nat, mid: nat, other: Blob)
    requires IsTree(p, c, 0) && mid < |p[c].cells|
    requires newId !in p && newId != 0 && newRoot !in p && newRoot != newId
    ensures var pivot := p[c].cells[mid];
      Lookup(AfterRootSplit(p, c, newId, newRoot, mid, pivot.key), newRoot, 1, other)
      == if other == pivot.key then Hit(pivot.val) else Lookup(p, c, 0, other)
  {
    hide Rank, Lex, Flatten, FirstMatch, SortedCells, Trimmed, RunStart, CleanCut, Leaves, Chained;
    var cells := p[c].cells;
    var a := RunStart(cells, cells[mid].key, mid);
    TrimmedSorted(cells, mid);
    TrimmedCut(cells, mid);
    var f := p[c := p[c].(cells := Trimmed(cells, mid))];
    assert IsTree(f, c, 0);
    RootLeafSplitKeepsTree(f, c, newId, newRoot, a);
    var t, r := AfterRootSplit(f, c, newId, newRoot, a, cells[mid].key),
      AfterRootSplit(p, c, newId, newRoot, mid, cells[mid].key);
    RunLookups(p, c, 0, c, mid, t, r, newRoot, 1, other);
  }

  /** A split keeps every lookup if and only if the cell at the split is the first with its key. */
  lemma SplitKeepsLookupsExactly(p: Pages, root: nat, h: nat, key: Blob, newId: nat, mid: nat)
    requires h > 0 && IsTree(p, root, h) && newId !in p && newId != 0
    requires var c := LeafOf(p, root, h, key); c in p && p[c].LeafNode? && mid < |p[c].cells|
    ensures var c, q := LeafOf(p, root, h, key), NodeAt(p, root, h, key, 1);
      && q in p && p[q].InnerNode?
      && var pivot, p' := p[c].cells[mid], AfterSplit(p, c, q, newId, mid, p[c].cells[mid].key);
         (forall other :: Lookup(p', root, h, other) == Lookup(p, root, h, other))
         <==> FirstMatch(p[c].cells, pivot.key) == Hit(pivot.val)
  {
    hide Rank, Lex, WF, NodeAt, FirstMatch, AfterSplit, Lookup;
    var c := LeafOf(p, root, h, key);
    SplitLookups(p, root, h, key, newId, mid, p[c].cells[mid].key);
    CutKeyHere(p, root, h, key, mid);
    LookupAt(p, root, h, p[c].cells[mid].key);
    forall other
      ensures var c, q := LeafOf(p, root, h, key), NodeAt(p, root, h, key, 1);
        && q in p && p[q].InnerNode?
        && var pivot := p[c].cells[mid];
           Lookup(AfterSplit(p, c, q, newId, mid, pivot.key), root, h, other)
           == if other == pivot.key then Hit(pivot.val) else Lookup(p, root, h, other)
    {
      SplitLookups(p, root, h, key, newId, mid, other);
    }
  }

  lemma LookupAt(p: Pages, root: nat, h: nat, key: Blob)
    requires LeafOf(p, root, h, key) in p && p[LeafOf(p, root, h, key)].LeafNode?
    ensures Lookup(p, root, h, key) == FirstMatch(p[LeafOf(p, root, h, key)].cells, key)
  {
  }

  /** Two cells of one key, cut apart: the first is found before the split and the second after it. */
  lemma DuplicateCutChanges(k: Blob, v: Blob, w: Blob, newId: nat, newRoot: nat)
    requires v != w && 1 < newId < newRoot
    ensures var p: Pages := map[1 := LeafNode([Cell(k, v), Cell(k, w)], 0)];
      && IsTree(p, 1, 0)
      && Lookup(p, 1, 0, k) == Hit(v)
      && Lookup(AfterRootSplit(p, 1, newId, newRoot, 1, k), newRoot, 1, k) == Hit(w)
  {
    var p: Pages := map[1 := LeafNode([Cell(k, v), Cell(k, w)], 0)];
    RootSplitLookups(p, 1, newId, newRoot, 1, k);
  }

  // --- A pivot that does not reach the parent ---------------------------------------------

  /** A subtree fits a wider range. */
  lemma {:induction false} Widen(p: Pages, id: nat, h: nat, lo: Bound, hi: Bound, hi': Bound)
    requires WF(p, id, h, lo, hi) && (hi'.Key? ==> hi.Key? && Rank(hi.key) <= Rank(hi'.key))
    ensures WF(p, id, h, lo, hi')
    decreases h, 0
  {
    hide Rank;
    if h > 0 {
      WidenAll(p, p[id].seps, p[id].right, h - 1, lo, hi, hi');
    }
  }

  lemma {:induction false} WidenAll(p: Pages, seps: seq<Sep>, right: nat, h: nat, lo: Bound, hi: Bound, hi': Bound)
    requires WFAll(p, seps, right, h, lo, hi) && (hi'.Key? ==> hi.Key? && Rank(hi.key) <= Rank(hi'.key))
    ensures WFAll(p, seps, right, h, lo, hi')
    decreases h, 1 + |seps|
  {
    hide Rank;
    if seps == [] {
      Widen(p, right, h, lo, hi, hi');
    } else {
      WidenAll(p, seps[1..], right, h, Key(seps[0].key), hi, hi');
    }
  }

  /** `p'` holds the two halves of the page at height `hc` on the path of a key, and nothing else has changed. */
  ghost predicate HalvesOnly(p: Pages, p': Pages, root: nat, h: nat, key: Blob, hc: nat, pivot: Blob, newId: nat)
    requires hc <= h
  {
    var c, r := NodeAt(p, root, h, key, hc), RangeAt(p, root, h, Open, Open, key, hc);
    && SplitOf(p, p', c, hc, r, pivot, newId) && SepInRange(pivot, r.0, r.1)
    && (forall x :: x in p && x !in Foot(p, c, hc) ==> x in p' && p'[x] == p[x])
  }

  /** Without its pivot one level up, the upper half of a split page, a leaf or not, is cut off: what is left is a tree,
      and exactly the keys from the pivot to the end of the page's range are no longer found.
   */
  lemma LostPivot(p: Pages, p': Pages, root: nat, h: nat, key: Blob, hc: nat, pivot: Blob, newId: nat)
    requires hc <= h && IsTree(p, root, h) && HalvesOnly(p, p', root, h, key, hc, pivot, newId)
    ensures IsTree(p', root, h)
    ensures forall other ::
      Lookup(p', root, h, other) ==
      if InRange(other, Key(pivot), RangeAt(p, root, h, Open, Open, key, hc).1) then Missing
      else Lookup(p, root, h, other)
  {
    hide Rank, Lex, NodeAt, RangeAt, Flatten, Leaves, FootAll, FlattenAll, LeavesAll, WFAll, FirstMatch, Lookup,
         InRange;
    var c, r := NodeAt(p, root, h, key, hc), RangeAt(p, root, h, Open, Open, key, hc);
    Widen(p', c, hc, r.0, Key(pivot), r.1);
    Anywhere(key);
    var a := Rebuild(p, p', root, h, Open, Open, key, hc);
    var low, high := Flatten(p', c, hc), Flatten(p', newId, hc);
    FlattenRange(p', c, hc, r.0, Key(pivot));
    FlattenRange(p', newId, hc, Key(pivot), r.1);
    forall other
      ensures Lookup(p', root, h, other)
           == if InRange(other, Key(pivot), r.1) then Missing else Lookup(p, root, h, other)
    {
      LookupIs(p, root, h, other);
      LookupIs(p', root, h, other);
      LostMatch(a.pre, low, high, a.post, r, pivot, other);
    }
  }

  lemma LostMatch(pre: seq<Cell>, low: seq<Cell>, high: seq<Cell>, post: seq<Cell>, r: (Bound, Bound), pivot: Blob,
                  other: Blob)
    requires CellsIn(low, r.0, Key(pivot)) && CellsIn(high, Key(pivot), r.1) && SepInRange(pivot, r.0, r.1)
    requires forall c :: c in pre ==> r.0.Key? && Rank(c.key) < Rank(r.0.key)
    requires forall c :: c in post ==> r.1.Key? && Rank(r.1.key) <= Rank(c.key)
    ensures FirstMatch(pre + low + post, other)
         == if InRange(other, Key(pivot), r.1) then Missing else FirstMatch(pre + (low + high) + post, other)
  {
    hide Rank, FirstMatch;
    if InRange(other, Key(pivot), r.1) {
      var all := pre + low + post;
      assert Avoids(all, other);
      MatchSkip(all, [], other);
      assert all + [] == all;
      NothingFound(other);
    } else {
      MatchDrop(pre + low, high, post, other);
      ConcatAssoc(pre, low, high);
    }
  }

  lemma NothingFound(key: Blob)
    ensures FirstMatch([], key) == Missing
  {
  }

  lemma Anywhere(key: Blob)
    ensures InRange(key, Open, Open)
  {
  }

  // --- Descents on pages that are no tree -------------------------------------------------

  /** A page stands at one height only. */
  lemma {:induction false} OneHeight(p: Pages, id: nat, h: nat, lo: Bound, hi: Bound, h': nat, lo': Bound, hi': Bound)
    requires WF(p, id, h, lo, hi) && WF(p, id, h', lo', hi')
    ensures h == h'
    decreases h
  {
    hide Rank;
    if h > 0 && h' > 0 {
      var seps, right := p[id].seps, p[id].right;
      if seps == [] {
        OneHeight(p, right, h - 1, lo, hi, h' - 1, lo', hi');
      } else {
        OneHeight(p, seps[0].child, h - 1, lo, Key(seps[0].key), h' - 1, lo', Key(seps[0].key));
      }
    }
  }

  /** A descent in two parts. */
  lemma {:induction false} TwoParts(p: Pages, id: nat, h: nat, key: Blob, hq: nat, hc: nat)
    requires hc <= hq <= h
    ensures NodeAt(p, id, h, key, hc) == NodeAt(p, NodeAt(p, id, h, key, hq), hq, key, hc)
    decreases h
  {
    if h > hq && id in p && p[id].InnerNode? {
      TwoParts(p, Route(p[id].seps, p[id].right, key), h - 1, key, hq, hc);
    }
  }

  /** Every child is well formed, whatever key leads to it. */
  lemma {:induction false} ChildWF(p: Pages, seps: seq<Sep>, right: nat, h: nat, lo: Bound, hi: Bound, key: Blob)
    requires WFAll(p, seps, right, h, lo, hi)
    ensures var r := ChildRange(seps, lo, hi, key); WF(p, Route(seps, right, key), h, r.0, r.1)
    ensures FlattenAll(p, seps, right, h) == [] ==> Flatten(p, Route(seps, right, key), h) == []
    decreases |seps|
  {
    hide Rank, Lex, WF, Foot, Flatten;
    if seps != [] && !Lex(key, seps[0].key) {
      ChildWF(p, seps[1..], right, h, Key(seps[0].key), hi, key);
    }
  }

  /** In a subtree that stores nothing every descent ends at an empty leaf. */
  lemma {:induction false} EmptyBelow(p: Pages, id: nat, h: nat, lo: Bound, hi: Bound, key: Blob)
    requires WF(p, id, h, lo, hi) && Flatten(p, id, h) == []
    ensures var c := NodeAt(p, id, h, key, 0); c in p && p[c].LeafNode? && p[c].cells == []
    decreases h
  {
    hide Rank, Lex, WFAll, FlattenAll;
    if h > 0 {
      ChildWF(p, p[id].seps, p[id].right, h - 1, lo, hi, key);
      var r := ChildRange(p[id].seps, lo, hi, key);
      EmptyBelow(p, Route(p[id].seps, p[id].right, key), h - 1, r.0, r.1, key);
    }
  }

  /** A page is changed at its own height only: descents that stay below do not notice. */
  lemma {:induction false} SameBelow(p: Pages, p': Pages, id: nat, h: nat, lo: Bound, hi: Bound, key: Blob, q: nat,
                                     hq: nat, r: (Bound, Bound))
    requires WF(p, id, h, lo, hi) && WF(p, q, hq, r.0, r.1) && (h < hq || (h == hq && id != q))
    requires forall x :: x in p && x != q ==> x in p' && p'[x] == p[x]
    ensures NodeAt(p', id, h, key, 0) == NodeAt(p, id, h, key, 0)
    decreases h
  {
    hide Rank, Lex, WFAll, FlattenAll;
    if id == q {
      OneHeight(p, id, h, lo, hi, hq, r.0, r.1);
    }
    if h > 0 {
      ChildWF(p, p[id].seps, p[id].right, h - 1, lo, hi, key);
      var cr := ChildRange(p[id].seps, lo, hi, key);
      SameBelow(p, p', Route(p[id].seps, p[id].right, key), h - 1, cr.0, cr.1, key, q, hq, r);
    }
  }

  /** Descents that stay above do not notice either. */
  lemma {:induction false} SameAbove(p: Pages, p': Pages, id: nat, h: nat, lo: Bound, hi: Bound, key: Blob, q: nat,
                                     hq: nat, r: (Bound, Bound), to: nat)
    requires hq <= to <= h && WF(p, id, h, lo, hi) && WF(p, q, hq, r.0, r.1)
    requires forall x :: x in p && x != q ==> x in p' && p'[x] == p[x]
    ensures NodeAt(p', id, h, key, to) == NodeAt(p, id, h, key, to)
    ensures RangeAt(p', id, h, lo, hi, key, to) == RangeAt(p, id, h, lo, hi, key, to)
    ensures hq < to ==> NodeAt(p, id, h, key, to) in p && NodeAt(p, id, h, key, to) != q
    decreases h
  {
    hide Rank, Lex, WFAll, FlattenAll;
    if id == q {
      OneHeight(p, id, h, lo, hi, hq, r.0, r.1);
    }
    if h > to {
      ChildWF(p, p[id].seps, p[id].right, h - 1, lo, hi, key);
      var cr := ChildRange(p[id].seps, lo, hi, key);
      SameAbove(p, p', Route(p[id].seps, p[id].right, key), h - 1, cr.0, cr.1, key, q, hq, r, to);
    }
  }

  /** Descents that do not come to the changed page, or leave it by the same child, end where they did. */
  lemma SameAround(p: Pages, p': Pages, root: nat, h: nat, key: Blob, q: nat, hq: nat, r: (Bound, Bound))
    requires 0 < hq <= h && IsTree(p, root, h) && WF(p, q, hq, r.0, r.1)
    requires forall x :: x in p && x != q ==> x in p' && p'[x] == p[x]
    requires q in p' && p'[q].InnerNode?
    requires NodeAt(p, root, h, key, hq) == q ==>
      Route(p'[q].seps, p'[q].right, key) == Route(p[q].seps, p[q].right, key)
    ensures NodeAt(p', root, h, key, 0) == NodeAt(p, root, h, key, 0)
  {
    hide Rank, Lex, WFAll, FlattenAll, RangeAt;
    var n := NodeAt(p, root, h, key, hq);
    SameAbove(p, p', root, h, Open, Open, key, q, hq, r, hq);
    TwoParts(p, root, h, key, hq, 0);
    TwoParts(p', root, h, key, hq, 0);
    PathWF(p, root, h, Open, Open, key, hq);
    var rn := RangeAt(p, root, h, Open, Open, key, hq);
    if n == q {
      ChildWF(p, p[q].seps, p[q].right, hq - 1, rn.0, rn.1, key);
      var cr := ChildRange(p[q].seps, rn.0, rn.1, key);
      SameBelow(p, p', Route(p[q].seps, p[q].right, key), hq - 1, cr.0, cr.1, key, q, hq, r);
    } else {
      SameBelow(p, p', n, hq, rn.0, rn.1, key, q, hq, r);
    }
  }

  // --- Splitting an internal page ---------------------------------------------------------

  predicate HasSeps(p: Pages, c: nat) { c in p && p[c].InnerNode? && p[c].seps != [] }

  function PivotOf(p: Pages, c: nat): Blob
    requires HasSeps(p, c)
  {
    p[c].seps[|p[c].seps| / 2].key
  }

  /** The pages after the internal page `c` is split in the middle and before its pivot is promoted. */
  ghost function InnerCut(p: Pages, c: nat, newId: nat): Pages
    requires HasSeps(p, c)
  {
    var seps, mid := p[c].seps, |p[c].seps| / 2;
    p[c := InnerNode(seps[..mid], seps[mid].child)][newId := InnerNode(seps[mid + 1..], p[c].right)]
  }

  lemma InnerCutHalves(p: Pages, root: nat, h: nat, key: Blob, hc: nat, newId: nat)
    requires 1 <= hc <= h && IsTree(p, root, h) && newId !in p && HasSeps(p, NodeAt(p, root, h, key, hc))
    ensures var c := NodeAt(p, root, h, key, hc);
      HalvesOnly(p, InnerCut(p, c, newId), root, h, key, hc, PivotOf(p, c), newId)
  {
    hide Rank, Lex, NodeAt, RangeAt, Flatten, WFAll, FootAll, FlattenAll, LeavesAll;
    var c, r := NodeAt(p, root, h, key, hc), RangeAt(p, root, h, Open, Open, key, hc);
    PathWF(p, root, h, Open, Open, key, hc);
    FootAllIn(p, p[c].seps, p[c].right, hc - 1, r.0, r.1);
    InnerHalves(p, InnerCut(p, c, newId), c, hc, r, |p[c].seps| / 2, newId);
    SepHalves(p, p[c].seps, p[c].right, hc - 1, r.0, r.1, |p[c].seps| / 2);
  }

  /** The page with the pivot of its child `c` put in. */
  function WithPivot(n: Node, pivot: Blob, c: nat, newId: nat): Node
    requires n.InnerNode?
  {
    InnerNode(InsertSep(n.seps, pivot, c, newId), InsertRight(n.seps, n.right, pivot, newId))
  }

  /** The pages after the internal page at height `hc` on the path of a key is split and its pivot promoted into the
      page above it, or into a new root.
   */
  ghost function PromotedPages(p: Pages, root: nat, h: nat, key: Blob, hc: nat, newId: nat, newRoot: nat): Pages
    requires hc <= h && HasSeps(p, NodeAt(p, root, h, key, hc))
  {
    var c := NodeAt(p, root, h, key, hc);
    var p1, pivot := InnerCut(p, c, newId), PivotOf(p, c);
    if hc == h then p1[newRoot := InnerNode([Sep(c, pivot)], newId)]
    else
      var q := NodeAt(p, root, h, key, hc + 1);
      if q in p && p[q].InnerNode? then p1[q := WithPivot(p[q], pivot, c, newId)] else p1
  }

  /** The pivot goes where the split page is: there is no page above, or the separator behind the split page differs
      from the pivot.
   */
  ghost predicate PivotFits(p: Pages, root: nat, h: nat, key: Blob, hc: nat)
    requires hc <= h && HasSeps(p, NodeAt(p, root, h, key, hc))
  {
    hc < h ==>
      var q := NodeAt(p, root, h, key, hc + 1);
      && q in p && p[q].InnerNode?
      && RouteIndex(p[q].seps, PivotOf(p, NodeAt(p, root, h, key, hc))) == RouteIndex(p[q].seps, key)
  }

  /** What the page above a split page has to do with it. */
  lemma PageAbove(p: Pages, root: nat, h: nat, key: Blob, hc: nat)
    requires hc < h && IsTree(p, root, h)
    ensures var c, q := NodeAt(p, root, h, key, hc), NodeAt(p, root, h, key, hc + 1);
      var r := RangeAt(p, root, h, Open, Open, key, hc + 1);
      && q in p && p[q].InnerNode? && WF(p, q, hc + 1, r.0, r.1) && WFAll(p, p[q].seps, p[q].right, hc, r.0, r.1)
      && c == Route(p[q].seps, p[q].right, key)
      && RangeAt(p, root, h, Open, Open, key, hc) == ChildRange(p[q].seps, r.0, r.1, key)
      && q !in Foot(p, c, hc) && Foot(p, c, hc) <= p.Keys && q != c
  {
    hide Rank, Lex, NodeAt, RangeAt, FootAll, Route, ChildRange, FlattenAll;
    var c, q := NodeAt(p, root, h, key, hc), NodeAt(p, root, h, key, hc + 1);
    var r, r1 := RangeAt(p, root, h, Open, Open, key, hc), RangeAt(p, root, h, Open, Open, key, hc + 1);
    PathStep(p, root, h, Open, Open, key, hc);
    PathWF(p, root, h, Open, Open, key, hc);
    PathWF(p, root, h, Open, Open, key, hc + 1);
    PathFoot(p, p[q].seps, p[q].right, hc, key);
    FootIn(p, c, hc, r.0, r.1);
    InOwnFoot(p, c, hc);
  }

  lemma InOwnFoot(p: Pages, c: nat, h: nat)
    ensures c in Foot(p, c, h)
  {
  }

  /** The halves are still the halves when pages elsewhere change. */
  lemma SplitFrame(p: Pages, p1: Pages, p': Pages, c: nat, hc: nat, r: (Bound, Bound), pivot: Blob, newId: nat)
    requires SplitOf(p, p1, c, hc, r, pivot, newId)
    requires forall x :: x in Foot(p1, c, hc) + Foot(p1, newId, hc) ==> x in p1 && x in p' && p'[x] == p1[x]
    ensures SplitOf(p, p', c, hc, r, pivot, newId)
    ensures Foot(p', c, hc) == Foot(p1, c, hc) && Foot(p', newId, hc) == Foot(p1, newId, hc)
  {
    hide Rank, WF, Flatten, Foot, Leaves;
    Frame(p1, p', c, hc, r.0, Key(pivot));
    Frame(p1, p', newId, hc, Key(pivot), r.1);
  }

  lemma InnerCutKeys(p: Pages, c: nat, newId: nat)
    requires HasSeps(p, c)
    ensures InnerCut(p, c, newId).Keys == p.Keys + {newId}
    ensures forall x :: x in p && x != c && x != newId ==> InnerCut(p, c, newId)[x] == p[x]
  {
  }

  lemma WholeRange(p: Pages, root: nat, h: nat, key: Blob)
    ensures NodeAt(p, root, h, key, h) == root && RangeAt(p, root, h, Open, Open, key, h) == (Open, Open)
  {
  }

  /** Where the pivot fits, splitting an internal page keeps the tree and its contents. */
  lemma PromotedKeeps(p: Pages, root: nat, h: nat, key: Blob, hc: nat, newId: nat, newRoot: nat)
    requires 1 <= hc <= h && IsTree(p, root, h) && newId !in p && newRoot !in p && newRoot != newId
    requires HasSeps(p, NodeAt(p, root, h, key, hc)) && PivotFits(p, root, h, key, hc)
    ensures var p', root', h' := PromotedPages(p, root, h, key, hc, newId, newRoot),
        if hc == h then newRoot else root, if hc == h then h + 1 else h;
      IsTree(p', root', h') && Flatten(p', root', h') == Flatten(p, root, h)
  {
    hide Rank, Lex, NodeAt, RangeAt, Flatten, WFAll, FootAll, FlattenAll, LeavesAll, Leaves, InsertSep, InsertRight,
         InnerCut, RouteIndex;
    var c := NodeAt(p, root, h, key, hc);
    var p1, pivot, r := InnerCut(p, c, newId), PivotOf(p, c), RangeAt(p, root, h, Open, Open, key, hc);
    var p' := PromotedPages(p, root, h, key, hc, newId, newRoot);
    InnerCutHalves(p, root, h, key, hc, newId);
    InnerCutKeys(p, c, newId);
    FootIn(p1, c, hc, r.0, Key(pivot));
    FootIn(p1, newId, hc, Key(pivot), r.1);
    if hc == h {
      WholeRange(p, root, h, key);
      SplitFrame(p, p1, p', c, hc, r, pivot, newId);
      RootSplitKeepsTree(p, p', root, h, pivot, newId, newRoot);
    } else {
      PageAbove(p, root, h, key, hc);
      SplitFrame(p, p1, p', c, hc, r, pivot, newId);
      var left, right := SplitKeepsTree(p, p', root, h, key, pivot, hc, newId);
    }
  }

  /** The ends of a child's range are the separators around it. */
  lemma {:induction false} RangeByIndex(seps: seq<Sep>, lo: Bound, hi: Bound, key: Blob)
    ensures var i, r := RouteIndex(seps, key), ChildRange(seps, lo, hi, key);
      && r.0 == (if i > 0 then Key(seps[i - 1].key) else lo)
      && r.1 == (if i < |seps| then Key(seps[i].key) else hi)
    decreases |seps|
  {
    hide Lex;
    if seps != [] && !Lex(key, seps[0].key) {
      RangeByIndex(seps[1..], Key(seps[0].key), hi, key);
    }
  }

  lemma SepsBetween(seps: seq<Sep>, i: nat, j: nat)
    requires InternalPage.Sorted(seps) && i <= |seps|
    ensures j < i ==> Rank(seps[j].key) <= Rank(seps[i - 1].key)
  {
  }

  /** A pivot that does not fit equals the separator behind its page. */
  lemma MisfitIsEqual(seps: seq<Sep>, lo: Bound, hi: Bound, key: Blob, pivot: Blob)
    requires InternalPage.Sorted(seps) && RouteIndex(seps, pivot) != RouteIndex(seps, key)
    requires var r := ChildRange(seps, lo, hi, key); SepInRange(pivot, r.0, r.1)
    ensures RouteIndex(seps, key) < RouteIndex(seps, pivot)
    ensures ChildRange(seps, lo, hi, key).1 == Key(pivot)
    ensures forall k :: RouteIndex(seps, k) == RouteIndex(seps, pivot) ==> !Lex(k, pivot)
  {
    hide Rank, Lex, RouteIndex, ChildRange;
    var i, j := RouteIndex(seps, key), RouteIndex(seps, pivot);
    RangeByIndex(seps, lo, hi, key);
    IndexBounds(seps, pivot);
    SepsBetween(seps, i, j);
    RankInjective(seps[i].key, pivot);
    forall k | RouteIndex(seps, k) == j
      ensures !Lex(k, pivot)
    {
      IndexBounds(seps, k);
      LexIsBelow(k, pivot);
    }
  }

  /** The key goes to the child whose place the new page takes, because the pivot does not fit. */
  ghost predicate Overwritten(p: Pages, root: nat, h: nat, key: Blob, hc: nat, other: Blob)
    requires hc <= h && HasSeps(p, NodeAt(p, root, h, key, hc))
  {
    && !PivotFits(p, root, h, key, hc)
    && var q := NodeAt(p, root, h, key, hc + 1);
       && q in p && p[q].InnerNode? && NodeAt(p, root, h, other, hc + 1) == q
       && RouteIndex(p[q].seps, other) == RouteIndex(p[q].seps, PivotOf(p, NodeAt(p, root, h, key, hc)))
  }

  /** Splitting any internal page with separators: every key keeps its value, but the keys of the child behind the split
      page are not found when the pivot equals the separator between the two.
   */
  lemma PromotedLookups(p: Pages, root: nat, h: nat, key: Blob, hc: nat, newId: nat, newRoot: nat, other: Blob)
    requires 1 <= hc <= h && IsTree(p, root, h) && newId !in p && newRoot !in p && newRoot != newId
    requires HasSeps(p, NodeAt(p, root, h, key, hc))
    ensures Lookup(PromotedPages(p, root, h, key, hc, newId, newRoot), if hc == h then newRoot else root,
                   if hc == h then h + 1 else h, other)
         == if Overwritten(p, root, h, key, hc, other) then Missing else Lookup(p, root, h, other)
  {
    hide Rank, Lex, NodeAt, Flatten, FirstMatch, Lookup, PromotedPages, RouteIndex, WF;
    if PivotFits(p, root, h, key, hc) {
      PromotedKeeps(p, root, h, key, hc, newId, newRoot);
      LookupIs(p, root, h, other);
      LookupIs(PromotedPages(p, root, h, key, hc, newId, newRoot), if hc == h then newRoot else root,
               if hc == h then h + 1 else h, other);
    } else {
      MisfitLookups(p, root, h, key, hc, newId, newRoot, other);
    }
  }

  lemma MisfitLookups(p: Pages, root: nat, h: nat, key: Blob, hc: nat, newId: nat, newRoot: nat, other: Blob)
    requires 1 <= hc < h && IsTree(p, root, h) && newId !in p && HasSeps(p, NodeAt(p, root, h, key, hc))
    requires !PivotFits(p, root, h, key, hc)
    ensures Lookup(PromotedPages(p, root, h, key, hc, newId, newRoot), root, h, other)
         == if Overwritten(p, root, h, key, hc, other) then Missing else Lookup(p, root, h, other)
  {
    hide Rank, Lex, NodeAt, RangeAt, Flatten, FirstMatch, WFAll, FootAll, FlattenAll, RouteIndex, Route, ChildRange,
         InsertSep, InsertRight, InnerCut;
    var c, q := NodeAt(p, root, h, key, hc), NodeAt(p, root, h, key, hc + 1);
    var pivot, p1 := PivotOf(p, c), InnerCut(p, c, newId);
    var p' := PromotedPages(p, root, h, key, hc, newId, newRoot);
    var r, rq := RangeAt(p, root, h, Open, Open, key, hc), RangeAt(p, root, h, Open, Open, key, hc + 1);
    PageAbove(p, root, h, key, hc);
    SepsSorted(p, p[q].seps, p[q].right, hc, rq.0, rq.1);
    InnerCutHalves(p, root, h, key, hc, newId);
    InnerCutKeys(p, c, newId);
    MisfitIsEqual(p[q].seps, rq.0, rq.1, key, pivot);
    LostPivot(p, p1, root, h, key, hc, pivot, newId);
    PathWF(p, root, h, Open, Open, key, hc);
    SameAbove(p, p1, root, h, Open, Open, other, c, hc, r, hc + 1);
    SameAbove(p, p1, root, h, Open, Open, key, c, hc, r, hc + 1);
    PathWF(p1, root, h, Open, Open, key, hc + 1);
    var r1 := RangeAt(p1, root, h, Open, Open, key, hc + 1);
    InsertRouting(p[q].seps, p[q].right, pivot, c, newId, other);
    if Overwritten(p, root, h, key, hc, other) {
      SameAbove(p1, p', root, h, Open, Open, other, q, hc + 1, r1, hc + 1);
      TwoParts(p', root, h, other, hc + 1, 0);
      Inside(p', q, hc + 1, other);
      SameBelow(p1, p', newId, hc, Key(pivot), r.1, other, q, hc + 1, r1);
      NothingBetween(p1, newId, hc, pivot);
      EmptyBelow(p1, newId, hc, Key(pivot), Key(pivot), other);
      NothingFound(other);
    } else {
      SameAround(p1, p', root, h, other, q, hc + 1, r1);
      LeafIsLeaf(p1, root, h, other);
    }
  }

  lemma Inside(p: Pages, q: nat, h: nat, key: Blob)
    requires h > 0 && q in p && p[q].InnerNode?
    ensures NodeAt(p, q, h, key, 0) == NodeAt(p, Route(p[q].seps, p[q].right, key), h - 1, key, 0)
  {
  }

  /** A subtree for an empty range stores nothing. */
  lemma NothingBetween(p: Pages, id: nat, h: nat, k: Blob)
    requires WF(p, id, h, Key(k), Key(k))
    ensures Flatten(p, id, h) == []
  {
    hide Rank, Flatten, WF;
    var all := Flatten(p, id, h);
    assert all != [] ==> all[0] in all;
    FlattenRange(p, id, h, Key(k), Key(k));
  }

  /** The child the page above has for the pivot: the split page itself if the pivot fits, else the one behind it. */
  ghost function ForPivot(p: Pages, root: nat, h: nat, key: Blob, hc: nat): nat
    requires hc < h && HasSeps(p, NodeAt(p, root, h, key, hc))
  {
    var q := NodeAt(p, root, h, key, hc + 1);
    if q in p && p[q].InnerNode? then Route(p[q].seps, p[q].right, PivotOf(p, NodeAt(p, root, h, key, hc))) else q
  }

  /** Splitting an internal page keeps all lookups if and only if its pivot fits or nothing is stored below the child
      behind it.
   */
  lemma PromotedExactly(p: Pages, root: nat, h: nat, key: Blob, hc: nat, newId: nat, newRoot: nat)
    requires 1 <= hc < h && IsTree(p, root, h) && newId !in p && newRoot !in p && newRoot != newId
    requires HasSeps(p, NodeAt(p, root, h, key, hc))
    ensures var p' := PromotedPages(p, root, h, key, hc, newId, newRoot);
      (forall other :: Lookup(p', root, h, other) == Lookup(p, root, h, other)) <==>
      PivotFits(p, root, h, key, hc) || Flatten(p, ForPivot(p, root, h, key, hc), hc) == []
  {
    hide Rank, Lex, NodeAt, Flatten, Lookup, PromotedPages, WF, PivotFits, Overwritten, ForPivot;
    if PivotFits(p, root, h, key, hc) || Flatten(p, ForPivot(p, root, h, key, hc), hc) == [] {
      forall other
        ensures Lookup(PromotedPages(p, root, h, key, hc, newId, newRoot), root, h, other) == Lookup(p, root, h, other)
      {
        PromotedLookups(p, root, h, key, hc, newId, newRoot, other);
        BehindIsEmpty(p, root, h, key, hc, other);
      }
    } else {
      var x := BehindIsLost(p, root, h, key, hc);
      PromotedLookups(p, root, h, key, hc, newId, newRoot, x.key);
    }
  }

  lemma BehindIsEmpty(p: Pages, root: nat, h: nat, key: Blob, hc: nat, other: Blob)
    requires hc < h && IsTree(p, root, h) && HasSeps(p, NodeAt(p, root, h, key, hc))
    requires PivotFits(p, root, h, key, hc) || Flatten(p, ForPivot(p, root, h, key, hc), hc) == []
    ensures Overwritten(p, root, h, key, hc, other) ==> Lookup(p, root, h, other) == Missing
  {
    hide Rank, Lex, NodeAt, Flatten, FirstMatch, RangeAt, WFAll, FootAll, FlattenAll, RouteIndex, Route, ChildRange;
    if Overwritten(p, root, h, key, hc, other) {
      var q, r := NodeAt(p, root, h, key, hc + 1), RangeAt(p, root, h, Open, Open, key, hc + 1);
      var pivot := PivotOf(p, NodeAt(p, root, h, key, hc));
      PageAbove(p, root, h, key, hc);
      PathStep(p, root, h, Open, Open, other, hc);
      SameIndex(p[q].seps, p[q].right, r.0, r.1, pivot, other);
      ChildWF(p, p[q].seps, p[q].right, hc, r.0, r.1, other);
      var cr := ChildRange(p[q].seps, r.0, r.1, other);
      EmptyBelow(p, NodeAt(p, root, h, other, hc), hc, cr.0, cr.1, other);
      TwoParts(p, root, h, other, hc, 0);
      NothingFound(other);
    }
  }

  lemma BehindIsLost(p: Pages, root: nat, h: nat, key: Blob, hc: nat) returns (x: Cell)
    requires hc < h && IsTree(p, root, h) && HasSeps(p, NodeAt(p, root, h, key, hc))
    requires !PivotFits(p, root, h, key, hc) && Flatten(p, ForPivot(p, root, h, key, hc), hc) != []
    ensures Overwritten(p, root, h, key, hc, x.key) && Lookup(p, root, h, x.key) != Missing
  {
    hide Rank, Lex, NodeAt, Flatten, FirstMatch, RangeAt, WFAll, FootAll, FlattenAll, RouteIndex, Route, ChildRange,
         Lookup, Leaves, InRange;
    var q, r := NodeAt(p, root, h, key, hc + 1), RangeAt(p, root, h, Open, Open, key, hc + 1);
    var pivot, d := PivotOf(p, NodeAt(p, root, h, key, hc)), ForPivot(p, root, h, key, hc);
    PageAbove(p, root, h, key, hc);
    var cells := Flatten(p, d, hc);
    x := cells[0];
    assert x in cells;
    var cr := ChildRange(p[q].seps, r.0, r.1, pivot);
    ChildWF(p, p[q].seps, p[q].right, hc, r.0, r.1, pivot);
    FlattenRange(p, d, hc, cr.0, cr.1);
    SameChildIndex(p, p[q].seps, p[q].right, hc, r.0, r.1, pivot, x.key);
    SameIndex(p[q].seps, p[q].right, r.0, r.1, pivot, x.key);
    Anywhere(key);
    SamePath(p, root, h, Open, Open, key, x.key, hc + 1);
    PathStep(p, root, h, Open, Open, x.key, hc);
    StoredIsFound(p, root, h, x, hc);
  }

  /** A cell stored below the page on its key's path is found. */
  lemma StoredIsFound(p: Pages, root: nat, h: nat, x: Cell, hc: nat)
    requires hc <= h && IsTree(p, root, h) && x in Flatten(p, NodeAt(p, root, h, x.key, hc), hc)
    ensures Lookup(p, root, h, x.key) != Missing
  {
    hide Rank, Lex, NodeAt, Flatten, FirstMatch, RangeAt, Lookup, Leaves, Foot;
    PathWF(p, root, h, Open, Open, x.key, hc);
    var a := Rebuild(p, p, root, h, Open, Open, x.key, hc);
    LookupIs(p, root, h, x.key);
    MemberFound(Flatten(p, root, h), x);
  }

  lemma {:induction false} MemberFound(cells: seq<Cell>, x: Cell)
    requires x in cells
    ensures FirstMatch(cells, x.key) != Missing
    decreases |cells|
  {
    if cells[0].key != x.key {
      MemberFound(cells[1..], x);
    }
  }

  /** A pivot equal to the separator behind its page: promoting it replaces the page that holds everything. */
  lemma EqualPivotLoses(value: Blob)
    ensures var p := EqualSeps(value);
      && IsTree(p, 3, 2) && NodeAt(p, 3, 2, [1], 1) == 1 && HasSeps(p, 1)
      && Lookup(p, 3, 2, [5]) == Hit(value)
      && Lookup(PromotedPages(p, 3, 2, [1], 1, 9, 10), 3, 2, [5]) == Missing
  {
    hide Rank, Lex, FirstMatch, PromotedPages, Lookup;
    var p := EqualSeps(value);
    EqualSepsTree(value);
    EqualSepsPaths(value);
    PromotedLookups(p, 3, 2, [1], 1, 9, 10, [5]);
  }

  /** Two internal pages below the root; the left one ends with the root's separator. */
  function EqualSeps(value: Blob): Pages {
    map[3 := InnerNode([Sep(1, [5])], 2), 1 := InnerNode([Sep(11, [5])], 12), 2 := InnerNode([Sep(21, [7])], 22),
        11 := LeafNode([], 12), 12 := LeafNode([], 21), 21 := LeafNode([Cell([5], value)], 22), 22 := LeafNode([], 0)]
  }

  lemma EqualSepsTree(value: Blob)
    ensures IsTree(EqualSeps(value), 3, 2)
  {
    hide Lex;
    var p := EqualSeps(value);
    RankOrder();
    assert WF(p, 11, 0, Open, Key([5])) && WF(p, 12, 0, Key([5]), Key([5]));
    assert WF(p, 21, 0, Key([5]), Key([7])) && WF(p, 22, 0, Key([7]), Open);
    TwoLeaves(p, 1, Sep(11, [5]), 12, Open, Key([5]));
    TwoLeaves(p, 2, Sep(21, [7]), 22, Key([5]), Open);
    TwoPages(p, 3, Sep(1, [5]), 2, 1, Open, Open);
  }

  lemma RankOrder()
    ensures Rank([5]) < Rank([7])
  {
    LexIsBelow([5], [7]);
  }

  lemma TwoLeaves(p: Pages, id: nat, s: Sep, right: nat, lo: Bound, hi: Bound)
    requires id in p && p[id] == InnerNode([s], right) && SepInRange(s.key, lo, hi)
    requires WF(p, s.child, 0, lo, Key(s.key)) && WF(p, right, 0, Key(s.key), hi)
    requires s.child != right && id != s.child && id != right
    ensures WF(p, id, 1, lo, hi) && Foot(p, id, 1) == {id, s.child, right}
  {
    hide Rank;
    assert Foot(p, s.child, 0) == {s.child} && Foot(p, right, 0) == {right};
    TwoPages(p, id, s, right, 0, lo, hi);
  }

  lemma TwoPages(p: Pages, id: nat, s: Sep, right: nat, h: nat, lo: Bound, hi: Bound)
    requires id in p && p[id] == InnerNode([s], right) && SepInRange(s.key, lo, hi)
    requires WF(p, s.child, h, lo, Key(s.key)) && WF(p, right, h, Key(s.key), hi)
    requires Foot(p, s.child, h) !! Foot(p, right, h) && id !in Foot(p, s.child, h) + Foot(p, right, h)
    ensures WF(p, id, h + 1, lo, hi) && Foot(p, id, h + 1) == {id} + Foot(p, s.child, h) + Foot(p, right, h)
  {
    hide Rank;
    assert [s] == [s] + [];
    AllCons(p, s, [], right, h, lo, hi);
    AllNil(p, right, h, Key(s.key), hi);
  }

  lemma EqualSepsPaths(value: Blob)
    ensures var p := EqualSeps(value);
      && NodeAt(p, 3, 2, [1], 1) == 1 && HasSeps(p, 1) && Lookup(p, 3, 2, [5]) == Hit(value)
      && Overwritten(p, 3, 2, [1], 1, [5])
  {
    var p := EqualSeps(value);
    OneSep(1, 2, [5], [1]);
    OneSep(1, 2, [5], [5]);
    OneSep(21, 22, [7], [5]);
    assert NodeAt(p, 3, 2, [5], 1) == 2 && NodeAt(p, 2, 1, [5], 0) == 21;
  }

  lemma OneSep(child: nat, right: nat, k: Blob, key: Blob)
    ensures var seps := [Sep(child, k)];
      && Route(seps, right, key) == (if Lex(key, k) then child else right)
      && RouteIndex(seps, key) == (if Lex(key, k) then 0 else 1)
  {
    var seps := [Sep(child, k)];
    assert seps[1..] == [];
  }

  // --- The split of an empty leaf ---------------------------------------------------------

  /** Changes of a leaf and of a page right above the leaves do not show in the descent before that level. */
  lemma {:induction false} SameToParent(p: Pages, p': Pages, id: nat, h: nat, lo: Bound, hi: Bound, key: Blob, c: nat,
                                        q: nat, r: (Bound, Bound))
    requires h >= 1 && WF(p, id, h, lo, hi) && InRange(key, lo, hi) && WF(p, q, 1, r.0, r.1) && c in p && p[c].LeafNode?
    requires forall x :: x in p && x != c && x != q ==> x in p' && p'[x] == p[x]
    ensures NodeAt(p', id, h, key, 1) == NodeAt(p, id, h, key, 1)
    decreases h
  {
    hide Rank, Lex;
    if h > 1 {
      if id == q {
        OneHeight(p, id, h, lo, hi, 1, r.0, r.1);
      }
      PathAllWF(p, p[id].seps, p[id].right, h - 1, lo, hi, key);
      var cr := ChildRange(p[id].seps, lo, hi, key);
      SameToParent(p, p', Route(p[id].seps, p[id].right, key), h - 1, cr.0, cr.1, key, c, q, r);
    }
  }

  /** The last step of a descent, on whatever pages. */
  lemma {:induction false} StepDown(p: Pages, id: nat, h: nat, key: Blob)
    requires h >= 1
    requires var n := NodeAt(p, id, h, key, 1); n in p && p[n].InnerNode?
    ensures var n := NodeAt(p, id, h, key, 1); NodeAt(p, id, h, key, 0) == Route(p[n].seps, p[n].right, key)
    decreases h
  {
    if h > 1 {
      StepDown(p, Route(p[id].seps, p[id].right, key), h - 1, key);
    }
  }

  lemma {:induction false} SepsSorted(p: Pages, seps: seq<Sep>, right: nat, h: nat, lo: Bound, hi: Bound)
    requires WFAll(p, seps, right, h, lo, hi)
    ensures InternalPage.Sorted(seps) && forall s :: s in seps ==> AtLeast(s.key, lo)
    decreases |seps|
  {
    hide Rank, WF, Foot;
    if seps != [] {
      SepsSorted(p, seps[1..], right, h, Key(seps[0].key), hi);
      SortedCons(seps, lo);
    }
  }

  lemma SortedCons(seps: seq<Sep>, lo: Bound)
    requires seps != [] && AtLeast(seps[0].key, lo)
    requires InternalPage.Sorted(seps[1..]) && forall s :: s in seps[1..] ==> AtLeast(s.key, Key(seps[0].key))
    ensures InternalPage.Sorted(seps) && forall s :: s in seps ==> AtLeast(s.key, lo)
  {
    hide Rank;
    forall j | 1 <= j < |seps|
      ensures Rank(seps[0].key) <= Rank(seps[j].key)
    {
      assert seps[1..][j - 1] in seps[1..];
    }
    forall i, j | 0 <= i < j < |seps|
      ensures Rank(seps[i].key) <= Rank(seps[j].key)
    {
      assert i > 0 ==> seps[1..][i - 1] == seps[i] && seps[1..][j - 1] == seps[j];
    }
    forall s | s in seps
      ensures AtLeast(s.key, lo)
    {
      var j :| 0 <= j < |seps| && seps[j] == s;
    }
  }

  /** An empty leaf has no middle key: the pivot is the empty key, which is put in front. */
  ghost function AfterEmptySplit(p: Pages, c: nat, q: nat, newId: nat): Pages
    requires c in p && p[c].LeafNode? && q in p && p[q].InnerNode?
  {
    AfterSplit(p, c, q, newId, 0, [])
  }

  /** The key goes to the first child of `q` that any key goes to. */
  ghost predicate GoesFirst(p: Pages, root: nat, h: nat, q: nat, key: Blob)
    requires h >= 1 && q in p && p[q].InnerNode?
  {
    NodeAt(p, root, h, key, 1) == q && RouteIndex(p[q].seps, key) == RouteIndex(p[q].seps, [])
  }

  /** Splitting an empty leaf takes the place of its parent's first child for the new page, which is empty: exactly the
      keys of that first child are no longer found.
   */
  lemma EmptySplitLookups(p: Pages, root: nat, h: nat, key: Blob, newId: nat, other: Blob)
    requires h > 0 && IsTree(p, root, h) && newId !in p
    requires var c := LeafOf(p, root, h, key); c in p && p[c].LeafNode? && p[c].cells == []
    ensures var c, q := LeafOf(p, root, h, key), NodeAt(p, root, h, key, 1);
      && q in p && p[q].InnerNode?
      && Lookup(AfterEmptySplit(p, c, q, newId), root, h, other)
         == if GoesFirst(p, root, h, q, other) then Missing else Lookup(p, root, h, other)
  {
    hide Rank, Lex, NodeAt, RangeAt, WFAll, FootAll, InsertSep, InsertRight, Route, ChildRange, RouteIndex, FirstMatch;
    var c, q := LeafOf(p, root, h, key), NodeAt(p, root, h, key, 1);
    var n := NodeAt(p, root, h, other, 1);
    PathStep(p, root, h, Open, Open, key, 0);
    PathStep(p, root, h, Open, Open, other, 0);
    PathWF(p, root, h, Open, Open, key, 1);
    PathWF(p, root, h, Open, Open, other, 0);
    var r := RangeAt(p, root, h, Open, Open, key, 1);
    var p' := AfterEmptySplit(p, c, q, newId);
    SameToParent(p, p', root, h, Open, Open, other, c, q, r);
    assert n in p' && p'[n].InnerNode?;
    StepDown(p', root, h, other);
    NothingFound(other);
    if n == q {
      SepsSorted(p, p[q].seps, p[q].right, 0, r.0, r.1);
      InsertRouting(p[q].seps, p[q].right, [], c, newId, other);
      NoneBelowEmpty(other);
    }
  }

  lemma NoneBelowEmpty(key: Blob)
    ensures !Lex(key, [])
  {
  }

  /** The first child any key goes to, and its cells' keys. */
  lemma {:induction false} FirstReached(p: Pages, seps: seq<Sep>, right: nat, lo: Bound, hi: Bound)
    requires WFAll(p, seps, right, 0, lo, hi)
    ensures var f := Route(seps, right, []);
      && f in p && p[f].LeafNode?
      && forall x :: x in p[f].cells ==> InRange(x.key, lo, hi) && RouteIndex(seps, x.key) == RouteIndex(seps, [])
    decreases |seps|
  {
    hide Rank, Lex;
    if seps != [] {
      var k := seps[0].key;
      LexIsBelow([], k);
      if Lex([], k) {
        forall x | x in p[seps[0].child].cells
          ensures Lex(x.key, k)
        {
          LexIsBelow(x.key, k);
        }
      } else {
        EmptyKey(k);
        FirstReached(p, seps[1..], right, Key(k), hi);
        forall x
          ensures !Lex(x, k)
        {
          NoneBelowEmpty(x);
        }
      }
    }
  }

  lemma EmptyKey(k: Blob)
    requires !Lex([], k)
    ensures k == []
  {
  }

  /** The split of an empty leaf keeps all lookups if and only if the first child of its parent holds nothing; in
      particular if that child is the empty leaf itself.
   */
  lemma EmptySplitExactly(p: Pages, root: nat, h: nat, key: Blob, newId: nat)
    requires h > 0 && IsTree(p, root, h) && newId !in p
    requires var c := LeafOf(p, root, h, key); c in p && p[c].LeafNode? && p[c].cells == []
    ensures var c, q := LeafOf(p, root, h, key), NodeAt(p, root, h, key, 1);
      && q in p && p[q].InnerNode?
      && var f := Route(p[q].seps, p[q].right, []);
         && f in p && p[f].LeafNode?
         && ((forall other :: Lookup(AfterEmptySplit(p, c, q, newId), root, h, other) == Lookup(p, root, h, other))
             <==> p[f].cells == [])
  {
    hide Rank, Lex, NodeAt, RangeAt, WFAll, FootAll, Route, ChildRange, RouteIndex, AfterEmptySplit, SortedCells;
    var c, q := LeafOf(p, root, h, key), NodeAt(p, root, h, key, 1);
    PathStep(p, root, h, Open, Open, key, 0);
    PathWF(p, root, h, Open, Open, key, 1);
    var r := RangeAt(p, root, h, Open, Open, key, 1);
    FirstReached(p, p[q].seps, p[q].right, r.0, r.1);
    var f := Route(p[q].seps, p[q].right, []);
    if p[f].cells == [] {
      forall other
        ensures Lookup(AfterEmptySplit(p, c, q, newId), root, h, other) == Lookup(p, root, h, other)
      {
        EmptySplitLookups(p, root, h, key, newId, other);
        if GoesFirst(p, root, h, q, other) {
          FirstIsReached(p, root, h, q, other);
        }
      }
    } else {
      var k := p[f].cells[0].key;
      assert p[f].cells[0] in p[f].cells;
      SamePath(p, root, h, Open, Open, key, k, 1);
      EmptySplitLookups(p, root, h, key, newId, k);
      FirstIsReached(p, root, h, q, k);
    }
  }

  lemma FirstIsReached(p: Pages, root: nat, h: nat, q: nat, key: Blob)
    requires h >= 1 && q in p && p[q].InnerNode? && GoesFirst(p, root, h, q, key)
    ensures LeafOf(p, root, h, key) == Route(p[q].seps, p[q].right, [])
  {
    hide Rank, Lex, NodeAt, RouteIndex, Route;
    StepDown(p, root, h, key);
    RouteByIndex(p[q].seps, p[q].right, key);
    RouteByIndex(p[q].seps, p[q].right, []);
  }

  /** An empty leaf right of a full one: splitting it loses the full one. */
  lemma EmptySplitLoses(value: Blob)
    ensures var p: Pages := map[1 := LeafNode([Cell([1], value)], 2), 2 := LeafNode([], 0),
                                3 := InnerNode([Sep(1, [5])], 2)];
      && IsTree(p, 3, 1) && LeafOf(p, 3, 1, [7]) == 2 && Lookup(p, 3, 1, [1]) == Hit(value)
      && Lookup(AfterEmptySplit(p, 2, 3, 9), 3, 1, [1]) == Missing
  {
    var p: Pages := map[1 := LeafNode([Cell([1], value)], 2), 2 := LeafNode([], 0), 3 := InnerNode([Sep(1, [5])], 2)];
    var seps := p[3].seps;
    LexIsBelow([1], [5]);
    LexIsBelow([7], [5]);
    assert seps[1..] == [];
    assert CellsIn(p[1].cells, Open, Key([5]));
    assert WF(p, 1, 0, Open, Key([5])) && WF(p, 2, 0, Key([5]), Open);
    assert WFAll(p, [], 2, 0, Key([5]), Open);
    assert Foot(p, 1, 0) == {1} && FootAll(p, [], 2, 0) == {2};
    assert FootAll(p, seps, 2, 0) == {1, 2};
    assert NodeAt(p, 3, 1, [7], 0) == Route(seps, 2, [7]) == 2;
    assert NodeAt(p, 3, 1, [1], 0) == Route(seps, 2, [1]) == 1;
    EmptySplitLookups(p, 3, 1, [7], 9, [1]);
  }

  // --- Every leaf split -------------------------------------------------------------------

  /** The pivot of a leaf split: the key in the middle, the empty key if there is none. */
  function MiddleKey(cells: seq<Cell>): Blob { if cells == [] then [] else cells[|cells| / 2].key }

  /** The pages after the leaf responsible for a key is split, where there is room for its pivot. */
  ghost function LeafSplit(p: Pages, root: nat, h: nat, key: Blob, newId: nat, newRoot: nat): Pages
    requires IsTree(p, root, h)
  {
    hide WF, NodeAt, Rank;
    LeafIsLeaf(p, root, h, key);
    ParentIsInner(p, root, h, key);
    var c := LeafOf(p, root, h, key);
    var mid, pivot := |p[c].cells| / 2, MiddleKey(p[c].cells);
    if h == 0 then AfterRootSplit(p, c, newId, newRoot, mid, pivot)
    else AfterSplit(p, c, NodeAt(p, root, h, key, 1), newId, mid, pivot)
  }

  lemma ParentIsInner(p: Pages, root: nat, h: nat, key: Blob)
    requires IsTree(p, root, h)
    ensures h > 0 ==> var q := NodeAt(p, root, h, key, 1); q in p && p[q].InnerNode?
    ensures h == 0 ==> LeafOf(p, root, h, key) == root
  {
    hide Rank, Lex;
    if h > 0 {
      PathStep(p, root, h, Open, Open, key, 0);
    }
  }

  /** What a lookup answers after the split. */
  ghost function SplitAnswer(p: Pages, root: nat, h: nat, key: Blob, other: Blob): Found
    requires IsTree(p, root, h)
  {
    hide WF, NodeAt, Rank;
    LeafIsLeaf(p, root, h, key);
    ParentIsInner(p, root, h, key);
    var cells := p[LeafOf(p, root, h, key)].cells;
    if cells != [] && other == MiddleKey(cells) then Hit(cells[|cells| / 2].val)
    else if cells == [] && h > 0 && GoesFirst(p, root, h, NodeAt(p, root, h, key, 1), other) then Missing
    else Lookup(p, root, h, other)
  }

  lemma SplitAnswers(p: Pages, root: nat, h: nat, key: Blob, newId: nat, newRoot: nat, other: Blob)
    requires IsTree(p, root, h) && newId !in p && newId != 0 && newRoot !in p && newRoot != newId
    ensures Lookup(LeafSplit(p, root, h, key, newId, newRoot), if h == 0 then newRoot else root,
                   if h == 0 then 1 else h, other)
         == SplitAnswer(p, root, h, key, other)
  {
    hide WF, NodeAt, Rank, Lookup, AfterRootSplit, AfterSplit, GoesFirst;
    LeafIsLeaf(p, root, h, key);
    ParentIsInner(p, root, h, key);
    var cells := p[LeafOf(p, root, h, key)].cells;
    if cells == [] {
      if h == 0 {
        EmptyRootSplit(p, root, newId, newRoot, other);
      } else {
        EmptySplitLookups(p, root, h, key, newId, other);
      }
    } else if h == 0 {
      RootSplitLookups(p, root, newId, newRoot, |cells| / 2, other);
    } else {
      SplitLookups(p, root, h, key, newId, |cells| / 2, other);
    }
  }

  lemma EmptyRootSplit(p: Pages, c: nat, newId: nat, newRoot: nat, other: Blob)
    requires c in p && p[c].LeafNode? && p[c].cells == [] && newId !in p && newRoot !in p && newRoot != newId
    ensures Lookup(AfterRootSplit(p, c, newId, newRoot, 0, []), newRoot, 1, other) == Missing == Lookup(p, c, 0, other)
  {
    NoneBelowEmpty(other);
    var seps := [Sep(c, [])];
    assert seps[1..] == [];
    assert Route(seps, newId, other) == newId;
  }

  /** A clean split in the middle keeps tree, contents and chain. */
  lemma CleanSplit(p: Pages, root: nat, h: nat, key: Blob, newId: nat, newRoot: nat)
    requires IsTree(p, root, h) && Chained(p, Leaves(p, root, h))
    requires newId !in p && newId != 0 && newRoot !in p && newRoot != newId
    requires var c := LeafOf(p, root, h, key);
      c in p && p[c].LeafNode? && p[c].cells != [] && CleanCut(p[c].cells, |p[c].cells| / 2)
    ensures var p', root', h' :=
        LeafSplit(p, root, h, key, newId, newRoot), if h == 0 then newRoot else root, if h == 0 then 1 else h;
      IsTree(p', root', h') && Flatten(p', root', h') == Flatten(p, root, h) && Chained(p', Leaves(p', root', h'))
  {
    hide WF, NodeAt, Rank, Flatten, Leaves, Chained, AfterRootSplit, AfterSplit;
    LeafIsLeaf(p, root, h, key);
    ParentIsInner(p, root, h, key);
    var cells := p[LeafOf(p, root, h, key)].cells;
    if h == 0 {
      RootLeafSplitKeepsTree(p, root, newId, newRoot, |cells| / 2);
    } else {
      LeafSplitKeepsTree(p, root, h, key, newId, |cells| / 2);
    }
  }
}
