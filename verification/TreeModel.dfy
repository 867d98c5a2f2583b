/** The B+ tree as a graph of decoded pages: what makes it well formed, what it stores, and how local
    changes of one subtree show in the whole.
 */
module TreeModel {
  import opened Bytes
  import opened LeafPage
  import opened InternalPage

  datatype Node = LeafNode(cells: seq<Cell>, next: nat) | InnerNode(seps: seq<Sep>, right: nat)

  type Pages = map<nat, Node>

  /** One end of a key range. */
  datatype Bound = Open | Key(key: Blob)

  ghost predicate AtLeast(k: Blob, lo: Bound) {
    lo.Key? ==> Rank(lo.key) <= Rank(k)
  }

  ghost predicate Under(k: Blob, hi: Bound) {
    hi.Key? ==> Rank(k) < Rank(hi.key)
  }

  ghost predicate InRange(k: Blob, lo: Bound, hi: Bound) {
    AtLeast(k, lo) && Under(k, hi)
  }

  /** A separator may coincide with either end of its range. */
  ghost predicate SepInRange(k: Blob, lo: Bound, hi: Bound) {
    AtLeast(k, lo) && (hi.Key? ==> Rank(k) <= Rank(hi.key))
  }

  ghost predicate SortedCells(cells: seq<Cell>) {
    forall i, j :: 0 <= i < j < |cells| ==> Rank(cells[i].key) <= Rank(cells[j].key)
  }

  ghost predicate CellsIn(cells: seq<Cell>, lo: Bound, hi: Bound) {
    forall c :: c in cells ==> InRange(c.key, lo, hi)
  }

  // --- Well-formed trees ------------------------------------------------------------------

  /** The pages of a subtree of height `h`. */
  ghost function Foot(p: Pages, id: nat, h: nat): set<nat>
    decreases h, 0
  {
    if h == 0 || id !in p || p[id].LeafNode? then {id}
    else {id} + FootAll(p, p[id].seps, p[id].right, h - 1)
  }

  ghost function FootAll(p: Pages, seps: seq<Sep>, right: nat, h: nat): set<nat>
    decreases h, 1 + |seps|
  {
    if seps == [] then Foot(p, right, h)
    else Foot(p, seps[0].child, h) + FootAll(p, seps[1..], right, h)
  }

  /** All leaves at the same depth, sorted, within the key range their separators leave them; no page
      is shared.
   */
  ghost predicate WF(p: Pages, id: nat, h: nat, lo: Bound, hi: Bound)
    decreases h, 0
  {
    && id in p
    && if h == 0 then p[id].LeafNode? && SortedCells(p[id].cells) && CellsIn(p[id].cells, lo, hi)
       else && p[id].InnerNode?
            && WFAll(p, p[id].seps, p[id].right, h - 1, lo, hi)
            && id !in FootAll(p, p[id].seps, p[id].right, h - 1)
  }

  ghost predicate WFAll(p: Pages, seps: seq<Sep>, right: nat, h: nat, lo: Bound, hi: Bound)
    decreases h, 1 + |seps|
  {
    if seps == [] then WF(p, right, h, lo, hi)
    else
      var k := seps[0].key;
      && SepInRange(k, lo, hi)
      && WF(p, seps[0].child, h, lo, Key(k))
      && WFAll(p, seps[1..], right, h, Key(k), hi)
      && Foot(p, seps[0].child, h) !! FootAll(p, seps[1..], right, h)
  }

  /** Everything the subtree stores, in key order. */
  ghost function Flatten(p: Pages, id: nat, h: nat): seq<Cell>
    decreases h, 0
  {
    if id !in p then []
    else if p[id].LeafNode? then p[id].cells
    else if h == 0 then []
    else FlattenAll(p, p[id].seps, p[id].right, h - 1)
  }

  ghost function FlattenAll(p: Pages, seps: seq<Sep>, right: nat, h: nat): seq<Cell>
    decreases h, 1 + |seps|
  {
    if seps == [] then Flatten(p, right, h)
    else Flatten(p, seps[0].child, h) + FlattenAll(p, seps[1..], right, h)
  }

  /** The leaf pages from left to right. */
  ghost function Leaves(p: Pages, id: nat, h: nat): seq<nat>
    decreases h, 0
  {
    if h == 0 || id !in p || p[id].LeafNode? then [id]
    else LeavesAll(p, p[id].seps, p[id].right, h - 1)
  }

  ghost function LeavesAll(p: Pages, seps: seq<Sep>, right: nat, h: nat): seq<nat>
    decreases h, 1 + |seps|
  {
    if seps == [] then Leaves(p, right, h)
    else Leaves(p, seps[0].child, h) + LeavesAll(p, seps[1..], right, h)
  }

  // --- Basic facts ------------------------------------------------------------------------

  lemma {:induction false} FootIn(p: Pages, id: nat, h: nat, lo: Bound, hi: Bound)
    requires WF(p, id, h, lo, hi)
    ensures Foot(p, id, h) <= p.Keys
    decreases h, 0
  {
    if h > 0 {
      FootAllIn(p, p[id].seps, p[id].right, h - 1, lo, hi);
    }
  }

  lemma {:induction false} FootAllIn(p: Pages, seps: seq<Sep>, right: nat, h: nat, lo: Bound, hi: Bound)
    requires WFAll(p, seps, right, h, lo, hi)
    ensures FootAll(p, seps, right, h) <= p.Keys
    decreases h, 1 + |seps|
  {
    if seps == [] {
      FootIn(p, right, h, lo, hi);
    } else {
      FootIn(p, seps[0].child, h, lo, Key(seps[0].key));
      FootAllIn(p, seps[1..], right, h, Key(seps[0].key), hi);
    }
  }

  /** A subtree does not notice changes of pages outside it. */
  lemma {:induction false} Frame(p: Pages, p': Pages, id: nat, h: nat, lo: Bound, hi: Bound)
    requires WF(p, id, h, lo, hi)
    requires forall x :: x in Foot(p, id, h) ==> x in p && x in p' && p'[x] == p[x]
    ensures WF(p', id, h, lo, hi) && Foot(p', id, h) == Foot(p, id, h)
    ensures Flatten(p', id, h) == Flatten(p, id, h) && Leaves(p', id, h) == Leaves(p, id, h)
    decreases h, 0
  {
    hide Rank;
    assert id in Foot(p, id, h);
    if h > 0 {
      FrameAll(p, p', p[id].seps, p[id].right, h - 1, lo, hi);
    }
  }

  lemma {:induction false} FrameAll(p: Pages, p': Pages, seps: seq<Sep>, right: nat, h: nat, lo: Bound, hi: Bound)
    requires WFAll(p, seps, right, h, lo, hi)
    requires forall x :: x in FootAll(p, seps, right, h) ==> x in p && x in p' && p'[x] == p[x]
    ensures WFAll(p', seps, right, h, lo, hi) && FootAll(p', seps, right, h) == FootAll(p, seps, right, h)
    ensures FlattenAll(p', seps, right, h) == FlattenAll(p, seps, right, h)
    ensures LeavesAll(p', seps, right, h) == LeavesAll(p, seps, right, h)
    decreases h, 1 + |seps|
  {
    hide Rank;
    if seps == [] {
      Frame(p, p', right, h, lo, hi);
    } else {
      Frame(p, p', seps[0].child, h, lo, Key(seps[0].key));
      FrameAll(p, p', seps[1..], right, h, Key(seps[0].key), hi);
    }
  }

  /** What a subtree stores lies in its key range and is sorted. */
  lemma {:induction false} FlattenRange(p: Pages, id: nat, h: nat, lo: Bound, hi: Bound)
    requires WF(p, id, h, lo, hi)
    ensures CellsIn(Flatten(p, id, h), lo, hi) && SortedCells(Flatten(p, id, h))
    decreases h, 0
  {
    hide Rank;
    if h > 0 {
      FlattenAllRange(p, p[id].seps, p[id].right, h - 1, lo, hi);
    }
  }

  lemma {:induction false} FlattenAllRange(p: Pages, seps: seq<Sep>, right: nat, h: nat, lo: Bound, hi: Bound)
    requires WFAll(p, seps, right, h, lo, hi)
    ensures CellsIn(FlattenAll(p, seps, right, h), lo, hi) && SortedCells(FlattenAll(p, seps, right, h))
    decreases h, 1 + |seps|
  {
    hide Rank;
    if seps == [] {
      FlattenRange(p, right, h, lo, hi);
    } else {
      var k := seps[0].key;
      FlattenRange(p, seps[0].child, h, lo, Key(k));
      FlattenAllRange(p, seps[1..], right, h, Key(k), hi);
      JoinRanges(Flatten(p, seps[0].child, h), FlattenAll(p, seps[1..], right, h), lo, k, hi);
    }
  }

  lemma JoinRanges(a: seq<Cell>, b: seq<Cell>, lo: Bound, k: Blob, hi: Bound)
    requires SepInRange(k, lo, hi)
    requires CellsIn(a, lo, Key(k)) && SortedCells(a)
    requires CellsIn(b, Key(k), hi) && SortedCells(b)
    ensures CellsIn(a + b, lo, hi) && SortedCells(a + b)
  {
    hide Rank;
    var s := a + b;
    forall i, j | 0 <= i < j < |s|
      ensures Rank(s[i].key) <= Rank(s[j].key)
    {
      if i < |a| <= j {
        assert a[i] in a && b[j - |a|] in b;
      }
    }
  }

  // --- One root-to-leaf path --------------------------------------------------------------

  /** The page of height `hq` on the path of a key. */
  ghost function NodeAt(p: Pages, id: nat, h: nat, key: Blob, hq: nat): nat
    requires hq <= h
    decreases h
  {
    if h == hq || id !in p || p[id].LeafNode? then id
    else NodeAt(p, Route(p[id].seps, p[id].right, key), h - 1, key, hq)
  }

  /** The range that the separators leave to the child responsible for a key. */
  ghost function ChildRange(seps: seq<Sep>, lo: Bound, hi: Bound, key: Blob): (Bound, Bound) {
    if seps == [] then (lo, hi)
    else if Lex(key, seps[0].key) then (lo, Key(seps[0].key))
    else ChildRange(seps[1..], Key(seps[0].key), hi, key)
  }

  ghost function RangeAt(p: Pages, id: nat, h: nat, lo: Bound, hi: Bound, key: Blob, hq: nat): (Bound, Bound)
    requires hq <= h
    decreases h
  {
    if h == hq || id !in p || p[id].LeafNode? then (lo, hi)
    else
      var r := ChildRange(p[id].seps, lo, hi, key);
      RangeAt(p, Route(p[id].seps, p[id].right, key), h - 1, r.0, r.1, key, hq)
  }

  /** `p'` differs from `p` only inside the subtree of `q` and on fresh pages. */
  ghost predicate ChangedOnly(p: Pages, p': Pages, q: nat, hq: nat) {
    && (forall x :: x in p && x !in Foot(p, q, hq) ==> x in p' && p'[x] == p[x])
    && (forall x :: x in Foot(p', q, hq) ==> x in Foot(p, q, hq) || x !in p)
  }

  /** What stands left and right of a subtree. */
  datatype Around = Around(pre: seq<Cell>, post: seq<Cell>, left: seq<nat>, right: seq<nat>)

  ghost predicate Surrounds(a: Around, p: Pages, cells: seq<Cell>, leaves: seq<nat>, q: nat, hq: nat,
                            range: (Bound, Bound)) {
    && cells == a.pre + Flatten(p, q, hq) + a.post
    && leaves == a.left + Leaves(p, q, hq) + a.right
    && (forall c :: c in a.pre ==> range.0.Key? && Rank(c.key) < Rank(range.0.key))
    && (forall c :: c in a.post ==> range.1.Key? && Rank(range.1.key) <= Rank(c.key))
  }

  ghost predicate Outside(a: Around, p: Pages, q: nat, hq: nat) {
    forall x :: x in a.left + a.right ==> x in p && x !in Foot(p, q, hq)
  }

  /** A range inside another. */
  ghost predicate Nested(r: (Bound, Bound), lo: Bound, hi: Bound) {
    && (lo.Key? ==> r.0.Key? && Rank(lo.key) <= Rank(r.0.key))
    && (hi.Key? ==> r.1.Key? && Rank(r.1.key) <= Rank(hi.key))
  }

  lemma ExtendRight(a: Around, p: Pages, cells: seq<Cell>, leaves: seq<nat>, q: nat, hq: nat, r: (Bound, Bound),
                    more: seq<Cell>, moreLeaves: seq<nat>)
    requires Surrounds(a, p, cells, leaves, q, hq, r)
    requires forall c :: c in more ==> r.1.Key? && Rank(r.1.key) <= Rank(c.key)
    ensures Surrounds(Around(a.pre, a.post + more, a.left, a.right + moreLeaves), p, cells + more,
                      leaves + moreLeaves, q, hq, r)
  {
    hide Rank, Flatten, Leaves;
    ConcatAssoc(a.pre + Flatten(p, q, hq), a.post, more);
    ConcatAssoc(a.left + Leaves(p, q, hq), a.right, moreLeaves);
  }

  lemma ExtendLeft(a: Around, p: Pages, cells: seq<Cell>, leaves: seq<nat>, q: nat, hq: nat, r: (Bound, Bound),
                   more: seq<Cell>, moreLeaves: seq<nat>)
    requires Surrounds(a, p, cells, leaves, q, hq, r)
    requires forall c :: c in more ==> r.0.Key? && Rank(c.key) < Rank(r.0.key)
    ensures Surrounds(Around(more + a.pre, a.post, moreLeaves + a.left, a.right), p, more + cells,
                      moreLeaves + leaves, q, hq, r)
  {
    hide Rank, Flatten, Leaves;
    var f, l := Flatten(p, q, hq), Leaves(p, q, hq);
    ConcatAssoc(more, a.pre, f);
    ConcatAssoc(more, a.pre + f, a.post);
    ConcatAssoc(moreLeaves, a.left, l);
    ConcatAssoc(moreLeaves, a.left + l, a.right);
  }

  lemma {:induction false} LeavesInFoot(p: Pages, id: nat, h: nat)
    ensures forall x :: x in Leaves(p, id, h) ==> x in Foot(p, id, h)
    decreases h, 0
  {
    if h > 0 && id in p && p[id].InnerNode? {
      LeavesAllInFoot(p, p[id].seps, p[id].right, h - 1);
    }
  }

  lemma {:induction false} LeavesAllInFoot(p: Pages, seps: seq<Sep>, right: nat, h: nat)
    ensures forall x :: x in LeavesAll(p, seps, right, h) ==> x in FootAll(p, seps, right, h)
    decreases h, 1 + |seps|
  {
    if seps == [] {
      LeavesInFoot(p, right, h);
    } else {
      LeavesInFoot(p, seps[0].child, h);
      LeavesAllInFoot(p, seps[1..], right, h);
    }
  }

  /** If the subtree on the path of a key is replaced by a well-formed one for the same range, the tree
      stays well formed, and its contents and leaf list change only there.
   */
  lemma {:induction false} Rebuild(p: Pages, p': Pages, id: nat, h: nat, lo: Bound, hi: Bound, key: Blob, hq: nat)
    returns (a: Around)
    requires hq <= h && WF(p, id, h, lo, hi) && InRange(key, lo, hi)
    requires var q, r := NodeAt(p, id, h, key, hq), RangeAt(p, id, h, lo, hi, key, hq);
      WF(p', q, hq, r.0, r.1) && ChangedOnly(p, p', q, hq)
    ensures var q, r := NodeAt(p, id, h, key, hq), RangeAt(p, id, h, lo, hi, key, hq);
      && WF(p', id, h, lo, hi)
      && InRange(key, r.0, r.1) && Nested(r, lo, hi)
      && Foot(p, q, hq) <= Foot(p, id, h)
      && (forall x :: x in Foot(p', id, h) ==> x in Foot(p, id, h) || x !in p)
      && Surrounds(a, p, Flatten(p, id, h), Leaves(p, id, h), q, hq, r)
      && Surrounds(a, p', Flatten(p', id, h), Leaves(p', id, h), q, hq, r)
      && Outside(a, p, q, hq)
      && (forall x :: x in a.left + a.right ==> x in Foot(p, id, h))
    decreases h, 0
  {
    hide Rank, Lex;
    if h == hq {
      a := Around([], [], [], []);
    } else {
      a := RebuildAll(p, p', p[id].seps, p[id].right, h - 1, lo, hi, key, hq);
    }
  }

  lemma {:induction false} RebuildAll(p: Pages, p': Pages, seps: seq<Sep>, right: nat, h: nat, lo: Bound, hi: Bound,
                                      key: Blob, hq: nat)
    returns (a: Around)
    requires hq <= h && WFAll(p, seps, right, h, lo, hi) && InRange(key, lo, hi)
    requires var c, cr := Route(seps, right, key), ChildRange(seps, lo, hi, key);
      var q, r := NodeAt(p, c, h, key, hq), RangeAt(p, c, h, cr.0, cr.1, key, hq);
      WF(p', q, hq, r.0, r.1) && ChangedOnly(p, p', q, hq)
    ensures var c, cr := Route(seps, right, key), ChildRange(seps, lo, hi, key);
      var q, r := NodeAt(p, c, h, key, hq), RangeAt(p, c, h, cr.0, cr.1, key, hq);
      && WFAll(p', seps, right, h, lo, hi)
      && InRange(key, r.0, r.1) && Nested(r, lo, hi)
      && Foot(p, q, hq) <= FootAll(p, seps, right, h)
      && (forall x :: x in FootAll(p', seps, right, h) ==> x in FootAll(p, seps, right, h) || x !in p)
      && Surrounds(a, p, FlattenAll(p, seps, right, h), LeavesAll(p, seps, right, h), q, hq, r)
      && Surrounds(a, p', FlattenAll(p', seps, right, h), LeavesAll(p', seps, right, h), q, hq, r)
      && Outside(a, p, q, hq)
      && (forall x :: x in a.left + a.right ==> x in FootAll(p, seps, right, h))
    decreases h, 1 + |seps|
  {
    hide Rank, Lex, Foot, WF, Flatten, Leaves, NodeAt, RangeAt, SortedCells, Surrounds;
    if seps == [] {
      a := Rebuild(p, p', right, h, lo, hi, key, hq);
    } else {
      var k, c0, rest := seps[0].key, seps[0].child, seps[1..];
      LexIsBelow(key, k);
      FootIn(p, c0, h, lo, Key(k));
      FootAllIn(p, rest, right, h, Key(k), hi);
      if Lex(key, k) {
        var b := Rebuild(p, p', c0, h, lo, Key(k), key, hq);
        FrameAll(p, p', rest, right, h, Key(k), hi);
        FlattenAllRange(p, rest, right, h, Key(k), hi);
        LeavesAllInFoot(p, rest, right, h);
        var r := RangeAt(p, c0, h, lo, Key(k), key, hq);
        var q, more, moreLeaves := NodeAt(p, c0, h, key, hq), FlattenAll(p, rest, right, h),
          LeavesAll(p, rest, right, h);
        a := Around(b.pre, b.post + more, b.left, b.right + moreLeaves);
        ExtendRight(b, p, Flatten(p, c0, h), Leaves(p, c0, h), q, hq, r, more, moreLeaves);
        ExtendRight(b, p', Flatten(p', c0, h), Leaves(p', c0, h), q, hq, r, more, moreLeaves);
      } else {
        var b := RebuildAll(p, p', rest, right, h, Key(k), hi, key, hq);
        Frame(p, p', c0, h, lo, Key(k));
        FlattenRange(p, c0, h, lo, Key(k));
        LeavesInFoot(p, c0, h);
        var c, cr := Route(rest, right, key), ChildRange(rest, Key(k), hi, key);
        var q, r := NodeAt(p, c, h, key, hq), RangeAt(p, c, h, cr.0, cr.1, key, hq);
        var more, moreLeaves := Flatten(p, c0, h), Leaves(p, c0, h);
        a := Around(more + b.pre, b.post, moreLeaves + b.left, b.right);
        ExtendLeft(b, p, FlattenAll(p, rest, right, h), LeavesAll(p, rest, right, h), q, hq, r, more, moreLeaves);
        ExtendLeft(b, p', FlattenAll(p', rest, right, h), LeavesAll(p', rest, right, h), q, hq, r, more, moreLeaves);
      }
    }
  }
}
