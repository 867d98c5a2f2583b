/** The B+ tree refines a sorted list of cells: lookups, inserts, deletes and splits seen through the
    routing equal the same operation on the flattened tree.
 */
module TreeOps {
  import opened Bytes
  import opened LeafPage
  import opened InternalPage
  import opened TreeModel

  // --- Sorted cell lists ------------------------------------------------------------------

  ghost predicate Avoids(cells: seq<Cell>, key: Blob) {
    forall c :: c in cells ==> c.key != key
  }

  lemma {:induction false} MatchSkip(pre: seq<Cell>, s: seq<Cell>, key: Blob)
    requires Avoids(pre, key)
    ensures FirstMatch(pre + s, key) == FirstMatch(s, key)
  {
    if pre == [] {
      assert pre + s == s;
    } else {
      assert (pre + s)[1..] == pre[1..] + s;
      MatchSkip(pre[1..], s, key);
    }
  }

  lemma {:induction false} MatchAppend(s: seq<Cell>, post: seq<Cell>, key: Blob)
    requires Avoids(post, key)
    ensures FirstMatch(s + post, key) == FirstMatch(s, key)
  {
    if s == [] {
      assert s + post == post;
      assert post + [] == post;
      MatchSkip(post, [], key);
    } else {
      assert (s + post)[1..] == s[1..] + post;
      MatchAppend(s[1..], post, key);
    }
  }

  /** Keys strictly below on the left, strictly above on the right. */
  ghost predicate Brackets(pre: seq<Cell>, key: Blob, post: seq<Cell>) {
    && (forall c :: c in pre ==> Rank(c.key) < Rank(key))
    && (forall c :: c in post ==> Rank(key) < Rank(c.key))
  }

  lemma BracketsAvoid(pre: seq<Cell>, key: Blob, post: seq<Cell>)
    requires Brackets(pre, key, post)
    ensures Avoids(pre, key) && Avoids(post, key)
  {
    hide Rank;
  }

  lemma {:induction false} InsertPointShift(pre: seq<Cell>, s: seq<Cell>, key: Blob)
    requires forall c :: c in pre ==> Rank(c.key) < Rank(key)
    ensures InsertPoint(pre + s, key) == |pre| + InsertPoint(s, key)
  {
    hide Rank, Lex;
    if pre == [] {
      assert pre + s == s;
    } else {
      LexIsBelow(key, pre[0].key);
      assert pre[0] in pre;
      assert (pre + s)[1..] == pre[1..] + s;
      InsertPointShift(pre[1..], s, key);
    }
  }

  lemma {:induction false} InsertPointAppend(s: seq<Cell>, post: seq<Cell>, key: Blob)
    requires forall c :: c in post ==> Rank(key) < Rank(c.key)
    ensures InsertPoint(s + post, key) == InsertPoint(s, key)
  {
    hide Rank, Lex;
    if s == [] {
      assert s + post == post;
      if post != [] {
        assert post[0] in post;
        LexIsBelow(key, post[0].key);
      }
    } else {
      assert (s + post)[1..] == s[1..] + post;
      InsertPointAppend(s[1..], post, key);
    }
  }

  lemma PurgeWithin(pre: seq<Cell>, cells: seq<Cell>, post: seq<Cell>, key: Blob)
    requires Brackets(pre, key, post)
    ensures Purge(pre + cells + post, key) == pre + Purge(cells, key) + post
  {
    hide Purge, Rank;
    BracketsAvoid(pre, key, post);
    PurgeConcat(pre + cells, post, key);
    PurgeConcat(pre, cells, key);
    PurgeAbsent(pre, key);
    PurgeAbsent(post, key);
  }

  lemma SplitMiddle<T>(pre: seq<T>, s: seq<T>, post: seq<T>, i: nat)
    requires i <= |s|
    ensures (pre + s + post)[..|pre| + i] == pre + s[..i]
    ensures (pre + s + post)[|pre| + i..] == s[i..] + post
  {
  }

  lemma Reassoc<T>(a: seq<T>, b: seq<T>, c: seq<T>, d: seq<T>, e: seq<T>)
    ensures ((a + b) + c) + (d + e) == a + ((b + c) + d) + e
  {
    ConcatAssoc(a + b + c, d, e);
    ConcatAssoc(a, b, c);
    ConcatAssoc(a, b + c, d);
  }

  lemma PutWithin(pre: seq<Cell>, cells: seq<Cell>, post: seq<Cell>, key: Blob, val: Blob)
    requires Brackets(pre, key, post)
    ensures Put(pre + cells + post, key, val) == pre + Put(cells, key, val) + post
  {
    hide Purge, Rank, InsertPoint;
    PurgeWithin(pre, cells, post, key);
    var rest := Purge(cells, key);
    var i := InsertPoint(rest, key);
    ConcatAssoc(pre, rest, post);
    InsertPointShift(pre, rest + post, key);
    InsertPointAppend(rest, post, key);
    SplitMiddle(pre, rest, post, i);
    Reassoc(pre, rest[..i], [Cell(key, val)], rest[i..], post);
  }

  lemma {:induction false} DropFirstSkip(pre: seq<Cell>, s: seq<Cell>, key: Blob)
    requires Avoids(pre, key)
    ensures DropFirst(pre + s, key) == pre + DropFirst(s, key)
  {
    if pre == [] {
      assert pre + s == s;
    } else {
      DropFirstSkip(pre[1..], s, key);
      assert (pre + s)[1..] == pre[1..] + s;
      ConcatAssoc([pre[0]], pre[1..], DropFirst(s, key));
    }
  }

  lemma {:induction false} DropFirstAppend(s: seq<Cell>, post: seq<Cell>, key: Blob)
    requires Avoids(post, key)
    ensures DropFirst(s + post, key) == DropFirst(s, key) + post
  {
    if s == [] {
      assert s + post == post;
      DropFirstAbsent(post, key);
    } else {
      assert (s + post)[1..] == s[1..] + post;
      if s[0].key != key {
        DropFirstAppend(s[1..], post, key);
        ConcatAssoc([s[0]], DropFirst(s[1..], key), post);
      }
    }
  }

  lemma DropFirstWithin(pre: seq<Cell>, cells: seq<Cell>, post: seq<Cell>, key: Blob)
    requires Avoids(pre, key) && Avoids(post, key)
    ensures DropFirst(pre + cells + post, key) == pre + DropFirst(cells, key) + post
  {
    hide DropFirst;
    DropFirstAppend(pre + cells, post, key);
    DropFirstSkip(pre, cells, key);
  }

  lemma {:induction false} PurgeMembers(cells: seq<Cell>, key: Blob)
    ensures forall c :: c in Purge(cells, key) <==> c in cells && c.key != key
  {
    if cells != [] {
      PurgeMembers(cells[1..], key);
      assert forall c :: c in cells <==> c == cells[0] || c in cells[1..];
    }
  }

  lemma {:induction false} PurgeSorted(cells: seq<Cell>, key: Blob)
    requires SortedCells(cells)
    ensures SortedCells(Purge(cells, key))
  {
    hide Rank;
    if cells != [] {
      PurgeSorted(cells[1..], key);
      PurgeMembers(cells[1..], key);
      var rest := Purge(cells[1..], key);
      forall j | 0 <= j < |rest|
        ensures Rank(cells[0].key) <= Rank(rest[j].key)
      {
        assert rest[j] in cells[1..];
      }
    }
  }

  lemma {:induction false} DropFirstSorted(cells: seq<Cell>, key: Blob)
    requires SortedCells(cells)
    ensures SortedCells(DropFirst(cells, key))
    ensures forall c :: c in DropFirst(cells, key) ==> c in cells
  {
    hide Rank;
    if cells != [] && cells[0].key != key {
      DropFirstSorted(cells[1..], key);
      var rest := DropFirst(cells[1..], key);
      forall j | 0 <= j < |rest|
        ensures Rank(cells[0].key) <= Rank(rest[j].key)
      {
        assert rest[j] in cells[1..];
      }
    }
  }

  lemma InsertSorted(s: seq<Cell>, i: nat, c: Cell)
    requires SortedCells(s) && i <= |s|
    requires forall j :: 0 <= j < i ==> Rank(s[j].key) <= Rank(c.key)
    requires forall j :: i <= j < |s| ==> Rank(c.key) <= Rank(s[j].key)
    ensures SortedCells((s[..i] + [c]) + s[i..])
  {
    hide Rank;
    var t := (s[..i] + [c]) + s[i..];
    forall x, y | 0 <= x < y < |t|
      ensures Rank(t[x].key) <= Rank(t[y].key)
    {
      assert t[x] == if x < i then s[x] else if x == i then c else s[x - 1];
      assert t[y] == if y < i then s[y] else if y == i then c else s[y - 1];
    }
  }

  lemma InsertMembers(s: seq<Cell>, i: nat, c: Cell)
    requires i <= |s|
    ensures forall x :: x in (s[..i] + [c]) + s[i..] <==> x == c || x in s
  {
    assert s == s[..i] + s[i..];
  }

  lemma InsertPointBounds(s: seq<Cell>, key: Blob)
    requires SortedCells(s)
    ensures forall j :: 0 <= j < InsertPoint(s, key) ==> Rank(s[j].key) <= Rank(key)
    ensures forall j :: InsertPoint(s, key) <= j < |s| ==> Rank(key) <= Rank(s[j].key)
  {
    hide Rank, Lex;
    var i := InsertPoint(s, key);
    forall j | 0 <= j < i
      ensures Rank(s[j].key) <= Rank(key)
    {
      LexIsBelow(key, s[j].key);
    }
    if i < |s| {
      LexIsBelow(key, s[i].key);
    }
  }

  lemma PutSorted(cells: seq<Cell>, key: Blob, val: Blob)
    requires SortedCells(cells)
    ensures SortedCells(Put(cells, key, val))
    ensures forall c :: c in Put(cells, key, val) <==> c == Cell(key, val) || (c in cells && c.key != key)
  {
    hide Rank, Lex, Purge, InsertPoint, SortedCells;
    var rest := Purge(cells, key);
    PurgeSorted(cells, key);
    PurgeMembers(cells, key);
    InsertPointBounds(rest, key);
    InsertSorted(rest, InsertPoint(rest, key), Cell(key, val));
    InsertMembers(rest, InsertPoint(rest, key), Cell(key, val));
  }

  lemma {:induction false} MatchPurged(cells: seq<Cell>, key: Blob, other: Blob)
    ensures FirstMatch(Purge(cells, key), other) == if other == key then Missing else FirstMatch(cells, other)
  {
    if cells != [] {
      MatchPurged(cells[1..], key, other);
      if cells[0].key != key {
        assert ([cells[0]] + Purge(cells[1..], key))[1..] == Purge(cells[1..], key);
      }
    }
  }

  /** Put is a map update as far as lookups can tell. */
  lemma MatchPut(cells: seq<Cell>, key: Blob, val: Blob, other: Blob)
    ensures FirstMatch(Put(cells, key, val), other) == if other == key then Hit(val) else FirstMatch(cells, other)
  {
    hide Purge, InsertPoint;
    var rest := Purge(cells, key);
    var i := InsertPoint(rest, key);
    PurgeMembers(cells, key);
    assert rest == rest[..i] + rest[i..];
    var pre, c, post := rest[..i], Cell(key, val), rest[i..];
    ConcatAssoc(pre, [c], post);
    assert ([c] + post)[1..] == post;
    MatchPurged(cells, key, other);
    if other == key {
      MatchSkip(pre, [c] + post, key);
    } else {
      MatchTail(pre, [c] + post, post, other);
    }
  }

  lemma {:induction false} MatchTail(pre: seq<Cell>, s: seq<Cell>, t: seq<Cell>, key: Blob)
    requires FirstMatch(s, key) == FirstMatch(t, key)
    ensures FirstMatch(pre + s, key) == FirstMatch(pre + t, key)
  {
    if pre == [] {
      assert pre + s == s && pre + t == t;
    } else {
      assert (pre + s)[1..] == pre[1..] + s && (pre + t)[1..] == pre[1..] + t;
      MatchTail(pre[1..], s, t, key);
    }
  }

  ghost predicate StrictCells(cells: seq<Cell>) {
    forall i, j :: 0 <= i < j < |cells| ==> Rank(cells[i].key) < Rank(cells[j].key)
  }

  /** `out` lists the cells at the ascending places `at`. */
  ghost predicate Listed(all: seq<Cell>, out: seq<Cell>, at: seq<nat>) {
    && |at| == |out|
    && (forall i :: 0 <= i < |at| ==> at[i] < |all| && out[i] == all[at[i]])
    && (forall i, j :: 0 <= i < j < |at| ==> at[i] < at[j])
  }

  /** A search answers the first cell of the key, and nothing only if there is none. */
  lemma {:induction false} FirstMatchIs(cells: seq<Cell>, key: Blob)
    ensures match FirstMatch(cells, key)
            case Missing => forall i :: 0 <= i < |cells| ==> cells[i].key != key
            case Hit(v) => exists i :: 0 <= i < |cells| && cells[i] == Cell(key, v) && Avoids(cells[..i], key)
  {
    if cells != [] {
      FirstMatchIs(cells[1..], key);
      if cells[0].key == key {
        assert Avoids(cells[..0], key) && cells[0] == Cell(key, cells[0].val);
      } else if FirstMatch(cells[1..], key).Hit? {
        var v := FirstMatch(cells[1..], key).val;
        var i :| 0 <= i < |cells[1..]| && cells[1..][i] == Cell(key, v) && Avoids(cells[1..][..i], key);
        assert cells[..i + 1] == [cells[0]] + cells[1..][..i];
        assert cells[i + 1] == Cell(key, v);
      } else {
        assert forall i :: 1 <= i < |cells| ==> cells[i] == cells[1..][i - 1];
      }
    }
  }

  lemma {:induction false} FirstIndex(cells: seq<Cell>, key: Blob, n: nat) returns (i: nat)
    requires n < |cells| && cells[n].key == key
    ensures i < |cells| && cells[i].key == key && forall j :: 0 <= j < i ==> cells[j].key != key
    decreases n
  {
    i := n;
    if j: nat :| j < n && cells[j].key == key {
      i := FirstIndex(cells, key, j);
    }
  }

  /** A delete takes out the first cell of the key and nothing else. */
  lemma DropFirstIs(cells: seq<Cell>, key: Blob)
    ensures if Avoids(cells, key) then DropFirst(cells, key) == cells
            else exists i :: 0 <= i < |cells| && FirstOut(cells, key, i, DropFirst(cells, key))
  {
    hide DropFirst;
    if Avoids(cells, key) {
      DropFirstAbsent(cells, key);
    } else {
      var n: nat :| n < |cells| && cells[n].key == key;
      var i := FirstIndex(cells, key, n);
      DropFirstAt(cells, i, key);
      assert FirstOut(cells, key, i, DropFirst(cells, key));
    }
  }

  ghost predicate FirstOut(cells: seq<Cell>, key: Blob, i: int, out: seq<Cell>)
    requires 0 <= i < |cells|
  {
    cells[i].key == key && Avoids(cells[..i], key) && out == cells[..i] + cells[i + 1..]
  }

  /** A purge keeps exactly the cells of other keys, in order. */
  lemma {:induction false} PurgeIs(cells: seq<Cell>, key: Blob) returns (at: seq<nat>)
    ensures Listed(cells, Purge(cells, key), at)
    ensures forall n: nat :: n < |cells| ==> (n in at <==> cells[n].key != key)
    decreases |cells|
  {
    if cells == [] {
      at := [];
    } else {
      var n := |cells| - 1;
      at := PurgeIs(cells[..n], key);
      PurgeSnoc(cells[..n], cells[n], key);
      assert cells == cells[..n] + [cells[n]];
      if cells[n].key != key {
        at := at + [n];
      }
    }
  }

  lemma {:induction false} PurgeSnoc(cells: seq<Cell>, c: Cell, key: Blob)
    ensures Purge(cells + [c], key) == Purge(cells, key) + if c.key == key then [] else [c]
  {
    if cells == [] {
      assert [c][1..] == [] && cells + [c] == [c];
    } else {
      assert (cells + [c])[1..] == cells[1..] + [c];
      PurgeSnoc(cells[1..], c, key);
    }
  }

  /** A put leaves the cells of other keys as they are, in order, and adds the one new cell. */
  lemma PutIs(cells: seq<Cell>, key: Blob, val: Blob) returns (at: seq<nat>, i: nat)
    ensures var rest := Purge(cells, key);
      && Listed(cells, rest, at) && (forall n: nat :: n < |cells| ==> (n in at <==> cells[n].key != key))
      && i <= |rest| && Put(cells, key, val) == rest[..i] + [Cell(key, val)] + rest[i..]
  {
    hide Purge;
    at := PurgeIs(cells, key);
    i := InsertPoint(Purge(cells, key), key);
  }

  /** Without duplicates, dropping the first cell of a key drops the key. */
  lemma {:induction false} DropFirstStrict(cells: seq<Cell>, key: Blob)
    requires StrictCells(cells)
    ensures DropFirst(cells, key) == Purge(cells, key)
  {
    hide Rank;
    if cells != [] {
      if cells[0].key == key {
        assert forall c :: c in cells[1..] ==> c.key != key;
        PurgeAbsent(cells[1..], key);
      } else {
        DropFirstStrict(cells[1..], key);
      }
    }
  }

  lemma {:induction false} PurgeStrict(cells: seq<Cell>, key: Blob)
    requires StrictCells(cells)
    ensures StrictCells(Purge(cells, key))
  {
    hide Rank;
    if cells != [] {
      PurgeStrict(cells[1..], key);
      PurgeMembers(cells[1..], key);
      var rest := Purge(cells[1..], key);
      forall j | 0 <= j < |rest|
        ensures Rank(cells[0].key) < Rank(rest[j].key)
      {
        assert rest[j] in cells[1..];
      }
    }
  }

  /** A put keeps a list without duplicates free of them. */
  lemma PutStrict(cells: seq<Cell>, key: Blob, val: Blob)
    requires StrictCells(cells)
    ensures StrictCells(Put(cells, key, val))
  {
    hide Rank, Lex, Purge, InsertPoint;
    var rest := Purge(cells, key);
    PurgeStrict(cells, key);
    PurgeMembers(cells, key);
    InsertPointBounds(rest, key);
    forall j | 0 <= j < |rest|
      ensures Rank(rest[j].key) != Rank(key)
    {
      assert rest[j] in rest;
      if Rank(rest[j].key) == Rank(key) {
        RankInjective(rest[j].key, key);
      }
    }
    InsertStrict(rest, InsertPoint(rest, key), Cell(key, val));
  }

  lemma InsertStrict(s: seq<Cell>, i: nat, c: Cell)
    requires StrictCells(s) && i <= |s|
    requires forall j :: 0 <= j < i ==> Rank(s[j].key) < Rank(c.key)
    requires forall j :: i <= j < |s| ==> Rank(c.key) < Rank(s[j].key)
    ensures StrictCells((s[..i] + [c]) + s[i..])
  {
    hide Rank;
    var t := (s[..i] + [c]) + s[i..];
    forall x, y | 0 <= x < y < |t|
      ensures Rank(t[x].key) < Rank(t[y].key)
    {
      assert t[x] == if x < i then s[x] else if x == i then c else s[x - 1];
      assert t[y] == if y < i then s[y] else if y == i then c else s[y - 1];
    }
  }

  lemma StrictPart(pre: seq<Cell>, cells: seq<Cell>, post: seq<Cell>)
    requires StrictCells(pre + cells + post)
    ensures StrictCells(cells)
  {
    hide Rank;
    var all := pre + cells + post;
    assert forall i :: 0 <= i < |cells| ==> cells[i] == all[|pre| + i];
  }

  // --- Paths ------------------------------------------------------------------------------

  /** The subtree on the path of a key is well formed for the range the path leaves it. */
  lemma {:induction false} PathWF(p: Pages, id: nat, h: nat, lo: Bound, hi: Bound, key: Blob, hq: nat)
    requires hq <= h && WF(p, id, h, lo, hi) && InRange(key, lo, hi)
    ensures var q, r := NodeAt(p, id, h, key, hq), RangeAt(p, id, h, lo, hi, key, hq);
      WF(p, q, hq, r.0, r.1) && InRange(key, r.0, r.1)
    decreases h, 0
  {
    hide Rank, Lex;
    if h > hq {
      PathAllWF(p, p[id].seps, p[id].right, h - 1, lo, hi, key);
      var r := ChildRange(p[id].seps, lo, hi, key);
      PathWF(p, Route(p[id].seps, p[id].right, key), h - 1, r.0, r.1, key, hq);
    }
  }

  lemma {:induction false} PathAllWF(p: Pages, seps: seq<Sep>, right: nat, h: nat, lo: Bound, hi: Bound, key: Blob)
    requires WFAll(p, seps, right, h, lo, hi) && InRange(key, lo, hi)
    ensures var r := ChildRange(seps, lo, hi, key);
      WF(p, Route(seps, right, key), h, r.0, r.1) && InRange(key, r.0, r.1)
    decreases |seps|
  {
    hide Rank, Lex;
    if seps != [] {
      LexIsBelow(key, seps[0].key);
      if !Lex(key, seps[0].key) {
        PathAllWF(p, seps[1..], right, h, Key(seps[0].key), hi, key);
      }
    }
  }

  /** Two keys in the range of one page share the path to it. */
  lemma {:induction false} SamePath(p: Pages, id: nat, h: nat, lo: Bound, hi: Bound, key: Blob, other: Blob, hq: nat)
    requires hq <= h && WF(p, id, h, lo, hi) && InRange(key, lo, hi)
    requires var r := RangeAt(p, id, h, lo, hi, key, hq); InRange(other, r.0, r.1)
    ensures InRange(other, lo, hi)
    ensures NodeAt(p, id, h, other, hq) == NodeAt(p, id, h, key, hq)
    ensures RangeAt(p, id, h, lo, hi, other, hq) == RangeAt(p, id, h, lo, hi, key, hq)
    decreases h, 0
  {
    hide Rank, Lex;
    if h > hq {
      var seps, right := p[id].seps, p[id].right;
      PathAllWF(p, seps, right, h - 1, lo, hi, key);
      var r, c := ChildRange(seps, lo, hi, key), Route(seps, right, key);
      SamePath(p, c, h - 1, r.0, r.1, key, other, hq);
      SameChild(p, seps, right, h - 1, lo, hi, key, other);
    }
  }

  lemma {:induction false} SameChild(p: Pages, seps: seq<Sep>, right: nat, h: nat, lo: Bound, hi: Bound,
                                     key: Blob, other: Blob)
    requires WFAll(p, seps, right, h, lo, hi) && InRange(key, lo, hi)
    requires var r := ChildRange(seps, lo, hi, key); InRange(other, r.0, r.1)
    ensures InRange(other, lo, hi)
    ensures Route(seps, right, other) == Route(seps, right, key)
    ensures ChildRange(seps, lo, hi, other) == ChildRange(seps, lo, hi, key)
    decreases |seps|
  {
    hide Rank, Lex;
    if seps != [] {
      var k := seps[0].key;
      LexIsBelow(key, k);
      LexIsBelow(other, k);
      if !Lex(key, k) {
        SameChild(p, seps[1..], right, h, Key(k), hi, key, other);
      }
    }
  }

  // --- Lookups and changes of one leaf ----------------------------------------------------

  /** The leaf responsible for a key. */
  ghost function LeafOf(p: Pages, root: nat, h: nat, key: Blob): nat {
    NodeAt(p, root, h, key, 0)
  }

  ghost predicate IsTree(p: Pages, root: nat, h: nat) {
    WF(p, root, h, Open, Open)
  }

  /** Replacing the cells of the responsible leaf by others of its range replaces them in the whole. */
  lemma ReplaceLeaf(p: Pages, root: nat, h: nat, key: Blob, cells: seq<Cell>) returns (pre: seq<Cell>, post: seq<Cell>)
    requires IsTree(p, root, h)
    requires LeafOf(p, root, h, key) in p && p[LeafOf(p, root, h, key)].LeafNode?
    requires SortedCells(cells)
    requires forall c :: c in cells ==> c in p[LeafOf(p, root, h, key)].cells || c.key == key
    ensures var q := LeafOf(p, root, h, key);
      var p' := p[q := p[q].(cells := cells)];
      && IsTree(p', root, h) && Leaves(p', root, h) == Leaves(p, root, h)
      && Flatten(p, root, h) == pre + p[q].cells + post
      && Flatten(p', root, h) == pre + cells + post
      && Brackets(pre, key, post)
  {
    hide Rank, Lex, NodeAt, RangeAt;
    var q := LeafOf(p, root, h, key);
    var p' := p[q := p[q].(cells := cells)];
    PathWF(p, root, h, Open, Open, key, 0);
    var r := RangeAt(p, root, h, Open, Open, key, 0);
    var a := Rebuild(p, p', root, h, Open, Open, key, 0);
    pre, post := a.pre, a.post;
  }

  lemma LeafIsLeaf(p: Pages, root: nat, h: nat, key: Blob)
    requires IsTree(p, root, h)
    ensures LeafOf(p, root, h, key) in p && p[LeafOf(p, root, h, key)].LeafNode?
    ensures SortedCells(p[LeafOf(p, root, h, key)].cells)
  {
    hide Rank, Lex, NodeAt, RangeAt;
    PathWF(p, root, h, Open, Open, key, 0);
  }

  /** Looking a key up in the leaf that routing finds is looking it up in everything stored. */
  lemma LookupRefines(p: Pages, root: nat, h: nat, key: Blob)
    requires IsTree(p, root, h)
    ensures LeafOf(p, root, h, key) in p && p[LeafOf(p, root, h, key)].LeafNode?
    ensures FirstMatch(p[LeafOf(p, root, h, key)].cells, key) == FirstMatch(Flatten(p, root, h), key)
  {
    hide Rank, Lex, NodeAt, RangeAt, WF, FirstMatch, Flatten, Leaves;
    LeafIsLeaf(p, root, h, key);
    var q := LeafOf(p, root, h, key);
    var pre, post := ReplaceLeaf(p, root, h, key, p[q].cells);
    BracketsAvoid(pre, key, post);
    MatchAppend(pre + p[q].cells, post, key);
    MatchSkip(pre, p[q].cells, key);
  }

  /** Inserting into the responsible leaf inserts into the whole. */
  lemma PutRefines(p: Pages, root: nat, h: nat, key: Blob, val: Blob)
    requires IsTree(p, root, h)
    ensures LeafOf(p, root, h, key) in p && p[LeafOf(p, root, h, key)].LeafNode?
    ensures var q := LeafOf(p, root, h, key);
      var p' := p[q := p[q].(cells := Put(p[q].cells, key, val))];
      && IsTree(p', root, h) && Leaves(p', root, h) == Leaves(p, root, h)
      && Flatten(p', root, h) == Put(Flatten(p, root, h), key, val)
  {
    hide Rank, Lex, NodeAt, RangeAt, WF, Put, Flatten, Leaves;
    LeafIsLeaf(p, root, h, key);
    var q := LeafOf(p, root, h, key);
    PutSorted(p[q].cells, key, val);
    var pre, post := ReplaceLeaf(p, root, h, key, Put(p[q].cells, key, val));
    PutWithin(pre, p[q].cells, post, key, val);
  }

  lemma PurgeRefines(p: Pages, root: nat, h: nat, key: Blob)
    requires IsTree(p, root, h)
    ensures LeafOf(p, root, h, key) in p && p[LeafOf(p, root, h, key)].LeafNode?
    ensures var q := LeafOf(p, root, h, key);
      var p' := p[q := p[q].(cells := Purge(p[q].cells, key))];
      && IsTree(p', root, h) && Leaves(p', root, h) == Leaves(p, root, h)
      && Flatten(p', root, h) == Purge(Flatten(p, root, h), key)
  {
    hide Rank, Lex, NodeAt, RangeAt, WF, Purge, Flatten, Leaves;
    LeafIsLeaf(p, root, h, key);
    var q := LeafOf(p, root, h, key);
    PurgeSorted(p[q].cells, key);
    PurgeMembers(p[q].cells, key);
    var pre, post := ReplaceLeaf(p, root, h, key, Purge(p[q].cells, key));
    PurgeWithin(pre, p[q].cells, post, key);
  }

  lemma DropRefines(p: Pages, root: nat, h: nat, key: Blob)
    requires IsTree(p, root, h)
    ensures LeafOf(p, root, h, key) in p && p[LeafOf(p, root, h, key)].LeafNode?
    ensures var q := LeafOf(p, root, h, key);
      var p' := p[q := p[q].(cells := DropFirst(p[q].cells, key))];
      && IsTree(p', root, h) && Leaves(p', root, h) == Leaves(p, root, h)
      && Flatten(p', root, h) == DropFirst(Flatten(p, root, h), key)
  {
    hide Rank, Lex, NodeAt, RangeAt, WF, DropFirst, Flatten, Leaves;
    LeafIsLeaf(p, root, h, key);
    var q := LeafOf(p, root, h, key);
    DropFirstSorted(p[q].cells, key);
    var pre, post := ReplaceLeaf(p, root, h, key, DropFirst(p[q].cells, key));
    BracketsAvoid(pre, key, post);
    DropFirstWithin(pre, p[q].cells, post, key);
  }

  // --- Splitting a child ------------------------------------------------------------------

  /** How inserting a pivot walks along the separators. */
  lemma InsertSepCons(seps: seq<Sep>, oldRight: nat, pivot: Blob, left: nat, right: nat)
    requires seps != []
    ensures Lex(pivot, seps[0].key) ==>
              && InsertSep(seps, pivot, left, right)
                 == [Sep(left, pivot)] + ([Sep(right, seps[0].key)] + seps[1..])
              && InsertRight(seps, oldRight, pivot, right) == oldRight
    ensures !Lex(pivot, seps[0].key) ==>
              && InsertSep(seps, pivot, left, right) == [seps[0]] + InsertSep(seps[1..], pivot, left, right)
              && InsertRight(seps, oldRight, pivot, right) == InsertRight(seps[1..], oldRight, pivot, right)
  {
    hide Lex, RouteIndex;
    IndexCons(seps, pivot);
    if Lex(pivot, seps[0].key) {
      assert seps[0..] == seps && seps[..0] == [];
      assert seps[0 := Sep(right, seps[0].key)] == [Sep(right, seps[0].key)] + seps[1..];
    } else {
      var p := RouteIndex(seps[1..], pivot);
      if p < |seps[1..]| {
        ShiftInsert(seps, p, Sep(left, pivot), Sep(right, seps[1..][p].key));
      } else {
        assert seps == [seps[0]] + seps[1..];
        ConcatAssoc([seps[0]], seps[1..], [Sep(left, pivot)]);
      }
    }
  }

  lemma IndexCons(seps: seq<Sep>, key: Blob)
    requires seps != []
    ensures RouteIndex(seps, key) == if Lex(key, seps[0].key) then 0 else 1 + RouteIndex(seps[1..], key)
  {
  }

  lemma ShiftInsert(seps: seq<Sep>, p: nat, x: Sep, y: Sep)
    requires p + 1 < |seps|
    ensures (seps[..1 + p] + [x]) + seps[1 + p..][0 := y]
         == [seps[0]] + ((seps[1..][..p] + [x]) + seps[1..][p..][0 := y])
  {
    var tail := seps[1..];
    assert seps[..1 + p] == [seps[0]] + tail[..p];
    assert seps[1 + p..] == tail[p..];
    ConcatAssoc([seps[0]], tail[..p], [x]);
    ConcatAssoc([seps[0]], tail[..p] + [x], tail[p..][0 := y]);
  }

  lemma InsertSepNil(oldRight: nat, pivot: Blob, left: nat, right: nat)
    ensures InsertSep([], pivot, left, right) == [Sep(left, pivot)] + []
    ensures InsertRight([], oldRight, pivot, right) == right
  {
  }

  /** The recursive definitions, unfolded at the first separator. */
  lemma AllCons(p: Pages, s: Sep, rest: seq<Sep>, right: nat, h: nat, lo: Bound, hi: Bound)
    ensures FlattenAll(p, [s] + rest, right, h) == Flatten(p, s.child, h) + FlattenAll(p, rest, right, h)
    ensures LeavesAll(p, [s] + rest, right, h) == Leaves(p, s.child, h) + LeavesAll(p, rest, right, h)
    ensures FootAll(p, [s] + rest, right, h) == Foot(p, s.child, h) + FootAll(p, rest, right, h)
    ensures WFAll(p, [s] + rest, right, h, lo, hi) <==>
            && SepInRange(s.key, lo, hi)
            && WF(p, s.child, h, lo, Key(s.key)) && WFAll(p, rest, right, h, Key(s.key), hi)
            && Foot(p, s.child, h) !! FootAll(p, rest, right, h)
  {
    hide Rank, WF, Foot, Flatten, Leaves;
    assert ([s] + rest)[1..] == rest;
  }

  lemma AllNil(p: Pages, right: nat, h: nat, lo: Bound, hi: Bound)
    ensures FlattenAll(p, [], right, h) == Flatten(p, right, h)
    ensures LeavesAll(p, [], right, h) == Leaves(p, right, h)
    ensures FootAll(p, [], right, h) == Foot(p, right, h)
    ensures WFAll(p, [], right, h, lo, hi) <==> WF(p, right, h, lo, hi)
  {
    hide Rank, WF, Foot, Flatten, Leaves;
  }

  lemma {:induction false} PathFoot(p: Pages, seps: seq<Sep>, right: nat, h: nat, key: Blob)
    ensures Foot(p, Route(seps, right, key), h) <= FootAll(p, seps, right, h)
    decreases |seps|
  {
    hide Lex, Foot;
    if seps != [] && !Lex(key, seps[0].key) {
      PathFoot(p, seps[1..], right, h, key);
    }
  }

  /** A child split in two at a pivot: pages of the two halves, disjoint, storing what the child did. */
  ghost predicate SplitOf(p: Pages, p': Pages, c: nat, h: nat, range: (Bound, Bound), pivot: Blob, newId: nat) {
    && WF(p', c, h, range.0, Key(pivot)) && WF(p', newId, h, Key(pivot), range.1)
    && Foot(p', c, h) !! Foot(p', newId, h)
    && (forall x :: x in Foot(p', c, h) + Foot(p', newId, h) ==> x in Foot(p, c, h) || x !in p)
    && Flatten(p', c, h) + Flatten(p', newId, h) == Flatten(p, c, h)
  }

  /** Inserting the pivot of a split child into its parent: the parent is well formed, stores the same
      cells, and its leaf list changes only at the child.
   */
  lemma {:induction false} SplitChild(p: Pages, p': Pages, seps: seq<Sep>, right: nat, h: nat, lo: Bound, hi: Bound,
                                      pivot: Blob, newId: nat)
    returns (left: seq<nat>, post: seq<nat>)
    requires WFAll(p, seps, right, h, lo, hi) && SepInRange(pivot, lo, hi)
    requires var c := Route(seps, right, pivot);
      && SplitOf(p, p', c, h, ChildRange(seps, lo, hi, pivot), pivot, newId)
      && (forall x :: x in FootAll(p, seps, right, h) && x !in Foot(p, c, h) ==> x in p && x in p' && p'[x] == p[x])
    ensures var c := Route(seps, right, pivot);
      var seps', right' := InsertSep(seps, pivot, c, newId), InsertRight(seps, right, pivot, newId);
      && WFAll(p', seps', right', h, lo, hi)
      && FlattenAll(p', seps', right', h) == FlattenAll(p, seps, right, h)
      && (forall x :: x in FootAll(p', seps', right', h) ==> x in FootAll(p, seps, right, h) || x !in p)
      && LeavesAll(p, seps, right, h) == left + Leaves(p, c, h) + post
      && LeavesAll(p', seps', right', h) == left + (Leaves(p', c, h) + Leaves(p', newId, h)) + post
      && (forall x :: x in left + post ==> x in FootAll(p, seps, right, h) && x !in Foot(p, c, h))
    decreases |seps|
  {
    hide Rank, Lex, WF, Foot, Flatten, Leaves, InsertSep, InsertRight, WFAll, FootAll, FlattenAll, LeavesAll;
    var c := Route(seps, right, pivot);
    if seps == [] {
      left, post := [], [];
      InsertSepNil(right, pivot, c, newId);
      AllNil(p, right, h, lo, hi);
      AllNil(p', newId, h, Key(pivot), hi);
      AllCons(p', Sep(c, pivot), [], newId, h, lo, hi);
    } else {
      var k, c0, rest := seps[0].key, seps[0].child, seps[1..];
      LexIsBelow(pivot, k);
      InsertSepCons(seps, right, pivot, c, newId);
      assert seps == [seps[0]] + rest;
      AllCons(p, seps[0], rest, right, h, lo, hi);
      FootIn(p, c0, h, lo, Key(k));
      FootAllIn(p, rest, right, h, Key(k), hi);
      if Lex(pivot, k) {
        FrameAll(p, p', rest, right, h, Key(k), hi);
        LeavesAllInFoot(p, rest, right, h);
        left, post := [], LeavesAll(p, rest, right, h);
        AllCons(p', Sep(newId, k), rest, right, h, Key(pivot), hi);
        AllCons(p', Sep(c, pivot), [Sep(newId, k)] + rest, right, h, lo, hi);
        ConcatAssoc(Flatten(p', c, h), Flatten(p', newId, h), FlattenAll(p, rest, right, h));
        ConcatAssoc(Leaves(p', c, h), Leaves(p', newId, h), post);
      } else {
        PathFoot(p, rest, right, h, pivot);
        left, post := SplitChild(p, p', rest, right, h, Key(k), hi, pivot, newId);
        Frame(p, p', c0, h, lo, Key(k));
        LeavesInFoot(p, c0, h);
        AllCons(p', seps[0], InsertSep(rest, pivot, c, newId), InsertRight(rest, right, pivot, newId), h, lo, hi);
        var l0 := Leaves(p, c0, h);
        ConcatAssoc(l0, left, Leaves(p, c, h));
        ConcatAssoc(l0, left + Leaves(p, c, h), post);
        ConcatAssoc(l0, left, Leaves(p', c, h) + Leaves(p', newId, h));
        ConcatAssoc(l0, left + (Leaves(p', c, h) + Leaves(p', newId, h)), post);
        left := l0 + left;
      }
    }
  }
}
