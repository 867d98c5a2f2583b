/** Internal pages: separator cells (child, key), keys below the separator go to its child, and one
    rightmost child for all keys that no separator claims.
 */
module InternalPage {
  import opened Bytes
  import opened PageHeader
  import opened PageCells

  datatype Sep = Sep(child: nat, key: Blob)

  // --- One separator as bytes -------------------------------------------------------------

  function EncodeSep(s: Sep): (bs: Blob)
    ensures |bs| == 10 + |s.key|
  {
    PutLe(|s.key|, 2) + PutLe(s.child, 8) + s.key
  }

  /** The separator in raw bytes that announce their own size; other bytes count as an empty one. */
  function DecodeSep(raw: Blob): Sep {
    if ValidCell(false, raw) then Sep(Le(raw[2..10]), raw[10..]) else Sep(0, [])
  }

  lemma DecodeEncodeSep(s: Sep)
    requires |s.key| < 0x1_0000 && s.child < 0x1_0000_0000_0000_0000
    ensures ValidCell(false, EncodeSep(s)) && DecodeSep(EncodeSep(s)) == s
  {
    hide Le, PutLe;
    LePut2(|s.key|);
    LePut8(s.child);
    var e := EncodeSep(s);
    assert e[0..2] == PutLe(|s.key|, 2);
    assert e[2..10] == PutLe(s.child, 8);
  }

  function DecodeAll(raws: seq<Blob>): seq<Sep> {
    seq(|raws|, i requires 0 <= i < |raws| => DecodeSep(raws[i]))
  }

  lemma DecodeConcat(a: seq<Blob>, b: seq<Blob>)
    ensures DecodeAll(a + b) == DecodeAll(a) + DecodeAll(b)
  {
    hide DecodeSep;
  }

  lemma DecodeSplit(raws: seq<Blob>, at: nat)
    requires at <= |raws|
    ensures DecodeAll(raws[..at]) == DecodeAll(raws)[..at]
    ensures DecodeAll(raws[at..]) == DecodeAll(raws)[at..]
  {
    hide DecodeSep;
  }

  lemma DecodeOne(raw: Blob)
    ensures DecodeAll([raw]) == [DecodeSep(raw)]
  {
    hide DecodeSep;
  }

  function Seps(d: PageBytes): seq<Sep> {
    DecodeAll(RawCells(false, d))
  }

  predicate WholeInner(d: PageBytes) {
    Whole(false, d)
  }

  lemma RawCount(d: PageBytes)
    ensures |RawCells(false, d)| == |Seps(d)|
  {
    hide RawCells, DecodeSep;
  }

  /** Bytes taken by the separators. */
  function Size(seps: seq<Sep>): nat {
    if seps == [] then 0 else 10 + |seps[0].key| + Size(seps[1..])
  }

  lemma SepLength(raw: Blob)
    requires ValidCell(false, raw)
    ensures |raw| == 10 + |DecodeSep(raw).key|
  {
    hide Le;
  }

  lemma {:induction false} PackedSize(raws: seq<Blob>)
    requires AllValid(false, raws)
    ensures |Pack(raws)| == Size(DecodeAll(raws))
  {
    hide ValidCell, DecodeSep;
    if raws != [] {
      assert raws[0] in raws;
      SepLength(raws[0]);
      PackedSize(raws[1..]);
      assert DecodeAll(raws)[1..] == DecodeAll(raws[1..]);
    }
  }

  lemma PageUse(d: PageBytes)
    requires WholeInner(d)
    ensures |Pack(RawCells(false, d))| == Size(Seps(d))
    ensures |Seps(d)| == NumCells(d) && HEADER_SIZE + Size(Seps(d)) <= PAGE_SIZE
  {
    hide RawCells, Pack, Size, DecodeSep;
    WholePage(false, d);
    PackedSize(RawCells(false, d));
  }

  // --- Routing ----------------------------------------------------------------------------

  /** The child responsible for a key. */
  function Route(seps: seq<Sep>, right: nat, key: Blob): nat {
    if seps == [] then right
    else if Lex(key, seps[0].key) then seps[0].child
    else Route(seps[1..], right, key)
  }

  /** The index of the first separator above a key, or the number of separators. */
  function RouteIndex(seps: seq<Sep>, key: Blob): (i: nat)
    ensures i <= |seps|
    ensures forall j :: 0 <= j < i ==> !Lex(key, seps[j].key)
    ensures i < |seps| ==> Lex(key, seps[i].key)
  {
    if seps == [] || Lex(key, seps[0].key) then 0 else 1 + RouteIndex(seps[1..], key)
  }

  function ChildAt(seps: seq<Sep>, right: nat, i: nat): nat
    requires i <= |seps|
  {
    if i < |seps| then seps[i].child else right
  }

  lemma {:induction false} RouteByIndex(seps: seq<Sep>, right: nat, key: Blob)
    ensures Route(seps, right, key) == ChildAt(seps, right, RouteIndex(seps, key))
  {
    if seps != [] && !Lex(key, seps[0].key) {
      RouteByIndex(seps[1..], right, key);
    }
  }

  ghost predicate Sorted(seps: seq<Sep>) {
    forall i, j :: 0 <= i < j < |seps| ==> Rank(seps[i].key) <= Rank(seps[j].key)
  }

  /** In a sorted page the routing index is determined by the keys around it. */
  lemma RouteIndexIs(seps: seq<Sep>, key: Blob, i: nat)
    requires Sorted(seps) && i <= |seps|
    requires i > 0 ==> Rank(seps[i - 1].key) <= Rank(key)
    requires i < |seps| ==> Below(key, seps[i].key)
    ensures RouteIndex(seps, key) == i
  {
    hide Rank, Lex, RouteIndex;
    var r := RouteIndex(seps, key);
    if r < |seps| {
      LexIsBelow(key, seps[r].key);
    }
    if i < |seps| {
      LexIsBelow(key, seps[i].key);
    }
  }

  /** The separators after a pivot is inserted: the child that was there keeps the keys below the
      pivot, the new right sibling gets the rest.
   */
  function InsertSep(seps: seq<Sep>, pivot: Blob, left: nat, right: nat): (r: seq<Sep>) {
    var p := RouteIndex(seps, pivot);
    if p < |seps| then (seps[..p] + [Sep(left, pivot)]) + seps[p..][0 := seps[p].(child := right)]
    else seps + [Sep(left, pivot)]
  }

  /** The rightmost child after a pivot is inserted. */
  function InsertRight(seps: seq<Sep>, oldRight: nat, pivot: Blob, right: nat): nat {
    if RouteIndex(seps, pivot) < |seps| then oldRight else right
  }

  lemma InsertSorted(seps: seq<Sep>, pivot: Blob, left: nat, right: nat)
    requires Sorted(seps)
    ensures Sorted(InsertSep(seps, pivot, left, right))
  {
    hide Rank, Lex, RouteIndex;
    var p, s' := RouteIndex(seps, pivot), InsertSep(seps, pivot, left, right);
    IndexBounds(seps, pivot);
    forall i, j | 0 <= i < j < |s'|
      ensures Rank(s'[i].key) <= Rank(s'[j].key)
    {
      assert s'[i].key == if i < p then seps[i].key else if i == p then pivot else seps[i - 1].key;
      assert s'[j].key == if j < p then seps[j].key else if j == p then pivot else seps[j - 1].key;
    }
  }

  /** Routing after a pivot is inserted: only keys of the split child are affected. */
  lemma InsertRouting(seps: seq<Sep>, oldRight: nat, pivot: Blob, left: nat, right: nat, key: Blob)
    requires Sorted(seps)
    ensures Sorted(InsertSep(seps, pivot, left, right))
    ensures Route(InsertSep(seps, pivot, left, right), InsertRight(seps, oldRight, pivot, right), key)
         == if RouteIndex(seps, key) != RouteIndex(seps, pivot) then Route(seps, oldRight, key)
            else if Lex(key, pivot) then left else right
  {
    hide Rank, Lex, RouteIndex, Route;
    var p, r := RouteIndex(seps, pivot), RouteIndex(seps, key);
    var s', right' := InsertSep(seps, pivot, left, right), InsertRight(seps, oldRight, pivot, right);
    IndexBounds(seps, pivot);
    IndexBounds(seps, key);
    InsertSorted(seps, pivot, left, right);
    LexIsBelow(key, pivot);
    RouteIndexIs(s', key, if r < p || (r == p && Below(key, pivot)) then r else r + 1);
    RouteByIndex(s', right', key);
    RouteByIndex(seps, oldRight, key);
  }

  /** The routing index splits a sorted page by the key order. */
  lemma IndexBounds(seps: seq<Sep>, key: Blob)
    requires Sorted(seps)
    ensures forall j :: 0 <= j < RouteIndex(seps, key) ==> Rank(seps[j].key) <= Rank(key)
    ensures forall j :: RouteIndex(seps, key) <= j < |seps| ==> Below(key, seps[j].key)
  {
    hide Rank, Lex;
    var r := RouteIndex(seps, key);
    forall j | 0 <= j < r
      ensures Rank(seps[j].key) <= Rank(key)
    {
      LexIsBelow(key, seps[j].key);
    }
    if r < |seps| {
      LexIsBelow(key, seps[r].key);
    }
  }

  /** Routing through the pivot and the two halves of a split page equals routing in the old page. */
  lemma SplitRouting(seps: seq<Sep>, right: nat, mid: nat, key: Blob)
    requires Sorted(seps) && mid < |seps|
    ensures Route(seps, right, key)
         == if Lex(key, seps[mid].key) then Route(seps[..mid], seps[mid].child, key)
            else Route(seps[mid + 1..], right, key)
  {
    hide Rank, Lex, RouteIndex, Route;
    var r, pre, post := RouteIndex(seps, key), seps[..mid], seps[mid + 1..];
    IndexBounds(seps, key);
    LexIsBelow(key, seps[mid].key);
    RouteByIndex(seps, right, key);
    if Lex(key, seps[mid].key) {
      RouteIndexIs(pre, key, r);
      RouteByIndex(pre, seps[mid].child, key);
    } else {
      RouteIndexIs(post, key, r - mid - 1);
      RouteByIndex(post, right, key);
    }
  }

  // --- Scans ------------------------------------------------------------------------------

  lemma NoRoute(right: nat, key: Blob)
    ensures Route(DecodeAll([]), right, key) == right
  {
  }

  lemma RouteStep(raw: Blob, raws: seq<Blob>, right: nat, key: Blob)
    ensures Route(DecodeAll([raw] + raws), right, key)
         == if Lex(key, DecodeSep(raw).key) then DecodeSep(raw).child else Route(DecodeAll(raws), right, key)
  {
    hide DecodeSep;
    assert DecodeAll([raw] + raws)[1..] == DecodeAll(raws);
  }

  /** Finds the child for a key; a page cut short by a damaged cell falls back to the rightmost. */
  method FindChild(a: array<Byte>, key: Blob) returns (child: nat)
    requires a.Length == PAGE_SIZE
    ensures child == Route(Seps(a[..]), Rightmost(a[..]), key)
  {
    hide Le, Parse, SizeAt, DecodeSep, DecodeAll, Route, ValidCell;
    var d := a[..];
    var n, right := NumCells(d), Rightmost(d);
    var offset: nat := HEADER_SIZE;
    for i := 0 to n
      invariant Route(Seps(d), right, key) == Route(DecodeAll(Parse(false, d, offset, n - i)), right, key)
    {
      if offset + 10 > PAGE_SIZE {
        ParseShort(false, d, offset, n - i);
        break;
      }
      var size := SizeAt(false, d, offset);
      if offset + size > PAGE_SIZE {
        ParseShort(false, d, offset, n - i);
        break;
      }
      ParseCons(false, d, offset, n - i);
      RouteStep(d[offset..offset + size], Parse(false, d, offset + size, n - i - 1), right, key);
      var sep := DecodeSep(d[offset..offset + size]);
      if Lex(key, sep.key) {
        return sep.child;
      }
      offset := offset + size;
    }
    ParseNone(false, d, offset);
    NoRoute(right, key);
    return right;
  }

  /** The separator that stands at the offset of separator `i`. */
  lemma DecodedAt(d: PageBytes, i: nat)
    requires WholeInner(d) && i < |Seps(d)|
    ensures i < |RawCells(false, d)|
    ensures var raws := RawCells(false, d);
      var off := OffsetOf(raws, i);
      && off + HeadSize(false) <= PAGE_SIZE
      && var size := SizeAt(false, d, off);
         && off + size <= PAGE_SIZE && size == |raws[i]|
         && DecodeSep(d[off..off + size]) == Seps(d)[i]
         && OffsetOf(raws, i + 1) == off + size
  {
    hide RawCells, DecodeSep, OffsetOf, SizeAt;
    CellAt(false, d, i);
  }

  /** Where a pivot goes: before the first larger separator. */
  method FindPivotOffset(a: array<Byte>, pivot: Blob) returns (found: bool, at: nat, tail: nat)
    requires a.Length == PAGE_SIZE && WholeInner(a[..])
    ensures |RawCells(false, a[..])| == |Seps(a[..])|
    ensures found <==> RouteIndex(Seps(a[..]), pivot) < |Seps(a[..])|
    ensures at == OffsetOf(RawCells(false, a[..]), RouteIndex(Seps(a[..]), pivot))
    ensures tail == HEADER_SIZE + |Pack(RawCells(false, a[..]))| <= PAGE_SIZE
  {
    hide RawCells, DecodeSep, OffsetOf, SizeAt, NumCells, Le, DecodeAll, Seps, Whole, Lex, RouteIndex, Pack;
    var d := a[..];
    var n := NumCells(d);
    PageUse(d);
    RawCount(d);
    OffsetEnds(RawCells(false, d));
    found, at, tail := false, 0, HEADER_SIZE;
    ghost var p := RouteIndex(Seps(d), pivot);
    for i := 0 to n
      invariant tail == OffsetOf(RawCells(false, d), i)
      invariant found <==> p < i
      invariant found ==> at == OffsetOf(RawCells(false, d), p)
    {
      DecodedAt(d, i);
      if tail + 10 > PAGE_SIZE {
        break;
      }
      var size := SizeAt(false, d, tail);
      if tail + size > PAGE_SIZE {
        break;
      }
      if !found && Lex(pivot, DecodeSep(d[tail..tail + size]).key) {
        at, found := tail, true;
      }
      tail := tail + size;
    }
    if !found {
      at := tail;
    }
  }

  // --- Updates ----------------------------------------------------------------------------

  /** A separator cell with another child. */
  ghost function WithChild(raw: Blob, child: nat): (r: Blob)
    requires |raw| >= 10
  {
    Splice(raw, 2, PutLe(child, 8))
  }

  lemma WithChildDecoded(raw: Blob, child: nat)
    requires ValidCell(false, raw) && child < 0x1_0000_0000_0000_0000
    ensures ValidCell(false, WithChild(raw, child))
    ensures DecodeSep(WithChild(raw, child)) == DecodeSep(raw).(child := child)
  {
    hide Le, PutLe, Splice;
    var r := WithChild(raw, child);
    SpliceOutside(raw, 2, PutLe(child, 8), 0, 2);
    LePut8(child);
    assert r[2..10] == PutLe(child, 8);
  }

  /** Overwriting the child field inside cell `at` changes that cell only. */
  lemma ChildStored(d: PageBytes, at: nat, child: nat)
    requires WholeInner(d) && at < |RawCells(false, d)| && child < 0x1_0000_0000_0000_0000
    ensures var raws := RawCells(false, d);
      && OffsetOf(raws, at) + 10 <= PAGE_SIZE
      && |raws[at]| >= 10
      && var d' := Splice(d, OffsetOf(raws, at) + 2, PutLe(child, 8));
         && WholeInner(d') && SameHeader(d', d)
         && RawCells(false, d') == raws[..at] + ([WithChild(raws[at], child)] + raws[at + 1..])
  {
    hide RawCells, ValidCell, Pack, Splice, PutLe, At, SameHeader, Le, DecodeSep, WithChild;
    var raws := RawCells(false, d);
    var raw, off := raws[at], OffsetOf(raws, at);
    WholePage(false, d);
    CellSplit(false, d, at);
    ValidMember(false, raws, at);
    CellRoom(raw);
    var d' := Splice(d, off + 2, PutLe(child, 8));
    AtOutside(d, off + 2, PutLe(child, 8), HEADER_SIZE, Pack(raws[..at]));
    AtOutside(d, off + 2, PutLe(child, 8), off + |raw|, Pack(raws[at + 1..]));
    AtInner(d, off, raw, 2, PutLe(child, 8));
    AtWithChild(d', off, raw, child);
    HeaderKept(d, off + 2, PutLe(child, 8));
    var raw' := WithChild(raw, child);
    var raws' := raws[..at] + ([raw'] + raws[at + 1..]);
    AtConcat(d', off, raw', Pack(raws[at + 1..]));
    AtConcat(d', HEADER_SIZE, Pack(raws[..at]), raw' + Pack(raws[at + 1..]));
    assert ([raw'] + raws[at + 1..])[1..] == raws[at + 1..];
    PackCons([raw'] + raws[at + 1..]);
    PackConcat(raws[..at], [raw'] + raws[at + 1..]);
    WithChildDecoded(raw, child);
    AllValidSplit(false, raws, at);
    AllValidSplit(false, raws, at + 1);
    AllValidOne(false, raw');
    AllValidParts(false, [raw'], raws[at + 1..]);
    AllValidParts(false, raws[..at], [raw'] + raws[at + 1..]);
    Repacked(false, d', raws');
  }

  lemma CellRoom(raw: Blob)
    requires ValidCell(false, raw)
    ensures |raw| >= 10
  {
  }

  lemma AtWithChild(d: PageBytes, off: nat, raw: Blob, child: nat)
    requires |raw| >= 10 && At(d, off, Splice(raw, 2, PutLe(child, 8)))
    ensures |WithChild(raw, child)| == |raw| && At(d, off, WithChild(raw, child))
  {
    hide At, Splice, PutLe;
  }

  /** Writing inside a placed blob is the same as placing the written blob. */
  lemma AtInner(d: PageBytes, off: nat, bs: Blob, i: nat, x: Blob)
    requires At(d, off, bs) && i + |x| <= |bs|
    ensures At(Splice(d, off + i, x), off, Splice(bs, i, x))
  {
    hide Splice, At;
    var pre, post := bs[..i], bs[i + |x|..];
    AtBound(d, off, bs);
    var d' := Splice(d, off + i, x);
    assert bs == pre + (bs[i..i + |x|] + post);
    AtConcat(d, off, pre, bs[i..i + |x|] + post);
    AtConcat(d, off + i, bs[i..i + |x|], post);
    AtOutside(d, off + i, x, off, pre);
    AtOutside(d, off + i, x, off + i + |x|, post);
    AtSpliced(d, off + i, x);
    AtConcat(d', off, pre, x);
    AtConcat(d', off, pre + x, post);
    SpliceParts(bs, i, x);
  }

  lemma AtBound(d: PageBytes, off: nat, bs: Blob)
    requires At(d, off, bs)
    ensures off + |bs| <= PAGE_SIZE
  {
  }

  lemma SpliceParts(bs: Blob, i: nat, x: Blob)
    requires i + |x| <= |bs|
    ensures Splice(bs, i, x) == (bs[..i] + x) + bs[i + |x|..]
  {
  }

  method SetChild(a: array<Byte>, offset: nat, child: nat, ghost at: nat)
    requires a.Length == PAGE_SIZE && WholeInner(a[..]) && child < 0x1_0000_0000_0000_0000
    requires at < |RawCells(false, a[..])| && offset == OffsetOf(RawCells(false, a[..]), at)
    modifies a
    ensures WholeInner(a[..]) && SameHeader(a[..], old(a[..]))
    ensures var raws := old(RawCells(false, a[..]));
      |raws[at]| >= 10 && RawCells(false, a[..]) == raws[..at] + ([WithChild(raws[at], child)] + raws[at + 1..])
  {
    hide *;
    ChildStored(a[..], at, child);
    Store(a, offset + 2, PutLe(child, 8));
  }

  /** Where separators are inserted, one by one. */
  lemma SepsAfterFound(raws: seq<Blob>, at: nat, right: nat, s: Sep)
    requires at < |raws| && ValidCell(false, raws[at]) && |raws[at]| >= 10
    requires right < 0x1_0000_0000_0000_0000
    requires |s.key| < 0x1_0000 && s.child < 0x1_0000_0000_0000_0000
    ensures var mid := raws[..at] + ([WithChild(raws[at], right)] + raws[at + 1..]);
      var seps := DecodeAll(raws);
      DecodeAll((mid[..at] + [EncodeSep(s)]) + mid[at..])
      == (seps[..at] + [s]) + seps[at..][0 := seps[at].(child := right)]
  {
    hide DecodeSep, EncodeSep, WithChild, ValidCell;
    DecodeEncodeSep(s);
    WithChildDecoded(raws[at], right);
  }

  /** Inserts a pivot between its two children unless the page is full. */
  method InsertIntoInternal(a: array<Byte>, pivot: Blob, left: nat, right: nat) returns (ok: bool)
    requires a.Length == PAGE_SIZE && WholeInner(a[..]) && PageType(a[..]) != TYPE_LEAF
    requires left < 0x1_0000_0000 && right < 0x1_0000_0000
    modifies a
    ensures WholeInner(a[..])
    ensures PageType(a[..]) == old(PageType(a[..])) && NextLeaf(a[..]) == old(NextLeaf(a[..]))
    ensures ok <==> HEADER_SIZE + Size(old(Seps(a[..]))) + 10 + |pivot| < PAGE_SIZE
    ensures !ok ==> a[..] == old(a[..])
    ensures ok ==> Seps(a[..]) == InsertSep(old(Seps(a[..])), pivot, left, right)
    ensures ok ==> Rightmost(a[..]) == InsertRight(old(Seps(a[..])), old(Rightmost(a[..])), pivot, right)
  {
    hide RawCells, OffsetOf, Whole, SameHeader, Lex, RouteIndex, Pack, Le, Size, DecodeAll, DecodeSep, EncodeSep,
         WithChild, ValidCell, PutLe;
    var required := 10 + |pivot|;
    ghost var d := a[..];
    PageUse(d);
    WholePage(false, d);
    var safe := IsSafeForInsert(a, required);
    if !safe {
      return false;
    }
    var found, offset, tail := FindPivotOffset(a, pivot);
    ghost var at := RouteIndex(Seps(d), pivot);
    ghost var raws := RawCells(false, d);
    DecodeEncodeSep(Sep(left, pivot));
    if found {
      ValidMember(false, raws, at);
      SetChild(a, offset, right, at);
      ghost var d1 := a[..];
      SameTail(raws, at, right);
      WriteCell(false, a, offset, tail, EncodeSep(Sep(left, pivot)), at);
      SepsAfterFound(raws, at, right, Sep(left, pivot));
      SameHeaderTrans(a[..], d1, d);
      SameHeaderFields(a[..], d);
    } else {
      SetRightmost(a, right);
      ghost var d1 := a[..];
      WriteCell(false, a, offset, tail, EncodeSep(Sep(left, pivot)), at);
      SameHeaderFields(a[..], d1);
      DecodeConcat(raws, [EncodeSep(Sep(left, pivot))]);
      DecodeOne(EncodeSep(Sep(left, pivot)));
      assert raws[..at] == raws && raws[at..] == [];
      assert (raws[..at] + [EncodeSep(Sep(left, pivot))]) + raws[at..] == raws + [EncodeSep(Sep(left, pivot))];
    }
    return true;
  }

  /** Changing a child moves no offset. */
  lemma SameTail(raws: seq<Blob>, at: nat, right: nat)
    requires at < |raws| && |raws[at]| >= 10
    ensures var mid := raws[..at] + ([WithChild(raws[at], right)] + raws[at + 1..]);
      |Pack(mid)| == |Pack(raws)| && OffsetOf(mid, at) == OffsetOf(raws, at)
  {
    hide Pack, Splice, PutLe;
    var r := WithChild(raws[at], right);
    var mid := raws[..at] + ([r] + raws[at + 1..]);
    assert mid[..at] == raws[..at];
    assert raws == raws[..at] + ([raws[at]] + raws[at + 1..]);
    PackConcat(raws[..at], [raws[at]] + raws[at + 1..]);
    PackConcat(raws[..at], [r] + raws[at + 1..]);
    PackCons([raws[at]] + raws[at + 1..]);
    PackCons([r] + raws[at + 1..]);
    assert ([raws[at]] + raws[at + 1..])[1..] == raws[at + 1..] == ([r] + raws[at + 1..])[1..];
  }

  /** Sets the rightmost child and nothing else. */
  method SetRightmost(a: array<Byte>, right: nat)
    requires a.Length == PAGE_SIZE && right < 0x1_0000_0000
    modifies a
    ensures Rightmost(a[..]) == right
    ensures PageType(a[..]) == old(PageType(a[..])) && NextLeaf(a[..]) == old(NextLeaf(a[..]))
    ensures RawCells(false, a[..]) == old(RawCells(false, a[..]))
    ensures WholeInner(a[..]) == old(WholeInner(a[..]))
  {
    hide Splice, PutLe, Le, Parse;
    ghost var d, bs := a[..], PutLe(right, 4);
    Store(a, 20, PutLe(right, 4));
    LePut4(right);
    SpliceOutside(d, 20, bs, 0, 2);
    SpliceOutside(d, 20, bs, 2, 4);
    SpliceOutside(d, 20, bs, 4, 12);
    SpliceOutside(d, 20, bs, HEADER_SIZE, PAGE_SIZE);
    ParseSame(false, d, a[..], HEADER_SIZE, NumCells(d));
  }

  /** The cells depend only on the bytes from `off` on. */
  lemma {:induction false} ParseSame(leaf: bool, d: PageBytes, e: PageBytes, off: nat, n: nat)
    requires HEADER_SIZE <= off
    requires d[HEADER_SIZE..PAGE_SIZE] == e[HEADER_SIZE..PAGE_SIZE]
    ensures Parse(leaf, d, off, n) == Parse(leaf, e, off, n)
    decreases n
  {
    hide Le, SizeOf;
    if n > 0 && off + HeadSize(leaf) <= PAGE_SIZE {
      SameSlice(d, e, off, off + HeadSize(leaf));
      var size := SizeAt(leaf, d, off);
      if off + size <= PAGE_SIZE {
        SameSlice(d, e, off, off + size);
        ParseSame(leaf, d, e, off + size, n - 1);
      }
    }
  }

  lemma SameSlice(d: PageBytes, e: PageBytes, lo: nat, hi: nat)
    requires d[HEADER_SIZE..PAGE_SIZE] == e[HEADER_SIZE..PAGE_SIZE]
    requires HEADER_SIZE <= lo <= hi <= PAGE_SIZE
    ensures d[lo..hi] == e[lo..hi]
  {
    SliceSlice(d, HEADER_SIZE, PAGE_SIZE, lo - HEADER_SIZE, hi - HEADER_SIZE);
    SliceSlice(e, HEADER_SIZE, PAGE_SIZE, lo - HEADER_SIZE, hi - HEADER_SIZE);
  }
}
