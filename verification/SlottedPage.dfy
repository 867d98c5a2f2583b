/** The slotted record page: a slot directory that grows up from the header, records that grow down from
    the end of the page.
 */
module SlottedPage {
  import opened Bytes

  const SLOTTED_HEADER: nat := 32
  const RECORD_HEADER: nat := 24

  /** One version of a key. */
  datatype Rec = Rec(txn: nat, exp: nat, key: Blob, val: Blob) {
    function Size(): nat { RECORD_HEADER + |key| + |val| }
  }

  predicate Fits(r: Rec) {
    r.txn < 0x1_0000_0000_0000_0000 && r.exp < 0x1_0000_0000_0000_0000 && r.Size() <= PAGE_SIZE
  }

  // --- Records and slots as bytes ---------------------------------------------------------

  function EncodeRec(r: Rec): (bs: Blob)
    ensures |bs| == r.Size()
  {
    PutLe(r.txn, 8) + (PutLe(r.exp, 8) + (PutLe(|r.key|, 4) + (PutLe(|r.val|, 4) + (r.key + r.val))))
  }

  /** The record in the bytes `bs`. */
  function DecodeRec(bs: Blob): Rec
    requires |bs| >= RECORD_HEADER && RECORD_HEADER + Le(bs[16..20]) + Le(bs[20..24]) <= |bs|
  {
    var k, v := Le(bs[16..20]), Le(bs[20..24]);
    Rec(Le(bs[0..8]), Le(bs[8..16]), bs[24..24 + k], bs[24 + k..24 + k + v])
  }

  lemma DecodeEncode(r: Rec)
    requires Fits(r)
    ensures var bs := EncodeRec(r);
      && Le(bs[16..20]) == |r.key| && Le(bs[20..24]) == |r.val|
      && DecodeRec(bs) == r
  {
    hide Le, PutLe;
    var bs := EncodeRec(r);
    LePut8(r.txn);
    LePut8(r.exp);
    LePut4(|r.key|);
    LePut4(|r.val|);
    assert bs[0..8] == PutLe(r.txn, 8);
    assert bs[8..16] == PutLe(r.exp, 8);
    assert bs[16..20] == PutLe(|r.key|, 4);
    assert bs[20..24] == PutLe(|r.val|, 4);
    var k, v := |r.key|, |r.val|;
    assert bs[24..] == r.key + r.val;
    assert bs[24..24 + k] == r.key;
    assert bs[24 + k..24 + k + v] == r.val;
  }

  /** Total length of the records. */
  function Total(recs: seq<Rec>): nat {
    if recs == [] then 0 else Total(recs[..|recs| - 1]) + recs[|recs| - 1].Size()
  }

  /** The record area: the newest record comes first. */
  function Heap(recs: seq<Rec>): (bs: Blob)
    ensures |bs| == Total(recs)
  {
    if recs == [] then [] else EncodeRec(recs[|recs| - 1]) + Heap(recs[..|recs| - 1])
  }

  function Slot(off: nat, len: nat): (bs: Blob)
    ensures |bs| == 4
  {
    PutLe(off, 2) + PutLe(len, 2)
  }

  /** The slot directory: where each record starts and how long it is. */
  function Slots(recs: seq<Rec>): (bs: Blob)
    requires Total(recs) <= PAGE_SIZE
    ensures |bs| == 4 * |recs|
  {
    if recs == [] then []
    else Slots(recs[..|recs| - 1]) + Slot(PAGE_SIZE - Total(recs), recs[|recs| - 1].Size())
  }

  function SlotCount(d: PageBytes): nat { Le(d[8..12]) }
  function Lower(d: PageBytes): nat { Le(d[12..16]) }
  function Upper(d: PageBytes): nat { Le(d[16..20]) }

  /** The boundaries do not meet: directory below, records above, tiling the page to its end. */
  predicate Packed(recs: seq<Rec>) {
    SLOTTED_HEADER + 4 * |recs| + Total(recs) <= PAGE_SIZE
  }

  predicate AllFit(recs: seq<Rec>) {
    forall i :: 0 <= i < |recs| ==> Fits(recs[i])
  }

  /** A formatted page with exactly these records, oldest first. */
  ghost predicate Layout(d: PageBytes, recs: seq<Rec>) {
    && Packed(recs) && AllFit(recs)
    && At(d, 8, PutLe(|recs|, 4))
    && At(d, 12, PutLe(SLOTTED_HEADER + 4 * |recs|, 4))
    && At(d, 16, PutLe(PAGE_SIZE - Total(recs), 4))
    && At(d, SLOTTED_HEADER, Slots(recs))
    && At(d, PAGE_SIZE - Total(recs), Heap(recs))
  }

  lemma LayoutFields(d: PageBytes, recs: seq<Rec>)
    requires Layout(d, recs)
    ensures SlotCount(d) == |recs| && Lower(d) == SLOTTED_HEADER + 4 * |recs| && Upper(d) == PAGE_SIZE - Total(recs)
  {
    hide Le, PutLe, Total, Slots, Heap;
    LePut4(|recs|);
    LePut4(SLOTTED_HEADER + 4 * |recs|);
    LePut4(PAGE_SIZE - Total(recs));
  }

  // --- Reading one record -----------------------------------------------------------------

  /** The record area of a prefix stands at the end of the page. */
  lemma {:induction false} HeapAt(d: PageBytes, recs: seq<Rec>, i: nat)
    requires i <= |recs| && Total(recs) <= PAGE_SIZE && At(d, PAGE_SIZE - Total(recs), Heap(recs))
    ensures Total(recs[..i]) <= PAGE_SIZE && At(d, PAGE_SIZE - Total(recs[..i]), Heap(recs[..i]))
    decreases |recs|
  {
    hide At, EncodeRec;
    if i < |recs| {
      var n := |recs| - 1;
      AtConcat(d, PAGE_SIZE - Total(recs), EncodeRec(recs[n]), Heap(recs[..n]));
      HeapAt(d, recs[..n], i);
      assert recs[..n][..i] == recs[..i];
    } else {
      assert recs[..i] == recs;
    }
  }

  lemma {:induction false} SlotAt(d: PageBytes, recs: seq<Rec>, i: nat)
    requires i < |recs| && Total(recs) <= PAGE_SIZE && At(d, SLOTTED_HEADER, Slots(recs))
    ensures Total(recs[..i + 1]) <= PAGE_SIZE
    ensures At(d, SLOTTED_HEADER + 4 * i, Slot(PAGE_SIZE - Total(recs[..i + 1]), recs[i].Size()))
    decreases |recs|
  {
    hide At, Slot;
    var n := |recs| - 1;
    AtConcat(d, SLOTTED_HEADER, Slots(recs[..n]), Slot(PAGE_SIZE - Total(recs), recs[n].Size()));
    if i < n {
      SlotAt(d, recs[..n], i);
      assert recs[..n][..i + 1] == recs[..i + 1];
    } else {
      assert recs[..i + 1] == recs;
    }
  }

  lemma SlotFields(d: PageBytes, at: nat, off: nat, len: nat)
    requires At(d, at, Slot(off, len)) && off < 0x1_0000 && len < 0x1_0000
    ensures at + 4 <= PAGE_SIZE && Le(d[at..at + 2]) == off && Le(d[at + 2..at + 4]) == len
  {
    hide Le, PutLe;
    AtConcat(d, at, PutLe(off, 2), PutLe(len, 2));
    LePut2(off);
    LePut2(len);
  }

  /** What a scan finds through slot `i`: record `i`, inside the page. */
  lemma RecordAt(d: PageBytes, recs: seq<Rec>, i: nat)
    requires Layout(d, recs) && i < |recs|
    ensures var s := SLOTTED_HEADER + 4 * i;
      && s + 4 <= PAGE_SIZE
      && var off, len := Le(d[s..s + 2]), Le(d[s + 2..s + 4]);
         && off + len <= PAGE_SIZE && len > 0
         && d[off..off + len] == EncodeRec(recs[i])
  {
    hide Le, PutLe, Total, EncodeRec, Slots, Heap, Slot, At;
    SlotAt(d, recs, i);
    HeapAt(d, recs, i + 1);
    TotalStep(recs, i);
    HeapHead(d, recs[..i + 1]);
    SlotFields(d, SLOTTED_HEADER + 4 * i, PAGE_SIZE - Total(recs[..i + 1]), recs[i].Size());
  }

  lemma TotalStep(recs: seq<Rec>, i: nat)
    requires i < |recs|
    ensures Total(recs[..i + 1]) == Total(recs[..i]) + recs[i].Size()
    ensures recs[..i + 1][i] == recs[i]
  {
    assert recs[..i + 1][..i] == recs[..i];
  }

  lemma HeapHead(d: PageBytes, recs: seq<Rec>)
    requires recs != [] && Total(recs) <= PAGE_SIZE && At(d, PAGE_SIZE - Total(recs), Heap(recs))
    ensures var r := recs[|recs| - 1]; var off := PAGE_SIZE - Total(recs);
      off + r.Size() <= PAGE_SIZE && d[off..off + r.Size()] == EncodeRec(r)
  {
    hide EncodeRec, Total, Heap;
    var n := |recs| - 1;
    HeapStep(recs);
    AtConcat(d, PAGE_SIZE - Total(recs), EncodeRec(recs[n]), Heap(recs[..n]));
  }

  lemma HeapStep(recs: seq<Rec>)
    requires recs != []
    ensures Heap(recs) == EncodeRec(recs[|recs| - 1]) + Heap(recs[..|recs| - 1])
    ensures Total(recs) == Total(recs[..|recs| - 1]) + recs[|recs| - 1].Size()
  {
    hide EncodeRec;
  }

  method GetSlot(a: array<Byte>, i: nat) returns (off: nat, len: nat)
    requires a.Length == PAGE_SIZE && SLOTTED_HEADER + 4 * i + 4 <= PAGE_SIZE
    ensures var s := SLOTTED_HEADER + 4 * i; off == Le(a[..][s..s + 2]) && len == Le(a[..][s + 2..s + 4])
  {
    hide Le;
    var s := SLOTTED_HEADER + 4 * i;
    off, len := Le(a[..][s..s + 2]), Le(a[..][s + 2..s + 4]);
  }

  /** Decodes the record behind slot `i`. */
  method ReadRecord(a: array<Byte>, i: nat, ghost recs: seq<Rec>) returns (r: Rec)
    requires a.Length == PAGE_SIZE && Layout(a[..], recs) && i < |recs|
    ensures r == recs[i]
  {
    hide Le, PutLe, Total, EncodeRec, Slots, Heap, Slot, At, DecodeRec;
    RecordAt(a[..], recs, i);
    DecodeEncode(recs[i]);
    var off, len := GetSlot(a, i);
    var bs := a[..][off..off + len];
    r := DecodeRec(bs);
  }

  // --- Appending one record ---------------------------------------------------------------

  /** A formatted page without records. */
  function EmptyPage(): (d: PageBytes)
    ensures Layout(d, [])
  {
    var d1 := Splice(Zeros(PAGE_SIZE), 8, PutLe(0, 4));
    var d2 := Splice(d1, 12, PutLe(SLOTTED_HEADER, 4));
    EmptyLayout();
    Splice(d2, 16, PutLe(PAGE_SIZE, 4))
  }

  lemma EmptyLayout()
    ensures var d1 := Splice(Zeros(PAGE_SIZE), 8, PutLe(0, 4));
      var d2 := Splice(d1, 12, PutLe(SLOTTED_HEADER, 4));
      Layout(Splice(d2, 16, PutLe(PAGE_SIZE, 4)), [])
  {
    hide PutLe, Splice;
    var d1 := Splice(Zeros(PAGE_SIZE), 8, PutLe(0, 4));
    var d2 := Splice(d1, 12, PutLe(SLOTTED_HEADER, 4));
    AtSpliced(Zeros(PAGE_SIZE), 8, PutLe(0, 4));
    AtSpliced(d1, 12, PutLe(SLOTTED_HEADER, 4));
    AtSpliced(d2, 16, PutLe(PAGE_SIZE, 4));
    AtOutside(d1, 12, PutLe(SLOTTED_HEADER, 4), 8, PutLe(0, 4));
    AtOutside(d2, 16, PutLe(PAGE_SIZE, 4), 8, PutLe(0, 4));
    AtOutside(d2, 16, PutLe(PAGE_SIZE, 4), 12, PutLe(SLOTTED_HEADER, 4));
  }

  /** Formats an empty page. */
  method Init(a: array<Byte>)
    requires a.Length == PAGE_SIZE
    modifies a
    ensures Layout(a[..], [])
  {
    hide PutLe, Splice, Layout;
    EmptyLayout();
    Store(a, 0, Zeros(PAGE_SIZE));
    assert a[..] == Zeros(PAGE_SIZE) by { WholeSplice(old(a[..]), Zeros(PAGE_SIZE)); }
    Store(a, 8, PutLe(0, 4));
    Store(a, 12, PutLe(SLOTTED_HEADER, 4));
    Store(a, 16, PutLe(PAGE_SIZE, 4));
  }

  lemma WholeSplice(s: Blob, bs: Blob)
    requires |s| == |bs|
    ensures Splice(s, 0, bs) == bs
  {
  }

  /** The page bytes after a record is appended. */
  ghost function Appended(d: PageBytes, n: nat, off: nat, bs: Blob): PageBytes
    requires SLOTTED_HEADER + 4 * n + 4 <= off && off + |bs| <= PAGE_SIZE
  {
    Splice(Splice(Splice(Splice(Splice(d, off, bs), SLOTTED_HEADER + 4 * n, Slot(off, |bs|)),
      12, PutLe(SLOTTED_HEADER + 4 * (n + 1), 4)), 16, PutLe(off, 4)), 8, PutLe(n + 1, 4))
  }

  lemma AppendedKeeps(d: PageBytes, n: nat, off: nat, bs: Blob, lo: nat, x: Blob)
    requires SLOTTED_HEADER + 4 * n + 4 <= off && off + |bs| <= PAGE_SIZE
    requires At(d, lo, x) && SLOTTED_HEADER <= lo
    requires lo + |x| <= SLOTTED_HEADER + 4 * n || off + |bs| <= lo
    ensures At(Appended(d, n, off, bs), lo, x)
  {
    hide Splice, PutLe, Slot, At;
    var d1 := Splice(d, off, bs);
    var d2 := Splice(d1, SLOTTED_HEADER + 4 * n, Slot(off, |bs|));
    var d3 := Splice(d2, 12, PutLe(SLOTTED_HEADER + 4 * (n + 1), 4));
    var d4 := Splice(d3, 16, PutLe(off, 4));
    AtOutside(d, off, bs, lo, x);
    AtOutside(d1, SLOTTED_HEADER + 4 * n, Slot(off, |bs|), lo, x);
    AtOutside(d2, 12, PutLe(SLOTTED_HEADER + 4 * (n + 1), 4), lo, x);
    AtOutside(d3, 16, PutLe(off, 4), lo, x);
    AtOutside(d4, 8, PutLe(n + 1, 4), lo, x);
  }

  lemma AppendedNew(d: PageBytes, n: nat, off: nat, bs: Blob)
    requires SLOTTED_HEADER + 4 * n + 4 <= off && off + |bs| <= PAGE_SIZE
    ensures var e := Appended(d, n, off, bs);
      && At(e, off, bs) && At(e, SLOTTED_HEADER + 4 * n, Slot(off, |bs|))
      && At(e, 12, PutLe(SLOTTED_HEADER + 4 * (n + 1), 4)) && At(e, 16, PutLe(off, 4)) && At(e, 8, PutLe(n + 1, 4))
  {
    hide Splice, PutLe, Slot, At;
    var s, lw, up, ct := Slot(off, |bs|), PutLe(SLOTTED_HEADER + 4 * (n + 1), 4), PutLe(off, 4), PutLe(n + 1, 4);
    var d1 := Splice(d, off, bs);
    var d2 := Splice(d1, SLOTTED_HEADER + 4 * n, s);
    var d3 := Splice(d2, 12, lw);
    var d4 := Splice(d3, 16, up);
    AtSpliced(d, off, bs);
    AtOutside(d1, SLOTTED_HEADER + 4 * n, s, off, bs);
    AtOutside(d2, 12, lw, off, bs);
    AtOutside(d3, 16, up, off, bs);
    AtOutside(d4, 8, ct, off, bs);
    AtSpliced(d1, SLOTTED_HEADER + 4 * n, s);
    AtOutside(d2, 12, lw, SLOTTED_HEADER + 4 * n, s);
    AtOutside(d3, 16, up, SLOTTED_HEADER + 4 * n, s);
    AtOutside(d4, 8, ct, SLOTTED_HEADER + 4 * n, s);
    AtSpliced(d2, 12, lw);
    AtOutside(d3, 16, up, 12, lw);
    AtOutside(d4, 8, ct, 12, lw);
    AtSpliced(d3, 16, up);
    AtOutside(d4, 8, ct, 16, up);
    AtSpliced(d4, 8, ct);
  }

  /** Appending a record that fits extends the list of records by it. */
  lemma LayoutAppend(d: PageBytes, recs: seq<Rec>, r: Rec)
    requires Layout(d, recs) && Fits(r) && Packed(recs + [r])
    ensures var off := PAGE_SIZE - Total(recs) - r.Size();
      SLOTTED_HEADER + 4 * |recs| + 4 <= off && Layout(Appended(d, |recs|, off, EncodeRec(r)), recs + [r])
  {
    hide PutLe, Splice, At, EncodeRec, Slot, Appended, Total, Slots, Heap, Fits, AllFit;
    SnocParts(recs, r);
    FitSnoc(recs, r);
    var off := PAGE_SIZE - Total(recs) - r.Size();
    AppendedNew(d, |recs|, off, EncodeRec(r));
    AppendedSlots(d, recs, r);
    AppendedHeap(d, recs, r);
  }

  lemma FitSnoc(recs: seq<Rec>, r: Rec)
    requires AllFit(recs) && Fits(r)
    ensures AllFit(recs + [r])
  {
    hide Fits;
  }

  lemma AppendedSlots(d: PageBytes, recs: seq<Rec>, r: Rec)
    requires Layout(d, recs) && Packed(recs + [r])
    ensures var off := PAGE_SIZE - Total(recs) - r.Size();
      SLOTTED_HEADER + 4 * |recs| + 4 <= off
        && At(Appended(d, |recs|, off, EncodeRec(r)), SLOTTED_HEADER, Slots(recs + [r]))
  {
    hide PutLe, Splice, At, EncodeRec, Slot, Appended, Total, Slots, Heap, Fits;
    SnocParts(recs, r);
    var off := PAGE_SIZE - Total(recs) - r.Size();
    AppendedNew(d, |recs|, off, EncodeRec(r));
    AppendedKeeps(d, |recs|, off, EncodeRec(r), SLOTTED_HEADER, Slots(recs));
    AtConcat(Appended(d, |recs|, off, EncodeRec(r)), SLOTTED_HEADER, Slots(recs), Slot(off, r.Size()));
  }

  lemma AppendedHeap(d: PageBytes, recs: seq<Rec>, r: Rec)
    requires Layout(d, recs) && Packed(recs + [r])
    ensures var off := PAGE_SIZE - Total(recs) - r.Size();
      SLOTTED_HEADER + 4 * |recs| + 4 <= off && At(Appended(d, |recs|, off, EncodeRec(r)), off, Heap(recs + [r]))
  {
    hide PutLe, Splice, At, EncodeRec, Slot, Appended, Total, Slots, Heap, Fits;
    SnocParts(recs, r);
    var off := PAGE_SIZE - Total(recs) - r.Size();
    AppendedNew(d, |recs|, off, EncodeRec(r));
    AppendedKeeps(d, |recs|, off, EncodeRec(r), PAGE_SIZE - Total(recs), Heap(recs));
    AtConcat(Appended(d, |recs|, off, EncodeRec(r)), off, EncodeRec(r), Heap(recs));
  }

  lemma SnocParts(recs: seq<Rec>, r: Rec)
    requires Packed(recs + [r])
    ensures Total(recs + [r]) == Total(recs) + r.Size()
    ensures Slots(recs + [r]) == Slots(recs) + Slot(PAGE_SIZE - Total(recs) - r.Size(), r.Size())
    ensures Heap(recs + [r]) == EncodeRec(r) + Heap(recs)
  {
    hide EncodeRec, Slot;
    assert (recs + [r])[..|recs|] == recs;
  }

  /** Whether a record of this size still fits between the directory and the records. */
  method IsSafeForInsert(a: array<Byte>, required: nat, ghost recs: seq<Rec>) returns (safe: bool)
    requires a.Length == PAGE_SIZE && Layout(a[..], recs)
    ensures safe <==> SLOTTED_HEADER + 4 * (|recs| + 1) + Total(recs) + required <= PAGE_SIZE
  {
    hide Le, Layout, Total;
    LayoutFields(a[..], recs);
    safe := Lower(a[..]) + 4 + required <= Upper(a[..]);
  }

  /** Writes a record that fits: bytes, slot, boundaries, count. */
  method Append(a: array<Byte>, r: Rec, ghost recs: seq<Rec>)
    requires a.Length == PAGE_SIZE && Layout(a[..], recs) && Fits(r) && Packed(recs + [r])
    modifies a
    ensures Layout(a[..], recs + [r])
  {
    hide Le, PutLe, Splice, At, EncodeRec, Slot, Layout, Total, Packed;
    LayoutFields(a[..], recs);
    LayoutAppend(a[..], recs, r);
    var bs := EncodeRec(r);
    var n, off := SlotCount(a[..]), Upper(a[..]) - |bs|;
    Store(a, off, bs);
    Store(a, SLOTTED_HEADER + 4 * n, Slot(off, |bs|));
    Store(a, 12, PutLe(SLOTTED_HEADER + 4 * (n + 1), 4));
    Store(a, 16, PutLe(off, 4));
    Store(a, 8, PutLe(n + 1, 4));
  }
}
