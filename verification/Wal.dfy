/** The write-ahead log: record frames addressed by byte offset, chained per transaction. */
module Wal {
  import opened Bytes

  const BEGIN: nat := 0
  const UPDATE: nat := 1
  const COMMIT: nat := 2
  const ABORT: nat := 3
  const CLR: nat := 4

  const FRAME_HEADER: nat := 49

  datatype Entry = Entry(lsn: nat, txn: nat, prev: nat, kind: nat, page: nat, key: Blob, before: Blob, after: Blob) {
    predicate IsUpdate() { kind == UPDATE }
    predicate IsWrite() { kind == UPDATE || kind == CLR }
    predicate IsEnd() { kind == COMMIT || kind == ABORT }
    function Size(): nat { FRAME_HEADER + |key| + |before| + |after| }
  }

  /** The header fields can hold the entry. */
  predicate Fits(e: Entry) {
    && e.lsn < 0x1_0000_0000_0000_0000 && e.txn < 0x1_0000_0000_0000_0000 && e.prev < 0x1_0000_0000_0000_0000
    && e.page < 0x1_0000_0000_0000_0000 && e.kind < 0x100
    && |e.key| + |e.before| + |e.after| < 0x1_0000_0000
  }

  ghost predicate AllFit(log: seq<Entry>) {
    forall i :: 0 <= i < |log| ==> Fits(log[i])
  }

  // --- Frames -----------------------------------------------------------------------------

  /** Everything in a frame behind the checksum. */
  function Body(e: Entry): (bs: Blob)
    ensures |bs| + 4 == e.Size()
  {
    PutLe(e.lsn, 8) + (PutLe(e.txn, 8) + (PutLe(e.prev, 8) + (PutLe(e.kind, 1) + (PutLe(e.page, 8)
      + (PutLe(|e.key|, 4) + (PutLe(|e.before|, 4) + (PutLe(|e.after|, 4) + (e.key + (e.before + e.after)))))))))
  }

  /** A frame: the checksum of the body, then the body. The checksum function is left open. */
  function Frame(crc: Blob -> nat, e: Entry): (bs: Blob)
    ensures |bs| == e.Size()
  {
    PutLe(crc(Body(e)), 4) + Body(e)
  }

  function Frames(crc: Blob -> nat, log: seq<Entry>): Blob {
    if log == [] then [] else Frames(crc, log[..|log| - 1]) + Frame(crc, log[|log| - 1])
  }

  /** The byte offset of entry `i`. */
  function Offset(log: seq<Entry>, i: nat): nat
    requires i <= |log|
  {
    if i == 0 then 0 else Offset(log, i - 1) + log[i - 1].Size()
  }

  // --- Reading frames ---------------------------------------------------------------------

  datatype ReadResult = Eof | Corrupt | Got(entry: Entry)

  /** The entry whose frame starts at `off`; the payload length is a 32-bit sum. */
  function ReadAt(file: Blob, off: nat): ReadResult {
    if off >= |file| then Eof
    else if off + FRAME_HEADER > |file| then Corrupt
    else
      var k, b, a := Le(file[off + 37..off + 41]), Le(file[off + 41..off + 45]), Le(file[off + 45..off + 49]);
      var p := off + FRAME_HEADER;
      var len := (k + b + a) % 0x1_0000_0000;
      if p + len > |file| || len != k + b + a then Corrupt
      else Got(Entry(Le(file[off + 4..off + 12]), Le(file[off + 12..off + 20]), Le(file[off + 20..off + 28]),
                     file[off + 28], Le(file[off + 29..off + 37]),
                     file[p..p + k], file[p + k..p + k + b], file[p + k + b..p + k + b + a]))
  }

  /** Whether the stored checksum is the one of the frame's other bytes. */
  predicate ChecksumOk(crc: Blob -> nat, file: Blob, off: nat, e: Entry)
    requires off + e.Size() <= |file|
  {
    file[off..off + 4] == PutLe(crc(file[off + 4..off + e.Size()]), 4)
  }

  lemma BodyParts(file: Blob, off: nat, e: Entry)
    requires At(file, off, Body(e))
    ensures At(file, off, PutLe(e.lsn, 8)) && At(file, off + 8, PutLe(e.txn, 8)) && At(file, off + 16, PutLe(e.prev, 8))
    ensures At(file, off + 24, PutLe(e.kind, 1)) && At(file, off + 25, PutLe(e.page, 8))
    ensures At(file, off + 33, PutLe(|e.key|, 4)) && At(file, off + 37, PutLe(|e.before|, 4))
    ensures At(file, off + 41, PutLe(|e.after|, 4))
    ensures At(file, off + 45, e.key) && At(file, off + 45 + |e.key|, e.before)
    ensures At(file, off + 45 + |e.key| + |e.before|, e.after)
  {
    hide At, PutLe;
    var f10 := e.before + e.after;
    var f9 := e.key + f10;
    var f8 := PutLe(|e.after|, 4) + f9;
    var f7 := PutLe(|e.before|, 4) + f8;
    var f6 := PutLe(|e.key|, 4) + f7;
    var f5 := PutLe(e.page, 8) + f6;
    var f4 := PutLe(e.kind, 1) + f5;
    var f3 := PutLe(e.prev, 8) + f4;
    var f2 := PutLe(e.txn, 8) + f3;
    AtConcat(file, off, PutLe(e.lsn, 8), f2);
    AtConcat(file, off + 8, PutLe(e.txn, 8), f3);
    AtConcat(file, off + 16, PutLe(e.prev, 8), f4);
    AtConcat(file, off + 24, PutLe(e.kind, 1), f5);
    AtConcat(file, off + 25, PutLe(e.page, 8), f6);
    AtConcat(file, off + 33, PutLe(|e.key|, 4), f7);
    AtConcat(file, off + 37, PutLe(|e.before|, 4), f8);
    AtConcat(file, off + 41, PutLe(|e.after|, 4), f9);
    AtConcat(file, off + 45, e.key, f10);
    AtConcat(file, off + 45 + |e.key|, e.before, e.after);
  }

  lemma FieldIs(file: Blob, off: nat, n: nat, width: nat)
    requires At(file, off, PutLe(n, width)) && n < Pow256(width)
    ensures off + width <= |file| && Le(file[off..off + width]) == n
  {
    hide Le, PutLe, Pow256;
    LePutLe(n, width);
  }

  lemma ByteIs(file: Blob, off: nat, n: nat)
    requires At(file, off, PutLe(n, 1)) && n < 0x100
    ensures off < |file| && file[off] == n
  {
    assert PutLe(n, 1) == [n];
    assert file[off..off + 1][0] == file[off];
  }

  lemma BlobIs(file: Blob, off: nat, bs: Blob)
    requires At(file, off, bs)
    ensures off + |bs| <= |file| && file[off..off + |bs|] == bs
  {
  }

  lemma FrameBody(crc: Blob -> nat, file: Blob, off: nat, e: Entry)
    requires At(file, off, Frame(crc, e))
    ensures At(file, off + 4, Body(e))
    ensures off + e.Size() <= |file| && ChecksumOk(crc, file, off, e)
  {
    hide At, PutLe, Body;
    AtConcat(file, off, PutLe(crc(Body(e)), 4), Body(e));
    BlobIs(file, off, PutLe(crc(Body(e)), 4));
    BlobIs(file, off + 4, Body(e));
  }

  /** Reading at the offset of a frame returns the entry that was written, and its checksum holds. */
  lemma ReadFrame(crc: Blob -> nat, file: Blob, off: nat, e: Entry)
    requires Fits(e) && At(file, off, Frame(crc, e))
    ensures ReadAt(file, off) == Got(e)
    ensures off + e.Size() <= |file| && ChecksumOk(crc, file, off, e)
  {
    hide At, Body, Frame, ReadAt, Fits;
    FrameBody(crc, file, off, e);
    ReadOfBody(file, off, e);
  }

  /** The entry that is read does not depend on the checksum. */
  lemma ReadOfBody(file: Blob, off: nat, e: Entry)
    requires Fits(e) && At(file, off + 4, Body(e))
    ensures ReadAt(file, off) == Got(e) && off + e.Size() <= |file|
  {
    hide At, PutLe, Le, Body, Pow256;
    BodyParts(file, off + 4, e);
    FieldWidths();
    FieldIs(file, off + 4, e.lsn, 8);
    FieldIs(file, off + 12, e.txn, 8);
    FieldIs(file, off + 20, e.prev, 8);
    ByteIs(file, off + 28, e.kind);
    FieldIs(file, off + 29, e.page, 8);
    FieldIs(file, off + 37, |e.key|, 4);
    FieldIs(file, off + 41, |e.before|, 4);
    FieldIs(file, off + 45, |e.after|, 4);
    BlobIs(file, off + 49, e.key);
    BlobIs(file, off + 49 + |e.key|, e.before);
    BlobIs(file, off + 49 + |e.key| + |e.before|, e.after);
  }

  lemma FieldBytes(file: Blob, off: nat, width: nat)
    requires off + width <= |file|
    ensures At(file, off, PutLe(Le(file[off..off + width]), width)) && Le(file[off..off + width]) < Pow256(width)
  {
    hide Le, PutLe, Pow256;
    PutLeLe(file[off..off + width]);
    LeBound(file[off..off + width]);
  }

  lemma OneByteField(file: Blob, off: nat)
    requires off < |file|
    ensures At(file, off, PutLe(file[off], 1))
  {
    assert PutLe(file[off], 1) == [file[off]];
    assert file[off..off + 1] == [file[off]];
  }

  /** What is read as an entry stands there as the body of its frame. */
  lemma ReadBody(file: Blob, off: nat, e: Entry)
    requires ReadAt(file, off) == Got(e)
    ensures Fits(e) && At(file, off + 4, Body(e)) && off + e.Size() <= |file|
  {
    hide At, PutLe, Le, Pow256, Body;
    FieldWidths();
    FieldBytes(file, off + 4, 8);
    FieldBytes(file, off + 12, 8);
    FieldBytes(file, off + 20, 8);
    OneByteField(file, off + 28);
    FieldBytes(file, off + 29, 8);
    FieldBytes(file, off + 37, 4);
    FieldBytes(file, off + 41, 4);
    FieldBytes(file, off + 45, 4);
    BlobAt(file, off + 49, e.key);
    BlobAt(file, off + 49 + |e.key|, e.before);
    BlobAt(file, off + 49 + |e.key| + |e.before|, e.after);
    BodyFrom(file, off + 4, e);
  }

  lemma BlobAt(file: Blob, off: nat, bs: Blob)
    requires off + |bs| <= |file| && file[off..off + |bs|] == bs
    ensures At(file, off, bs)
  {
  }

  lemma BodyFrom(file: Blob, off: nat, e: Entry)
    requires At(file, off, PutLe(e.lsn, 8)) && At(file, off + 8, PutLe(e.txn, 8))
      && At(file, off + 16, PutLe(e.prev, 8))
    requires At(file, off + 24, PutLe(e.kind, 1)) && At(file, off + 25, PutLe(e.page, 8))
    requires At(file, off + 33, PutLe(|e.key|, 4)) && At(file, off + 37, PutLe(|e.before|, 4))
    requires At(file, off + 41, PutLe(|e.after|, 4))
    requires At(file, off + 45, e.key) && At(file, off + 45 + |e.key|, e.before)
    requires At(file, off + 45 + |e.key| + |e.before|, e.after)
    ensures At(file, off, Body(e))
  {
    hide At, PutLe;
    var f10 := e.before + e.after;
    var f9 := e.key + f10;
    var f8 := PutLe(|e.after|, 4) + f9;
    var f7 := PutLe(|e.before|, 4) + f8;
    var f6 := PutLe(|e.key|, 4) + f7;
    var f5 := PutLe(e.page, 8) + f6;
    var f4 := PutLe(e.kind, 1) + f5;
    var f3 := PutLe(e.prev, 8) + f4;
    var f2 := PutLe(e.txn, 8) + f3;
    AtConcat(file, off + 45 + |e.key|, e.before, e.after);
    AtConcat(file, off + 45, e.key, f10);
    AtConcat(file, off + 41, PutLe(|e.after|, 4), f9);
    AtConcat(file, off + 37, PutLe(|e.before|, 4), f8);
    AtConcat(file, off + 33, PutLe(|e.key|, 4), f7);
    AtConcat(file, off + 25, PutLe(e.page, 8), f6);
    AtConcat(file, off + 24, PutLe(e.kind, 1), f5);
    AtConcat(file, off + 16, PutLe(e.prev, 8), f4);
    AtConcat(file, off + 8, PutLe(e.txn, 8), f3);
    AtConcat(file, off, PutLe(e.lsn, 8), f2);
  }

  /** What passes the checksum test is the frame of what is read. */
  lemma ReadIsFrame(crc: Blob -> nat, file: Blob, off: nat, e: Entry)
    requires ReadAt(file, off) == Got(e)
    ensures Fits(e) && off + e.Size() <= |file|
    ensures ChecksumOk(crc, file, off, e) <==> file[off..off + e.Size()] == Frame(crc, e)
  {
    hide PutLe, ReadAt, Body, Fits;
    ReadBody(file, off, e);
    var n, frame := off + e.Size(), Frame(crc, e);
    assert file[off..n] == file[off..off + 4] + file[off + 4..n];
    assert frame[..4] == PutLe(crc(Body(e)), 4) && file[off..n][..4] == file[off..off + 4];
  }

  // --- The chain of a transaction ---------------------------------------------------------

  /** For each transaction with unfinished business, the LSN of its latest entry. */
  function PrevMap(log: seq<Entry>): map<nat, nat> {
    if log == [] then map[]
    else
      var m, e := PrevMap(log[..|log| - 1]), log[|log| - 1];
      if e.IsEnd() then m - {e.txn} else m[e.txn := e.lsn]
  }

  function PrevOf(log: seq<Entry>, t: nat): nat {
    if t in PrevMap(log) then PrevMap(log)[t] else 0
  }

  /** Each LSN is its frame's byte offset, each back pointer the transaction's previous entry. */
  ghost predicate WellFormed(log: seq<Entry>) {
    forall i :: 0 <= i < |log| ==>
      && Fits(log[i])
      && log[i].lsn == Offset(log, i)
      && log[i].prev == PrevOf(log[..i], log[i].txn)
  }

  lemma WellFormedFits(log: seq<Entry>)
    requires WellFormed(log)
    ensures AllFit(log)
  {
    hide Fits, PrevOf;
  }

  lemma {:induction false} OffsetPrefix(log: seq<Entry>, n: nat, i: nat)
    requires i <= n <= |log|
    ensures Offset(log[..n], i) == Offset(log, i)
    decreases i
  {
    if i > 0 {
      OffsetPrefix(log, n, i - 1);
    }
  }

  lemma {:induction false} FramesSize(crc: Blob -> nat, log: seq<Entry>)
    ensures |Frames(crc, log)| == Offset(log, |log|)
  {
    hide Frame;
    if log != [] {
      var n := |log| - 1;
      FramesSize(crc, log[..n]);
      OffsetPrefix(log, n, n);
    }
  }

  /** Every entry's frame stands at its offset. */
  lemma {:induction false} FrameAt(crc: Blob -> nat, log: seq<Entry>, i: nat)
    requires i < |log|
    ensures At(Frames(crc, log), Offset(log, i), Frame(crc, log[i]))
    decreases |log|
  {
    hide Frame;
    var n := |log| - 1;
    var pre, last := log[..n], log[n];
    FramesSize(crc, pre);
    OffsetPrefix(log, n, i);
    if i < n {
      FrameAt(crc, pre, i);
      AtExtend(Frames(crc, pre), Frame(crc, last), Offset(log, i), Frame(crc, log[i]));
    } else {
      assert Frames(crc, log) == Frames(crc, pre) + Frame(crc, last);
    }
  }

  lemma AtExtend(s: Blob, more: Blob, off: nat, bs: Blob)
    requires At(s, off, bs)
    ensures At(s + more, off, bs)
  {
  }

  lemma {:induction false} OffsetGrows(log: seq<Entry>, i: nat, j: nat)
    requires i < j <= |log|
    ensures Offset(log, i) < Offset(log, j)
    decreases j
  {
    if i < j - 1 {
      OffsetGrows(log, i, j - 1);
    }
  }

  /** Back pointers point back. */
  lemma PrevBelow(log: seq<Entry>, i: nat)
    requires WellFormed(log) && 0 < i < |log|
    ensures log[i].prev < log[i].lsn
  {
    OffsetGrows(log, 0, i);
    PrevIsEntry(log[..i], log[i].txn);
    if log[i].txn in PrevMap(log[..i]) {
      var j :| 0 <= j < i && log[..i][j].lsn == PrevOf(log[..i], log[i].txn);
      assert log[j].lsn == Offset(log, j);
      OffsetGrows(log, j, i);
    }
  }

  lemma {:induction false} PrevIsEntry(log: seq<Entry>, t: nat)
    ensures t in PrevMap(log) ==> exists j :: 0 <= j < |log| && log[j].lsn == PrevOf(log, t)
  {
    if log != [] && t in PrevMap(log) {
      var n := |log| - 1;
      PrevIsEntry(log[..n], t);
      if log[n].txn != t {
        var j :| 0 <= j < n && log[..n][j].lsn == PrevOf(log[..n], t);
        assert log[j].lsn == PrevOf(log, t);
      } else {
        assert log[n].lsn == PrevOf(log, t);
      }
    }
  }

  // --- The log object ---------------------------------------------------------------------

  class Log {
    const crc: Blob -> nat
    var file: Blob
    var currentLsn: nat
    var txnPrev: map<nat, nat>
    ghost var entries: seq<Entry>

    ghost predicate Valid()
      reads this
    {
      && WellFormed(entries)
      && file == Frames(crc, entries)
      && currentLsn == |file|
      && txnPrev == PrevMap(entries)
    }

    constructor (crc: Blob -> nat)
      ensures Valid() && entries == [] && this.crc == crc
    {
      this.crc := crc;
      file, currentLsn, txnPrev, entries := [], 0, map[], [];
    }

    /** Appends a record: it gets the current end of the file as its LSN and the transaction's previous
        LSN as its back pointer; nothing before it changes.
     */
    method Append(txn: nat, kind: nat, page: nat, key: Blob, before: Blob, after: Blob) returns (lsn: nat)
      requires Valid()
      requires Fits(Entry(currentLsn, txn, PrevOf(entries, txn), kind, page, key, before, after))
      modifies this
      ensures Valid() && lsn == old(|file|)
      ensures entries == old(entries) + [Entry(lsn, txn, PrevOf(old(entries), txn), kind, page, key, before, after)]
      ensures old(file) <= file
    {
      hide Frame, Fits, Frames, WellFormed, PrevMap, Offset;
      var pLsn := if txn in txnPrev then txnPrev[txn] else 0;
      lsn := currentLsn;
      var e := Entry(lsn, txn, pLsn, kind, page, key, before, after);
      currentLsn := currentLsn + (49 + |key| + |before| + |after|);
      if kind == COMMIT || kind == ABORT {
        txnPrev := txnPrev - {txn};
      } else {
        txnPrev := txnPrev[txn := lsn];
      }
      file := file + Frame(crc, e);
      FramesSize(crc, entries);
      FramesSnoc(crc, entries, e);
      Appended(entries, e);
      entries := entries + [e];
    }

    /** A checkpoint truncates the file and restarts the LSNs, but keeps the back pointers: the log is
        consistent afterwards exactly when no transaction was unfinished.
     */
    method Checkpoint()
      requires Valid()
      modifies this
      ensures file == [] && currentLsn == 0 && txnPrev == old(txnPrev) && entries == []
      ensures Valid() <==> PrevMap(old(entries)) == map[]
    {
      hide PrevMap, Fits, PrevOf;
      EmptyLog(crc);
      file, currentLsn, entries := [], 0, [];
    }
  }

  lemma EmptyLog(crc: Blob -> nat)
    ensures Frames(crc, []) == [] && PrevMap([]) == map[]
  {
  }

  lemma FramesSnoc(crc: Blob -> nat, log: seq<Entry>, e: Entry)
    ensures Frames(crc, log + [e]) == Frames(crc, log) + Frame(crc, e)
  {
    hide Frame;
    assert (log + [e])[..|log|] == log;
  }

  lemma Appended(log: seq<Entry>, e: Entry)
    requires WellFormed(log) && Fits(e) && e.lsn == Offset(log, |log|) && e.prev == PrevOf(log, e.txn)
    ensures WellFormed(log + [e])
    ensures (log + [e])[..|log|] == log
    ensures PrevMap(log + [e]) == if e.IsEnd() then PrevMap(log) - {e.txn} else PrevMap(log)[e.txn := e.lsn]
  {
    hide Fits, PrevOf;
    var l := log + [e];
    assert l[..|log|] == log;
    PrevMapStep(log, e);
    forall i | 0 <= i < |l|
      ensures Fits(l[i]) && l[i].lsn == Offset(l, i) && l[i].prev == PrevOf(l[..i], l[i].txn)
    {
      OffsetPrefix(l, |log|, i);
      assert l[..i] == log[..i];
      if i == |log| {
        assert log[..i] == log;
      }
    }
  }

  lemma PrevMapStep(log: seq<Entry>, e: Entry)
    ensures PrevMap(log + [e]) == if e.IsEnd() then PrevMap(log) - {e.txn} else PrevMap(log)[e.txn := e.lsn]
  {
    assert (log + [e])[..|log|] == log;
  }
}
