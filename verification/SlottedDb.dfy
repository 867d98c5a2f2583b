/** Versioned reads and writes over one slotted page: visibility, prefix scan, compaction. */
module SlottedDb {
  import opened Wrappers
  import opened Bytes
  import opened SlottedPage

  const CENTURY: nat := 3_153_600_000_000_000_000

  // --- What a reader sees -----------------------------------------------------------------

  /** The expiry field is compared as a signed number. */
  predicate Live(r: Rec, now: int) {
    (if r.exp < U64 / 2 then r.exp as int else r.exp - U64) > now
  }

  /** The visibility test of one record, as the engine computes it. */
  predicate IsRecordVisible(txn: nat, reader: nat, isActive: bool) {
    isActive ==> txn <= reader
  }

  /** The record is one for `key` that the reader or a finished transaction wrote. */
  predicate Sees(r: Rec, active: set<nat>, reader: nat, key: Blob) {
    r.key == key && (r.txn !in active || r.txn == reader)
  }

  /** The value of the last record seen, unless it has expired. */
  function ReadSpec(recs: seq<Rec>, active: set<nat>, reader: nat, key: Blob, now: int): Option<Blob> {
    if recs == [] then None
    else
      var r := recs[|recs| - 1];
      if !Sees(r, active, reader, key) then ReadSpec(recs[..|recs| - 1], active, reader, key, now)
      else if Live(r, now) then Some(r.val) else None
  }

  ghost predicate LastSeen(recs: seq<Rec>, active: set<nat>, reader: nat, key: Blob, i: int) {
    && 0 <= i < |recs| && Sees(recs[i], active, reader, key)
    && forall j :: i < j < |recs| ==> !Sees(recs[j], active, reader, key)
  }

  ghost predicate Answers(recs: seq<Rec>, active: set<nat>, reader: nat, key: Blob, now: int, i: int, v: Blob) {
    LastSeen(recs, active, reader, key, i) && Live(recs[i], now) && recs[i].val == v
  }

  lemma {:induction false} ReadWitness(recs: seq<Rec>, active: set<nat>, reader: nat, key: Blob, now: int)
    returns (i: int)
    requires ReadSpec(recs, active, reader, key, now).Some?
    ensures Answers(recs, active, reader, key, now, i, ReadSpec(recs, active, reader, key, now).value)
  {
    i := |recs| - 1;
    if !Sees(recs[i], active, reader, key) {
      var n := i;
      i := ReadWitness(recs[..n], active, reader, key, now);
    }
  }

  lemma {:induction false} ReadFinds(recs: seq<Rec>, active: set<nat>, reader: nat, key: Blob, now: int, i: int)
    requires LastSeen(recs, active, reader, key, i)
    ensures ReadSpec(recs, active, reader, key, now) == if Live(recs[i], now) then Some(recs[i].val) else None
    decreases |recs|
  {
    var n := |recs| - 1;
    if i < n {
      assert !Sees(recs[n], active, reader, key);
      ReadFinds(recs[..n], active, reader, key, now, i);
    }
  }

  /** A read answers `v` exactly when the last record seen is live and holds `v`. */
  lemma ReadMeaning(recs: seq<Rec>, active: set<nat>, reader: nat, key: Blob, now: int, v: Blob)
    ensures ReadSpec(recs, active, reader, key, now) == Some(v) <==>
      exists i :: Answers(recs, active, reader, key, now, i, v)
  {
    hide ReadSpec;
    if ReadSpec(recs, active, reader, key, now) == Some(v) {
      var i := ReadWitness(recs, active, reader, key, now);
    } else if i :| Answers(recs, active, reader, key, now, i, v) {
      ReadFinds(recs, active, reader, key, now, i);
    }
  }

  /** A record that the reader sees, with none of its key behind it, is read until its end of life. An end of life that
      does not fit 63 bits counts as one in the past.
   */
  lemma ReadUntil(was: seq<Rec>, r: Rec, later: seq<Rec>, active: set<nat>, reader: nat, t: int)
    requires r.txn !in active || r.txn == reader
    requires forall x :: x in later ==> x.key != r.key
    ensures r.exp < 0x8000_0000_0000_0000 ==>
      ReadSpec(was + [r] + later, active, reader, r.key, t) == if t < r.exp then Some(r.val) else None
    ensures 0x8000_0000_0000_0000 <= r.exp < 0x1_0000_0000_0000_0000 && 0 <= t ==>
      ReadSpec(was + [r] + later, active, reader, r.key, t) == None
  {
    hide ReadSpec;
    var recs := was + [r] + later;
    forall j | |was| < j < |recs|
      ensures !Sees(recs[j], active, reader, r.key)
    {
      assert recs[j] in later;
    }
    ReadFinds(recs, active, reader, r.key, t, |was|);
  }

  // --- Compaction on the list of records --------------------------------------------------

  /** The records a compaction keeps: per key the unexpired one of the highest transaction. */
  function Keep(recs: seq<Rec>, now: int): map<Blob, Rec> {
    if recs == [] then map[]
    else KeepStep(Keep(recs[..|recs| - 1], now), recs[|recs| - 1], now)
  }

  function KeepStep(m: map<Blob, Rec>, r: Rec, now: int): map<Blob, Rec> {
    if (r.key !in m || r.txn > m[r.key].txn) && Live(r, now) then m[r.key := r] else m
  }

  /** `i` holds the earliest of the highest-numbered unexpired records for its key. */
  ghost predicate Newest(recs: seq<Rec>, now: int, i: int) {
    && 0 <= i < |recs| && Live(recs[i], now)
    && forall j :: 0 <= j < |recs| && recs[j].key == recs[i].key && Live(recs[j], now) ==>
         recs[j].txn < recs[i].txn || (recs[j].txn == recs[i].txn && i <= j)
  }

  lemma {:induction false} KeepWitness(recs: seq<Rec>, now: int, k: Blob) returns (i: int)
    requires k in Keep(recs, now)
    ensures Newest(recs, now, i) && recs[i] == Keep(recs, now)[k] && recs[i].key == k
  {
    hide Live;
    var n := |recs| - 1;
    var init, r := recs[..n], recs[n];
    if k in Keep(init, now) {
      i := KeepWitness(init, now, k);
      if k == r.key && Live(r, now) && r.txn > init[i].txn {
        i := n;
      }
    } else {
      KeepCovers(init, now);
      i := n;
    }
  }

  lemma {:induction false} KeepCovers(recs: seq<Rec>, now: int)
    ensures forall i :: 0 <= i < |recs| && Live(recs[i], now) ==> recs[i].key in Keep(recs, now)
  {
    hide Live;
    if recs != [] {
      var n := |recs| - 1;
      KeepCovers(recs[..n], now);
      assert forall i :: 0 <= i < n ==> recs[i] == recs[..n][i];
    }
  }

  /** `cs` lists records of `m`, each key at most once. */
  ghost predicate PartOf(cs: seq<Rec>, m: map<Blob, Rec>) {
    && (forall i :: 0 <= i < |cs| ==> cs[i].key in m && m[cs[i].key] == cs[i])
    && (forall i, j :: 0 <= i < j < |cs| ==> cs[i].key != cs[j].key)
  }

  /** A page a compaction may leave: the kept records in some order. */
  ghost predicate Compacted(cs: seq<Rec>, recs: seq<Rec>, now: int) {
    && PartOf(cs, Keep(recs, now))
    && (forall k :: k in Keep(recs, now) ==> exists i :: 0 <= i < |cs| && cs[i].key == k)
  }

  lemma {:induction false} TotalConcat(a: seq<Rec>, b: seq<Rec>)
    ensures Total(a + b) == Total(a) + Total(b)
    decreases |b|
  {
    if b == [] {
      assert a + b == a;
    } else {
      TotalConcat(a, b[..|b| - 1]);
      assert (a + b)[..|a + b| - 1] == a + b[..|b| - 1];
    }
  }

  lemma TotalWithout(cs: seq<Rec>, i: nat)
    requires i < |cs|
    ensures Total(cs) == Total(cs[..i] + cs[i + 1..]) + cs[i].Size()
  {
    hide Total;
    TotalConcat(cs[..i], cs[i + 1..]);
    TotalConcat(cs[..i + 1], cs[i + 1..]);
    assert cs == cs[..i + 1] + cs[i + 1..];
    TotalStep(cs, i);
  }

  /** However far the repacking has come, and in whatever order, it needs no more space than before. */
  lemma {:induction false} RepackFits(cs: seq<Rec>, recs: seq<Rec>, now: int)
    requires PartOf(cs, Keep(recs, now))
    ensures |cs| <= |recs| && Total(cs) <= Total(recs)
    decreases |recs|
  {
    hide Live;
    if recs == [] {
      PartOfNone(cs);
    } else {
      var init, r := recs[..|recs| - 1], recs[|recs| - 1];
      if i: nat :| i < |cs| && cs[i].key == r.key && cs[i] == r {
        TotalWithout(cs, i);
        PartOfWithout(cs, i, Keep(recs, now), Keep(init, now));
        RepackFits(cs[..i] + cs[i + 1..], init, now);
      } else {
        RepackFits(cs, init, now);
      }
    }
  }

  lemma PartOfNone(cs: seq<Rec>)
    ensures cs != [] ==> !PartOf(cs, map[])
  {
    var none: map<Blob, Rec> := map[];
    if cs != [] {
      assert cs[0].key !in none;
    }
  }

  lemma PartOfWithout(cs: seq<Rec>, i: nat, m: map<Blob, Rec>, m0: map<Blob, Rec>)
    requires PartOf(cs, m) && i < |cs| && forall k :: k in m && k != cs[i].key ==> k in m0 && m0[k] == m[k]
    ensures PartOf(cs[..i] + cs[i + 1..], m0)
  {
    var rest := cs[..i] + cs[i + 1..];
    assert forall j :: 0 <= j < |rest| ==> rest[j] == cs[if j < i then j else j + 1];
  }

  lemma CompactedFits(cs: seq<Rec>, recs: seq<Rec>, now: int)
    requires PartOf(cs, Keep(recs, now)) && Packed(recs)
    ensures Packed(cs)
  {
    hide PartOf, Keep, Total;
    RepackFits(cs, recs, now);
  }

  /** A compacted page holds at most one record per key, unexpired and stored before. */
  lemma CompactedMeaning(cs: seq<Rec>, recs: seq<Rec>, now: int)
    requires Compacted(cs, recs, now)
    ensures forall i, j :: 0 <= i < j < |cs| ==> cs[i].key != cs[j].key
    ensures forall i :: 0 <= i < |cs| ==> Live(cs[i], now) && cs[i] in recs
  {
    hide Keep, Live;
    forall i | 0 <= i < |cs|
      ensures Live(cs[i], now) && cs[i] in recs
    {
      var j := KeepWitness(recs, now, cs[i].key);
    }
  }

  /** Of the unexpired records for a key, the one with the highest transaction number stays. */
  lemma CompactedHighest(cs: seq<Rec>, recs: seq<Rec>, now: int, j: nat) returns (i: nat)
    requires Compacted(cs, recs, now) && j < |recs| && Live(recs[j], now)
    ensures i < |cs| && cs[i].key == recs[j].key && cs[i] in recs && Live(cs[i], now)
    ensures cs[i].txn > recs[j].txn || (cs[i].txn == recs[j].txn && exists f :: 0 <= f <= j && recs[f] == cs[i])
  {
    hide Keep, Live;
    KeepCovers(recs, now);
    i :| i < |cs| && cs[i].key == recs[j].key;
    var f := KeepWitness(recs, now, recs[j].key);
  }

  /** The hypotheses under which compaction cannot change what is read of a key. */
  ghost predicate Orderly(recs: seq<Rec>, active: set<nat>, key: Blob, now: int) {
    && (forall i :: 0 <= i < |recs| && recs[i].key == key ==> recs[i].txn !in active)
    && (forall i, j :: 0 <= i < j < |recs| && recs[i].key == key && recs[j].key == key ==>
          recs[i].txn < recs[j].txn && (Live(recs[i], now) ==> Live(recs[j], now)))
  }

  lemma UniqueSeen(cs: seq<Rec>, active: set<nat>, reader: nat, key: Blob, i: nat)
    requires i < |cs| && Sees(cs[i], active, reader, key)
    requires forall i, j :: 0 <= i < j < |cs| ==> cs[i].key != cs[j].key
    ensures LastSeen(cs, active, reader, key, i)
  {
  }

  lemma CompactionKeepsReads(cs: seq<Rec>, recs: seq<Rec>, active: set<nat>, reader: nat, key: Blob, now: int)
    requires Compacted(cs, recs, now) && Orderly(recs, active, key, now)
    ensures ReadSpec(cs, active, reader, key, now) == ReadSpec(recs, active, reader, key, now)
  {
    hide ReadSpec, Compacted, Live;
    CompactedMeaning(cs, recs, now);
    if ReadSpec(recs, active, reader, key, now).Some? {
      var n := ReadWitness(recs, active, reader, key, now);
      var i := CompactedHighest(cs, recs, now, n);
      assert cs[i] == recs[n];
      UniqueSeen(cs, active, reader, key, i);
      ReadFinds(cs, active, reader, key, now, i);
    } else if ReadSpec(cs, active, reader, key, now).Some? {
      var i := ReadWitness(cs, active, reader, key, now);
      var j :| 0 <= j < |recs| && recs[j] == cs[i];
      var n := LastSeenFrom(recs, active, reader, key, j);
      ReadFinds(recs, active, reader, key, now, n);
    }
  }

  /** What every reader gets of a key after a compaction, with no hypothesis on the page: the unexpired record of
      the highest transaction if the reader sees it, and nothing if it does not or if all have expired.
   */
  lemma ReadAfterCompaction(cs: seq<Rec>, recs: seq<Rec>, active: set<nat>, reader: nat, key: Blob, now: int)
    requires Compacted(cs, recs, now)
    ensures forall f :: Newest(recs, now, f) && recs[f].key == key ==>
      ReadSpec(cs, active, reader, key, now) == if Sees(recs[f], active, reader, key) then Some(recs[f].val) else None
    ensures (forall j :: 0 <= j < |recs| && recs[j].key == key ==> !Live(recs[j], now)) ==>
      ReadSpec(cs, active, reader, key, now) == None
  {
    hide ReadSpec, Keep, Live;
    CompactedMeaning(cs, recs, now);
    if ReadSpec(cs, active, reader, key, now).Some? {
      var i := ReadWitness(cs, active, reader, key, now);
      var f := KeepWitness(recs, now, key);
    } else {
      forall f | Newest(recs, now, f) && recs[f].key == key
        ensures !Sees(recs[f], active, reader, key)
      {
        NewestKept(cs, recs, active, reader, now, f);
      }
    }
  }

  lemma NewestKept(cs: seq<Rec>, recs: seq<Rec>, active: set<nat>, reader: nat, now: int, f: int)
    requires Compacted(cs, recs, now) && Newest(recs, now, f)
    ensures Sees(recs[f], active, reader, recs[f].key) ==>
      ReadSpec(cs, active, reader, recs[f].key, now) == Some(recs[f].val)
  {
    hide ReadSpec, Keep, Live;
    CompactedMeaning(cs, recs, now);
    var key := recs[f].key;
    KeepCovers(recs, now);
    var g := KeepWitness(recs, now, key);
    var i :| 0 <= i < |cs| && cs[i].key == key;
    if Sees(recs[f], active, reader, key) {
      UniqueSeen(cs, active, reader, key, i);
      ReadFinds(cs, active, reader, key, now, i);
    }
  }

  /** The record that a compaction would keep of a key and the record a reader sees last agree: if the reader sees the
      newest live record, the last one it sees is live with the same value; if not, the last one it sees is not live.
   */
  ghost predicate Undisturbed(recs: seq<Rec>, active: set<nat>, reader: nat, key: Blob, now: int) {
    forall f :: Newest(recs, now, f) && recs[f].key == key ==>
      if Sees(recs[f], active, reader, key) then
        exists n :: LastSeen(recs, active, reader, key, n) && Live(recs[n], now) && recs[n].val == recs[f].val
      else
        forall n :: LastSeen(recs, active, reader, key, n) ==> !Live(recs[n], now)
  }

  /** Exactly when a compaction leaves a read unchanged, for every page, reader, key and time. */
  lemma CompactionExact(cs: seq<Rec>, recs: seq<Rec>, active: set<nat>, reader: nat, key: Blob, now: int)
    requires Compacted(cs, recs, now)
    ensures ReadSpec(cs, active, reader, key, now) == ReadSpec(recs, active, reader, key, now)
            <==> Undisturbed(recs, active, reader, key, now)
  {
    hide ReadSpec, Compacted, Live, Newest, LastSeen, Keep;
    ReadAfterCompaction(cs, recs, active, reader, key, now);
    if key in Keep(recs, now) {
      var f := KeepWitness(recs, now, key);
      OneNewest(recs, now, f);
      ReadOfLast(recs, active, reader, key, now);
    } else {
      KeepCovers(recs, now);
      NewestIsLive(recs, now);
      ReadOfLast(recs, active, reader, key, now);
      LastIsOfKey(recs, active, reader, key);
    }
  }

  lemma OneNewest(recs: seq<Rec>, now: int, f: int)
    requires Newest(recs, now, f)
    ensures forall g :: Newest(recs, now, g) && recs[g].key == recs[f].key ==> g == f
  {
  }

  lemma NewestIsLive(recs: seq<Rec>, now: int)
    ensures forall f :: Newest(recs, now, f) ==> 0 <= f < |recs| && Live(recs[f], now)
  {
  }

  lemma LastIsOfKey(recs: seq<Rec>, active: set<nat>, reader: nat, key: Blob)
    ensures forall n :: LastSeen(recs, active, reader, key, n) ==> 0 <= n < |recs| && recs[n].key == key
  {
  }

  /** A read is decided by the last record seen. */
  lemma ReadOfLast(recs: seq<Rec>, active: set<nat>, reader: nat, key: Blob, now: int)
    ensures forall n :: LastSeen(recs, active, reader, key, n) ==> 0 <= n < |recs|
    ensures forall n :: LastSeen(recs, active, reader, key, n) ==>
      ReadSpec(recs, active, reader, key, now) == if Live(recs[n], now) then Some(recs[n].val) else None
    ensures ReadSpec(recs, active, reader, key, now).Some? ==>
      exists n :: LastSeen(recs, active, reader, key, n) && Live(recs[n], now)
  {
    hide ReadSpec, Live;
    forall n | LastSeen(recs, active, reader, key, n)
      ensures ReadSpec(recs, active, reader, key, now) == if Live(recs[n], now) then Some(recs[n].val) else None
    {
      ReadFinds(recs, active, reader, key, now, n);
    }
    if ReadSpec(recs, active, reader, key, now).Some? {
      var n := ReadWitness(recs, active, reader, key, now);
    }
  }

  lemma {:induction false} LastSeenFrom(recs: seq<Rec>, active: set<nat>, reader: nat, key: Blob, j: nat)
    returns (n: int)
    requires j < |recs| && Sees(recs[j], active, reader, key)
    ensures LastSeen(recs, active, reader, key, n) && j <= n
    decreases |recs| - j
  {
    n := j;
    if !LastSeen(recs, active, reader, key, j) {
      var k :| j < k < |recs| && Sees(recs[k], active, reader, key);
      n := LastSeenFrom(recs, active, reader, key, k);
    }
  }

  /** Without rising transaction numbers it does: a newer write that carries a smaller number, as after a
      restart that begins counting afresh, is replaced by the older value.
   */
  lemma CompactionRevertsSmallerTxn(cs: seq<Rec>, early: Rec, late: Rec, active: set<nat>, reader: nat, now: int)
    requires early.key == late.key && late.txn < early.txn && early.val != late.val
    requires Live(early, now) && Live(late, now) && early.txn !in active && late.txn !in active
    requires Compacted(cs, [early, late], now)
    ensures ReadSpec([early, late], active, reader, late.key, now) == Some(late.val)
    ensures ReadSpec(cs, active, reader, late.key, now) == Some(early.val)
  {
    hide ReadSpec, Compacted, Live;
    var recs := [early, late];
    ReadFinds(recs, active, reader, late.key, now, 1);
    CompactedMeaning(cs, recs, now);
    var i := CompactedHighest(cs, recs, now, 0);
    UniqueSeen(cs, active, reader, late.key, i);
    ReadFinds(cs, active, reader, late.key, now, i);
  }

  // --- Prefix scan on the list of records -------------------------------------------------

  /** What the scan's map holds after the records `recs`. */
  function ScanSpec(recs: seq<Rec>, active: set<nat>, reader: nat, prefix: Blob, now: int): map<Blob, Blob> {
    if recs == [] then map[]
    else
      ScanStep(ScanSpec(recs[..|recs| - 1], active, reader, prefix, now), recs[|recs| - 1], active, reader, prefix, now)
  }

  function ScanStep(m: map<Blob, Blob>, r: Rec, active: set<nat>, reader: nat, prefix: Blob, now: int)
    : map<Blob, Blob> {
    if !Sees(r, active, reader, r.key) || !HasPrefix(r.key, prefix) then m
    else if Live(r, now) then m[r.key := r.val]
    else m - {r.key}
  }

  /** A scan yields a pair exactly when its key has the prefix and a read of the key answers the value. */
  lemma {:induction false} ScanIsRead(recs: seq<Rec>, active: set<nat>, reader: nat, prefix: Blob, now: int, k: Blob)
    ensures var m := ScanSpec(recs, active, reader, prefix, now);
      (if k in m then Some(m[k]) else None) ==
      (if HasPrefix(k, prefix) then ReadSpec(recs, active, reader, k, now) else None)
  {
    hide Live;
    if recs != [] {
      ScanIsRead(recs[..|recs| - 1], active, reader, prefix, now, k);
    }
  }

  // --- The page and the running transactions ----------------------------------------------

  /** A page never formatted, or one holding exactly `recs`. */
  ghost predicate Holds(d: PageBytes, recs: seq<Rec>) {
    Layout(d, recs) || (recs == [] && SlotCount(d) == 0 && Lower(d) == 0 && Upper(d) == 0)
  }

  function Expiry(now: int, ttl: int): (e: nat)
    ensures e < U64
  {
    (now + if ttl > 0 then ttl else CENTURY) % U64
  }

  /** The effect of writing `r`: appended if there is room for it; otherwise the page is compacted and the record
      appended if there is room then, refused if not.
   */
  ghost predicate Stored(was: seq<Rec>, recs: seq<Rec>, r: Rec, now: int, ok: bool) {
    if Packed(was + [r]) then ok && recs == was + [r]
    else exists cs ::
      Compacted(cs, was, now) && Packed(cs) && ok == Packed(cs + [r]) && recs == if ok then cs + [r] else cs
  }

  class Db {
    const page: array<Byte>
    var nextTxn: nat
    var active: set<nat>
    ghost var recs: seq<Rec>

    ghost predicate Valid()
      reads this, page
    {
      page.Length == PAGE_SIZE && Holds(page[..], recs) && nextTxn < U64
    }

    /** A page that is in order, or one with an upper boundary that cannot be: a write formats such a page afresh. */
    ghost predicate Healable()
      reads this, page
    {
      && page.Length == PAGE_SIZE && nextTxn < U64
      && (Layout(page[..], recs) || Upper(page[..]) == 0 || Upper(page[..]) > PAGE_SIZE)
    }

    /** The state a run of events ends in. */
    ghost predicate After(run: seq<Event>)
      reads this
    {
      recs == RunRecs(run) && active == RunActive(run)
    }

    constructor ()
      ensures Valid() && fresh(page) && After([]) && nextTxn == 0
    {
      page := new Byte[PAGE_SIZE](_ => 0);
      nextTxn, active, recs := 0, {}, [];
      new;
      ZeroPage(page[..]);
    }

    method BeginTxn() returns (id: nat)
      requires Valid()
      modifies this`nextTxn, this`active
      ensures Valid() && id == (old(nextTxn) + 1) % U64 && nextTxn == id
      ensures active == old(active) + {id}
      ensures forall run :: old(After(run)) ==> After(run + [Begin(id)])
    {
      RunSnoc();
      nextTxn := (nextTxn + 1) % U64;
      id := nextTxn;
      active := active + {id};
    }

    method CommitTxn(id: nat)
      requires Valid()
      modifies this`active
      ensures Valid() && active == old(active) - {id}
      ensures forall run :: old(After(run)) ==> After(run + [Commit(id)])
    {
      RunSnoc();
      active := active - {id};
    }

    method Read(reader: nat, key: Blob, now: int) returns (value: Option<Blob>)
      requires Valid()
      ensures value == ReadSpec(recs, active, reader, key, now)
    {
      hide Layout, ReadSpec;
      HoldsCount(page[..], recs);
      var n := SlotCount(page[..]);
      value := None;
      ReadNothing(active, reader, key, now);
      assert recs[..0] == [];
      for i := 0 to n
        invariant value == ReadSpec(recs[..i], active, reader, key, now)
      {
        ReadStep(recs, i, active, reader, key, now);
        var r := ReadRecord(page, i, recs);
        var isActive := r.txn in active;
        if r.key == key && IsRecordVisible(r.txn, reader, isActive) && (!isActive || r.txn == reader) {
          value := if Live(r, now) then Some(r.val) else None;
        }
      }
      assert recs[..n] == recs;
    }

    method Scan(reader: nat, prefix: Blob, now: int) returns (latest: map<Blob, Blob>)
      requires Valid()
      ensures forall k, v :: (k in latest && latest[k] == v) <==>
        HasPrefix(k, prefix) && ReadSpec(recs, active, reader, k, now) == Some(v)
    {
      hide Layout, ReadSpec, ScanSpec, Live;
      HoldsCount(page[..], recs);
      var n := SlotCount(page[..]);
      latest := map[];
      ScanNothing(active, reader, prefix, now);
      assert recs[..0] == [];
      for i := 0 to n
        invariant latest == ScanSpec(recs[..i], active, reader, prefix, now)
      {
        ScanStepLemma(recs, i, active, reader, prefix, now);
        var r := ReadRecord(page, i, recs);
        var isActive := r.txn in active;
        if (!isActive || r.txn == reader) && HasPrefix(r.key, prefix) && IsRecordVisible(r.txn, reader, isActive) {
          if Live(r, now) {
            latest := latest[r.key := r.val];
          } else {
            latest := latest - {r.key};
          }
        }
      }
      assert recs[..n] == recs;
      forall k
        ensures (if k in latest then Some(latest[k]) else None) ==
          (if HasPrefix(k, prefix) then ReadSpec(recs, active, reader, k, now) else None)
      {
        ScanIsRead(recs, active, reader, prefix, now, k);
      }
    }

    /** Rebuilds the page from the records worth keeping, in any order. */
    method Compact(now: int)
      requires Valid()
      modifies page, this`recs
      ensures Valid() && Layout(page[..], recs) && Compacted(recs, old(recs), now)
    {
      hide Layout, Keep, Packed, Fits, PartOf;
      ghost var was := recs;
      var m := Collect(now);
      Init(page);
      recs := [];
      HoldsPacked(old(page[..]), was);
      var rest := m;
      PartOfNothing(m);
      while rest != map[]
        invariant Layout(page[..], recs) && nextTxn == old(nextTxn)
        invariant PartOf(recs, m) && Remaining(recs, m, rest)
        decreases |rest|
      {
        var k :| k in rest;
        var r := rest[k];
        KeepKeys(was, now);
        PartOfStep(recs, m, rest, k);
        CompactedFits(recs + [r], was, now);
        KeptFits(was, now, k);
        Append(page, r, recs);
        recs := recs + [r];
        rest := rest - {k};
      }
    }

    method Collect(now: int) returns (m: map<Blob, Rec>)
      requires Valid()
      ensures m == Keep(recs, now)
    {
      hide Layout, Keep, Live;
      HoldsCount(page[..], recs);
      var n := SlotCount(page[..]);
      m := map[];
      KeepNothing(now);
      assert recs[..0] == [];
      for i := 0 to n
        invariant m == Keep(recs[..i], now)
      {
        KeepStepLemma(recs, i, now);
        var r := ReadRecord(page, i, recs);
        if r.key !in m || r.txn > m[r.key].txn {
          if Live(r, now) {
            m := m[r.key := r];
          }
        }
      }
      assert recs[..n] == recs;
    }

    /** Appends a version; the page is compacted when there is no room, and the write refused when there still is
        none.
     */
    method Put(r: Rec, now: int) returns (ok: bool)
      requires Valid() && r.txn < U64 && r.exp < U64
      modifies page, this`recs
      ensures Valid() && Stored(old(recs), recs, r, now, ok)
    {
      hide Layout, Packed, Compacted;
      ghost var before := recs;
      PackedSnoc(recs, r);
      ok := HasRoom(r.Size());
      if !ok {
        Compact(now);
        CompactedNothing(recs, now);
        PackedSnoc(recs, r);
        LayoutPacked(page[..], recs);
        ok := IsSafeForInsert(page, r.Size(), recs);
      }
      if ok {
        SnocFits(recs, r);
        Append(page, r, recs);
        recs := recs + [r];
      }
    }

    method HasRoom(required: nat) returns (safe: bool)
      requires Valid()
      ensures safe <==>
        Layout(page[..], recs) && SLOTTED_HEADER + 4 * (|recs| + 1) + Total(recs) + required <= PAGE_SIZE
    {
      hide Layout, Total, Le;
      if Layout(page[..], recs) {
        LayoutFields(page[..], recs);
      }
      safe := Lower(page[..]) + 4 + required <= Upper(page[..]);
    }

    /** A write by a transaction. */
    method Write(txn: nat, key: Blob, value: Blob, ttl: int, now: int) returns (ok: bool)
      requires Healable() && txn < U64
      modifies page, this`recs
      ensures var r, was := Rec(txn, Expiry(now, ttl), key, value), old(if Layout(page[..], recs) then recs else []);
        && Valid() && Stored(was, recs, r, now, ok)
        && (was == old(recs) && Packed(was + [r]) ==> forall run :: old(After(run)) ==> After(run + [Wrote(r)]))
      ensures ok && 0 <= now ==>
        var end := now + if ttl > 0 then ttl else 3_153_600_000_000_000_000;
        && recs != []
        && (end < 0x8000_0000_0000_0000 ==> recs[|recs| - 1] == Rec(txn, end, key, value))
        && (end < 0x8000_0000_0000_0000 ==>
              forall running: set<nat>, reader: nat, t: int :: txn !in running || txn == reader ==>
                ReadSpec(recs, running, reader, key, t) == if t < end then Some(value) else None)
    {
      hide Layout, Packed, Compacted, RunRecs, RunActive, ReadSpec;
      RunSnoc();
      var upper := Upper(page[..]);
      LayoutUpper(page[..], recs);
      if upper == 0 || upper > PAGE_SIZE {
        Init(page);
        recs := [];
      }
      var r := Rec(txn, Expiry(now, ttl), key, value);
      ghost var was := recs;
      ok := Put(r, now);
      if ok {
        LastRead(was, recs, r, now);
      }
    }

    /** A write replayed by recovery; a page not yet formatted is formatted by the compaction. */
    method RestoreWrite(txn: nat, exp: nat, key: Blob, value: Blob, now: int) returns (ok: bool)
      requires Valid() && txn < U64 && exp < U64
      modifies page, this`recs
      ensures Valid() && Stored(old(recs), recs, Rec(txn, exp, key, value), now, ok)
    {
      hide *;
      ok := Put(Rec(txn, exp, key, value), now);
    }
  }

  /** What was stored last is what is read of its key. */
  lemma LastRead(was: seq<Rec>, recs: seq<Rec>, r: Rec, now: int)
    requires Stored(was, recs, r, now, true)
    ensures recs != [] && recs[|recs| - 1] == r
    ensures forall running: set<nat>, reader: nat, t: int :: r.txn !in running || r.txn == reader ==>
      (r.exp < 0x8000_0000_0000_0000 ==>
         ReadSpec(recs, running, reader, r.key, t) == if t < r.exp then Some(r.val) else None)
  {
    hide ReadSpec, Packed, Compacted;
    var init := recs[..|recs| - 1];
    forall running: set<nat>, reader: nat, t: int | r.txn !in running || r.txn == reader
      ensures r.exp < 0x8000_0000_0000_0000 ==>
        ReadSpec(recs, running, reader, r.key, t) == if t < r.exp then Some(r.val) else None
    {
      ReadUntil(init, r, [], running, reader, t);
      assert init + [r] + [] == recs;
    }
  }

  // --- Steps of the loops -----------------------------------------------------------------

  lemma ZeroPage(d: PageBytes)
    requires forall i :: 0 <= i < PAGE_SIZE ==> d[i] == 0
    ensures Holds(d, [])
  {
    hide Layout;
    var z := d[8..12];
    assert z == [0, 0, 0, 0] && d[12..16] == [0, 0, 0, 0] && d[16..20] == [0, 0, 0, 0];
    assert Le([0, 0, 0, 0]) == 0 by { assert Le([0]) == 0; assert Le([0, 0]) == 0; assert Le([0, 0, 0]) == 0; }
  }

  lemma HoldsCount(d: PageBytes, recs: seq<Rec>)
    requires Holds(d, recs)
    ensures SlotCount(d) == |recs| && (recs != [] ==> Layout(d, recs))
  {
    hide Layout, Le;
    if Layout(d, recs) {
      LayoutFields(d, recs);
    }
  }

  lemma LayoutUpper(d: PageBytes, recs: seq<Rec>)
    ensures Layout(d, recs) ==> 0 < Upper(d) <= PAGE_SIZE
  {
    hide Le, Total, Slots, Heap;
    if Layout(d, recs) {
      LayoutFields(d, recs);
    }
  }

  lemma HoldsPacked(d: PageBytes, recs: seq<Rec>)
    requires Holds(d, recs)
    ensures Packed(recs) && forall i :: 0 <= i < |recs| ==> Fits(recs[i])
  {
    hide Le, Slots, Heap, PutLe, Fits;
  }

  lemma LayoutPacked(d: PageBytes, recs: seq<Rec>)
    requires Layout(d, recs)
    ensures Packed(recs)
  {
  }

  lemma PackedSnoc(recs: seq<Rec>, r: Rec)
    ensures Packed(recs + [r]) <==> SLOTTED_HEADER + 4 * (|recs| + 1) + Total(recs) + r.Size() <= PAGE_SIZE
  {
    assert (recs + [r])[..|recs|] == recs;
  }

  lemma SnocFits(recs: seq<Rec>, r: Rec)
    requires Packed(recs + [r]) && r.txn < U64 && r.exp < U64
    ensures Fits(r)
  {
    PackedSnoc(recs, r);
  }

  lemma ReadNothing(active: set<nat>, reader: nat, key: Blob, now: int)
    ensures ReadSpec([], active, reader, key, now) == None
  {
  }

  lemma ReadStep(recs: seq<Rec>, i: nat, active: set<nat>, reader: nat, key: Blob, now: int)
    requires i < |recs|
    ensures ReadSpec(recs[..i + 1], active, reader, key, now) ==
      if !Sees(recs[i], active, reader, key) then ReadSpec(recs[..i], active, reader, key, now)
      else if Live(recs[i], now) then Some(recs[i].val) else None
  {
    assert recs[..i + 1][..i] == recs[..i];
  }

  lemma ScanNothing(active: set<nat>, reader: nat, prefix: Blob, now: int)
    ensures ScanSpec([], active, reader, prefix, now) == map[]
  {
  }

  lemma ScanStepLemma(recs: seq<Rec>, i: nat, active: set<nat>, reader: nat, prefix: Blob, now: int)
    requires i < |recs|
    ensures ScanSpec(recs[..i + 1], active, reader, prefix, now) ==
      ScanStep(ScanSpec(recs[..i], active, reader, prefix, now), recs[i], active, reader, prefix, now)
  {
    assert recs[..i + 1][..i] == recs[..i];
  }

  lemma KeepNothing(now: int)
    ensures Keep([], now) == map[]
  {
  }

  lemma KeepStepLemma(recs: seq<Rec>, i: nat, now: int)
    requires i < |recs|
    ensures Keep(recs[..i + 1], now) == KeepStep(Keep(recs[..i], now), recs[i], now)
  {
    assert recs[..i + 1][..i] == recs[..i];
  }

  lemma KeepKeys(recs: seq<Rec>, now: int)
    ensures forall k :: k in Keep(recs, now) ==> Keep(recs, now)[k].key == k
  {
    hide Keep, Live;
    forall k | k in Keep(recs, now)
      ensures Keep(recs, now)[k].key == k
    {
      var i := KeepWitness(recs, now, k);
    }
  }

  lemma CompactedNothing(cs: seq<Rec>, now: int)
    ensures Compacted(cs, [], now) ==> cs == []
  {
    if Compacted(cs, [], now) {
      RepackFits(cs, [], now);
    }
  }

  lemma KeptFits(recs: seq<Rec>, now: int, k: Blob)
    requires k in Keep(recs, now) && forall i :: 0 <= i < |recs| ==> Fits(recs[i])
    ensures Fits(Keep(recs, now)[k])
  {
    hide Keep, Fits;
    var i := KeepWitness(recs, now, k);
  }

  /** `rest` is what `m` holds beyond the records of `cs`. */
  ghost predicate Remaining(cs: seq<Rec>, m: map<Blob, Rec>, rest: map<Blob, Rec>) {
    && (forall k :: k in rest ==> k in m && rest[k] == m[k] && forall i :: 0 <= i < |cs| ==> cs[i].key != k)
    && (forall k :: k in m ==> k in rest || exists i :: 0 <= i < |cs| && cs[i].key == k)
  }

  lemma PartOfNothing(m: map<Blob, Rec>)
    ensures PartOf([], m) && Remaining([], m, m)
  {
  }

  lemma PartOfStep(cs: seq<Rec>, m: map<Blob, Rec>, rest: map<Blob, Rec>, k: Blob)
    requires PartOf(cs, m) && Remaining(cs, m, rest) && k in rest && (forall x :: x in m ==> m[x].key == x)
    ensures PartOf(cs + [rest[k]], m) && Remaining(cs + [rest[k]], m, rest - {k})
  {
    var ds := cs + [rest[k]];
    assert ds[|cs|].key == k;
    assert forall i :: 0 <= i < |cs| ==> ds[i] == cs[i];
  }

  // --- Whole runs -------------------------------------------------------------------------

  datatype Event = Begin(txn: nat) | Commit(txn: nat) | Wrote(rec: Rec)

  /** The records and running transactions after a run of begins, commits and writes that met no compaction. */
  function RunRecs(run: seq<Event>): seq<Rec> {
    if run == [] then []
    else
      var e := run[|run| - 1];
      RunRecs(run[..|run| - 1]) + if e.Wrote? then [e.rec] else []
  }

  function RunActive(run: seq<Event>): set<nat> {
    if run == [] then {}
    else
      var e, before := run[|run| - 1], RunActive(run[..|run| - 1]);
      match e
      case Begin(t) => before + {t}
      case Commit(t) => before - {t}
      case Wrote(_) => before
  }

  lemma RunSnoc()
    ensures forall run, e: Event {:trigger run + [e]} ::
      && RunRecs(run + [e]) == (if e.Wrote? then RunRecs(run) + [e.rec] else RunRecs(run))
      && RunActive(run + [e]) == (match e
                                  case Begin(t) => RunActive(run) + {t}
                                  case Commit(t) => RunActive(run) - {t}
                                  case Wrote(_) => RunActive(run))
  {
    forall run, e: Event {:trigger run + [e]}
      ensures RunRecs(run + [e]) == (if e.Wrote? then RunRecs(run) + [e.rec] else RunRecs(run))
      ensures RunActive(run + [e]) == (match e
                                       case Begin(t) => RunActive(run) + {t}
                                       case Commit(t) => RunActive(run) - {t}
                                       case Wrote(_) => RunActive(run))
    {
      assert (run + [e])[..|run|] == run;
      assert RunRecs(run) + [] == RunRecs(run);
    }
  }

  /** The transaction began and has not committed since. */
  ghost predicate Running(run: seq<Event>, t: nat) {
    exists b :: 0 <= b < |run| && run[b] == Begin(t) && forall c :: b < c < |run| ==> run[c] != Commit(t)
  }

  lemma {:induction false} RunningIsActive(run: seq<Event>, t: nat)
    ensures t in RunActive(run) <==> Running(run, t)
  {
    if run != [] {
      var n := |run| - 1;
      var before := run[..n];
      RunningIsActive(before, t);
      if run[n] == Begin(t) {
        assert Running(run, t);
      } else if run[n] != Commit(t) {
        if b :| 0 <= b < |before| && before[b] == Begin(t) && forall c :: b < c < |before| ==> before[c] != Commit(t) {
          assert run[b] == Begin(t);
          assert forall c :: b < c < |run| ==> run[c] != Commit(t);
        }
        if b :| 0 <= b < |run| && run[b] == Begin(t) && forall c :: b < c < |run| ==> run[c] != Commit(t) {
          assert before[b] == Begin(t);
          assert forall c :: b < c < |before| ==> before[c] == run[c];
        }
      }
    }
  }

  /** A write to `key` by the reader or by a transaction that is over. */
  ghost predicate Counts(run: seq<Event>, end: seq<Event>, i: int, reader: nat, key: Blob) {
    && 0 <= i < |run| && run[i].Wrote? && run[i].rec.key == key
    && (run[i].rec.txn == reader || !Running(end, run[i].rec.txn))
  }

  ghost predicate LastCounting(run: seq<Event>, end: seq<Event>, i: int, reader: nat, key: Blob) {
    Counts(run, end, i, reader, key) && forall j :: i < j < |run| ==> !Counts(run, end, j, reader, key)
  }

  lemma {:induction false} RunReadFinds(run: seq<Event>, end: seq<Event>, i: int, reader: nat, key: Blob, now: int)
    requires LastCounting(run, end, i, reader, key)
    ensures ReadSpec(RunRecs(run), RunActive(end), reader, key, now) ==
      if Live(run[i].rec, now) then Some(run[i].rec.val) else None
    decreases |run|
  {
    hide RunActive, Running, Live;
    var n := |run| - 1;
    var e, init := run[n], RunRecs(run[..n]);
    if e.Wrote? {
      assert (init + [e.rec])[..|init|] == init;
      RunningIsActive(end, e.rec.txn);
    } else {
      assert init + [] == init;
    }
    if i < n {
      assert !Counts(run, end, n, reader, key);
      assert forall j :: 0 <= j < n ==> Counts(run[..n], end, j, reader, key) == Counts(run, end, j, reader, key);
      RunReadFinds(run[..n], end, i, reader, key, now);
    }
  }

  lemma {:induction false} RunReadNothing(run: seq<Event>, end: seq<Event>, reader: nat, key: Blob, now: int)
    requires forall j :: !Counts(run, end, j, reader, key)
    ensures ReadSpec(RunRecs(run), RunActive(end), reader, key, now) == None
    decreases |run|
  {
    hide RunActive, Running, Live;
    if run != [] {
      var n := |run| - 1;
      var e, init := run[n], RunRecs(run[..n]);
      if e.Wrote? {
        assert (init + [e.rec])[..|init|] == init;
        RunningIsActive(end, e.rec.txn);
      } else {
        assert init + [] == init;
      }
      assert !Counts(run, end, n, reader, key);
      assert forall j :: 0 <= j < n ==> Counts(run[..n], end, j, reader, key) == Counts(run, end, j, reader, key);
      RunReadNothing(run[..n], end, reader, key, now);
    }
  }

  /** In every run, a read returns `v` exactly when the latest write to the key by the reader or by a transaction
      that is over has not expired and wrote `v`.
   */
  lemma ReadIsLatestWrite(run: seq<Event>, reader: nat, key: Blob, now: int, v: Blob)
    ensures ReadSpec(RunRecs(run), RunActive(run), reader, key, now) == Some(v) <==>
      exists i :: LastCounting(run, run, i, reader, key) && Live(run[i].rec, now) && run[i].rec.val == v
  {
    hide ReadSpec, RunRecs, RunActive, Running, Live;
    if j :| Counts(run, run, j, reader, key) {
      var i := LastCountingFrom(run, run, j, reader, key);
      RunReadFinds(run, run, i, reader, key, now);
    } else {
      RunReadNothing(run, run, reader, key, now);
    }
  }

  lemma {:induction false} LastCountingFrom(run: seq<Event>, end: seq<Event>, j: int, reader: nat, key: Blob)
    returns (i: int)
    requires Counts(run, end, j, reader, key)
    ensures LastCounting(run, end, i, reader, key)
    decreases |run| - j
  {
    hide Running;
    i := j;
    if !LastCounting(run, end, j, reader, key) {
      var k :| j < k < |run| && Counts(run, end, k, reader, key);
      i := LastCountingFrom(run, end, k, reader, key);
    }
  }

  /** In every run, from a write by the reader or a transaction that is over until the next write to the key, the
      value is read until its end of life and not after.
   */
  lemma WriteIsRead(run: seq<Event>, i: nat, reader: nat, t: int)
    requires i < |run| && run[i].Wrote? && run[i].rec.exp < 0x8000_0000_0000_0000
    requires run[i].rec.txn == reader || !Running(run, run[i].rec.txn)
    requires forall j :: i < j < |run| && run[j].Wrote? ==> run[j].rec.key != run[i].rec.key
    ensures ReadSpec(RunRecs(run), RunActive(run), reader, run[i].rec.key, t)
         == if t < run[i].rec.exp then Some(run[i].rec.val) else None
  {
    hide ReadSpec, RunRecs, RunActive, Running;
    RunReadFinds(run, run, i, reader, run[i].rec.key, t);
  }
}
