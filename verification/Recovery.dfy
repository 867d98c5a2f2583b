/** The three recovery passes over the bytes of the log file. */
module Recovery {
  import opened Wrappers
  import opened Bytes
  import opened Wal
  import opened RecoveryModel
  import opened RecoveryPages
  import P = SlottedPage
  import S = SlottedDb

  // --- Reading a whole file ---------------------------------------------------------------

  datatype LogResult = Damaged | Intact(log: seq<Entry>)

  /** All entries from `off` on; any short, unreadable or wrongly summed frame spoils the file. */
  function ParseFrom(crc: Blob -> nat, file: Blob, off: nat): LogResult
    decreases |file| - off
  {
    match ReadAt(file, off)
    case Eof => Intact([])
    case Corrupt => Damaged
    case Got(e) =>
      if !ChecksumOk(crc, file, off, e) then Damaged
      else match ParseFrom(crc, file, off + e.Size())
        case Damaged => Damaged
        case Intact(rest) => Intact([e] + rest)
  }

  function Prepend(done: seq<Entry>, r: LogResult): LogResult {
    match r case Damaged => Damaged case Intact(log) => Intact(done + log)
  }

  /** Reading at an entry's offset returns the entry. */
  lemma FrameRead(crc: Blob -> nat, log: seq<Entry>, i: nat)
    requires AllFit(log) && i < |log|
    ensures WellFormed(log) ==> log[i].lsn == Offset(log, i)
    ensures ReadAt(Frames(crc, log), Offset(log, i)) == Got(log[i])
    ensures Offset(log, i) + log[i].Size() == Offset(log, i + 1)
    ensures Offset(log, i) + log[i].Size() <= |Frames(crc, log)|
    ensures ChecksumOk(crc, Frames(crc, log), Offset(log, i), log[i])
  {
    hide Frames, Frame, Fits, PrevOf, ReadAt, ChecksumOk, At;
    FrameAt(crc, log, i);
    ReadFrame(crc, Frames(crc, log), Offset(log, i), log[i]);
  }

  lemma EndRead(crc: Blob -> nat, log: seq<Entry>)
    ensures ReadAt(Frames(crc, log), Offset(log, |log|)) == Eof
  {
    hide Frames, Offset;
    FramesSize(crc, log);
    AtEof(Frames(crc, log));
  }

  /** Reading back a written log returns what was appended. */
  lemma {:induction false} ParseFrames(crc: Blob -> nat, log: seq<Entry>, i: nat)
    requires AllFit(log) && i <= |log|
    ensures ParseFrom(crc, Frames(crc, log), Offset(log, i)) == Intact(log[i..])
    decreases |log| - i
  {
    hide Frames, WellFormed, ReadAt, ChecksumOk, Offset;
    if i < |log| {
      FrameRead(crc, log, i);
      ParseFrames(crc, log, i + 1);
      assert log[i..] == [log[i]] + log[i + 1..];
    } else {
      EndRead(crc, log);
      assert log[i..] == [];
    }
  }

  lemma AtEof(file: Blob)
    ensures ReadAt(file, |file|) == Eof
  {
  }

  /** What is accepted is a sequence of frames. */
  lemma {:induction false} AcceptedIsFrames(crc: Blob -> nat, file: Blob, off: nat, done: seq<Entry>)
    requires off <= |file| && file[..off] == Frames(crc, done) && ParseFrom(crc, file, off).Intact?
    requires AllFit(done)
    ensures var log := done + ParseFrom(crc, file, off).log;
      file == Frames(crc, log) && AllFit(log)
    decreases |file| - off
  {
    hide Frames, Frame, Fits, ReadAt, ChecksumOk;
    ReadBounds(file, off);
    if off >= |file| {
      assert file[..off] == file && done + [] == done;
    } else {
      var e := ReadAt(file, off).entry;
      ReadIsFrame(crc, file, off, e);
      var next := off + e.Size();
      assert file[..next] == file[..off] + file[off..next];
      FramesSnoc(crc, done, e);
      AcceptedIsFrames(crc, file, next, done + [e]);
      ConcatAssoc(done, [e], ParseFrom(crc, file, next).log);
    }
  }

  /** The analysis accepts a file if and only if it is the frames of some entries, each with the checksum of its other
      bytes, and then reads those.
   */
  lemma AcceptsExactly(crc: Blob -> nat, file: Blob, log: seq<Entry>)
    ensures ParseFrom(crc, file, 0) == Intact(log) <==>
      file == Frames(crc, log) && AllFit(log)
  {
    hide Frames, Fits, ParseFrom, Offset;
    if ParseFrom(crc, file, 0) == Intact(log) {
      EmptyLog(crc);
      AcceptedIsFrames(crc, file, 0, []);
      assert [] + log == log;
    }
    if file == Frames(crc, log) && AllFit(log) {
      StartsAtZero(log);
      ParseFrames(crc, log, 0);
      assert log[0..] == log;
    }
  }

  /** The file is the frames of some entries. */
  ghost predicate Written(crc: Blob -> nat, file: Blob) {
    exists log :: AllFit(log) && file == Frames(crc, log)
  }

  lemma AcceptedIff(crc: Blob -> nat, file: Blob)
    ensures ParseFrom(crc, file, 0).Intact? <==> Written(crc, file)
  {
    hide Frames, AllFit, ParseFrom;
    if ParseFrom(crc, file, 0).Intact? {
      AcceptsExactly(crc, file, ParseFrom(crc, file, 0).log);
    } else if log :| AllFit(log) && file == Frames(crc, log) {
      AcceptsExactly(crc, file, log);
    }
  }

  lemma StartsAtZero(log: seq<Entry>)
    ensures Offset(log, 0) == 0
  {
  }

  /** A frame behind intact ones whose first four bytes are not the checksum of the others spoils the file. */
  lemma DamagedFrame(crc: Blob -> nat, log: seq<Entry>, sum: Blob, e: Entry, rest: Blob)
    requires AllFit(log) && Fits(e) && |sum| == 4 && sum != PutLe(crc(Body(e)), 4)
    ensures ParseFrom(crc, Frames(crc, log) + (sum + Body(e) + rest), 0) == Damaged
  {
    hide Frames, Fits, Body, Offset;
    var file := Frames(crc, log) + (sum + Body(e) + rest);
    DamagedFrom(crc, log, 0, sum, e, rest);
    StartsAtZero(log);
  }

  lemma {:induction false} DamagedFrom(crc: Blob -> nat, log: seq<Entry>, i: nat, sum: Blob, e: Entry, rest: Blob)
    requires i <= |log| && AllFit(log) && Fits(e)
    requires |sum| == 4 && sum != PutLe(crc(Body(e)), 4)
    ensures ParseFrom(crc, Frames(crc, log) + (sum + Body(e) + rest), Offset(log, i)) == Damaged
    decreases |log| - i
  {
    hide Frames, Frame, Fits, ReadAt, ChecksumOk, Offset, Body, At;
    var frames, bad := Frames(crc, log), sum + Body(e) + rest;
    if i < |log| {
      DamagedFrom(crc, log, i + 1, sum, e, rest);
      FrameAt(crc, log, i);
      AtExtend(frames, bad, Offset(log, i), Frame(crc, log[i]));
      ReadFrame(crc, frames + bad, Offset(log, i), log[i]);
      NextOffset(log, i);
    } else {
      FramesSize(crc, log);
      BadFrame(crc, frames, sum, e, rest);
    }
  }

  lemma NextOffset(log: seq<Entry>, i: nat)
    requires i < |log|
    ensures Offset(log, i) + log[i].Size() == Offset(log, i + 1)
  {
  }

  lemma BadFrame(crc: Blob -> nat, pre: Blob, sum: Blob, e: Entry, rest: Blob)
    requires Fits(e) && |sum| == 4 && sum != PutLe(crc(Body(e)), 4)
    ensures var file := pre + (sum + Body(e) + rest);
      ReadAt(file, |pre|) == Got(e) && |pre| + e.Size() <= |file| && !ChecksumOk(crc, file, |pre|, e)
  {
    hide ReadAt, Body, PutLe, Fits;
    var file, off := pre + (sum + Body(e) + rest), |pre|;
    assert file[off + 4..off + e.Size()] == Body(e) && file[off..off + 4] == sum;
    ReadOfBody(file, off, e);
  }

  // --- Analysis ---------------------------------------------------------------------------

  predicate Tracks(e: Entry) { e.kind == BEGIN || e.kind == UPDATE || e.kind == CLR }

  /** The transactions without an end, with the LSN of their latest begin, update or compensation. */
  function Active(log: seq<Entry>): map<nat, nat> {
    if log == [] then map[]
    else
      var m, e := Active(log[..|log| - 1]), log[|log| - 1];
      if Tracks(e) then m[e.txn := e.lsn] else if e.IsEnd() then m - {e.txn} else m
  }

  /** Scans the file forward; on a damaged file the pass fails. */
  method Analysis(crc: Blob -> nat, file: Blob) returns (ok: bool, active: map<nat, nat>)
    ensures match ParseFrom(crc, file, 0)
            case Damaged => !ok
            case Intact(log) => ok && active == Active(log)
    ensures ok <==> Written(crc, file)
  {
    hide ReadAt, ChecksumOk, Written;
    AcceptedIff(crc, file);
    active := map[];
    var off := 0;
    ghost var done: seq<Entry> := [];
    PrependNone(ParseFrom(crc, file, 0));
    while true
      invariant ParseFrom(crc, file, 0) == Prepend(done, ParseFrom(crc, file, off))
      invariant active == Active(done)
      decreases |file| - off
    {
      var r := ReadAt(file, off);
      ReadBounds(file, off);
      if r.Eof? {
        assert done + [] == done;
        return true, active;
      }
      if r.Corrupt? {
        return false, map[];
      }
      var e := r.entry;
      if !ChecksumOk(crc, file, off, e) {
        return false, map[];
      }
      PrependMore(done, e, ParseFrom(crc, file, off + e.Size()));
      ActiveStep(done, e);
      if e.kind == BEGIN || e.kind == UPDATE || e.kind == CLR {
        active := active[e.txn := e.lsn];
      } else if e.kind == COMMIT || e.kind == ABORT {
        active := active - {e.txn};
      }
      done := done + [e];
      off := off + e.Size();
    }
  }

  lemma ReadBounds(file: Blob, off: nat)
    ensures ReadAt(file, off).Got? ==>
      off + ReadAt(file, off).entry.Size() <= |file| && ReadAt(file, off).entry.Size() > 0
    ensures ReadAt(file, off).Eof? <==> off >= |file|
  {
    hide Le;
  }

  lemma PrependNone(r: LogResult)
    ensures Prepend([], r) == r
  {
    if r.Intact? {
      assert [] + r.log == r.log;
    }
  }

  lemma PrependMore(done: seq<Entry>, e: Entry, r: LogResult)
    ensures Prepend(done, match r case Damaged => Damaged case Intact(rest) => Intact([e] + rest))
      == Prepend(done + [e], r)
  {
    if r.Intact? {
      assert done + ([e] + r.log) == (done + [e]) + r.log;
    }
  }

  lemma ActiveStep(log: seq<Entry>, e: Entry)
    ensures Active(log + [e])
         == if Tracks(e) then Active(log)[e.txn := e.lsn] else if e.IsEnd() then Active(log) - {e.txn} else Active(log)
  {
    Unsnoc(log, e);
  }

  // --- Chains -----------------------------------------------------------------------------

  lemma {:induction false} EndsNever(t: nat, rest: seq<Entry>)
    ensures Ends(t, rest).Never? <==> forall j :: 0 <= j < |rest| ==> !(rest[j].txn == t && rest[j].IsEnd())
  {
    if rest != [] {
      EndsNever(t, rest[1..]);
      assert forall j :: 1 <= j < |rest| ==> rest[j] == rest[1..][j - 1];
    }
  }

  /** An entry is open when its transaction has no end from there on. */
  lemma OpenIff(log: seq<Entry>, i: nat)
    requires i < |log|
    ensures Open(log, i) <==> forall j :: i <= j < |log| && log[j].txn == log[i].txn ==> !log[j].IsEnd()
  {
    hide Ends;
    var rest := log[i + 1..];
    EndsNever(log[i].txn, rest);
    if forall j :: i <= j < |log| && log[j].txn == log[i].txn ==> !log[j].IsEnd() {
      assert forall j :: 0 <= j < |rest| ==> rest[j] == log[i + 1 + j];
    } else {
      var j :| i <= j < |log| && log[j].txn == log[i].txn && log[j].IsEnd();
      if j > i {
        assert rest[j - i - 1] == log[j];
      }
    }
  }

  /** The latest entry of a transaction before `n`. */
  ghost predicate Latest(log: seq<Entry>, n: nat, t: nat, k: nat) {
    k < n <= |log| && log[k].txn == t && forall j :: k < j < n ==> log[j].txn != t
  }

  /** What the back pointer table says. */
  lemma {:induction false} PrevMeaning(log: seq<Entry>, n: nat, t: nat)
    requires n <= |log|
    ensures t in PrevMap(log[..n]) ==>
              exists k: nat :: Latest(log, n, t, k) && !log[k].IsEnd() && log[k].lsn == PrevMap(log[..n])[t]
    ensures t !in PrevMap(log[..n]) ==> forall k: nat :: Latest(log, n, t, k) ==> log[k].IsEnd()
    decreases n
  {
    if n > 0 {
      PrevMeaning(log, n - 1, t);
      assert log[..n][..n - 1] == log[..n - 1];
      if log[n - 1].txn == t {
        assert Latest(log, n, t, n - 1);
      } else if t in PrevMap(log[..n]) {
        var k: nat :| Latest(log, n - 1, t, k) && !log[k].IsEnd() && log[k].lsn == PrevMap(log[..n - 1])[t];
        assert Latest(log, n, t, k);
      } else {
        forall k: nat | Latest(log, n, t, k)
          ensures log[k].IsEnd()
        {
          assert Latest(log, n - 1, t, k);
        }
      }
    }
  }

  /** The latest entry of a transaction that analysis tracks or that ends it. */
  ghost predicate LatestTracked(log: seq<Entry>, n: nat, t: nat, k: nat) {
    && k < n <= |log| && log[k].txn == t && (Tracks(log[k]) || log[k].IsEnd())
    && forall j :: k < j < n && log[j].txn == t ==> !Tracks(log[j]) && !log[j].IsEnd()
  }

  lemma {:induction false} ActiveMeaning(log: seq<Entry>, n: nat, t: nat)
    requires n <= |log|
    ensures t in Active(log[..n]) ==>
              exists k: nat :: LatestTracked(log, n, t, k) && Tracks(log[k]) && log[k].lsn == Active(log[..n])[t]
    ensures t !in Active(log[..n]) ==> forall k: nat :: LatestTracked(log, n, t, k) ==> log[k].IsEnd()
    decreases n
  {
    if n > 0 {
      ActiveMeaning(log, n - 1, t);
      assert log[..n][..n - 1] == log[..n - 1];
      var e := log[n - 1];
      if e.txn == t && (Tracks(e) || e.IsEnd()) {
        assert LatestTracked(log, n, t, n - 1);
      } else if t in Active(log[..n]) {
        var k: nat :| LatestTracked(log, n - 1, t, k) && Tracks(log[k]) && log[k].lsn == Active(log[..n - 1])[t];
        assert LatestTracked(log, n, t, k);
      } else {
        forall k: nat | LatestTracked(log, n, t, k)
          ensures log[k].IsEnd()
        {
          assert LatestTracked(log, n - 1, t, k);
        }
      }
    }
  }

  /** The position in a loser's chain: an open entry, with no open update of the loser between it and `bound`. */
  ghost predicate ChainPos(log: seq<Entry>, t: nat, lsn: nat, bound: nat, i: nat) {
    && i < bound <= |log| && log[i].lsn == lsn && log[i].txn == t && Open(log, i)
    && forall j :: i < j < bound && log[j].txn == t && log[j].IsUpdate() ==> !Open(log, j)
  }

  /** The loser table when all open updates from `bound` on are undone. */
  ghost predicate ChainState(log: seq<Entry>, active: map<nat, nat>, bound: nat) {
    && bound <= |log|
    && (forall t :: t in active ==> exists i: nat :: ChainPos(log, t, active[t], bound, i))
    && (forall j :: 1 <= j < bound && log[j].IsUpdate() && Open(log, j) ==> log[j].txn in active)
  }

  /** An entry followed by no tracked entry and no end of its transaction. */
  lemma OpenTail(log: seq<Entry>, t: nat, k: nat)
    requires LatestTracked(log, |log|, t, k) && Tracks(log[k])
    ensures ChainPos(log, t, log[k].lsn, |log|, k)
  {
    hide Open;
    OpenIff(log, k);
  }

  /** Analysis finds the head of every loser's chain. */
  lemma AnalysisFindsLosers(log: seq<Entry>)
    ensures ChainState(log, Active(log), |log|)
  {
    hide Active, Open;
    assert log[..|log|] == log;
    forall t | t in Active(log)
      ensures exists i: nat :: ChainPos(log, t, Active(log)[t], |log|, i)
    {
      ActiveMeaning(log, |log|, t);
      var k: nat :| LatestTracked(log, |log|, t, k) && Tracks(log[k]) && log[k].lsn == Active(log)[t];
      OpenTail(log, t, k);
    }
    forall j | 1 <= j < |log| && log[j].IsUpdate() && Open(log, j)
      ensures log[j].txn in Active(log)
    {
      OpenIff(log, j);
      var t := log[j].txn;
      ActiveMeaning(log, |log|, t);
      var k := LastTracked(log, t, j, |log|);
    }
  }

  lemma {:induction false} LastTracked(log: seq<Entry>, t: nat, j: nat, n: nat) returns (k: nat)
    requires j < n <= |log| && log[j].txn == t && Tracks(log[j])
    ensures LatestTracked(log, n, t, k) && k >= j
    decreases n
  {
    if log[n - 1].txn == t && (Tracks(log[n - 1]) || log[n - 1].IsEnd()) {
      k := n - 1;
    } else {
      k := LastTracked(log, t, j, n - 1);
    }
  }

  /** The back pointer of an open entry leads to the next older open entry of its transaction. */
  lemma ChainBack(log: seq<Entry>, i: nat)
    requires WellFormed(log) && i < |log| && Open(log, i)
    ensures log[i].prev != 0 ==> exists k: nat :: ChainPos(log, log[i].txn, log[i].prev, i, k)
    ensures log[i].prev == 0 ==>
              forall j :: 1 <= j < i && log[j].txn == log[i].txn && log[j].IsUpdate() ==> !Open(log, j)
  {
    hide PrevMap, Open, Fits;
    var t := log[i].txn;
    OpenIff(log, i);
    PrevMeaning(log, i, t);
    if t in PrevMap(log[..i]) {
      var k: nat :| Latest(log, i, t, k) && !log[k].IsEnd() && log[k].lsn == PrevMap(log[..i])[t];
      OpenIff(log, k);
      assert ChainPos(log, t, log[i].prev, i, k);
      if k > 0 {
        OffsetGrows(log, 0, k);
      }
    } else {
      forall j | 1 <= j < i && log[j].txn == t && log[j].IsUpdate()
        ensures !Open(log, j)
      {
        OpenIff(log, j);
        var k := LatestFrom(log, t, j, i);
      }
    }
  }

  lemma {:induction false} LatestFrom(log: seq<Entry>, t: nat, j: nat, n: nat) returns (k: nat)
    requires j < n <= |log| && log[j].txn == t
    ensures Latest(log, n, t, k) && k >= j
    decreases n
  {
    if log[n - 1].txn == t {
      k := n - 1;
    } else {
      k := LatestFrom(log, t, j, n - 1);
    }
  }

  lemma {:induction false} UndoSkip(s: Files, log: seq<Entry>, a: nat, b: nat)
    requires a <= b <= |log|
    requires forall j :: a <= j < b && log[j].IsUpdate() ==> !Open(log, j)
    ensures UndoFiles(s, log, a) == UndoFiles(s, log, b)
    decreases b - a
  {
    hide Open;
    if a < b {
      UndoSkip(s, log, a + 1, b);
    }
  }

  lemma SameLsn(log: seq<Entry>, i: nat, j: nat)
    requires WellFormed(log) && i < |log| && j < |log| && log[i].lsn <= log[j].lsn
    ensures i <= j
  {
    hide Fits, PrevOf;
    if j < i {
      OffsetGrows(log, j, i);
    }
  }

  /** The highest LSN in the table stands for the newest open update that is left. */
  lemma NoneAbove(log: seq<Entry>, active: map<nat, nat>, bound: nat, t: nat, i: nat)
    requires WellFormed(log) && ChainState(log, active, bound) && t in active
    requires ChainPos(log, t, active[t], bound, i)
    requires forall u :: u in active ==> active[u] <= active[t]
    ensures forall j :: 1 <= j && i < j < bound && log[j].IsUpdate() ==> !Open(log, j)
  {
    hide Open, WellFormed;
    forall j | 1 <= j && i < j < bound && log[j].IsUpdate()
      ensures !Open(log, j)
    {
      if Open(log, j) {
        var u := log[j].txn;
        var k: nat :| ChainPos(log, u, active[u], bound, k);
        SameLsn(log, k, i);
      }
    }
  }

  /** The open updates from `bound` on, newest first, each once. */
  ghost predicate Visited(log: seq<Entry>, visited: seq<nat>, bound: nat) {
    && (forall a, b :: 0 <= a < b < |visited| ==> visited[a] > visited[b])
    && (forall i :: i in visited <==> bound <= i < |log| && log[i].IsUpdate() && Open(log, i))
  }

  /** One round of the undo loop. */
  lemma UndoRound(s: Files, log: seq<Entry>, active: map<nat, nat>, bound: nat, t: nat, i: nat, visited: seq<nat>)
    requires WellFormed(log) && ChainState(log, active, bound) && t in active && active[t] > 0
    requires ChainPos(log, t, active[t], bound, i) && Visited(log, visited, bound)
    requires forall u :: u in active ==> active[u] <= active[t]
    ensures 1 <= i
    ensures var d, e := UndoFiles(s, log, bound), log[i];
      UndoFiles(s, log, i) == if e.IsUpdate() then Restore(d, e.page, t, e.key, e.before) else d
    ensures ChainState(log, if log[i].prev == 0 then active - {t} else active[t := log[i].prev], i)
    ensures Visited(log, if log[i].IsUpdate() then visited + [i] else visited, i)
  {
    hide Open, UndoFiles, WellFormed, Restore, Visited;
    LsnPositive(log, i);
    NoneAbove(log, active, bound, t, i);
    UndoSkip(s, log, i + 1, bound);
    UndoStep(s, log, i);
    VisitedStep(log, visited, bound, i);
    ChainBack(log, i);
    var active' := if log[i].prev == 0 then active - {t} else active[t := log[i].prev];
    forall u | u in active' && u != t
      ensures exists k: nat :: ChainPos(log, u, active'[u], i, k)
    {
      var k: nat :| ChainPos(log, u, active[u], bound, k);
      SameLsn(log, k, i);
      assert ChainPos(log, u, active'[u], i, k);
    }
  }

  lemma VisitedStep(log: seq<Entry>, visited: seq<nat>, bound: nat, i: nat)
    requires Visited(log, visited, bound) && 1 <= i < bound <= |log| && Open(log, i)
    requires forall j :: 1 <= j && i < j < bound && log[j].IsUpdate() ==> !Open(log, j)
    ensures Visited(log, if log[i].IsUpdate() then visited + [i] else visited, i)
  {
    hide Open;
    var next := if log[i].IsUpdate() then visited + [i] else visited;
    forall x
      ensures x in next <==> i <= x < |log| && log[x].IsUpdate() && Open(log, x)
    {
      assert x in next <==> x in visited || (log[i].IsUpdate() && x == i);
    }
    forall a, b | 0 <= a < b < |next|
      ensures next[a] > next[b]
    {
      assert next[a] == visited[a] && visited[a] in visited;
      assert b < |visited| ==> next[b] == visited[b];
    }
  }

  lemma VisitedNone(log: seq<Entry>)
    ensures Visited(log, [], |log|)
  {
  }

  lemma LsnPositive(log: seq<Entry>, i: nat)
    requires WellFormed(log) && i < |log| && log[i].lsn > 0
    ensures i > 0
  {
  }

  lemma UndoStep(s: Files, log: seq<Entry>, b: nat)
    requires b < |log|
    ensures var above, e := UndoFiles(s, log, b + 1), log[b];
      UndoFiles(s, log, b)
      == if Open(log, b) && e.IsUpdate() then Restore(above, e.page, e.txn, e.key, e.before) else above
  {
    hide Open;
  }

  /** Undo stops before an entry at offset 0. */
  function First(log: seq<Entry>): nat { if |log| == 0 then 0 else 1 }

  /** When only LSN 0 is left in the table, every open update but one at offset 0 is undone. */
  lemma UndoFinished(s: Files, log: seq<Entry>, active: map<nat, nat>, bound: nat, visited: seq<nat>)
    requires WellFormed(log) && ChainState(log, active, bound) && (|log| > 0 ==> bound >= 1)
      && Visited(log, visited, bound)
    requires forall u :: u in active ==> active[u] == 0
    ensures UndoFiles(s, log, bound) == UndoFiles(s, log, First(log)) && Visited(log, visited, First(log))
    ensures forall u :: u in active ==> |log| > 0 && u == log[0].txn
  {
    hide Open, UndoFiles, WellFormed;
    forall j | 1 <= j < bound && log[j].IsUpdate()
      ensures !Open(log, j)
    {
      if Open(log, j) {
        var u := log[j].txn;
        var k: nat :| ChainPos(log, u, active[u], bound, k);
        AtStart(log, k);
      }
    }
    forall u | u in active
      ensures |log| > 0 && u == log[0].txn
    {
      var k: nat :| ChainPos(log, u, active[u], bound, k);
      AtStart(log, k);
    }
    if |log| > 0 {
      UndoSkip(s, log, 1, bound);
    }
  }

  lemma AtStart(log: seq<Entry>, k: nat)
    requires WellFormed(log) && k < |log| && log[k].lsn == 0
    ensures k == 0
  {
    hide Fits, PrevOf;
  }

  // --- The passes -------------------------------------------------------------------------

  class Database {
    /** The records of each page, and the transactions taken to be running. */
    var files: Files
    var activeTxns: set<nat>

    constructor (files: Files)
      ensures this.files == files && activeTxns == {}
    {
      this.files, activeTxns := files, {};
    }

    /** Appends a record that does not expire, to a page with room for it. */
    method RestoreWrite(txn: nat, page: nat, key: Blob, value: Blob)
      modifies this`files
      ensures files == Restore(old(files), page, txn, key, value)
    {
      files := files[page := On(files, page) + [P.Rec(txn, NEVER, key, value)]];
    }
  }

  /** Repeats history: writes every after-image, in log order. */
  method RedoPass(db: Database, file: Blob, ghost crc: Blob -> nat, ghost log: seq<Entry>) returns (ok: bool)
    requires WellFormed(log) && file == Frames(crc, log)
    modifies db`files
    ensures ok && db.files == RedoFiles(old(db.files), log)
  {
    hide Frames, WellFormed, ReadAt, ChecksumOk, RedoFiles, Offset, Restore;
    ghost var s := db.files;
    ghost var i: nat := 0;
    var off := 0;
    RedoStart(s, log);
    while true
      invariant i <= |log| && off == Offset(log, i)
      invariant db.files == RedoFiles(s, log[..i])
      decreases |log| - i
    {
      if i < |log| {
        WellFormedFits(log);
        FrameRead(crc, log, i);
      } else {
        EndRead(crc, log);
      }
      var r := ReadAt(file, off);
      if r.Eof? {
        break;
      }
      if r.Corrupt? {
        assert false;
      }
      var e := r.entry;
      RedoNext(s, log, i);
      if e.kind == UPDATE || e.kind == CLR {
        db.RestoreWrite(0, e.page, e.key, e.after);
      }
      off, i := off + e.Size(), i + 1;
    }
    assert log[..i] == log;
    ok := true;
  }

  lemma RedoStart(s: Files, log: seq<Entry>)
    ensures RedoFiles(s, log[..0]) == s && Offset(log, 0) == 0
  {
  }

  lemma RedoNext(s: Files, log: seq<Entry>, i: nat)
    requires i < |log|
    ensures var d, e := RedoFiles(s, log[..i]), log[i];
      RedoFiles(s, log[..i + 1]) == if e.IsWrite() then Restore(d, e.page, 0, e.key, e.after) else d
  {
    hide Restore;
    assert log[..i + 1][..i] == log[..i];
  }

  /** The table entry with the highest LSN; several with LSN 0 may compete. */
  method HighestLsn(active: map<nat, nat>) returns (t: nat, lsn: nat)
    ensures forall u :: u in active ==> active[u] <= lsn
    ensures active != map[] ==> t in active && active[t] == lsn
  {
    t, lsn := 0, 0;
    var todo := active.Keys;
    while todo != {}
      invariant todo <= active.Keys
      invariant forall u :: u in active && u !in todo ==> active[u] <= lsn
      invariant (todo == active.Keys && lsn == 0) || (t in active && active[t] == lsn)
      decreases todo
    {
      var u :| u in todo;
      if active[u] >= lsn {
        t, lsn := u, active[u];
      }
      todo := todo - {u};
    }
    if active != map[] {
      assert active.Keys != {};
    }
  }

  /** Rolls the losers back along their chains until the table is empty or holds nothing but LSN 0. The updates undone,
      `visited`, are exactly the losers' updates except one at offset 0, in strictly falling order. Transactions left in
      the table have none of them.
   */
  method UndoPass(db: Database, file: Blob, losers: map<nat, nat>, ghost crc: Blob -> nat, ghost log: seq<Entry>)
    returns (ok: bool, left: map<nat, nat>, ghost visited: seq<nat>)
    requires WellFormed(log) && file == Frames(crc, log) && ChainState(log, losers, |log|)
    modifies db`files
    ensures ok && Visited(log, visited, First(log))
    ensures db.files == UndoFiles(old(db.files), log, First(log))
    ensures forall t :: t in left ==> |log| > 0 && t == log[0].txn
    ensures forall i :: i in visited ==> log[i].txn !in left
  {
    hide Frames, ReadAt, ChecksumOk, Offset, UndoFiles, Open, WellFormed, ChainState, ChainPos, Visited, Restore;
    ghost var s := db.files;
    ghost var bound: nat := |log|;
    left, visited := losers, [];
    UndoNone(s, log);
    VisitedNone(log);
    while left != map[]
      invariant bound <= |log| && (|log| > 0 ==> bound >= 1)
      invariant ChainState(log, left, bound) && Visited(log, visited, bound)
      invariant db.files == UndoFiles(s, log, bound)
      invariant forall t :: t in left ==> t in losers && (left[t] == 0 <==> losers[t] == 0)
      invariant forall i :: i in visited ==> i < |log| && log[i].txn in losers && losers[log[i].txn] > 0
      decreases bound
    {
      var t, lsn := HighestLsn(left);
      if lsn == 0 {
        break;
      }
      ghost var i := PosOf(log, left, bound, t);
      WellFormedFits(log);
      FrameRead(crc, log, i);
      var r := ReadAt(file, lsn);
      var e := r.entry;
      UndoRound(s, log, left, bound, t, i, visited);
      if e.kind == UPDATE {
        db.RestoreWrite(t, e.page, e.key, e.before);
        visited := visited + [i];
      }
      if e.prev == 0 {
        left := left - {t};
      } else {
        left := left[t := e.prev];
      }
      bound := i;
    }
    UndoFinished(s, log, left, bound, visited);
    ok := true;
  }

  lemma UndoNone(s: Files, log: seq<Entry>)
    ensures UndoFiles(s, log, |log|) == s
  {
  }

  lemma PosOf(log: seq<Entry>, active: map<nat, nat>, bound: nat, t: nat) returns (i: nat)
    requires ChainState(log, active, bound) && t in active
    ensures ChainPos(log, t, active[t], bound, i)
    ensures i < bound <= |log| && log[i].lsn == active[t] && log[i].txn == t
  {
    hide Open;
    i :| ChainPos(log, t, active[t], bound, i);
  }

  /** Undo cannot see an update of a loser at offset 0. */
  ghost predicate StartSafe(log: seq<Entry>) {
    |log| > 0 ==> !(log[0].IsUpdate() && Open(log, 0))
  }

  lemma UndoToStart(s: Values, log: seq<Entry>)
    requires StartSafe(log)
    ensures UndoTo(s, log, First(log)) == UndoTo(s, log, 0)
  {
    hide Open;
  }

  /** What the passes leave at a logged place. */
  ghost function Recovered(log: seq<Entry>, loc: Loc): Blob {
    Lookup(UndoTo(Redo(map[], log), log, First(log)), loc)
  }

  /** A logged place reads as `Recovered` says, to every reader; any other place as it did. */
  ghost predicate ReadsRecovered(before: Files, files: Files, active: set<nat>, log: seq<Entry>, page: nat, key: Blob,
                                 reader: nat, now: int) {
    var r := S.ReadSpec(On(files, page), active, reader, key, now);
    if Logged(log, (page, key)) then r == Some(Recovered(log, (page, key)))
    else r == S.ReadSpec(On(before, page), active, reader, key, now)
  }

  lemma PassesRead(before: Files, log: seq<Entry>, active: set<nat>, visited: seq<nat>, page: nat, key: Blob,
                   reader: nat, now: int)
    requires Visited(log, visited, First(log)) && 0 !in active && now < 0x7FFF_FFFF_FFFF_FFFF
    requires forall i :: i in visited ==> log[i].txn !in active
    ensures ReadsRecovered(before, UndoFiles(RedoFiles(before, log), log, First(log)), active, log, page, key, reader,
                           now)
  {
    hide Open, UndoFiles, RedoFiles, UndoTo, Redo, Carries, Logged, S.ReadSpec;
    var txns := (set i | i in visited :: log[i].txn) + {0};
    RedoCarries(before, log, txns);
    UndoCarries(before, RedoFiles(before, log), Redo(map[], log), log, First(log), txns);
    RedoDomain(log, (page, key));
    UndoDomain(Redo(map[], log), log, First(log), (page, key));
    var files, d := UndoFiles(RedoFiles(before, log), log, First(log)), UndoTo(Redo(map[], log), log, First(log));
    if Logged(log, (page, key)) {
      CarriedRead(before, files, d, txns, active, page, key, reader, now);
    } else {
      UncarriedRead(before, files, d, txns, active, page, key, reader, now);
    }
  }

  /** Where the log starts safely, a logged place is recovered to what the winners did, whatever the pages held. */
  lemma RecoveredWinners(s: Values, log: seq<Entry>, loc: Loc)
    requires Sound(s, log) && StartSafe(log) && Logged(log, loc)
    ensures Recovered(log, loc) == Lookup(Winners(s, log, |log|), loc)
  {
    hide UndoTo, Redo, Winners, Sound, Logged, StartSafe;
    UndoToStart(Redo(map[], log), log);
    RecoveryKeepsWinners(s, map[], log, loc);
  }

  /** Crash recovery, for every log that Append wrote and whatever the pages held at the crash: every logged place
      reads, to every reader, as if only the committed transactions had run from the state the log began in, and every
      other place reads as before. A transaction is left running only if its one entry stands at offset 0.
   */
  method Recover(db: Database, file: Blob, crc: Blob -> nat, ghost log: seq<Entry>) returns (ok: bool)
    requires WellFormed(log) && file == Frames(crc, log) && db.activeTxns == {}
    modifies db
    ensures ok && forall t :: t in db.activeTxns ==> |log| > 0 && t == log[0].txn
    ensures db.files == UndoFiles(RedoFiles(old(db.files), log), log, First(log))
    ensures 0 !in db.activeTxns ==> forall page, key, reader, now :: now < 0x7FFF_FFFF_FFFF_FFFF ==>
      ReadsRecovered(old(db.files), db.files, db.activeTxns, log, page, key, reader, now)
    ensures StartSafe(log) ==> forall s, loc :: Sound(s, log) && Logged(log, loc) ==>
      Recovered(log, loc) == Lookup(Winners(s, log, |log|), loc)
  {
    hide Frames, WellFormed, UndoFiles, RedoFiles, Winners, Active, ChainState, Sound, StartSafe, ParseFrom, Logged,
         Visited, Recovered, ReadsRecovered, First;
    ghost var before := db.files;
    WholeLog(crc, log);
    AnalysisFindsLosers(log);
    var active, left;
    ghost var visited;
    ok, active := Analysis(crc, file);
    ok := RedoPass(db, file, crc, log);
    ok, left, visited := UndoPass(db, file, active, crc, log);
    db.activeTxns := db.activeTxns + left.Keys;
    if 0 !in db.activeTxns {
      forall page, key, reader, now | now < 0x7FFF_FFFF_FFFF_FFFF
        ensures ReadsRecovered(before, db.files, db.activeTxns, log, page, key, reader, now)
      {
        PassesRead(before, log, db.activeTxns, visited, page, key, reader, now);
      }
    }
    if StartSafe(log) {
      forall s, loc | Sound(s, log) && Logged(log, loc)
        ensures Recovered(log, loc) == Lookup(Winners(s, log, |log|), loc)
      {
        RecoveredWinners(s, log, loc);
      }
    }
  }

  lemma WholeLog(crc: Blob -> nat, log: seq<Entry>)
    requires WellFormed(log)
    ensures ParseFrom(crc, Frames(crc, log), 0) == Intact(log)
  {
    hide Frames, WellFormed, ParseFrom;
    WellFormedFits(log);
    ParseFrames(crc, log, 0);
    assert log[0..] == log;
  }

  /** The oldest open update of the first entry's place, apart from the first entry. */
  ghost predicate SecondOpen(log: seq<Entry>, k: nat) {
    && 1 <= k < |log| && log[k].IsUpdate() && LocOf(log[k]) == LocOf(log[0]) && Open(log, k)
    && forall j :: 1 <= j < k && log[j].IsUpdate() && LocOf(log[j]) == LocOf(log[0]) ==> !Open(log, j)
  }

  /** What a loser's update at offset 0 leaves behind: what its place held before the next open update of
      it, or at the end of the log.
   */
  ghost function LeftBehind(log: seq<Entry>): Blob
    requires |log| > 0
  {
    if exists k: nat :: SecondOpen(log, k) then
      var k: nat :| SecondOpen(log, k);
      log[k].before
    else Lookup(Redo(map[], log), LocOf(log[0]))
  }

  lemma LeftBehindIs(log: seq<Entry>)
    requires |log| > 0
    ensures Recovered(log, LocOf(log[0])) == LeftBehind(log)
  {
    hide Open, Redo, UndoTo;
    var loc, d := LocOf(log[0]), Redo(map[], log);
    if exists k: nat :: SecondOpen(log, k) {
      var k: nat :| SecondOpen(log, k) && LeftBehind(log) == log[k].before;
      UndoneValue(d, log, 1, loc, k);
    } else {
      NoSecond(log, |log|);
      NotUndone(d, log, 1, loc);
    }
  }

  lemma {:induction false} NoSecond(log: seq<Entry>, n: nat)
    requires 1 <= n <= |log| && !exists k: nat :: SecondOpen(log, k)
    ensures forall j :: 1 <= j < n && log[j].IsUpdate() && LocOf(log[j]) == LocOf(log[0]) ==> !Open(log, j)
    decreases n
  {
    hide Open;
    if n > 1 {
      NoSecond(log, n - 1);
      assert !SecondOpen(log, n - 1);
    }
  }

  /** Exactly when recovery keeps winners only at the logged places: unless a loser's update stands at offset 0, or that
      update left behind what it had found.
   */
  lemma RecoveryExact(s: Values, log: seq<Entry>)
    requires Sound(s, log) && |log| > 0
    ensures (forall loc :: Logged(log, loc) ==> Recovered(log, loc) == Lookup(Winners(s, log, |log|), loc))
            <==> (StartSafe(log) || LeftBehind(log) == log[0].before)
  {
    hide Open, Redo, UndoTo, Winners, Sound, LeftBehind, Logged;
    var d, loc0 := Redo(map[], log), LocOf(log[0]);
    UndoToStep(d, log, 0);
    LeftBehindIs(log);
    forall loc | Logged(log, loc) && (loc != loc0 || StartSafe(log))
      ensures Recovered(log, loc) == Lookup(Winners(s, log, |log|), loc)
    {
      RecoveryKeepsWinners(s, map[], log, loc);
    }
    if !StartSafe(log) {
      LoggedAt(log, 0);
      RecoveryKeepsWinners(s, map[], log, loc0);
    }
  }

  lemma LoggedAt(log: seq<Entry>, i: nat)
    requires i < |log| && log[i].IsWrite()
    ensures Logged(log, LocOf(log[i]))
  {
  }

  lemma UndoToStep(s: Values, log: seq<Entry>, b: nat)
    requires b < |log|
    ensures UndoTo(s, log, b)
         == if Open(log, b) && log[b].IsUpdate() then UndoTo(s, log, b + 1)[LocOf(log[b]) := log[b].before]
            else UndoTo(s, log, b + 1)
  {
    hide Open;
  }

  /** Why the start of the log matters: a loser whose only entry is an update at offset 0 stays. */
  lemma LoserAtStartSurvives(key: Blob, value: Blob)
    requires value != [] && |key| + |value| < 0x1_0000_0000
    ensures var log := [Entry(0, 1, 0, UPDATE, 1, key, [], value)];
      && WellFormed(log) && Sound(map[], log) && !StartSafe(log)
      && Lookup(Winners(map[], log, 1), (1, key)) == []
      && Recovered(log, (1, key)) == value
  {
    var e := Entry(0, 1, 0, UPDATE, 1, key, [], value);
    var log := [e];
    assert log[..0] == [] && log[1..] == [];
    assert PrevMap(log[..0]) == map[];
    assert Redo(map[], log[..0]) == map[];
    assert Pending(log[..0]) == map[];
    assert Redo(map[], log) == map[(1, key) := value];
  }

  /** A crash after a flush: the page already holds what a loser wrote, which is no state the log could have begun in,
      and recovery still takes it back.
   */
  lemma FlushedLoserUndone(key: Blob, was: Blob, value: Blob)
    requires was != value
    ensures var log := [Entry(0, 1, 0, BEGIN, 0, [], [], []), Entry(49, 1, 0, UPDATE, 1, key, was, value)];
      && Sound(map[(1, key) := was], log) && !Sound(map[(1, key) := value], log) && StartSafe(log)
      && Recovered(log, (1, key)) == was
  {
    var b, u := Entry(0, 1, 0, BEGIN, 0, [], [], []), Entry(49, 1, 0, UPDATE, 1, key, was, value);
    var log := [b, u];
    assert log[..0] == [] && log[..1] == [b] && [b][..0] == [];
    assert forall s :: Redo(s, log[..1]) == s;
    assert Pending(log[..1]) == map[];
    var values: Values := map[(1, key) := value];
    assert !SoundStep(values, log[..1], log[1]);
    assert log[2..] == [];
    assert Redo(map[], log) == map[(1, key) := value] by { assert log[..1] == [b]; }
    UndoToStep(Redo(map[], log), log, 1);
  }
}
