/** What crash recovery is for: the state left by the committed transactions of a log, and why redoing
    everything and then undoing the losers produces it.
 */
module RecoveryModel {
  import opened Bytes
  import opened Wal

  /** A page and a key. */
  type Loc = (nat, Blob)
  type Values = map<Loc, Blob>

  function LocOf(e: Entry): Loc { (e.page, e.key) }

  /** An absent value counts as empty. */
  function Lookup(s: Values, loc: Loc): Blob {
    if loc in s then s[loc] else []
  }

  // --- How transactions end ---------------------------------------------------------------

  datatype End = Never | Commits | Aborts

  /** How transaction `t` ends next in the rest of a log. */
  function Ends(t: nat, rest: seq<Entry>): End {
    if rest == [] then Never
    else if rest[0].txn == t && rest[0].kind == COMMIT then Commits
    else if rest[0].txn == t && rest[0].kind == ABORT then Aborts
    else Ends(t, rest[1..])
  }

  function Fate(log: seq<Entry>, i: nat): End
    requires i < |log|
  {
    Ends(log[i].txn, log[i + 1..])
  }

  /** An entry of a transaction that has not ended: the entry of a loser. */
  predicate Open(log: seq<Entry>, i: nat)
    requires i < |log|
  {
    !log[i].IsEnd() && Fate(log, i).Never?
  }

  lemma {:induction false} EndsAppend(t: nat, rest: seq<Entry>, e: Entry)
    ensures Ends(t, rest + [e]) == if !Ends(t, rest).Never? then Ends(t, rest) else Ends(t, [e])
  {
    if rest == [] {
      assert rest + [e] == [e];
    } else {
      EndsAppend(t, rest[1..], e);
      assert (rest + [e])[1..] == rest[1..] + [e];
    }
  }

  lemma EndsOne(t: nat, e: Entry)
    ensures Ends(t, [e]) == if e.txn != t || !e.IsEnd() then Never else if e.kind == COMMIT then Commits else Aborts
  {
    assert [e][1..] == [];
  }

  /** How one more entry changes the fate of an earlier one. */
  lemma FateAppend(log: seq<Entry>, e: Entry, i: nat)
    requires i < |log|
    ensures (log + [e])[i] == log[i]
    ensures Fate(log + [e], i) == if !Fate(log, i).Never? || e.txn != log[i].txn || !e.IsEnd() then Fate(log, i)
                                  else if e.kind == COMMIT then Commits else Aborts
  {
    assert (log + [e])[i + 1..] == log[i + 1..] + [e];
    EndsAppend(log[i].txn, log[i + 1..], e);
    EndsOne(log[i].txn, e);
  }

  lemma FateLast(log: seq<Entry>, e: Entry)
    ensures Fate(log + [e], |log|) == Never
  {
    assert (log + [e])[|log| + 1..] == [];
  }

  // --- The states -------------------------------------------------------------------------

  /** Every logged write applied, whoever made it. */
  function Redo(s: Values, log: seq<Entry>): Values {
    if log == [] then s
    else
      var d, e := Redo(s, log[..|log| - 1]), log[|log| - 1];
      if e.IsWrite() then d[LocOf(e) := e.after] else d
  }

  /** The first `n` entries as if only committed transactions had run. */
  function Winners(s: Values, log: seq<Entry>, n: nat): Values
    requires n <= |log|
  {
    if n == 0 then s
    else
      var d, e := Winners(s, log, n - 1), log[n - 1];
      if e.IsWrite() && Fate(log, n - 1).Commits? then d[LocOf(e) := e.after] else d
  }

  /** The before-images of the losers' updates from entry `b` on, applied from the newest to the oldest. */
  function UndoTo(s: Values, log: seq<Entry>, b: nat): Values
    requires b <= |log|
    decreases |log| - b
  {
    if b == |log| then s
    else
      var d := UndoTo(s, log, b + 1);
      if Open(log, b) && log[b].IsUpdate() then d[LocOf(log[b]) := log[b].before] else d
  }

  /** For each place with a loser's update: the loser, and the value before its first update there. */
  function Pending(log: seq<Entry>): map<Loc, (nat, Blob)> {
    if log == [] then map[]
    else
      var m, e := Pending(log[..|log| - 1]), log[|log| - 1];
      if e.IsUpdate() then (if LocOf(e) in m then m else m[LocOf(e) := (e.txn, e.before)])
      else if e.IsEnd() then map loc | loc in m && m[loc].0 != e.txn :: m[loc]
      else m
  }

  // --- Logs of a disciplined run ----------------------------------------------------------

  /** What one more entry must respect: true before-images; no write where another unfinished transaction
      wrote last; compensation only of own updates; an abort only after everything was put back.
   */
  ghost predicate SoundStep(s: Values, pre: seq<Entry>, e: Entry) {
    var m, d := Pending(pre), Redo(s, pre);
    if e.IsUpdate() then e.before == Lookup(d, LocOf(e)) && (LocOf(e) in m ==> m[LocOf(e)].0 == e.txn)
    else if e.kind == CLR then LocOf(e) in m && m[LocOf(e)].0 == e.txn
    else if e.kind == ABORT then forall loc :: loc in m && m[loc].0 == e.txn ==> Lookup(d, loc) == m[loc].1
    else true
  }

  ghost predicate Sound(s: Values, log: seq<Entry>) {
    forall i :: 0 <= i < |log| ==> SoundStep(s, log[..i], log[i])
  }

  /** Entry `i` is the last write to a place, by `t`, and is still open. */
  ghost predicate LastOpenWrite(log: seq<Entry>, loc: Loc, t: nat, i: nat) {
    && i < |log| && log[i].IsWrite() && LocOf(log[i]) == loc && log[i].txn == t && Open(log, i)
    && (forall j :: i < j < |log| && log[j].IsWrite() ==> LocOf(log[j]) != loc)
  }

  /** Entry `i` is the oldest open update of a place, by `t`, and found the value `b` there. */
  ghost predicate FirstOpenUpdate(log: seq<Entry>, loc: Loc, t: nat, b: Blob, i: nat) {
    && i < |log| && log[i].IsUpdate() && LocOf(log[i]) == loc && log[i].txn == t && log[i].before == b && Open(log, i)
    && (forall j :: 0 <= j < i && log[j].IsUpdate() && LocOf(log[j]) == loc ==> !Open(log, j))
  }

  ghost predicate Witnessed(log: seq<Entry>, loc: Loc, t: nat, b: Blob) {
    && (exists i: nat :: LastOpenWrite(log, loc, t, i))
    && (exists i: nat :: FirstOpenUpdate(log, loc, t, b, i))
  }

  /** What is known about a place after a log. */
  ghost predicate Tracked(s: Values, log: seq<Entry>, loc: Loc) {
    var m, w := Pending(log), Lookup(Winners(s, log, |log|), loc);
    if loc in m then w == m[loc].1 && Witnessed(log, loc, m[loc].0, m[loc].1)
    else w == Lookup(Redo(s, log), loc)
  }

  /** Open writes belong to the transaction that Pending names for their place. */
  ghost predicate Owned(log: seq<Entry>) {
    forall i :: 0 <= i < |log| && log[i].IsWrite() && Open(log, i) ==>
      LocOf(log[i]) in Pending(log) && Pending(log)[LocOf(log[i])].0 == log[i].txn
  }

  // --- Appending one entry ----------------------------------------------------------------

  lemma Unsnoc(log: seq<Entry>, e: Entry)
    ensures (log + [e])[..|log|] == log && (log + [e])[|log|] == e
  {
  }

  lemma RedoAppend(s: Values, log: seq<Entry>, e: Entry)
    ensures Redo(s, log + [e]) == if e.IsWrite() then Redo(s, log)[LocOf(e) := e.after] else Redo(s, log)
  {
    Unsnoc(log, e);
  }

  lemma PendingAppend(log: seq<Entry>, e: Entry)
    ensures Pending(log + [e])
         == if e.IsUpdate() then
              (if LocOf(e) in Pending(log) then Pending(log) else Pending(log)[LocOf(e) := (e.txn, e.before)])
            else if e.IsEnd() then map loc | loc in Pending(log) && Pending(log)[loc].0 != e.txn :: Pending(log)[loc]
            else Pending(log)
  {
    Unsnoc(log, e);
  }

  /** Nothing but a commit adds to what the winners did. */
  lemma {:induction false} WinnersSame(s: Values, log: seq<Entry>, e: Entry, n: nat)
    requires n <= |log| && e.kind != COMMIT
    ensures Winners(s, log + [e], n) == Winners(s, log, n)
    decreases n
  {
    hide Fate;
    if n > 0 {
      WinnersSame(s, log, e, n - 1);
      FateAppend(log, e, n - 1);
    }
  }

  /** A commit changes nothing where the transaction has no open write. */
  lemma {:induction false} WinnersElsewhere(s: Values, log: seq<Entry>, e: Entry, n: nat, loc: Loc)
    requires n <= |log|
    requires forall i :: 0 <= i < n && log[i].IsWrite() && LocOf(log[i]) == loc && Open(log, i) ==> log[i].txn != e.txn
    ensures Lookup(Winners(s, log + [e], n), loc) == Lookup(Winners(s, log, n), loc)
    decreases n
  {
    hide Fate;
    if n > 0 {
      WinnersElsewhere(s, log, e, n - 1, loc);
      FateAppend(log, e, n - 1);
    }
  }

  /** A commit makes the last open write at a place a winner, so that the place keeps what was redone. */
  lemma {:induction false} WinnersLast(s: Values, log: seq<Entry>, e: Entry, n: nat, loc: Loc, i: nat)
    requires e.kind == COMMIT && LastOpenWrite(log, loc, e.txn, i) && i < n <= |log|
    ensures Lookup(Winners(s, log + [e], n), loc) == log[i].after
    decreases n
  {
    hide Fate;
    FateAppend(log, e, n - 1);
    if n - 1 > i {
      WinnersLast(s, log, e, n - 1, loc, i);
    }
  }

  lemma {:induction false} RedoLast(s: Values, log: seq<Entry>, loc: Loc, i: nat)
    requires i < |log| && log[i].IsWrite() && LocOf(log[i]) == loc
    requires forall j :: i < j < |log| && log[j].IsWrite() ==> LocOf(log[j]) != loc
    ensures Lookup(Redo(s, log), loc) == log[i].after
  {
    if i < |log| - 1 {
      RedoLast(s, log[..|log| - 1], loc, i);
    }
  }

  lemma WinnersLastEntry(s: Values, log: seq<Entry>, e: Entry)
    ensures Winners(s, log + [e], |log| + 1) == Winners(s, log + [e], |log|)
  {
    FateLast(log, e);
  }

  /** Witnesses survive an entry that does not end the transaction; a write to the place must be its own. */
  lemma KeepWitnesses(log: seq<Entry>, e: Entry, loc: Loc, t: nat, b: Blob)
    requires Witnessed(log, loc, t, b)
    requires e.IsEnd() ==> e.txn != t
    requires e.IsWrite() && LocOf(e) == loc ==> e.txn == t
    ensures Witnessed(log + [e], loc, t, b)
  {
    hide Fate;
    var l := log + [e];
    var f: nat :| FirstOpenUpdate(log, loc, t, b, f);
    FateAppend(log, e, f);
    forall j | 0 <= j < f && l[j].IsUpdate() && LocOf(l[j]) == loc
      ensures !Open(l, j)
    {
      FateAppend(log, e, j);
    }
    assert FirstOpenUpdate(l, loc, t, b, f);
    FateLast(log, e);
    if e.IsWrite() && LocOf(e) == loc {
      assert LastOpenWrite(l, loc, t, |log|);
    } else {
      var i: nat :| LastOpenWrite(log, loc, t, i);
      FateAppend(log, e, i);
      assert LastOpenWrite(l, loc, t, i);
    }
  }

  /** A first update of a place by an unfinished transaction is its own witness. */
  lemma NewWitness(log: seq<Entry>, e: Entry)
    requires e.IsUpdate() && Owned(log) && LocOf(e) !in Pending(log)
    ensures Witnessed(log + [e], LocOf(e), e.txn, e.before)
  {
    hide Fate, Pending;
    var l, n := log + [e], |log|;
    FateLast(log, e);
    assert LastOpenWrite(l, LocOf(e), e.txn, n);
    forall j | 0 <= j < n && l[j].IsUpdate() && LocOf(l[j]) == LocOf(e)
      ensures !Open(l, j)
    {
      FateAppend(log, e, j);
    }
    assert FirstOpenUpdate(l, LocOf(e), e.txn, e.before, n);
  }

  lemma OwnedAppend(s: Values, log: seq<Entry>, e: Entry)
    requires Owned(log) && SoundStep(s, log, e)
    ensures Owned(log + [e])
  {
    hide Fate, Redo;
    var l := log + [e];
    PendingAppend(log, e);
    forall i | 0 <= i < |l| && l[i].IsWrite() && Open(l, i)
      ensures LocOf(l[i]) in Pending(l) && Pending(l)[LocOf(l[i])].0 == l[i].txn
    {
      if i < |log| {
        FateAppend(log, e, i);
        assert Open(log, i);
      }
    }
  }

  lemma TrackedWrite(s: Values, log: seq<Entry>, e: Entry, loc: Loc)
    requires Owned(log) && SoundStep(s, log, e) && Tracked(s, log, loc) && !e.IsEnd()
    ensures Tracked(s, log + [e], loc)
  {
    hide Winners, Redo, Pending, Witnessed;
    PendingAppend(log, e);
    RedoAppend(s, log, e);
    WinnersSame(s, log, e, |log|);
    WinnersLastEntry(s, log, e);
    if loc in Pending(log) {
      KeepWitnesses(log, e, loc, Pending(log)[loc].0, Pending(log)[loc].1);
    } else if e.IsUpdate() && LocOf(e) == loc {
      NewWitness(log, e);
    }
  }

  lemma TrackedAbort(s: Values, log: seq<Entry>, e: Entry, loc: Loc)
    requires SoundStep(s, log, e) && Tracked(s, log, loc) && e.kind == ABORT
    ensures Tracked(s, log + [e], loc)
  {
    hide Winners, Redo, Pending, Witnessed;
    PendingAppend(log, e);
    RedoAppend(s, log, e);
    WinnersSame(s, log, e, |log|);
    WinnersLastEntry(s, log, e);
    if loc in Pending(log) && Pending(log)[loc].0 != e.txn {
      KeepWitnesses(log, e, loc, Pending(log)[loc].0, Pending(log)[loc].1);
    }
  }

  lemma TrackedCommit(s: Values, log: seq<Entry>, e: Entry, loc: Loc)
    requires Owned(log) && Tracked(s, log, loc) && e.kind == COMMIT
    ensures Tracked(s, log + [e], loc)
  {
    hide Winners, Redo, Pending, Fate;
    PendingAppend(log, e);
    RedoAppend(s, log, e);
    WinnersLastEntry(s, log, e);
    if loc in Pending(log) && Pending(log)[loc].0 == e.txn {
      var i: nat :| LastOpenWrite(log, loc, e.txn, i);
      WinnersLast(s, log, e, |log|, loc, i);
      RedoLast(s, log, loc, i);
    } else {
      WinnersElsewhere(s, log, e, |log|, loc);
      if loc in Pending(log) {
        KeepWitnesses(log, e, loc, Pending(log)[loc].0, Pending(log)[loc].1);
      }
    }
  }

  // --- Redo and undo give the winners' state ----------------------------------------------

  lemma {:induction false} AllTracked(s: Values, log: seq<Entry>, loc: Loc)
    requires Sound(s, log)
    ensures Tracked(s, log, loc) && Owned(log)
  {
    hide Winners, Redo, Fate, Witnessed, SoundStep;
    if log == [] {
      NothingYet(s, loc);
    } else {
      var n := |log| - 1;
      var pre, e := log[..n], log[n];
      assert log == pre + [e];
      forall i | 0 <= i < |pre|
        ensures SoundStep(s, pre[..i], pre[i])
      {
        assert pre[..i] == log[..i];
      }
      AllTracked(s, pre, loc);
      OwnedAppend(s, pre, e);
      if e.kind == COMMIT {
        TrackedCommit(s, pre, e, loc);
      } else if e.kind == ABORT {
        TrackedAbort(s, pre, e, loc);
      } else {
        TrackedWrite(s, pre, e, loc);
      }
    }
  }

  lemma NothingYet(s: Values, loc: Loc)
    ensures Tracked(s, [], loc) && Owned([])
  {
  }

  /** Undoing leaves the before-image of the oldest open update of a place. */
  lemma {:induction false} UndoneValue(s: Values, log: seq<Entry>, b: nat, loc: Loc, i: nat)
    requires b <= i < |log| && Open(log, i) && log[i].IsUpdate() && LocOf(log[i]) == loc
    requires forall j :: b <= j < i && log[j].IsUpdate() && LocOf(log[j]) == loc ==> !Open(log, j)
    ensures Lookup(UndoTo(s, log, b), loc) == log[i].before
    decreases |log| - b
  {
    hide Open;
    if b < i {
      UndoneValue(s, log, b + 1, loc, i);
    }
  }

  /** Undoing leaves a place alone where no update is open. */
  lemma {:induction false} NotUndone(s: Values, log: seq<Entry>, b: nat, loc: Loc)
    requires b <= |log|
    requires forall j :: b <= j < |log| && log[j].IsUpdate() && LocOf(log[j]) == loc ==> !Open(log, j)
    ensures Lookup(UndoTo(s, log, b), loc) == Lookup(s, loc)
    decreases |log| - b
  {
    hide Open;
    if b < |log| {
      NotUndone(s, log, b + 1, loc);
    }
  }

  /** Started from the state the log began in, redo and undo give what the winners did. */
  lemma WinnersFromStart(s: Values, log: seq<Entry>, loc: Loc)
    requires Sound(s, log)
    ensures Lookup(UndoTo(Redo(s, log), log, 0), loc) == Lookup(Winners(s, log, |log|), loc)
  {
    hide Winners, Redo, UndoTo, Pending, Fate, SoundStep;
    AllTracked(s, log, loc);
    if loc in Pending(log) {
      var f: nat :| FirstOpenUpdate(log, loc, Pending(log)[loc].0, Pending(log)[loc].1, f);
      UndoneValue(Redo(s, log), log, 0, loc, f);
    } else {
      NotUndone(Redo(s, log), log, 0, loc);
    }
  }

  /** Some entry of the log writes the place. */
  ghost predicate Logged(log: seq<Entry>, loc: Loc) {
    exists i :: 0 <= i < |log| && log[i].IsWrite() && LocOf(log[i]) == loc
  }

  lemma LoggedSnoc(log: seq<Entry>, loc: Loc)
    requires log != []
    ensures var n := |log| - 1;
      Logged(log, loc) <==> Logged(log[..n], loc) || (log[n].IsWrite() && LocOf(log[n]) == loc)
  {
    var n := |log| - 1;
    if Logged(log[..n], loc) {
      var i :| 0 <= i < n && log[..n][i].IsWrite() && LocOf(log[..n][i]) == loc;
      assert log[i].IsWrite();
    }
    if Logged(log, loc) {
      var i :| 0 <= i < |log| && log[i].IsWrite() && LocOf(log[i]) == loc;
      assert i < n ==> log[..n][i].IsWrite();
    }
  }

  /** Redo forgets what a logged place held before. */
  lemma {:induction false} RedoForgets(s: Values, d: Values, log: seq<Entry>, loc: Loc)
    requires Logged(log, loc) || Lookup(s, loc) == Lookup(d, loc)
    ensures Lookup(Redo(s, log), loc) == Lookup(Redo(d, log), loc)
  {
    hide Logged;
    if log != [] {
      var n := |log| - 1;
      LoggedSnoc(log, loc);
      if !(log[n].IsWrite() && LocOf(log[n]) == loc) {
        RedoForgets(s, d, log[..n], loc);
      }
    } else {
      NotLogged(loc);
    }
  }

  lemma {:induction false} UndoRespects(s: Values, d: Values, log: seq<Entry>, b: nat, loc: Loc)
    requires b <= |log| && Lookup(s, loc) == Lookup(d, loc)
    ensures Lookup(UndoTo(s, log, b), loc) == Lookup(UndoTo(d, log, b), loc)
    decreases |log| - b
  {
    hide Open;
    if b < |log| {
      UndoRespects(s, d, log, b + 1, loc);
    }
  }

  /** The places an empty state gains from redo are the logged ones, and undo adds none. */
  lemma {:induction false} RedoDomain(log: seq<Entry>, loc: Loc)
    ensures loc in Redo(map[], log) <==> Logged(log, loc)
  {
    hide Logged;
    if log == [] {
      NotLogged(loc);
    } else {
      LoggedSnoc(log, loc);
      RedoDomain(log[..|log| - 1], loc);
    }
  }

  lemma NotLogged(loc: Loc)
    ensures !Logged([], loc)
  {
  }

  lemma {:induction false} UndoDomain(d: Values, log: seq<Entry>, b: nat, loc: Loc)
    requires b <= |log| && (Logged(log, loc) ==> loc in d)
    ensures loc in UndoTo(d, log, b) <==> loc in d
    decreases |log| - b
  {
    hide Open;
    if b < |log| {
      UndoDomain(d, log, b + 1, loc);
    }
  }

  /** Whatever of the logged values had reached the pages at the crash: redoing the whole log and undoing the losers
      leaves every logged place as if only the committed transactions had run, from the state `s` the log began in.
   */
  lemma RecoveryKeepsWinners(s: Values, d: Values, log: seq<Entry>, loc: Loc)
    requires Sound(s, log) && Logged(log, loc)
    ensures Lookup(UndoTo(Redo(d, log), log, 0), loc) == Lookup(Winners(s, log, |log|), loc)
  {
    hide Winners, Redo, UndoTo, Sound, Logged;
    WinnersFromStart(s, log, loc);
    RedoForgets(d, s, log, loc);
    UndoRespects(Redo(d, log), Redo(s, log), log, 0, loc);
  }

  /** A place the log does not write keeps what it held. */
  lemma UnloggedKept(d: Values, log: seq<Entry>, b: nat, loc: Loc)
    requires b <= |log| && !Logged(log, loc)
    ensures Lookup(UndoTo(Redo(d, log), log, b), loc) == Lookup(d, loc)
  {
    hide Open;
    RedoUnlogged(d, log, loc);
    NotUndone(Redo(d, log), log, b, loc);
  }

  lemma {:induction false} RedoUnlogged(d: Values, log: seq<Entry>, loc: Loc)
    requires !Logged(log, loc)
    ensures Lookup(Redo(d, log), loc) == Lookup(d, loc)
  {
    hide Logged;
    if log != [] {
      LoggedSnoc(log, loc);
      RedoUnlogged(d, log[..|log| - 1], loc);
    }
  }
}
