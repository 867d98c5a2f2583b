/** Strict two-phase locking over the lock table gives serializability: in every interleaving, what the
    transactions read and leave behind is what they would read and leave behind if they had run one after
    the other in the order of their ReleaseAll steps.
 */
module Serializability {
  import opened LockTable
  import opened Bytes

  type Value = int
  type Store = map<string, Value>

  /** One data operation; a read carries the value it returned. */
  datatype Op = Read(txn: nat, key: string, got: Value) | Write(txn: nat, key: string, val: Value)

  function Lookup(d: Store, k: string): Value {
    if k in d then d[k] else 0
  }

  /** Replays operations; fails at a read that would not return the value it carries. */
  datatype Replay = Failed | Done(store: Store)

  function Exec(d: Store, ops: seq<Op>): Replay
    decreases |ops|
  {
    if ops == [] then Done(d)
    else match ops[0]
      case Read(_, k, v) => if Lookup(d, k) == v then Exec(d, ops[1..]) else Failed
      case Write(_, k, v) => Exec(d[k := v], ops[1..])
  }

  lemma {:induction false} ExecConcat(d: Store, a: seq<Op>, b: seq<Op>)
    ensures Exec(d, a + b) == match Exec(d, a) case Failed => Failed case Done(d') => Exec(d', b)
    decreases |a|
  {
    if a == [] {
      assert a + b == b;
    } else {
      assert (a + b)[1..] == a[1..] + b;
      match a[0]
      case Read(_, k, v) => ExecConcat(d, a[1..], b);
      case Write(_, k, v) => ExecConcat(d[k := v], a[1..], b);
    }
  }

  // --- Runs -------------------------------------------------------------------------------

  /** The lock table, the data, everything done so far, the transactions that have released their locks in that order,
      and the data at the start.
   */
  datatype System = System(table: LockState, data: Store, history: seq<Op>, finished: seq<nat>, initial: Store)

  /** What can happen next. `Finish` is ReleaseAll at commit or abort. */
  datatype Event =
    | Request(txn: nat, key: string, mode: Mode)
    | Resume(ticket: nat)
    | Operate(op: Op)
    | Finish(txn: nat)

  /** A transaction has a request in flight. */
  ghost predicate Waiting(s: LockState, t: nat) {
    exists n :: n in s.blocked && s.blocked[n].txn == t
  }

  /** The discipline: read under a lock, write under an exclusive lock, free locks only by ReleaseAll and
      with no request pending, do nothing afterwards.
   */
  ghost predicate Enabled(s: System, e: Event) {
    match e
    case Request(t, k, mode) => t !in s.finished
    case Resume(n) => n in s.table.blocked && n in s.table.signalled
    case Operate(op) =>
      && op.txn !in s.finished
      && Holds(s.table, op.txn, op.key)
      && (op.Write? ==> s.table.locks[op.key].mode.Exclusive?)
      && (op.Read? ==> op.got == Lookup(s.data, op.key))
    case Finish(t) => t !in s.finished && !Waiting(s.table, t)
  }

  ghost function Step(s: System, e: Event): System
    requires Enabled(s, e)
  {
    match e
    case Request(t, k, mode) => s.(table := Acquire(s.table, t, k, mode).0)
    case Resume(n) => s.(table := Wake(s.table, n).0)
    case Operate(op) =>
      s.(data := if op.Write? then s.data[op.key := op.val] else s.data, history := s.history + [op])
    case Finish(t) => s.(table := ReleaseAll(s.table, t), finished := s.finished + [t])
  }

  /** Nobody holds a lock, and nothing has happened to the data yet. */
  ghost function Start(data: Store): System { System(EMPTY, data, [], [], data) }

  /** The states reached by a sequence of events. */
  ghost predicate Run(s: System, events: seq<Event>, s': System)
    decreases |events|
  {
    if events == [] then s == s'
    else Enabled(s, events[0]) && Run(Step(s, events[0]), events[1..], s')
  }

  // --- The equivalent serial history ------------------------------------------------------

  /** The operations of one transaction, in order. */
  function OpsOf(ops: seq<Op>, t: nat): seq<Op> {
    if ops == [] then []
    else if ops[0].txn == t then [ops[0]] + OpsOf(ops[1..], t)
    else OpsOf(ops[1..], t)
  }

  /** The operations of all transactions outside a list, in order. */
  function OpsOutside(ops: seq<Op>, ts: seq<nat>): seq<Op> {
    if ops == [] then []
    else if ops[0].txn in ts then OpsOutside(ops[1..], ts)
    else [ops[0]] + OpsOutside(ops[1..], ts)
  }

  /** The transactions run one after the other. */
  function Serial(ops: seq<Op>, ts: seq<nat>): seq<Op> {
    if ts == [] then [] else Serial(ops, ts[..|ts| - 1]) + OpsOf(ops, ts[|ts| - 1])
  }

  lemma {:induction false} OpsOfConcat(a: seq<Op>, b: seq<Op>, t: nat)
    ensures OpsOf(a + b, t) == OpsOf(a, t) + OpsOf(b, t)
  {
    if a == [] {
      assert a + b == b;
    } else {
      OpsOfConcat(a[1..], b, t);
      assert (a + b)[1..] == a[1..] + b;
      ConcatAssoc([a[0]], OpsOf(a[1..], t), OpsOf(b, t));
    }
  }

  lemma {:induction false} OpsOutsideConcat(a: seq<Op>, b: seq<Op>, ts: seq<nat>)
    ensures OpsOutside(a + b, ts) == OpsOutside(a, ts) + OpsOutside(b, ts)
  {
    if a == [] {
      assert a + b == b;
    } else {
      OpsOutsideConcat(a[1..], b, ts);
      assert (a + b)[1..] == a[1..] + b;
      ConcatAssoc([a[0]], OpsOutside(a[1..], ts), OpsOutside(b, ts));
    }
  }

  lemma OneOp(op: Op, t: nat, ts: seq<nat>)
    ensures OpsOf([op], t) == if op.txn == t then [op] else []
    ensures OpsOutside([op], ts) == if op.txn in ts then [] else [op]
  {
    assert [op][1..] == [];
  }

  /** A new operation of an unfinished transaction does not touch the serial part. */
  lemma {:induction false} SerialStable(ops: seq<Op>, op: Op, ts: seq<nat>)
    requires op.txn !in ts
    ensures Serial(ops + [op], ts) == Serial(ops, ts)
    decreases |ts|
  {
    if ts != [] {
      SerialStable(ops, op, ts[..|ts| - 1]);
      OpsOfConcat(ops, [op], ts[|ts| - 1]);
      OneOp(op, ts[|ts| - 1], []);
    }
  }

  /** The operations outside a list, of one more transaction and of the rest. */
  lemma {:induction false} OutsideOf(ops: seq<Op>, ts: seq<nat>, t: nat)
    requires t !in ts
    ensures OpsOf(OpsOutside(ops, ts), t) == OpsOf(ops, t)
    ensures OpsOutside(OpsOutside(ops, ts), [t]) == OpsOutside(ops, ts + [t])
  {
    if ops != [] {
      OutsideOf(ops[1..], ts, t);
      var op, rest := ops[0], OpsOutside(ops[1..], ts);
      assert op.txn in ts + [t] <==> op.txn in ts || op.txn == t;
      if op.txn !in ts {
        assert ([op] + rest)[0] == op && ([op] + rest)[1..] == rest;
      }
    }
  }

  // --- Moving one transaction to the front ------------------------------------------------

  /** Two operations of different transactions that do not commute. */
  ghost predicate Conflict(a: Op, b: Op) {
    a.txn != b.txn && a.key == b.key && (a.Write? || b.Write?)
  }

  ghost predicate NoConflictWith(ops: seq<Op>, t: nat) {
    forall a, b :: a in ops && b in ops && a.txn == t ==> !Conflict(a, b)
  }

  /** An operation moves to the front across operations it does not conflict with. */
  lemma {:induction false} MoveFront(d: Store, pre: seq<Op>, op: Op)
    requires forall a :: a in pre ==> !Conflict(op, a) && a.txn != op.txn
    ensures Exec(d, pre + [op]) == Exec(d, [op] + pre)
    decreases |pre|
  {
    if pre == [] {
      assert pre + [op] == [op] + pre;
    } else {
      var a, rest := pre[0], pre[1..];
      assert (pre + [op])[1..] == rest + [op];
      assert ([op] + pre)[1..] == pre;
      assert ([op] + rest)[1..] == rest;
      assert a in pre;
      match a {
        case Read(_, k, v) => MoveFront(d, rest, op);
        case Write(_, k, v) => MoveFront(d[k := v], rest, op);
      }
      if a.Write? && op.Write? {
        assert d[a.key := a.val][op.key := op.val] == d[op.key := op.val][a.key := a.val];
      }
    }
  }

  /** Without conflicts, a transaction can be moved in front of the others. */
  lemma {:induction false} MoveTxnFront(d: Store, ops: seq<Op>, t: nat)
    requires NoConflictWith(ops, t)
    ensures Exec(d, ops) == Exec(d, OpsOf(ops, t) + OpsOutside(ops, [t]))
    decreases |ops|
  {
    hide Exec, OpsOf, OpsOutside;
    if ops == [] {
      NoOps(t);
    } else {
      var n := |ops| - 1;
      var pre, op := ops[..n], ops[n];
      assert ops == pre + [op];
      MoveTxnFront(d, pre, t);
      OpsOfConcat(pre, [op], t);
      OpsOutsideConcat(pre, [op], [t]);
      OneOp(op, t, [t]);
      var mine, others := OpsOf(pre, t), OpsOutside(pre, [t]);
      ExecConcat(d, pre, [op]);
      ExecConcat(d, mine + others, [op]);
      ConcatAssoc(mine, others, [op]);
      assert mine + [] == mine && others + [] == others;
      if op.txn == t {
        OutsideMembers(pre, t);
        assert op in ops;
        MoveOpFront(d, mine, others, op);
        ConcatAssoc(mine, [op], others);
      }
    }
  }

  lemma NoOps(t: nat)
    ensures OpsOf([], t) + OpsOutside([], [t]) == []
  {
  }

  lemma MoveOpFront(d: Store, mine: seq<Op>, others: seq<Op>, op: Op)
    requires forall a :: a in others ==> !Conflict(op, a) && a.txn != op.txn
    ensures Exec(d, mine + (others + [op])) == Exec(d, mine + ([op] + others))
  {
    hide Exec, Conflict;
    ExecConcat(d, mine, others + [op]);
    ExecConcat(d, mine, [op] + others);
    match Exec(d, mine)
    case Failed =>
    case Done(d') => MoveFront(d', others, op);
  }

  lemma {:induction false} OutsideMembers(ops: seq<Op>, t: nat)
    ensures forall a :: a in OpsOutside(ops, [t]) ==> a in ops && a.txn != t
  {
    if ops != [] {
      OutsideMembers(ops[1..], t);
    }
  }

  // --- The invariant of every run ---------------------------------------------------------

  /** Operations of unfinished transactions are still covered by their locks. */
  ghost predicate Covered(s: System) {
    forall a :: a in s.history && a.txn !in s.finished ==>
      Holds(s.table, a.txn, a.key) && (a.Write? ==> s.table.locks[a.key].mode.Exclusive?)
  }

  ghost predicate SystemInv(s: System) {
    && Inv(s.table)
    && Covered(s)
    && Exec(s.initial, s.history) == Done(s.data)
    && Exec(s.initial, Serial(s.history, s.finished) + OpsOutside(s.history, s.finished)) == Done(s.data)
  }

  /** Locks are not lost and not weakened by another transaction's request. */
  lemma AcquireKeeps(s: LockState, t: nat, k: string, mode: Mode, u: nat, j: string)
    requires Inv(s) && Holds(s, u, j)
    ensures Holds(Acquire(s, t, k, mode).0, u, j)
    ensures s.locks[j].mode.Exclusive? ==> Acquire(s, t, k, mode).0.locks[j].mode.Exclusive?
  {
  }

  lemma WakeKeeps(s: LockState, n: nat, u: nat, j: string)
    requires Inv(s) && n in s.blocked && n in s.signalled && Holds(s, u, j)
    ensures Holds(Wake(s, n).0, u, j)
    ensures s.locks[j].mode.Exclusive? ==> Wake(s, n).0.locks[j].mode.Exclusive?
  {
  }

  lemma ReleaseAllKeeps(s: LockState, t: nat, u: nat, j: string)
    requires Inv(s) && Holds(s, u, j) && u != t
    ensures Holds(ReleaseAll(s, t), u, j)
    ensures s.locks[j].mode.Exclusive? ==> ReleaseAll(s, t).locks[j].mode.Exclusive?
  {
    assert u in s.locks[j].holders - {t};
  }

  lemma OneExclusiveHolder(s: LockState, k: string, t: nat, u: nat)
    requires Inv(s) && Holds(s, t, k) && Holds(s, u, k) && s.locks[k].mode.Exclusive?
    ensures t == u
  {
    var x :| s.locks[k].holders == {x};
  }

  /** Unfinished transactions do not conflict: their locks would exclude each other. */
  lemma ActiveNoConflict(s: System, t: nat)
    requires Inv(s.table) && Covered(s) && t !in s.finished
    ensures NoConflictWith(OpsOutside(s.history, s.finished), t)
  {
    var ops := OpsOutside(s.history, s.finished);
    ActiveMembers(s.history, s.finished);
    forall a, b | a in ops && b in ops && a.txn == t
      ensures !Conflict(a, b)
    {
      if a.key == b.key && (a.Write? || b.Write?) {
        OneExclusiveHolder(s.table, a.key, a.txn, b.txn);
      }
    }
  }

  lemma {:induction false} ActiveMembers(ops: seq<Op>, ts: seq<nat>)
    ensures forall a :: a in OpsOutside(ops, ts) ==> a in ops && a.txn !in ts
  {
    if ops != [] {
      ActiveMembers(ops[1..], ts);
    }
  }

  lemma OperateInv(s: System, op: Op)
    requires SystemInv(s) && Enabled(s, Operate(op))
    ensures SystemInv(Step(s, Operate(op)))
  {
    hide Exec, Serial, OpsOutside, Inv;
    var s' := Step(s, Operate(op));
    ExecOne(s.data, op);
    ExecConcat(s.initial, s.history, [op]);
    SerialStable(s.history, op, s.finished);
    OpsOutsideConcat(s.history, [op], s.finished);
    OneOp(op, op.txn, s.finished);
    var before := Serial(s.history, s.finished) + OpsOutside(s.history, s.finished);
    ConcatAssoc(Serial(s.history, s.finished), OpsOutside(s.history, s.finished), [op]);
    ExecConcat(s.initial, before, [op]);
  }

  lemma ExecOne(d: Store, op: Op)
    requires op.Read? ==> op.got == Lookup(d, op.key)
    ensures Exec(d, [op]) == Done(if op.Write? then d[op.key := op.val] else d)
  {
    assert [op][1..] == [];
  }

  lemma FinishInv(s: System, t: nat)
    requires SystemInv(s) && Enabled(s, Finish(t))
    ensures SystemInv(Step(s, Finish(t)))
  {
    hide Exec, Serial, OpsOf, OpsOutside, ReleaseAll, Inv, NoConflictWith;
    var s' := Step(s, Finish(t));
    ReleaseAllInv(s.table, t);
    assert Covered(s') by {
      forall a | a in s'.history && a.txn !in s'.finished
        ensures Holds(s'.table, a.txn, a.key) && (a.Write? ==> s'.table.locks[a.key].mode.Exclusive?)
      {
        ReleaseAllKeeps(s.table, t, a.txn, a.key);
      }
    }
    var done, act := Serial(s.history, s.finished), OpsOutside(s.history, s.finished);
    ActiveNoConflict(s, t);
    ExecConcat(s.initial, done, act);
    match Exec(s.initial, done)
    case Failed =>
    case Done(d) =>
      MoveTxnFront(d, act, t);
      OutsideOf(s.history, s.finished, t);
      ExecConcat(s.initial, done, OpsOf(act, t) + OpsOutside(act, [t]));
      SerialSnoc(s.history, s.finished, t);
      ConcatAssoc(done, OpsOf(act, t), OpsOutside(act, [t]));
  }

  lemma SerialSnoc(ops: seq<Op>, ts: seq<nat>, t: nat)
    ensures Serial(ops, ts + [t]) == Serial(ops, ts) + OpsOf(ops, t)
  {
    assert (ts + [t])[..|ts|] == ts;
  }

  lemma RequestInv(s: System, t: nat, k: string, mode: Mode)
    requires SystemInv(s) && Enabled(s, Request(t, k, mode))
    ensures SystemInv(Step(s, Request(t, k, mode)))
  {
    hide Exec, Serial, OpsOutside, Acquire, Inv;
    var s' := Step(s, Request(t, k, mode));
    AcquireInv(s.table, t, k, mode);
    forall a | a in s'.history && a.txn !in s'.finished
      ensures Holds(s'.table, a.txn, a.key) && (a.Write? ==> s'.table.locks[a.key].mode.Exclusive?)
    {
      AcquireKeeps(s.table, t, k, mode, a.txn, a.key);
    }
  }

  lemma ResumeInv(s: System, n: nat)
    requires SystemInv(s) && Enabled(s, Resume(n))
    ensures SystemInv(Step(s, Resume(n)))
  {
    hide Exec, Serial, OpsOutside, Wake, Inv;
    var s' := Step(s, Resume(n));
    WakeInv(s.table, n);
    forall a | a in s'.history && a.txn !in s'.finished
      ensures Holds(s'.table, a.txn, a.key) && (a.Write? ==> s'.table.locks[a.key].mode.Exclusive?)
    {
      WakeKeeps(s.table, n, a.txn, a.key);
    }
  }

  lemma StepInv(s: System, e: Event)
    requires SystemInv(s) && Enabled(s, e)
    ensures SystemInv(Step(s, e))
  {
    hide SystemInv, Enabled, Step;
    match e {
      case Request(t, k, mode) => RequestInv(s, t, k, mode);
      case Resume(n) => ResumeInv(s, n);
      case Operate(op) => OperateInv(s, op);
      case Finish(t) => FinishInv(s, t);
    }
  }

  lemma {:induction false} RunInv(s: System, events: seq<Event>, s': System)
    requires SystemInv(s) && Run(s, events, s')
    ensures SystemInv(s') && s'.initial == s.initial
    decreases |events|
  {
    hide SystemInv, Enabled;
    if events != [] {
      StepInv(s, events[0]);
      RunInv(Step(s, events[0]), events[1..], s');
    }
  }

  // --- Main results -----------------------------------------------------------------------

  /** In every run from any data, once every transaction that did something has released its locks, the history and the
      serial history in ReleaseAll order read the same values and leave the same data.
   */
  lemma Serializable(data: Store, events: seq<Event>, s: System)
    requires Run(Start(data), events, s)
    requires forall a :: a in s.history ==> a.txn in s.finished
    ensures Inv(s.table)
    ensures Exec(data, s.history) == Done(s.data)
    ensures Exec(data, Serial(s.history, s.finished)) == Done(s.data)
  {
    EmptyInv();
    assert SystemInv(Start(data));
    RunInv(Start(data), events, s);
    NoneOutside(s.history, s.finished);
    assert Serial(s.history, s.finished) + [] == Serial(s.history, s.finished);
  }

  lemma {:induction false} NoneOutside(ops: seq<Op>, ts: seq<nat>)
    requires forall a :: a in ops ==> a.txn in ts
    ensures OpsOutside(ops, ts) == []
  {
    if ops != [] {
      assert ops[0] in ops;
      NoneOutside(ops[1..], ts);
    }
  }

  /** At any moment, two unfinished transactions have not conflicted: of two conflicting operations, the
      transaction of the earlier one has released its locks before the later one happens.
   */
  lemma ConflictsWaitForRelease(data: Store, events: seq<Event>, s: System, op: Op, earlier: Op)
    requires Run(Start(data), events, s) && Enabled(s, Operate(op))
    requires earlier in s.history && Conflict(earlier, op)
    ensures earlier.txn in s.finished
  {
    EmptyInv();
    assert SystemInv(Start(data));
    RunInv(Start(data), events, s);
    if Holds(s.table, earlier.txn, op.key) && s.table.locks[op.key].mode.Exclusive? {
      OneExclusiveHolder(s.table, op.key, earlier.txn, op.txn);
    }
  }

  // --- Upgrades next to another holder ----------------------------------------------------

  /** A ticket queued for a lock that its own transaction holds. */
  ghost predicate Stuck(s: LockState, n: nat) {
    n in s.blocked && n !in s.signalled && Holds(s, s.blocked[n].txn, s.blocked[n].key)
  }

  /** Asking for exclusive access next to another holder queues such a ticket. */
  lemma UpgradeBlocks(s: LockState, t: nat, u: nat, k: string)
    requires Inv(s) && t != u && Holds(s, t, k) && Holds(s, u, k)
    ensures var (s', r) := Acquire(s, t, k, Exclusive); r.Blocked? && Stuck(s', r.ticket)
  {
    if s.locks[k].mode.Exclusive? {
      OneExclusiveHolder(s, k, t, u);
    }
    if |s.locks[k].holders| == 1 {
      Singleton(s.locks[k].holders, t);
    }
    assert s.nextTicket !in s.signalled;
  }

  lemma StuckStep(s: System, e: Event, n: nat)
    requires SystemInv(s) && Enabled(s, e) && Stuck(s.table, n)
    ensures Stuck(Step(s, e).table, n)
  {
    hide Exec, Serial, OpsOutside;
    var w := s.table.blocked[n];
    match e {
      case Request(t, k, mode) => AcquireKeeps(s.table, t, k, mode, w.txn, w.key);
      case Resume(m) => WakeKeeps(s.table, m, w.txn, w.key);
      case Operate(op) =>
      case Finish(t) => ReleaseAllKeeps(s.table, t, w.txn, w.key);
    }
  }

  /** Under the strict discipline such a ticket is never woken: the lock is not emptied while its own
      transaction holds it, and the transaction cannot finish while it waits.
   */
  lemma {:induction false} UpgradeWaitsForever(s: System, events: seq<Event>, s': System, n: nat)
    requires SystemInv(s) && Run(s, events, s') && Stuck(s.table, n)
    ensures Stuck(s'.table, n)
    decreases |events|
  {
    hide SystemInv, Stuck, Enabled, Step;
    if events != [] {
      StuckStep(s, events[0], n);
      StepInv(s, events[0]);
      UpgradeWaitsForever(Step(s, events[0]), events[1..], s', n);
    }
  }
}
