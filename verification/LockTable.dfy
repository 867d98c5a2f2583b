/** The strict two-phase lock manager as a transition system. Each critical section under the manager's
    mutex is one step; a goroutine that waits on a channel is a blocked ticket.
 */
module LockTable {

  datatype Mode = Shared | Exclusive

  /** A lock that somebody holds, with the tickets queued on it. */
  datatype Entry = Entry(mode: Mode, holders: set<nat>, waiters: seq<nat>)

  /** What a blocked goroutine is waiting for. */
  datatype Wanted = Wanted(txn: nat, key: string, mode: Mode)

  datatype Outcome = Granted | Blocked(ticket: nat)

  /** `signalled` are the tickets whose channel holds a wake-up that was not received yet. */
  datatype LockState = LockState(
    locks: map<string, Entry>,
    txns: map<nat, set<string>>,
    blocked: map<nat, Wanted>,
    signalled: set<nat>,
    nextTicket: nat)

  const EMPTY: LockState := LockState(map[], map[], map[], {}, 0)

  predicate Holds(s: LockState, t: nat, k: string) {
    k in s.locks && t in s.locks[k].holders
  }

  function Indexed(txns: map<nat, set<string>>, t: nat): set<string> {
    if t in txns then txns[t] else {}
  }

  // --- The steps --------------------------------------------------------------------------

  function AddTxnLock(txns: map<nat, set<string>>, t: nat, k: string): map<nat, set<string>> {
    txns[t := Indexed(txns, t) + {k}]
  }

  /** A fresh lock for the first holder. */
  function Create(s: LockState, t: nat, k: string, mode: Mode): LockState {
    s.(locks := s.locks[k := Entry(mode, {t}, [])], txns := AddTxnLock(s.txns, t, k))
  }

  /** One round of the wait loop: join compatible holders, or queue a new ticket. */
  function TryJoin(s: LockState, t: nat, k: string, mode: Mode): (LockState, Outcome)
    requires k in s.locks
  {
    var lk := s.locks[k];
    if lk.mode.Exclusive? || mode.Exclusive? then
      var n := s.nextTicket;
      (s.(locks := s.locks[k := lk.(waiters := lk.waiters + [n])],
          blocked := s.blocked[n := Wanted(t, k, mode)],
          nextTicket := n + 1),
       Blocked(n))
    else
      (s.(locks := s.locks[k := lk.(holders := lk.holders + {t})], txns := AddTxnLock(s.txns, t, k)), Granted)
  }

  function Acquire(s: LockState, t: nat, k: string, mode: Mode): (LockState, Outcome) {
    if k !in s.locks then (Create(s, t, k, mode), Granted)
    else
      var lk := s.locks[k];
      if t in lk.holders && (lk.mode.Exclusive? || mode.Shared?) then (s, Granted)
      else if t in lk.holders && |lk.holders| == 1 then
        (s.(locks := s.locks[k := lk.(mode := Exclusive)]), Granted)
      else TryJoin(s, t, k, mode)
  }

  /** A blocked goroutine receives its signal and runs the wait loop again. */
  function Wake(s: LockState, n: nat): (LockState, Outcome)
    requires n in s.blocked && n in s.signalled
  {
    var r := s.blocked[n];
    var s1 := s.(blocked := s.blocked - {n}, signalled := s.signalled - {n});
    if r.key !in s1.locks then (Create(s1, r.txn, r.key, r.mode), Granted)
    else TryJoin(s1, r.txn, r.key, r.mode)
  }

  /** A holder leaves a lock; the last one deletes it and signals every queued ticket. */
  function DropHolder(s: LockState, t: nat, k: string): LockState {
    if k !in s.locks then s
    else
      var lk := s.locks[k];
      var rest := lk.holders - {t};
      if rest == {} then
        s.(locks := s.locks - {k}, signalled := s.signalled + (set w | w in lk.waiters))
      else
        s.(locks := s.locks[k := lk.(holders := rest)])
  }

  function Release(s: LockState, t: nat, k: string): LockState {
    if k !in s.locks then s
    else
      var s1 := if t in s.txns then s.(txns := s.txns[t := s.txns[t] - {k}]) else s;
      DropHolder(s1, t, k)
  }

  /** All locks of a transaction are dropped in one step. */
  ghost function ReleaseAll(s: LockState, t: nat): LockState {
    if t !in s.txns then s
    else
      var keys := s.txns[t];
      LockState(
        map k | k in s.locks && !(k in keys && s.locks[k].holders - {t} == {})
          :: if k in keys then s.locks[k].(holders := s.locks[k].holders - {t}) else s.locks[k],
        s.txns - {t},
        s.blocked,
        s.signalled + (set k, w |
          k in s.locks && k in keys && s.locks[k].holders - {t} == {} && w in s.locks[k].waiters :: w),
        s.nextTicket)
  }

  // --- The invariant ----------------------------------------------------------------------

  /** Every lock has a holder, an exclusive one exactly one. */
  ghost predicate LocksOk(s: LockState) {
    forall k :: k in s.locks ==>
      && s.locks[k].holders != {}
      && (s.locks[k].mode.Exclusive? ==> exists t :: s.locks[k].holders == {t})
  }

  /** The per-transaction index lists exactly the locks held. */
  ghost predicate IndexOk(s: LockState) {
    forall t, k :: k in Indexed(s.txns, t) <==> Holds(s, t, k)
  }

  ghost predicate NoDups(q: seq<nat>) {
    forall i, j :: 0 <= i < j < |q| ==> q[i] != q[j]
  }

  /** Queues hold blocked, unsignalled tickets for their own key, each once. */
  ghost predicate QueuesOk(s: LockState) {
    forall k :: k in s.locks ==>
      && NoDups(s.locks[k].waiters)
      && forall w :: w in s.locks[k].waiters ==> w in s.blocked && s.blocked[w].key == k && w !in s.signalled
  }

  /** Every blocked ticket is queued on the live lock of its key, or already signalled. */
  ghost predicate TicketsOk(s: LockState) {
    && (forall n :: n in s.signalled ==> n in s.blocked)
    && (forall n :: n in s.blocked ==> n < s.nextTicket)
    && (forall n :: n in s.blocked && n !in s.signalled ==>
          s.blocked[n].key in s.locks && n in s.locks[s.blocked[n].key].waiters)
  }

  ghost predicate Inv(s: LockState) {
    LocksOk(s) && IndexOk(s) && QueuesOk(s) && TicketsOk(s)
  }

  lemma EmptyInv()
    ensures Inv(EMPTY)
  {
  }

  lemma CreateInv(s: LockState, t: nat, k: string, mode: Mode)
    requires Inv(s) && k !in s.locks
    ensures Inv(Create(s, t, k, mode))
  {
    var s' := Create(s, t, k, mode);
    assert s'.locks[k].holders == {t};
    assert IndexOk(s') by {
      forall u, j
        ensures j in Indexed(s'.txns, u) <==> Holds(s', u, j)
      {
        assert j in Indexed(s.txns, u) <==> Holds(s, u, j);
      }
    }
  }

  lemma TryJoinInv(s: LockState, t: nat, k: string, mode: Mode)
    requires Inv(s) && k in s.locks
    ensures Inv(TryJoin(s, t, k, mode).0)
  {
    var (s', r) := TryJoin(s, t, k, mode);
    assert LocksOk(s') by {
      forall j | j in s'.locks && s'.locks[j].mode.Exclusive?
        ensures exists x :: s'.locks[j].holders == {x}
      {
        assert s'.locks[j].holders == s.locks[j].holders;
      }
    }
    assert QueuesOk(s') && TicketsOk(s') by {
      hide LocksOk, IndexOk;
      TryJoinTickets(s, t, k, mode);
    }
    assert IndexOk(s') by {
      hide LocksOk, QueuesOk, TicketsOk;
      IndexAdded(s, s', t, k, r.Granted?);
    }
  }

  lemma TryJoinTickets(s: LockState, t: nat, k: string, mode: Mode)
    requires QueuesOk(s) && TicketsOk(s) && k in s.locks
    ensures QueuesOk(TryJoin(s, t, k, mode).0) && TicketsOk(TryJoin(s, t, k, mode).0)
  {
    var (s', r) := TryJoin(s, t, k, mode);
    if r.Blocked? {
      var n, q, q' := s.nextTicket, s.locks[k].waiters, s'.locks[k].waiters;
      assert q' == q + [n];
      assert n !in q && n !in s.blocked && n !in s.signalled;
      forall i, j | 0 <= i < j < |q'|
        ensures q'[i] != q'[j]
      {
        assert q[i] in q;
      }
      forall m | m in s'.blocked && m !in s'.signalled
        ensures s'.blocked[m].key in s'.locks && m in s'.locks[s'.blocked[m].key].waiters
      {
        if m == n {
          assert q'[|q|] == n;
        } else {
          assert s.blocked[m].key in s.locks && m in s.locks[s.blocked[m].key].waiters;
        }
      }
    }
  }

  /** The index stays exact when a transaction is added to one lock and to its index entry. */
  lemma IndexAdded(s: LockState, s': LockState, t: nat, k: string, added: bool)
    requires IndexOk(s)
    requires s'.txns == if added then AddTxnLock(s.txns, t, k) else s.txns
    requires forall u, j :: Holds(s', u, j) <==> Holds(s, u, j) || (added && u == t && j == k)
    ensures IndexOk(s')
  {
    forall u, j
      ensures j in Indexed(s'.txns, u) <==> Holds(s', u, j)
    {
      assert j in Indexed(s.txns, u) <==> Holds(s, u, j);
    }
  }

  /** Granting or queueing a request keeps the invariant. */
  lemma AcquireInv(s: LockState, t: nat, k: string, mode: Mode)
    requires Inv(s)
    ensures Inv(Acquire(s, t, k, mode).0)
  {
    if k !in s.locks {
      CreateInv(s, t, k, mode);
    } else {
      var lk := s.locks[k];
      if t in lk.holders && (lk.mode.Exclusive? || mode.Shared?) {
      } else if t in lk.holders && |lk.holders| == 1 {
        Singleton(lk.holders, t);
        var s' := Acquire(s, t, k, mode).0;
        forall u, j
          ensures j in Indexed(s'.txns, u) <==> Holds(s', u, j)
        {
          assert j in Indexed(s.txns, u) <==> Holds(s, u, j);
        }
      } else {
        TryJoinInv(s, t, k, mode);
      }
    }
  }

  lemma Singleton(holders: set<nat>, t: nat)
    requires t in holders && |holders| == 1
    ensures holders == {t}
  {
    var rest := holders - {t};
    assert |rest| == 0;
    assert holders == rest + {t};
  }

  lemma WakeInv(s: LockState, n: nat)
    requires Inv(s) && n in s.blocked && n in s.signalled
    ensures Inv(Wake(s, n).0)
  {
    var r := s.blocked[n];
    var s1 := s.(blocked := s.blocked - {n}, signalled := s.signalled - {n});
    assert IndexOk(s1) by {
      forall u, j
        ensures j in Indexed(s1.txns, u) <==> Holds(s1, u, j)
      {
        assert j in Indexed(s.txns, u) <==> Holds(s, u, j);
      }
    }
    if r.key !in s1.locks {
      CreateInv(s1, r.txn, r.key, r.mode);
    } else {
      TryJoinInv(s1, r.txn, r.key, r.mode);
    }
  }

  /** Dropping a holder removes one (transaction, key) pair and touches no queue that stays. */
  lemma DropEffect(s: LockState, t: nat, k: string)
    ensures forall u, j :: Holds(DropHolder(s, t, k), u, j) <==> Holds(s, u, j) && !(u == t && j == k)
    ensures forall j :: j in DropHolder(s, t, k).locks ==>
              && j in s.locks && DropHolder(s, t, k).locks[j].mode == s.locks[j].mode
              && DropHolder(s, t, k).locks[j].waiters == s.locks[j].waiters
              && DropHolder(s, t, k).locks[j].holders <= s.locks[j].holders
  {
    var s' := DropHolder(s, t, k);
    forall u, j
      ensures Holds(s', u, j) <==> Holds(s, u, j) && !(u == t && j == k)
    {
      if Holds(s, u, k) && u != t {
        assert u in s.locks[k].holders - {t};
      }
    }
  }

  lemma DropTickets(s: LockState, t: nat, k: string)
    requires QueuesOk(s) && TicketsOk(s)
    ensures QueuesOk(DropHolder(s, t, k)) && TicketsOk(DropHolder(s, t, k))
  {
    var s' := DropHolder(s, t, k);
    forall j, w | j in s'.locks && w in s'.locks[j].waiters
      ensures w in s'.blocked && s'.blocked[w].key == j && w !in s'.signalled
    {
      assert w in s.locks[j].waiters;
    }
    forall m | m in s'.blocked && m !in s'.signalled
      ensures s'.blocked[m].key in s'.locks && m in s'.locks[s'.blocked[m].key].waiters
    {
      assert s.blocked[m].key in s.locks && m in s.locks[s.blocked[m].key].waiters;
    }
  }

  lemma DropLocks(s: LockState, t: nat, k: string)
    requires LocksOk(s)
    ensures LocksOk(DropHolder(s, t, k))
  {
    var s' := DropHolder(s, t, k);
    forall j | j in s'.locks && s'.locks[j].mode.Exclusive?
      ensures exists x :: s'.locks[j].holders == {x}
    {
      var x :| s.locks[j].holders == {x};
      assert s'.locks[j].holders == {x};
    }
  }

  lemma ReleaseInv(s: LockState, t: nat, k: string)
    requires Inv(s)
    ensures Inv(Release(s, t, k)) && !Holds(Release(s, t, k), t, k)
  {
    hide LocksOk, QueuesOk, TicketsOk, DropHolder;
    if k in s.locks {
      var s1 := if t in s.txns then s.(txns := s.txns[t := s.txns[t] - {k}]) else s;
      SameButIndex(s, s1.txns);
      DropLocks(s1, t, k);
      DropTickets(s1, t, k);
      DropEffect(s1, t, k);
      var s' := Release(s, t, k);
      DropKeepsIndex(s1, t, k);
      forall u, j
        ensures j in Indexed(s'.txns, u) <==> Holds(s', u, j)
      {
        assert j in Indexed(s.txns, u) <==> Holds(s, u, j);
      }
    }
  }

  lemma SameButIndex(s: LockState, txns: map<nat, set<string>>)
    requires Inv(s)
    ensures var s1 := s.(txns := txns); LocksOk(s1) && QueuesOk(s1) && TicketsOk(s1)
  {
  }

  lemma DropKeepsIndex(s: LockState, t: nat, k: string)
    ensures DropHolder(s, t, k).txns == s.txns
  {
  }

  lemma ReleaseAllInv(s: LockState, t: nat)
    requires Inv(s)
    ensures Inv(ReleaseAll(s, t)) && forall k :: !Holds(ReleaseAll(s, t), t, k)
  {
    var s' := ReleaseAll(s, t);
    forall u, j
      ensures j in Indexed(s'.txns, u) <==> Holds(s', u, j)
    {
      assert j in Indexed(s.txns, u) <==> Holds(s, u, j);
      assert j in Indexed(s.txns, t) <==> Holds(s, t, j);
    }
    forall k | k in s'.locks && s'.locks[k].mode.Exclusive?
      ensures exists x :: s'.locks[k].holders == {x}
    {
      var x :| s.locks[k].holders == {x};
      assert s'.locks[k].holders == {x};
    }
  }

  /** Whatever locks are emptied, each waiter is sent one signal and had none before: a send on its one-slot channel
      does not block.
   */
  lemma SendsNeverBlock(s: LockState, k: string, j: string)
    requires Inv(s) && k in s.locks && j in s.locks
    ensures NoDups(s.locks[k].waiters) && forall w :: w in s.locks[k].waiters ==> w !in s.signalled
    ensures k != j ==> forall w :: w in s.locks[k].waiters ==> w !in s.locks[j].waiters
  {
  }

  /** Emptying a lock wakes everyone who waits on it. */
  lemma LastHolderWakesAll(s: LockState, t: nat, k: string, n: nat)
    requires Inv(s) && k in s.locks && s.locks[k].holders == {t}
    requires n in s.blocked && s.blocked[n].key == k
    ensures n in Release(s, t, k).signalled
    ensures n in ReleaseAll(s, t).signalled
    ensures !Holds(ReleaseAll(s, t), t, k) && k !in ReleaseAll(s, t).locks
  {
    assert Holds(s, t, k) && k in Indexed(s.txns, t);
  }

  // --- What the answers mean --------------------------------------------------------------

  ghost function HoldersOf(s: LockState, k: string): set<nat> { if k in s.locks then s.locks[k].holders else {} }

  /** Nothing has changed about the other locks. */
  ghost predicate OthersKept(s: LockState, s': LockState, k: string) {
    forall j :: j != k ==> (j in s'.locks <==> j in s.locks) && (j in s.locks ==> s'.locks[j] == s.locks[j])
  }

  /** The transaction has joined the holders, in the mode it asked for or a stronger one that it had. */
  ghost predicate Joined(s: LockState, s': LockState, t: nat, k: string, mode: Mode) {
    && k in s'.locks && s'.locks[k].holders == HoldersOf(s, k) + {t}
    && s'.locks[k].mode == (if mode.Exclusive? || k !in s.locks then mode else s.locks[k].mode)
    && s'.locks[k].waiters == (if k in s.locks then s.locks[k].waiters else [])
    && OthersKept(s, s', k)
  }

  /** A new ticket waits for the lock, and nobody holds anything else than before. */
  ghost predicate Queued(s: LockState, s': LockState, t: nat, k: string, mode: Mode, n: nat) {
    && k in s.locks && s'.locks == s.locks[k := s.locks[k].(waiters := s.locks[k].waiters + [n])]
    && n !in s.blocked && n !in s.signalled && n in s'.blocked && s'.blocked[n] == Wanted(t, k, mode)
    && s'.txns == s.txns
  }

  /** A request is granted unless another transaction holds the lock and one of the two wants it alone. */
  lemma AcquireBlocks(s: LockState, t: nat, k: string, mode: Mode)
    requires LocksOk(s)
    ensures Acquire(s, t, k, mode).1.Blocked? <==>
      (exists u :: u in HoldersOf(s, k) && u != t) && (s.locks[k].mode.Exclusive? || mode.Exclusive?)
  {
    if k in s.locks {
      var lk := s.locks[k];
      if t !in lk.holders {
        var u :| u in lk.holders;
        assert u in HoldersOf(s, k) && u != t;
      } else if lk.mode.Exclusive? {
        var x :| lk.holders == {x};
      } else {
        AnotherHolder(HoldersOf(s, k), t);
      }
    }
  }

  lemma AnotherHolder(holders: set<nat>, t: nat)
    requires t in holders
    ensures |holders| == 1 <==> !exists u :: u in holders && u != t
  {
    var rest := holders - {t};
    assert holders == rest + {t};
    if u :| u in holders && u != t {
      assert u in rest;
    } else {
      assert rest == {};
    }
  }

  lemma CreateAnswers(s: LockState, t: nat, k: string, mode: Mode)
    requires k !in s.locks
    ensures Joined(s, Create(s, t, k, mode), t, k, mode)
  {
    assert HoldersOf(s, k) + {t} == {t};
  }

  lemma TryJoinAnswers(s: LockState, t: nat, k: string, mode: Mode)
    requires TicketsOk(s) && k in s.locks
    ensures var (s', r) := TryJoin(s, t, k, mode);
      && (r.Blocked? <==> s.locks[k].mode.Exclusive? || mode.Exclusive?)
      && (r.Granted? ==> Joined(s, s', t, k, mode) && s'.blocked == s.blocked)
      && (r.Blocked? ==> Queued(s, s', t, k, mode, r.ticket))
      && (r.Blocked? ==> s'.blocked == s.blocked[r.ticket := Wanted(t, k, mode)])
      && s'.signalled == s.signalled
  {
  }

  /** What a request does to the table. */
  lemma AcquireAnswers(s: LockState, t: nat, k: string, mode: Mode)
    requires Inv(s)
    ensures var (s', r) := Acquire(s, t, k, mode);
      && (r.Granted? ==> Joined(s, s', t, k, mode) && s'.blocked == s.blocked)
      && (r.Blocked? ==> Queued(s, s', t, k, mode, r.ticket))
      && (r.Blocked? ==> s'.blocked == s.blocked[r.ticket := Wanted(t, k, mode)])
      && s'.signalled == s.signalled
  {
    hide IndexOk, QueuesOk, LocksOk, TicketsOk, TryJoin, Queued, Joined;
    if k !in s.locks {
      CreateAnswers(s, t, k, mode);
    } else {
      var lk := s.locks[k];
      if t in lk.holders && (lk.mode.Exclusive? || mode.Shared?) {
        HeldAlready(s, t, k, mode);
      } else if t in lk.holders && |lk.holders| == 1 {
        Upgraded(s, t, k, mode);
      } else {
        TryJoinAnswers(s, t, k, mode);
      }
    }
  }

  lemma HeldAlready(s: LockState, t: nat, k: string, mode: Mode)
    requires k in s.locks && t in s.locks[k].holders && (s.locks[k].mode.Exclusive? || mode.Shared?)
    ensures Joined(s, s, t, k, mode)
  {
    assert s.locks[k].holders + {t} == s.locks[k].holders;
  }

  lemma Upgraded(s: LockState, t: nat, k: string, mode: Mode)
    requires k in s.locks && t in s.locks[k].holders && mode.Exclusive?
    ensures Joined(s, s.(locks := s.locks[k := s.locks[k].(mode := Exclusive)]), t, k, mode)
  {
    assert s.locks[k].holders + {t} == s.locks[k].holders;
  }

  /** A woken request is granted unless somebody holds the lock and one of the two wants it alone. */
  lemma WakeAnswers(s: LockState, n: nat)
    requires Inv(s) && n in s.blocked && n in s.signalled
    ensures var (t, k, mode) := (s.blocked[n].txn, s.blocked[n].key, s.blocked[n].mode);
      var (s', r) := Wake(s, n);
      && (r.Blocked? <==> k in s.locks && (s.locks[k].mode.Exclusive? || mode.Exclusive?))
      && (r.Granted? ==> Joined(s, s', t, k, mode) && s'.blocked == s.blocked - {n})
      && (r.Blocked? ==> Queued(s, s', t, k, mode, r.ticket))
      && (r.Blocked? ==> s'.blocked == (s.blocked - {n})[r.ticket := Wanted(t, k, mode)])
      && s'.signalled == s.signalled - {n}
  {
    hide IndexOk, QueuesOk, LocksOk;
    var k, t, mode := s.blocked[n].key, s.blocked[n].txn, s.blocked[n].mode;
    var s1 := s.(blocked := s.blocked - {n}, signalled := s.signalled - {n});
    if k !in s.locks {
      CreateAnswers(s1, t, k, mode);
    } else {
      TryJoinAnswers(s1, t, k, mode);
    }
  }

  /** Who holds what after `gone` were given back, and whose turn it is: exactly those who waited for a lock that nobody
      holds any more are signalled.
   */
  ghost predicate GivenBack(s: LockState, s': LockState, t: nat, gone: set<string>) {
    && (forall u, j :: Holds(s', u, j) <==> Holds(s, u, j) && !(u == t && j in gone))
    && (forall j :: j in s'.locks ==> j in s.locks && s'.locks[j].mode == s.locks[j].mode)
    && s'.blocked == s.blocked
    && (forall n :: n in s'.signalled <==>
          n in s.signalled || (n in s.blocked && s.blocked[n].key in s.locks && s.blocked[n].key !in s'.locks))
  }

  lemma ReleaseGivesBack(s: LockState, t: nat, k: string)
    requires Inv(s)
    ensures GivenBack(s, Release(s, t, k), t, {k})
  {
    hide DropHolder, QueuesOk, TicketsOk;
    var s1 := if t in s.txns then s.(txns := s.txns[t := s.txns[t] - {k}]) else s;
    SameButIndex(s, s1.txns);
    DropEffect(s1, t, k);
    DropSignals(s1, t, k);
  }

  lemma DropSignals(s: LockState, t: nat, k: string)
    requires QueuesOk(s) && TicketsOk(s)
    ensures var s' := DropHolder(s, t, k);
      && s'.blocked == s.blocked
      && forall n :: n in s'.signalled <==>
           n in s.signalled || (n in s.blocked && s.blocked[n].key in s.locks && s.blocked[n].key !in s'.locks)
  {
  }

  lemma ReleaseAllGivesBack(s: LockState, t: nat)
    requires Inv(s)
    ensures GivenBack(s, ReleaseAll(s, t), t, s.locks.Keys)
  {
    hide LocksOk;
    var s' := ReleaseAll(s, t);
    forall u, j
      ensures Holds(s', u, j) <==> Holds(s, u, j) && !(u == t && j in s.locks)
    {
      assert j in Indexed(s.txns, t) <==> Holds(s, t, j);
      if Holds(s, u, j) && u != t {
        assert u in s.locks[j].holders - {t};
      }
    }
  }

  // --- The manager object -----------------------------------------------------------------

  class Manager {
    var locks: map<string, Entry>
    var txns: map<nat, set<string>>
    var blocked: map<nat, Wanted>
    var signalled: set<nat>
    var nextTicket: nat

    function State(): LockState
      reads this
    {
      LockState(locks, txns, blocked, signalled, nextTicket)
    }

    constructor ()
      ensures State() == EMPTY
    {
      locks, txns, blocked, signalled, nextTicket := map[], map[], map[], {}, 0;
    }

    /** The first critical section of an acquisition. */
    method Request(t: nat, k: string, mode: Mode) returns (r: Outcome)
      requires Inv(State())
      modifies this
      ensures (State(), r) == Acquire(old(State()), t, k, mode) && Inv(State())
      ensures r.Blocked? <==> k in old(locks) && (old(locks)[k].mode.Exclusive? || mode.Exclusive?)
                              && exists u :: u in old(locks)[k].holders && u != t
      ensures r.Granted? ==> Holds(State(), t, k) && (mode.Exclusive? ==> locks[k].mode.Exclusive?)
      ensures r.Granted? ==> Joined(old(State()), State(), t, k, mode) && blocked == old(blocked)
      ensures r.Blocked? ==> Queued(old(State()), State(), t, k, mode, r.ticket) && signalled == old(signalled)
    {
      AcquireInv(State(), t, k, mode);
      AcquireAnswers(State(), t, k, mode);
      AcquireBlocks(State(), t, k, mode);
      if k !in locks {
        locks := locks[k := Entry(mode, {t}, [])];
        Index(t, k);
        return Granted;
      }
      var lk := locks[k];
      if t in lk.holders {
        if lk.mode.Exclusive? || mode.Shared? {
          return Granted;
        }
        if |lk.holders| == 1 {
          locks := locks[k := lk.(mode := Exclusive)];
          return Granted;
        }
      }
      r := Loop(t, k, mode);
    }

    /** The critical section that follows a received signal. */
    method Resume(n: nat) returns (r: Outcome)
      requires Inv(State()) && n in blocked && n in signalled
      modifies this
      ensures (State(), r) == Wake(old(State()), n) && Inv(State())
      ensures var q := old(blocked)[n];
        && (r.Blocked? <==> q.key in old(locks) && (old(locks)[q.key].mode.Exclusive? || q.mode.Exclusive?))
        && (r.Granted? ==> Holds(State(), q.txn, q.key) && (q.mode.Exclusive? ==> locks[q.key].mode.Exclusive?))
        && (r.Granted? ==> Joined(old(State()), State(), q.txn, q.key, q.mode) && blocked == old(blocked) - {n})
        && (r.Blocked? ==> Queued(old(State()), State(), q.txn, q.key, q.mode, r.ticket))
        && signalled == old(signalled) - {n}
    {
      WakeInv(State(), n);
      WakeAnswers(State(), n);
      var q := blocked[n];
      blocked, signalled := blocked - {n}, signalled - {n};
      if q.key !in locks {
        locks := locks[q.key := Entry(q.mode, {q.txn}, [])];
        Index(q.txn, q.key);
        return Granted;
      }
      r := Loop(q.txn, q.key, q.mode);
    }

    /** One round of the wait loop. */
    method Loop(t: nat, k: string, mode: Mode) returns (r: Outcome)
      requires k in locks
      modifies this
      ensures (State(), r) == TryJoin(old(State()), t, k, mode)
    {
      var lk := locks[k];
      var hasConflict := false;
      if lk.mode.Exclusive? || mode.Exclusive? {
        hasConflict := true;
      }
      if !hasConflict {
        locks := locks[k := lk.(holders := lk.holders + {t})];
        Index(t, k);
        return Granted;
      }
      var n := nextTicket;
      locks := locks[k := lk.(waiters := lk.waiters + [n])];
      blocked := blocked[n := Wanted(t, k, mode)];
      nextTicket := n + 1;
      return Blocked(n);
    }

    method Index(t: nat, k: string)
      modifies this`txns
      ensures txns == AddTxnLock(old(txns), t, k)
    {
      var keys := if t in txns then txns[t] else {};
      txns := txns[t := keys + {k}];
    }

    /** A transaction leaves one lock. The tickets it signals were never signalled before, so that a send
        on their one-slot channel does not block.
     */
    method Drop(t: nat, k: string)
      modifies this`locks, this`signalled
      ensures State() == DropHolder(old(State()), t, k)
    {
      if k !in locks {
        return;
      }
      var lk := locks[k];
      var rest := lk.holders - {t};
      if rest == {} {
        locks := locks - {k};
        signalled := signalled + (set w | w in lk.waiters);
      } else {
        locks := locks[k := lk.(holders := rest)];
      }
    }

    /** Gives one lock back. */
    method ReleaseOne(t: nat, k: string)
      requires Inv(State())
      modifies this
      ensures State() == Release(old(State()), t, k) && Inv(State())
      ensures GivenBack(old(State()), State(), t, {k})
    {
      ReleaseGivesBack(State(), t, k);
      ReleaseInv(State(), t, k);
      if k !in locks {
        return;
      }
      if t in txns {
        txns := txns[t := txns[t] - {k}];
      }
      Drop(t, k);
    }

    /** Commit or abort: gives every lock of the transaction back, in whatever order. */
    method Finish(t: nat)
      requires Inv(State())
      modifies this
      ensures State() == ReleaseAll(old(State()), t) && Inv(State())
      ensures GivenBack(old(State()), State(), t, old(locks).Keys)
    {
      hide Inv, Partial, DropHolder, GivenBack;
      ReleaseAllGivesBack(State(), t);
      ReleaseAllInv(State(), t);
      if t !in txns {
        return;
      }
      ghost var s := State();
      PartialNone(s, t);
      var keys := txns[t];
      var todo := keys;
      ghost var done: set<string> := {};
      while todo != {}
        invariant todo + done == keys && todo !! done
        invariant State() == Partial(s, t, done)
        decreases todo
      {
        var k :| k in todo;
        PartialStep(s, t, done, k);
        Drop(t, k);
        todo, done := todo - {k}, done + {k};
      }
      assert done == keys;
      PartialAll(s, t);
      txns := txns - {t};
    }
  }

  /** The state after the locks in `done` were dropped. */
  ghost function Partial(s: LockState, t: nat, done: set<string>): LockState {
    LockState(
      map k | k in s.locks && !(k in done && s.locks[k].holders - {t} == {})
        :: if k in done then s.locks[k].(holders := s.locks[k].holders - {t}) else s.locks[k],
      s.txns,
      s.blocked,
      s.signalled + (set k, w |
        k in s.locks && k in done && s.locks[k].holders - {t} == {} && w in s.locks[k].waiters :: w),
      s.nextTicket)
  }

  lemma PartialNone(s: LockState, t: nat)
    ensures Partial(s, t, {}) == s
  {
    assert Partial(s, t, {}).locks == s.locks;
  }

  lemma PartialAll(s: LockState, t: nat)
    requires t in s.txns
    ensures Partial(s, t, s.txns[t]).txns == s.txns
    ensures Partial(s, t, s.txns[t]).(txns := s.txns - {t}) == ReleaseAll(s, t)
  {
  }

  lemma PartialStep(s: LockState, t: nat, done: set<string>, k: string)
    requires k !in done
    ensures Partial(s, t, done + {k}) == DropHolder(Partial(s, t, done), t, k)
  {
    var a, b := Partial(s, t, done + {k}), DropHolder(Partial(s, t, done), t, k);
    assert a.locks.Keys == b.locks.Keys;
    assert a.locks == b.locks;
    assert a.signalled == b.signalled;
  }
}
