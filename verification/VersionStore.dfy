/** The optimistic version store: version chains per key, snapshot reads, validation at commit. Every call takes the
    time it runs at; the clock is strictly increasing.
 */
module VersionStore {
  import opened Wrappers

  type Key = string
  type Value = string

  /** One committed version; a missing value is a deletion. */
  datatype Version = Version(version: nat, txn: nat, value: Option<Value>, expires: Option<nat>)

  type Chains = map<Key, seq<Version>>

  function Chain(recs: Chains, k: Key): seq<Version> { if k in recs then recs[k] else [] }

  // --- What a snapshot sees ---------------------------------------------------------------

  predicate Visible(v: Version, txn: nat, readTs: nat) { v.txn <= txn || v.version <= readTs }

  ghost predicate NewestVisible(chain: seq<Version>, txn: nat, readTs: nat, i: int) {
    && 0 <= i < |chain| && Visible(chain[i], txn, readTs)
    && forall j :: i < j < |chain| ==> !Visible(chain[j], txn, readTs)
  }

  datatype Answer = Found(value: Value) | Gone | Unknown | NoTransaction

  predicate Expired(v: Version, now: nat) { v.value.None? || (v.expires.Some? && now > v.expires.value) }

  /** What a read answers: by the newest visible version, unless deleted or expired. */
  ghost predicate Answers(chain: seq<Version>, txn: nat, readTs: nat, now: nat, a: Answer) {
    match a
    case Found(x) =>
      exists i :: NewestVisible(chain, txn, readTs, i) && !Expired(chain[i], now) && chain[i].value == Some(x)
    case Gone => exists i :: NewestVisible(chain, txn, readTs, i) && Expired(chain[i], now)
    case Unknown => forall i :: 0 <= i < |chain| ==> !Visible(chain[i], txn, readTs)
    case NoTransaction => false
  }

  // --- Invariant --------------------------------------------------------------------------

  /** A chain ascends strictly in time. */
  ghost predicate Ascends(chain: seq<Version>) {
    forall i, j :: 0 <= i < j < |chain| ==> chain[i].version < chain[j].version
  }

  /** Two transactions that wrote one key did not overlap: the later began after the earlier committed. */
  ghost predicate Apart(chain: seq<Version>, begun: map<nat, nat>) {
    forall i, j :: 0 <= i < j < |chain| && chain[i].txn != chain[j].txn ==>
      chain[j].txn in begun && chain[i].version < begun[chain[j].txn] < chain[j].version
  }

  /** Times passed, with begins and commits at different times. */
  ghost predicate Past(chain: seq<Version>, begun: map<nat, nat>, clock: nat) {
    && (forall i :: 0 <= i < |chain| ==> 0 < chain[i].version <= clock)
    && (forall i, t :: 0 <= i < |chain| && t in begun ==> chain[i].version != begun[t])
  }

  ghost predicate ChainInv(chain: seq<Version>, begun: map<nat, nat>, clock: nat) {
    Ascends(chain) && Apart(chain, begun) && Past(chain, begun, clock)
  }

  ghost predicate Inv(recs: Chains, begun: map<nat, nat>, active: map<nat, nat>, gen: nat, clock: nat) {
    && (forall k :: k in recs ==> ChainInv(recs[k], begun, clock))
    && (forall t :: t in begun ==> t <= gen && begun[t] <= clock)
    && (forall t :: t in active ==> t in begun && active[t] == begun[t])
    && (forall s, t :: s in begun && t in begun && s < t ==> begun[s] < begun[t])
  }

  /** Chains only grow, by versions of a later time. */
  ghost predicate Grows(a: Chains, b: Chains, since: nat) {
    forall k :: GrowsAt(Chain(a, k), Chain(b, k), since)
  }

  ghost predicate GrowsAt(a: seq<Version>, b: seq<Version>, since: nat) {
    a <= b && forall i :: |a| <= i < |b| ==> b[i].version > since
  }

  lemma GrowsTrans(a: Chains, b: Chains, c: Chains, since: nat, later: nat)
    requires Grows(a, b, since) && Grows(b, c, later) && since <= later
    ensures Grows(a, c, since)
  {
    forall k
      ensures GrowsAt(Chain(a, k), Chain(c, k), since)
    {
      assert GrowsAt(Chain(a, k), Chain(b, k), since) && GrowsAt(Chain(b, k), Chain(c, k), later);
    }
  }

  /** Appending one version that passed validation. */
  lemma AppendKeeps(chain: seq<Version>, v: Version, begun: map<nat, nat>, readTs: nat, clock: nat)
    requires ChainInv(chain, begun, clock) && v.version > clock && forall t :: t in begun ==> begun[t] <= clock
    requires chain == [] || chain[|chain| - 1].version <= readTs || chain[|chain| - 1].txn == v.txn
    requires readTs == 0 || (v.txn in begun && begun[v.txn] == readTs)
    ensures ChainInv(chain + [v], begun, v.version)
  {
    hide Ascends, Apart, Past;
    AppendAscends(chain, v, begun, clock);
    forall i | 0 <= i < |chain| && chain[i].txn != v.txn
      ensures v.txn in begun && chain[i].version < begun[v.txn] < v.version
    {
      AppendApart(chain, v, begun, readTs, clock, i);
    }
    ApartSnoc(chain, v, begun);
  }

  lemma AppendAscends(chain: seq<Version>, v: Version, begun: map<nat, nat>, clock: nat)
    requires ChainInv(chain, begun, clock) && v.version > clock && forall t :: t in begun ==> begun[t] <= clock
    ensures Ascends(chain + [v]) && Past(chain + [v], begun, v.version)
  {
    hide Apart;
  }

  lemma AppendApart(chain: seq<Version>, v: Version, begun: map<nat, nat>, readTs: nat, clock: nat, i: nat)
    requires ChainInv(chain, begun, clock) && v.version > clock && forall t :: t in begun ==> begun[t] <= clock
    requires i < |chain| && chain[i].txn != v.txn
    requires chain[|chain| - 1].version <= readTs || chain[|chain| - 1].txn == v.txn
    requires readTs == 0 || (v.txn in begun && begun[v.txn] == readTs)
    ensures v.txn in begun && chain[i].version < begun[v.txn] < v.version
  {
    var n := |chain| - 1;
    if chain[n].txn == v.txn {
      assert i < n && chain[i].version < begun[chain[n].txn];
    } else {
      assert 0 < chain[n].version <= readTs;
      assert chain[n].version != begun[v.txn];
      assert i < n ==> chain[i].version < chain[n].version;
    }
  }

  lemma ApartSnoc(chain: seq<Version>, v: Version, begun: map<nat, nat>)
    requires Apart(chain, begun)
    requires forall i :: 0 <= i < |chain| && chain[i].txn != v.txn ==>
      v.txn in begun && chain[i].version < begun[v.txn] < v.version
    ensures Apart(chain + [v], begun)
  {
    var after := chain + [v];
    assert forall i :: 0 <= i < |chain| ==> after[i] == chain[i];
  }

  // --- The store --------------------------------------------------------------------------

  predicate Conflicts(recs: Chains, k: Key, readTs: nat, txn: nat) {
    var chain := Chain(recs, k);
    chain != [] && chain[|chain| - 1].version > readTs && chain[|chain| - 1].txn != txn
  }

  /** What the commit of a transaction appends. */
  datatype Commit = Commit(txn: nat, writeSet: map<Key, Option<Value>>, expires: Option<nat>, now: nat) {
    function Rec(k: Key): Version
      requires k in writeSet
    {
      Version(now, txn, writeSet[k], expires)
    }
  }

  /** The chain of `k` once the keys in `done` have their new versions. */
  function NewChain(was: Chains, k: Key, c: Commit, done: set<Key>): seq<Version> {
    if k in c.writeSet && k in done then Chain(was, k) + [c.Rec(k)] else Chain(was, k)
  }

  ghost predicate Progress(was: Chains, recs: Chains, c: Commit, done: set<Key>) {
    forall k :: Chain(recs, k) == NewChain(was, k, c, done)
  }

  lemma ProgressNothing(was: Chains, c: Commit)
    ensures Progress(was, was, c, {})
  {
  }

  lemma ProgressStep(was: Chains, recs: Chains, c: Commit, done: set<Key>, k: Key)
    requires Progress(was, recs, c, done) && k in c.writeSet && k !in done
    ensures Chain(recs, k) == Chain(was, k)
    ensures Progress(was, recs[k := Chain(recs, k) + [c.Rec(k)]], c, done + {k})
  {
    var next := recs[k := Chain(recs, k) + [c.Rec(k)]];
    assert Chain(recs, k) == NewChain(was, k, c, done);
    forall x
      ensures Chain(next, x) == NewChain(was, x, c, done + {k})
    {
      assert Chain(recs, x) == NewChain(was, x, c, done);
    }
  }

  lemma ProgressGrows(was: Chains, recs: Chains, c: Commit, done: set<Key>, clock: nat)
    requires c.now > clock && Progress(was, recs, c, done)
    ensures Grows(was, recs, clock)
  {
    hide GrowsAt, Chain;
    forall k
      ensures GrowsAt(Chain(was, k), Chain(recs, k), clock)
    {
      assert Chain(recs, k) == NewChain(was, k, c, done);
      GrowsNone(Chain(was, k), clock);
      if k in c.writeSet {
        GrowsOne(Chain(was, k), c.Rec(k), clock);
      }
    }
  }

  lemma GrowsNone(a: seq<Version>, since: nat)
    ensures GrowsAt(a, a, since)
  {
  }

  lemma GrowsOne(a: seq<Version>, v: Version, since: nat)
    requires v.version > since
    ensures GrowsAt(a, a + [v], since)
  {
  }

  lemma ChainKeeps(was: Chains, c: Commit, k: Key, begun: map<nat, nat>, active: map<nat, nat>, gen: nat, readTs: nat,
                   clock: nat)
    requires Inv(was, begun, active, gen, clock) && c.now > clock && k in c.writeSet
    requires readTs == (if c.txn in active then active[c.txn] else 0) && !Conflicts(was, k, readTs, c.txn)
    ensures ChainInv(Chain(was, k) + [c.Rec(k)], begun, c.now)
  {
    hide ChainInv;
    EmptyChain(begun, clock);
    AppendKeeps(Chain(was, k), c.Rec(k), begun, readTs, clock);
  }

  // --- Calls and runs ---------------------------------------------------------------------

  datatype State = State(recs: Chains, gen: nat, active: map<nat, nat>, begun: map<nat, nat>, clock: nat)

  const EMPTY: State := State(map[], 0, map[], map[], 0)

  datatype Call = BeginCall(at: nat) | ReadCall(txn: nat, key: Key) | CommitCall(c: Commit)

  /** The snapshot time of a transaction; 0 for one that is not running. */
  function Snapshot(s: State, txn: nat): nat { if txn in s.active then s.active[txn] else 0 }

  ghost predicate Passes(s: State, c: Commit) {
    Validated(s.recs, c.writeSet, Snapshot(s, c.txn), c.txn)
  }

  /** What one call does. Begins and commits happen at strictly later times. */
  ghost predicate Step(s: State, call: Call, s': State) {
    match call
    case BeginCall(at) =>
      at > s.clock && s' == State(s.recs, s.gen + 1, s.active[s.gen + 1 := at], s.begun[s.gen + 1 := at], at)
    case ReadCall(_, _) => s' == s
    case CommitCall(c) =>
      && c.now > s.clock && s'.gen == s.gen && s'.begun == s.begun && s'.active == s.active - {c.txn}
      && s'.clock == c.now
      && Progress(s.recs, s'.recs, c, if Passes(s, c) then c.writeSet.Keys else {})
  }

  class Store {
    var recs: Chains
    var txIdGen: nat
    var activeTx: map<nat, nat>
    ghost var begun: map<nat, nat>
    ghost var clock: nat

    ghost predicate Valid()
      reads this
    {
      Inv(recs, begun, activeTx, txIdGen, clock)
    }

    ghost function St(): State
      reads this
    {
      State(recs, txIdGen, activeTx, begun, clock)
    }

    constructor ()
      ensures Valid() && St() == EMPTY
    {
      recs, txIdGen, activeTx, begun, clock := map[], 0, map[], map[], 0;
    }

    method BeginOCC(now: nat) returns (txID: nat)
      requires Valid() && now > clock
      modifies this
      ensures Valid() && txID !in old(begun) && txID == txIdGen
      ensures Step(old(St()), BeginCall(now), St())
    {
      hide ChainInv;
      ghost var was := St();
      txIdGen := txIdGen + 1;
      txID := txIdGen;
      activeTx := activeTx[txID := now];
      begun := begun[txID := now];
      clock := now;
      StepInv(was, BeginCall(now), St());
    }

    method Read(txID: nat, key: Key, now: nat) returns (a: Answer)
      requires Valid()
      ensures a == NoTransaction <==> txID !in activeTx
      ensures txID in activeTx ==> Answers(Chain(recs, key), txID, activeTx[txID], now, a)
    {
      hide ChainInv;
      if txID !in activeTx {
        return NoTransaction;
      }
      var readTs := activeTx[txID];
      var versions := Chain(recs, key);
      var i := |versions|;
      while i > 0
        invariant 0 <= i <= |versions|
        invariant forall j :: i <= j < |versions| ==> !Visible(versions[j], txID, readTs)
      {
        i := i - 1;
        var v := versions[i];
        if Visible(v, txID, readTs) {
          assert NewestVisible(versions, txID, readTs, i);
          if Expired(v, now) {
            return Gone;
          }
          return Found(v.value.value);
        }
      }
      a := Unknown;
    }

    method ValidateAndCommit(txID: nat, writeSet: map<Key, Option<Value>>, expires: Option<nat>, now: nat)
      returns (ok: bool)
      requires Valid() && now > clock
      modifies this
      ensures Valid() && Grows(old(recs), recs, old(clock))
      ensures ok == Passes(old(St()), Commit(txID, writeSet, expires, now))
      ensures Step(old(St()), CommitCall(Commit(txID, writeSet, expires, now)), St())
    {
      hide Inv, Progress, Validated, Grows;
      ghost var was := St();
      var readTs := if txID in activeTx then activeTx[txID] else 0;
      var c := Commit(txID, writeSet, expires, now);
      ok := Validate(txID, writeSet, readTs);
      if ok {
        AppendAll(c);
      } else {
        ProgressNothing(recs, c);
      }
      ProgressGrows(was.recs, recs, c, if ok then writeSet.Keys else {}, clock);
      activeTx := activeTx - {txID};
      clock := now;
      StepInv(was, CommitCall(c), St());
    }

    method Validate(txID: nat, writeSet: map<Key, Option<Value>>, readTs: nat) returns (ok: bool)
      ensures ok <==> Validated(recs, writeSet, readTs, txID)
    {
      hide Conflicts;
      var todo := writeSet.Keys;
      while todo != {}
        invariant todo <= writeSet.Keys
        invariant forall k :: k in writeSet && k !in todo ==> !Conflicts(recs, k, readTs, txID)
        decreases |todo|
      {
        var k :| k in todo;
        if Conflicts(recs, k, readTs, txID) {
          return false;
        }
        todo := todo - {k};
      }
      ok := true;
    }

    method AppendAll(c: Commit)
      modifies this`recs
      ensures Progress(old(recs), recs, c, c.writeSet.Keys)
    {
      hide Progress;
      ghost var was := recs;
      ProgressNothing(was, c);
      var todo := c.writeSet.Keys;
      ghost var done := {};
      while todo != {}
        invariant todo <= c.writeSet.Keys && done == c.writeSet.Keys - todo
        invariant Progress(was, recs, c, done)
        decreases |todo|
      {
        var k :| k in todo;
        ProgressStep(was, recs, c, done, k);
        recs := recs[k := Chain(recs, k) + [c.Rec(k)]];
        todo, done := todo - {k}, done + {k};
      }
      assert done == c.writeSet.Keys;
    }
  }

  /** No key of the write set was last written by another transaction since the snapshot. */
  ghost predicate Validated(recs: Chains, writeSet: map<Key, Option<Value>>, readTs: nat, txn: nat) {
    forall k :: k in writeSet ==> !Conflicts(recs, k, readTs, txn)
  }

  lemma EmptyChain(begun: map<nat, nat>, clock: nat)
    ensures ChainInv([], begun, clock)
  {
  }

  lemma TickKeeps(recs: Chains, begun: map<nat, nat>, clock: nat, now: nat)
    requires now > clock && forall k :: k in recs ==> ChainInv(recs[k], begun, clock)
    ensures forall k :: k in recs ==> ChainInv(recs[k], begun, now)
  {
    hide Ascends, Apart;
  }

  lemma BeginKeeps(chain: seq<Version>, begun: map<nat, nat>, id: nat, clock: nat, now: nat)
    requires ChainInv(chain, begun, clock) && id !in begun && now > clock
    ensures ChainInv(chain, begun[id := now], now)
  {
    hide Ascends;
    forall i, j | 0 <= i < j < |chain| && chain[i].txn != chain[j].txn
      ensures chain[j].txn in begun && chain[i].version < begun[chain[j].txn] < chain[j].version && chain[j].txn != id
    {
    }
  }

  ghost predicate StateInv(s: State) { Inv(s.recs, s.begun, s.active, s.gen, s.clock) }

  /** Every call keeps the invariant. */
  lemma StepInv(s: State, call: Call, s': State)
    requires StateInv(s) && Step(s, call, s')
    ensures StateInv(s') && s.clock <= s'.clock
  {
    hide ChainInv, Progress, Validated;
    match call
    case BeginCall(at) =>
      forall k | k in s.recs
        ensures ChainInv(s.recs[k], s'.begun, at)
      {
        BeginKeeps(s.recs[k], s.begun, s.gen + 1, s.clock, at);
      }
    case ReadCall(_, _) =>
    case CommitCall(c) =>
      TickKeeps(s.recs, s.begun, s.clock, c.now);
      forall k | k in s'.recs
        ensures ChainInv(s'.recs[k], s'.begun, c.now)
      {
        CommitChain(s, c, s', k);
      }
  }

  lemma CommitChain(s: State, c: Commit, s': State, k: Key)
    requires StateInv(s) && Step(s, CommitCall(c), s') && k in s'.recs
    ensures ChainInv(s'.recs[k], s'.begun, c.now)
  {
    hide ChainInv;
    assert Chain(s'.recs, k) == NewChain(s.recs, k, c, if Passes(s, c) then c.writeSet.Keys else {});
    EmptyChain(s.begun, c.now);
    TickKeeps(s.recs, s.begun, s.clock, c.now);
    if Passes(s, c) && k in c.writeSet {
      ChainKeeps(s.recs, c, k, s.begun, s.active, s.gen, Snapshot(s, c.txn), s.clock);
    }
  }

  /** The states of a run of calls from the empty store. */
  ghost predicate Run(states: seq<State>, calls: seq<Call>) {
    && |states| == |calls| + 1 && states[0] == EMPTY
    && forall i :: 0 <= i < |calls| ==> Step(states[i], calls[i], states[i + 1])
  }

  lemma {:induction false} RunInv(states: seq<State>, calls: seq<Call>, n: nat)
    requires Run(states, calls) && n <= |calls|
    ensures StateInv(states[n])
    decreases n
  {
    hide StateInv, Step;
    if n == 0 {
      EmptyInv();
    } else {
      RunInv(states, calls, n - 1);
      StepInv(states[n - 1], calls[n - 1], states[n]);
    }
  }

  lemma EmptyInv()
    ensures StateInv(EMPTY)
  {
  }

  lemma {:induction false} ClockRises(states: seq<State>, calls: seq<Call>, i: nat, j: nat)
    requires Run(states, calls) && i <= j <= |calls|
    ensures states[i].clock <= states[j].clock
    decreases j - i
  {
    hide StateInv, Step;
    if i < j {
      ClockRises(states, calls, i, j - 1);
      RunInv(states, calls, j - 1);
      StepInv(states[j - 1], calls[j - 1], states[j]);
    }
  }

  /** A commit that went through, with the key in its write set. */
  ghost predicate Wrote(states: seq<State>, calls: seq<Call>, i: nat, k: Key)
    requires Run(states, calls) && i < |calls|
  {
    calls[i].CommitCall? && k in calls[i].c.writeSet && Passes(states[i], calls[i].c)
  }

  ghost predicate WroteAs(states: seq<State>, calls: seq<Call>, i: nat, k: Key, v: Version)
    requires Run(states, calls) && i < |calls|
  {
    Wrote(states, calls, i, k) && v == calls[i].c.Rec(k)
  }

  /** A version that a commit between two points of the run wrote. */
  ghost predicate WrittenBetween(states: seq<State>, calls: seq<Call>, i: nat, j: nat, k: Key, v: Version)
    requires Run(states, calls) && j <= |calls|
  {
    exists m: nat :: i <= m < j && WroteAs(states, calls, m, k, v)
  }

  /** From one state of a run to a later one a chain grows by what the commits in between wrote. */
  lemma {:induction false} ChainBetween(states: seq<State>, calls: seq<Call>, i: nat, j: nat, k: Key)
    requires Run(states, calls) && i <= j <= |calls|
    ensures Chain(states[i].recs, k) <= Chain(states[j].recs, k)
    ensures var a, c := Chain(states[i].recs, k), Chain(states[j].recs, k);
      forall x :: |a| <= x < |c| ==> WrittenBetween(states, calls, i, j, k, c[x])
    decreases j - i
  {
    hide WroteAs, Step, WrittenBetween, Wrote;
    if i < j {
      ChainBetween(states, calls, i, j - 1, k);
      LastStep(states, calls, j, k);
      var a, b, c := Chain(states[i].recs, k), Chain(states[j - 1].recs, k), Chain(states[j].recs, k);
      forall x | |a| <= x < |c|
        ensures WrittenBetween(states, calls, i, j, k, c[x])
      {
        if x < |b| {
          assert c[x] == b[x];
          WrittenLonger(states, calls, i, j, k, c[x]);
        } else {
          WrittenNow(states, calls, i, j, k, c[x]);
        }
      }
    }
  }

  lemma WrittenLonger(states: seq<State>, calls: seq<Call>, i: nat, j: nat, k: Key, v: Version)
    requires Run(states, calls) && 0 < j <= |calls| && WrittenBetween(states, calls, i, j - 1, k, v)
    ensures WrittenBetween(states, calls, i, j, k, v)
  {
    hide WroteAs;
  }

  lemma WrittenNow(states: seq<State>, calls: seq<Call>, i: nat, j: nat, k: Key, v: Version)
    requires Run(states, calls) && i < j <= |calls| && WroteAs(states, calls, j - 1, k, v)
    ensures WrittenBetween(states, calls, i, j, k, v)
  {
    hide WroteAs;
  }

  /** What one call of a run does to one chain. */
  lemma LastStep(states: seq<State>, calls: seq<Call>, j: nat, k: Key)
    requires Run(states, calls) && 0 < j <= |calls|
    ensures var b, c := Chain(states[j - 1].recs, k), Chain(states[j].recs, k);
      if Wrote(states, calls, j - 1, k)
      then |c| == |b| + 1 && c[..|b|] == b && WroteAs(states, calls, j - 1, k, c[|b|])
      else c == b
  {
    var s, call, s' := states[j - 1], calls[j - 1], states[j];
    assert Step(s, call, s');
    if call.CommitCall? {
      assert Chain(s'.recs, k) == NewChain(s.recs, k, call.c, if Passes(s, call.c) then call.c.writeSet.Keys else {});
    }
  }

  /** Where a begin time comes from. */
  lemma {:induction false} BegunAt(states: seq<State>, calls: seq<Call>, n: nat, t: nat) returns (b: nat)
    requires Run(states, calls) && n <= |calls| && t in states[n].begun
    ensures b < n && calls[b] == BeginCall(states[n].begun[t]) && states[b].gen + 1 == t
    decreases n
  {
    assert Step(states[n - 1], calls[n - 1], states[n]);
    if t in states[n - 1].begun && states[n - 1].begun[t] == states[n].begun[t] {
      b := BegunAt(states, calls, n - 1, t);
    } else {
      b := n - 1;
    }
  }

  /** No lost update, in every run: of two commits to one key by different transactions, the later transaction was begun
      between them.
   */
  lemma NoLostUpdate(states: seq<State>, calls: seq<Call>, i: nat, j: nat, k: Key) returns (b: nat)
    requires Run(states, calls) && i < j < |calls| && Wrote(states, calls, i, k) && Wrote(states, calls, j, k)
    requires calls[i].c.txn != calls[j].c.txn
    ensures i < b < j && calls[b].BeginCall? && states[b].gen + 1 == calls[j].c.txn
  {
    hide Step, StateInv, WroteAs, Passes, Chain;
    var u, v := BothStand(states, calls, i, j, k);
    RunInv(states, calls, j + 1);
    WritersApart(states[j + 1], k, |Chain(states[i].recs, k)|, u, v);
    b := BegunAt(states, calls, j + 1, v.txn);
    BetweenTimes(states, calls, i, b, j, k);
  }

  /** The two versions stand in the chain, the later one last. */
  lemma BothStand(states: seq<State>, calls: seq<Call>, i: nat, j: nat, k: Key) returns (u: Version, v: Version)
    requires Run(states, calls) && i < j < |calls| && Wrote(states, calls, i, k) && Wrote(states, calls, j, k)
    ensures var n, c := |Chain(states[i].recs, k)|, Chain(states[j + 1].recs, k);
      n < |c| - 1 && c[n] == u && c[|c| - 1] == v
    ensures calls[i].CommitCall? && u.txn == calls[i].c.txn && u.version == calls[i].c.now
    ensures calls[j].CommitCall? && v.txn == calls[j].c.txn && v.version == calls[j].c.now
  {
    hide Step, Passes, Chain;
    LastStep(states, calls, i + 1, k);
    LastStep(states, calls, j + 1, k);
    ChainBetween(states, calls, i + 1, j, k);
    var n, c := |Chain(states[i].recs, k)|, Chain(states[j + 1].recs, k);
    u, v := c[n], c[|c| - 1];
    assert u == Chain(states[i + 1].recs, k)[n];
  }

  lemma WritersApart(s: State, k: Key, n: nat, u: Version, v: Version)
    requires StateInv(s) && n < |Chain(s.recs, k)| - 1 && Chain(s.recs, k)[n] == u && u.txn != v.txn
    requires Chain(s.recs, k)[|Chain(s.recs, k)| - 1] == v
    ensures v.txn in s.begun && u.version < s.begun[v.txn] < v.version
  {
    assert ChainInv(s.recs[k], s.begun, s.clock);
    assert Apart(s.recs[k], s.begun);
  }

  /** Calls happen in the order of their times. */
  lemma BetweenTimes(states: seq<State>, calls: seq<Call>, i: nat, b: nat, j: nat, k: Key)
    requires Run(states, calls) && i < j < |calls| && b <= j && calls[i].CommitCall? && calls[j].CommitCall?
    requires calls[b].BeginCall? && calls[i].c.now < calls[b].at < calls[j].c.now
    ensures i < b < j
  {
    assert Step(states[i], calls[i], states[i + 1]) && Step(states[b], calls[b], states[b + 1]);
    if b < i {
      ClockRises(states, calls, b + 1, i);
    }
  }

  /** Repeated reads, in every run: the version a running transaction sees of a key changes between two points of the
      run only if in between the transaction itself, or one with a smaller number, committed to the key.
   */
  lemma ReadsRepeat(states: seq<State>, calls: seq<Call>, i: nat, j: nat, k: Key, txn: nat, v: int)
    requires Run(states, calls) && i <= j <= |calls| && txn in states[i].active
    requires forall m: nat :: i <= m < j && Wrote(states, calls, m, k) ==> calls[m].CommitCall? && calls[m].c.txn > txn
    ensures var readTs := states[i].active[txn];
      NewestVisible(Chain(states[i].recs, k), txn, readTs, v) <==>
      NewestVisible(Chain(states[j].recs, k), txn, readTs, v)
  {
    hide Step, Wrote, WroteAs, ChainInv, Chain;
    ChainBetween(states, calls, i, j, k);
    RunInv(states, calls, i);
    var x, y, readTs := Chain(states[i].recs, k), Chain(states[j].recs, k), states[i].active[txn];
    forall n | |x| <= n < |y|
      ensures !Visible(y[n], txn, readTs)
    {
      var m: nat :| i <= m < j && WroteAs(states, calls, m, k, y[n]);
      WroteLater(states, calls, i, m, k, y[n]);
    }
    assert forall n :: 0 <= n < |x| ==> x[n] == y[n];
  }

  lemma WroteLater(states: seq<State>, calls: seq<Call>, i: nat, m: nat, k: Key, v: Version)
    requires Run(states, calls) && i <= m < |calls| && WroteAs(states, calls, m, k, v)
    ensures Wrote(states, calls, m, k) && calls[m].CommitCall? && v.txn == calls[m].c.txn && v.version > states[i].clock
  {
    assert Step(states[m], calls[m], states[m + 1]);
    ClockRises(states, calls, i, m);
  }

  // --- Reads and commits of a run ---------------------------------------------------------

  /** The transaction begun by call `b` is running at point `n`. */
  ghost predicate RunningFrom(states: seq<State>, calls: seq<Call>, b: nat, n: nat, txn: nat)
    requires Run(states, calls) && n <= |calls|
  {
    b < n && calls[b].BeginCall? && states[b].gen + 1 == txn && txn in states[n].active
  }

  /** Numbers are given once. */
  lemma {:induction false} NumbersRise(states: seq<State>, calls: seq<Call>, i: nat, j: nat)
    requires Run(states, calls) && i <= j <= |calls|
    ensures states[i].gen <= states[j].gen
    decreases j - i
  {
    if i < j {
      NumbersRise(states, calls, i, j - 1);
      assert Step(states[j - 1], calls[j - 1], states[j]);
    }
  }

  /** Its snapshot is the time of its begin, and it has not committed. */
  lemma {:induction false} SnapshotOf(states: seq<State>, calls: seq<Call>, b: nat, n: nat, txn: nat)
    requires Run(states, calls) && n <= |calls| && RunningFrom(states, calls, b, n, txn)
    ensures states[n].active[txn] == calls[b].at
    ensures forall m: nat :: b < m < n && calls[m].CommitCall? ==> calls[m].c.txn != txn
    decreases n
  {
    hide Progress, Passes;
    assert Step(states[n - 1], calls[n - 1], states[n]);
    if b < n - 1 {
      NumbersRise(states, calls, b + 1, n - 1);
      assert Step(states[b], calls[b], states[b + 1]);
      SnapshotOf(states, calls, b, n - 1, txn);
    }
  }

  /** Where the versions of a chain come from: each from a commit, in the order of the commits. */
  ghost predicate Sources(states: seq<State>, calls: seq<Call>, n: nat, k: Key, at: seq<nat>)
    requires Run(states, calls) && n <= |calls|
  {
    var c := Chain(states[n].recs, k);
    && |at| == |c|
    && (forall i :: 0 <= i < |at| ==> at[i] < n && WroteAs(states, calls, at[i], k, c[i]))
    && (forall i, j :: 0 <= i < j < |at| ==> at[i] < at[j])
    && (forall m: nat :: m < n && Wrote(states, calls, m, k) ==> m in at)
  }

  lemma {:induction false} ChainSources(states: seq<State>, calls: seq<Call>, n: nat, k: Key) returns (at: seq<nat>)
    requires Run(states, calls) && n <= |calls|
    ensures Sources(states, calls, n, k, at)
    decreases n
  {
    hide Step, WroteAs, Wrote;
    if n == 0 {
      at := [];
    } else {
      var before := ChainSources(states, calls, n - 1, k);
      LastStep(states, calls, n, k);
      at := if Wrote(states, calls, n - 1, k) then before + [n - 1] else before;
      forall m: nat | m < n && Wrote(states, calls, m, k)
        ensures m in at
      {
        assert m < n - 1 ==> m in before;
      }
    }
  }

  /** The commit is one the transaction sees: it happened before the begin, or carries no greater number. */
  ghost predicate SeesCommit(states: seq<State>, calls: seq<Call>, b: nat, m: nat, k: Key, txn: nat)
    requires Run(states, calls) && m < |calls|
  {
    Wrote(states, calls, m, k) && (m < b || calls[m].c.txn <= txn)
  }

  lemma VersionSeen(states: seq<State>, calls: seq<Call>, b: nat, n: nat, m: nat, k: Key, txn: nat, v: Version)
    requires Run(states, calls) && n <= |calls| && RunningFrom(states, calls, b, n, txn)
    requires m < n && WroteAs(states, calls, m, k, v)
    ensures Visible(v, txn, states[n].active[txn]) <==> SeesCommit(states, calls, b, m, k, txn)
  {
    hide Progress, Passes;
    SnapshotOf(states, calls, b, n, txn);
    assert Step(states[m], calls[m], states[m + 1]) && Step(states[b], calls[b], states[b + 1]);
    if m < b {
      ClockRises(states, calls, m + 1, b);
    } else {
      ClockRises(states, calls, b + 1, m);
    }
  }

  /** What a read answers, in every run: the value of the last commit to the key that the transaction sees, until it
      expires; that it is gone if that commit deleted it or it has expired.
   */
  lemma ReadInRun(states: seq<State>, calls: seq<Call>, b: nat, n: nat, m: nat, k: Key, txn: nat, now: nat, a: Answer)
    requires Run(states, calls) && m < n <= |calls| && RunningFrom(states, calls, b, n, txn)
    requires Answers(Chain(states[n].recs, k), txn, states[n].active[txn], now, a)
    requires SeesCommit(states, calls, b, m, k, txn)
    requires forall l: nat :: m < l < n ==> !SeesCommit(states, calls, b, l, k, txn)
    ensures a == match calls[m].c.writeSet[k]
                 case None => Gone
                 case Some(x) =>
                   if calls[m].c.expires.Some? && now > calls[m].c.expires.value then Gone else Found(x)
  {
    hide Step, WroteAs, Wrote, SeesCommit, Visible, Answers;
    var at := ChainSources(states, calls, n, k);
    var c, ts := Chain(states[n].recs, k), states[n].active[txn];
    SeenWrote(states, calls, b, m, k, txn);
    var i: nat :| i < |at| && at[i] == m;
    forall j: nat | j < |c|
      ensures Visible(c[j], txn, ts) <==> SeesCommit(states, calls, b, at[j], k, txn)
    {
      VersionSeen(states, calls, b, n, at[j], k, txn, c[j]);
    }
    NewestOnly(c, txn, ts, i, now, a);
    WroteValue(states, calls, m, k, c[i]);
  }

  /** A key without such a commit is unknown. */
  lemma ReadUnknown(states: seq<State>, calls: seq<Call>, b: nat, n: nat, k: Key, txn: nat, now: nat, a: Answer)
    requires Run(states, calls) && n <= |calls| && RunningFrom(states, calls, b, n, txn)
    requires Answers(Chain(states[n].recs, k), txn, states[n].active[txn], now, a)
    requires forall m: nat :: m < n ==> !SeesCommit(states, calls, b, m, k, txn)
    ensures a == Unknown
  {
    hide Step, WroteAs, Wrote, SeesCommit, Visible;
    var at := ChainSources(states, calls, n, k);
    var c, ts := Chain(states[n].recs, k), states[n].active[txn];
    forall j: nat | j < |c|
      ensures !Visible(c[j], txn, ts)
    {
      VersionSeen(states, calls, b, n, at[j], k, txn, c[j]);
    }
  }

  lemma SeenWrote(states: seq<State>, calls: seq<Call>, b: nat, m: nat, k: Key, txn: nat)
    requires Run(states, calls) && m < |calls| && SeesCommit(states, calls, b, m, k, txn)
    ensures Wrote(states, calls, m, k)
  {
  }

  lemma WroteValue(states: seq<State>, calls: seq<Call>, m: nat, k: Key, v: Version)
    requires Run(states, calls) && m < |calls| && WroteAs(states, calls, m, k, v)
    ensures calls[m].CommitCall? && k in calls[m].c.writeSet
    ensures v == Version(calls[m].c.now, calls[m].c.txn, calls[m].c.writeSet[k], calls[m].c.expires)
  {
    hide Passes;
  }

  /** The newest visible version decides the answer. */
  lemma NewestOnly(chain: seq<Version>, txn: nat, readTs: nat, i: nat, now: nat, a: Answer)
    requires Answers(chain, txn, readTs, now, a) && NewestVisible(chain, txn, readTs, i)
    ensures a == match chain[i].value
                 case None => Gone
                 case Some(x) => if chain[i].expires.Some? && now > chain[i].expires.value then Gone else Found(x)
  {
    hide Visible;
    assert forall j :: NewestVisible(chain, txn, readTs, j) ==> j == i;
  }

  /** The last version of a chain is that of the last commit to the key. */
  lemma LastSource(states: seq<State>, calls: seq<Call>, n: nat, k: Key) returns (m: nat)
    requires Run(states, calls) && n <= |calls|
    ensures var c := Chain(states[n].recs, k);
      if c == [] then forall l: nat :: l < n ==> !Wrote(states, calls, l, k)
      else && m < n && WroteAs(states, calls, m, k, c[|c| - 1])
           && forall l: nat :: m < l < n ==> !Wrote(states, calls, l, k)
  {
    hide Step, WroteAs, Wrote;
    var at := ChainSources(states, calls, n, k);
    m := if at == [] then 0 else at[|at| - 1];
  }

  /** First committer wins, exactly: in every run, the commit of a running transaction passes if and only if no commit
      since its begin wrote one of its keys.
   */
  lemma PassesInRun(states: seq<State>, calls: seq<Call>, b: nat, n: nat, c: Commit)
    requires Run(states, calls) && n <= |calls| && RunningFrom(states, calls, b, n, c.txn)
    ensures Passes(states[n], c) <==>
      forall m: nat, k :: b < m < n && k in c.writeSet ==> !Wrote(states, calls, m, k)
  {
    hide Step, Wrote, Conflicts;
    forall k
      ensures Conflicts(states[n].recs, k, Snapshot(states[n], c.txn), c.txn) <==>
        exists m: nat :: b < m < n && Wrote(states, calls, m, k)
    {
      ConflictInRun(states, calls, b, n, k, c.txn);
    }
  }

  lemma ConflictInRun(states: seq<State>, calls: seq<Call>, b: nat, n: nat, k: Key, txn: nat)
    requires Run(states, calls) && n <= |calls| && RunningFrom(states, calls, b, n, txn)
    ensures Conflicts(states[n].recs, k, Snapshot(states[n], txn), txn) <==>
      exists m: nat :: b < m < n && Wrote(states, calls, m, k)
  {
    hide Step, Wrote, WroteAs;
    SnapshotOf(states, calls, b, n, txn);
    var l := LastSource(states, calls, n, k);
    var c := Chain(states[n].recs, k);
    if c != [] {
      WroteValue(states, calls, l, k, c[|c| - 1]);
      SourceTime(states, calls, b, l, k, c[|c| - 1]);
    }
  }

  /** A commit is later than a begin exactly when its version is. */
  lemma SourceTime(states: seq<State>, calls: seq<Call>, b: nat, m: nat, k: Key, v: Version)
    requires Run(states, calls) && b < |calls| && m < |calls| && calls[b].BeginCall? && WroteAs(states, calls, m, k, v)
    ensures Wrote(states, calls, m, k) && m != b && (v.version > calls[b].at <==> m > b)
  {
    hide Progress, Passes;
    assert Step(states[m], calls[m], states[m + 1]) && Step(states[b], calls[b], states[b + 1]);
    if m < b {
      ClockRises(states, calls, m + 1, b);
    } else {
      ClockRises(states, calls, b + 1, m);
    }
  }

  /** A commit outside a transaction passes if and only if each of its keys was last written under the same number, or
      never.
   */
  lemma PassesOutside(states: seq<State>, calls: seq<Call>, n: nat, c: Commit)
    requires Run(states, calls) && n <= |calls| && c.txn !in states[n].active
    ensures Passes(states[n], c) <==>
      forall m: nat, k :: m < n && k in c.writeSet && LastWrote(states, calls, m, n, k) ==> calls[m].c.txn == c.txn
  {
    hide Step, WroteAs, Conflicts, Passes, Chain;
    assert Passes(states[n], c) <==> Validated(states[n].recs, c.writeSet, 0, c.txn) by {
      PassesUnfold(states[n], c);
    }
    forall k
      ensures Conflicts(states[n].recs, k, 0, c.txn) <==>
        exists m: nat :: m < n && LastWrote(states, calls, m, n, k) && calls[m].c.txn != c.txn
    {
      ConflictOutside(states, calls, n, k, c.txn);
    }
  }

  lemma PassesUnfold(s: State, c: Commit)
    ensures Passes(s, c) <==> Validated(s.recs, c.writeSet, Snapshot(s, c.txn), c.txn)
  {
  }

  ghost predicate LastWrote(states: seq<State>, calls: seq<Call>, m: nat, n: nat, k: Key)
    requires Run(states, calls) && m < n <= |calls|
  {
    Wrote(states, calls, m, k) && forall l: nat :: m < l < n ==> !Wrote(states, calls, l, k)
  }

  lemma ConflictOutside(states: seq<State>, calls: seq<Call>, n: nat, k: Key, txn: nat)
    requires Run(states, calls) && n <= |calls|
    ensures Conflicts(states[n].recs, k, 0, txn) <==>
      exists m: nat :: m < n && LastWrote(states, calls, m, n, k) && calls[m].c.txn != txn
  {
    hide Step, Wrote, WroteAs;
    var l := LastSource(states, calls, n, k);
    var c := Chain(states[n].recs, k);
    if c != [] {
      WroteValue(states, calls, l, k, c[|c| - 1]);
      WroteLater(states, calls, 0, l, k, c[|c| - 1]);
    }
  }
}
