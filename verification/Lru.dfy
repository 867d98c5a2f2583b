/** The least-recently-used eviction policy. */
module Lru {
  import opened Wrappers

  ghost predicate NoDup(s: seq<nat>) {
    forall i, j :: 0 <= i < j < |s| ==> s[i] != s[j]
  }

  function Without(s: seq<nat>, x: nat): seq<nat> {
    if s == [] then [] else if s[0] == x then Without(s[1..], x) else [s[0]] + Without(s[1..], x)
  }

  /** The list with `id` moved, or added, to its front. */
  function Promote(order: seq<nat>, id: nat): seq<nat> {
    [id] + Without(order, id)
  }

  /** When `id` was last used: its last place in the history, -1 if it has none. */
  ghost function LastUse(history: seq<nat>, id: nat): (i: int)
    ensures -1 <= i < |history|
    ensures i >= 0 ==> history[i] == id
    ensures forall j :: i < j < |history| ==> history[j] != id
  {
    if history == [] then -1
    else if history[|history| - 1] == id then |history| - 1
    else LastUse(history[..|history| - 1], id)
  }

  /** Most recently used first. */
  ghost predicate ByRecency(order: seq<nat>, history: seq<nat>) {
    && (forall i :: 0 <= i < |order| ==> LastUse(history, order[i]) >= 0)
    && (forall i, j :: 0 <= i < j < |order| ==> LastUse(history, order[i]) > LastUse(history, order[j]))
  }

  lemma {:induction false} WithoutMeaning(s: seq<nat>, x: nat)
    ensures x !in Without(s, x) && forall y :: y != x ==> (y in Without(s, x) <==> y in s)
    ensures NoDup(s) ==> NoDup(Without(s, x))
    ensures x !in s ==> Without(s, x) == s
  {
    if s != [] {
      WithoutMeaning(s[1..], x);
      assert forall y :: y in s <==> y == s[0] || y in s[1..];
      if NoDup(s) {
        assert s[0] !in s[1..];
      }
    }
  }

  lemma {:induction false} WithoutRecency(s: seq<nat>, x: nat, history: seq<nat>)
    requires ByRecency(s, history)
    ensures ByRecency(Without(s, x), history)
  {
    hide LastUse, ByRecency;
    if s != [] {
      RecencyTail(s, history);
      WithoutRecency(s[1..], x, history);
      if s[0] != x {
        WithoutMeaning(s[1..], x);
        RecencyCons(s[0], Without(s[1..], x), s[1..], history);
      }
    }
  }

  lemma RecencyTail(s: seq<nat>, history: seq<nat>)
    requires s != [] && ByRecency(s, history)
    ensures ByRecency(s[1..], history) && LastUse(history, s[0]) >= 0
    ensures forall y :: y in s[1..] ==> LastUse(history, s[0]) > LastUse(history, y)
  {
    hide LastUse;
    forall y | y in s[1..]
      ensures LastUse(history, s[0]) > LastUse(history, y)
    {
      var j :| 0 <= j < |s[1..]| && s[1..][j] == y;
      assert s[j + 1] == y;
    }
  }

  lemma RecencyCons(y: nat, rest: seq<nat>, all: seq<nat>, history: seq<nat>)
    requires ByRecency(rest, history) && LastUse(history, y) >= 0
    requires forall z :: z in rest ==> z in all
    requires forall z :: z in all ==> LastUse(history, y) > LastUse(history, z)
    ensures ByRecency([y] + rest, history)
  {
    hide LastUse;
    assert forall i :: 0 <= i < |rest| ==> rest[i] in rest;
  }

  lemma LastUseAfter(history: seq<nat>, id: nat, x: nat)
    ensures LastUse(history + [id], x) == if x == id then |history| else LastUse(history, x)
  {
    assert (history + [id])[..|history|] == history;
  }

  lemma PromoteRecency(order: seq<nat>, id: nat, history: seq<nat>)
    requires ByRecency(order, history)
    ensures ByRecency(Promote(order, id), history + [id])
  {
    hide LastUse, Without;
    WithoutRecency(order, id, history);
    WithoutMeaning(order, id);
    var rest, after := Without(order, id), history + [id];
    forall x
      ensures LastUse(after, x) == if x == id then |history| else LastUse(history, x)
    {
      LastUseAfter(history, id, x);
    }
    assert forall i :: 0 <= i < |rest| ==> rest[i] in rest;
  }

  class Policy {
    var list: seq<nat>
    var pageMap: set<nat>
    ghost var history: seq<nat>

    ghost predicate Valid()
      reads this
    {
      ByRecency(list, history) && forall id :: id in pageMap <==> id in list
    }

    constructor ()
      ensures Valid() && list == []
    {
      list, pageMap, history := [], {}, [];
    }

    method RecordAccess(id: nat)
      requires Valid()
      modifies this
      ensures Valid() && list == Promote(old(list), id) && history == old(history) + [id]
    {
      hide Without, LastUse, ByRecency;
      WithoutMeaning(list, id);
      PromoteRecency(list, id, history);
      if id in pageMap {
        list := [id] + Without(list, id);
      } else {
        list := [id] + list;
        pageMap := pageMap + {id};
      }
      history := history + [id];
    }

    /** Takes the tracked page that was used least recently. */
    method Evict() returns (victim: Option<nat>)
      requires Valid()
      modifies this
      ensures Valid() && history == old(history)
      ensures victim.None? <==> old(list) == []
      ensures victim.None? ==> list == old(list)
      ensures victim.Some? ==> old(list) == list + [victim.value] && victim.value !in list
      ensures victim.Some? ==> forall x :: x in list ==> LastUse(history, victim.value) < LastUse(history, x)
    {
      hide LastUse;
      if list == [] {
        return None;
      }
      var n := |list| - 1;
      var id := list[n];
      assert forall x :: x in list <==> x in list[..n] || x == id;
      list := list[..n];
      pageMap := pageMap - {id};
      assert forall i :: 0 <= i < n ==> LastUse(history, list[i]) > LastUse(history, id);
      victim := Some(id);
    }

    method Remove(id: nat)
      requires Valid()
      modifies this
      ensures Valid() && list == Without(old(list), id) && history == old(history)
    {
      hide Without, LastUse, ByRecency;
      WithoutMeaning(list, id);
      WithoutRecency(list, id, history);
      if id in pageMap {
        list := Without(list, id);
        pageMap := pageMap - {id};
      }
    }
  }
}
