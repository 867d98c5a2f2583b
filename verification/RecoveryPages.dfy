/** What the recovery passes write into slotted pages, and what reads of those pages return afterwards. */
module RecoveryPages {
  import opened Wrappers
  import opened Bytes
  import opened Wal
  import opened RecoveryModel
  import P = SlottedPage
  import S = SlottedDb

  /** The expiry of a restored record: the greatest signed 64-bit number. */
  const NEVER: nat := 0x7FFF_FFFF_FFFF_FFFF

  /** The records of each page, oldest first. */
  type Files = map<nat, seq<P.Rec>>

  function On(files: Files, page: nat): seq<P.Rec> { if page in files then files[page] else [] }

  /** A restored record is appended to its page. */
  function Restore(files: Files, page: nat, txn: nat, key: Blob, val: Blob): Files {
    files[page := On(files, page) + [P.Rec(txn, NEVER, key, val)]]
  }

  /** The pages after the redo pass, which writes every after-image under transaction 0. */
  function RedoFiles(files: Files, log: seq<Entry>): Files {
    if log == [] then files
    else
      var e, before := log[|log| - 1], RedoFiles(files, log[..|log| - 1]);
      if e.IsWrite() then Restore(before, e.page, 0, e.key, e.after) else before
  }

  /** The pages after the undo pass has gone down to entry `b`: it writes before-images under the loser. */
  function UndoFiles(files: Files, log: seq<Entry>, b: nat): Files
    requires b <= |log|
    decreases |log| - b
  {
    if b == |log| then files
    else
      var above := UndoFiles(files, log, b + 1);
      if Open(log, b) && log[b].IsUpdate() then Restore(above, log[b].page, log[b].txn, log[b].key, log[b].before)
      else above
  }

  // --- The records of one key -------------------------------------------------------------

  function OfKey(recs: seq<P.Rec>, key: Blob): seq<P.Rec> {
    if recs == [] then []
    else OfKey(recs[..|recs| - 1], key) + if recs[|recs| - 1].key == key then [recs[|recs| - 1]] else []
  }

  lemma OfKeySnoc(recs: seq<P.Rec>, r: P.Rec, key: Blob)
    ensures OfKey(recs + [r], key) == if r.key == key then OfKey(recs, key) + [r] else OfKey(recs, key)
  {
    assert (recs + [r])[..|recs|] == recs;
    assert OfKey(recs, key) + [] == OfKey(recs, key);
  }

  /** A read looks at the records of its key only. */
  lemma {:induction false} ReadOfKey(recs: seq<P.Rec>, active: set<nat>, reader: nat, key: Blob, now: int)
    ensures S.ReadSpec(recs, active, reader, key, now) == S.ReadSpec(OfKey(recs, key), active, reader, key, now)
  {
    if recs != [] {
      var init, r := recs[..|recs| - 1], recs[|recs| - 1];
      ReadOfKey(init, active, reader, key, now);
      var own := OfKey(init, key);
      if r.key == key {
        assert (own + [r])[..|own|] == own;
      } else {
        assert own + [] == own;
      }
    }
  }

  // --- Pages and values -------------------------------------------------------------------

  /** Where the values have an entry, the last record of the key carries it, under one of the transactions `txns`;
      elsewhere the records of the key are those from before.
   */
  ghost predicate Carries(before: Files, files: Files, d: Values, txns: set<nat>) {
    forall page, key :: CarriesAt(On(before, page), On(files, page), (page, key), d, txns)
  }

  ghost predicate CarriesAt(was: seq<P.Rec>, recs: seq<P.Rec>, loc: Loc, d: Values, txns: set<nat>) {
    var own := OfKey(recs, loc.1);
    if loc in d then
      own != [] && var r := own[|own| - 1]; r.key == loc.1 && r.exp == NEVER && r.val == d[loc] && r.txn in txns
    else own == OfKey(was, loc.1)
  }

  lemma CarriesNothing(files: Files, txns: set<nat>)
    ensures Carries(files, files, map[], txns)
  {
  }

  /** Restoring a record is assigning the value. */
  lemma RestoreCarries(before: Files, files: Files, d: Values, txns: set<nat>, page: nat, txn: nat, key: Blob,
                       val: Blob)
    requires Carries(before, files, d, txns) && txn in txns
    ensures Carries(before, Restore(files, page, txn, key, val), d[(page, key) := val], txns)
  {
    hide CarriesAt, OfKey;
    var after, d2 := Restore(files, page, txn, key, val), d[(page, key) := val];
    forall q, k
      ensures CarriesAt(On(before, q), On(after, q), (q, k), d2, txns)
    {
      assert CarriesAt(On(before, q), On(files, q), (q, k), d, txns);
      RestoreAt(On(before, q), On(files, q), (q, k), d, txns, page, P.Rec(txn, NEVER, key, val));
    }
  }

  lemma RestoreAt(was: seq<P.Rec>, recs: seq<P.Rec>, loc: Loc, d: Values, txns: set<nat>, page: nat, r: P.Rec)
    requires CarriesAt(was, recs, loc, d, txns) && r.txn in txns && r.exp == NEVER
    ensures CarriesAt(was, if loc.0 == page then recs + [r] else recs, loc, d[(page, r.key) := r.val], txns)
  {
    hide OfKey;
    OfKeySnoc(recs, r, loc.1);
  }

  lemma {:induction false} RedoCarries(files: Files, log: seq<Entry>, txns: set<nat>)
    requires 0 in txns
    ensures Carries(files, RedoFiles(files, log), Redo(map[], log), txns)
  {
    hide Carries, Restore;
    if log == [] {
      CarriesNothing(files, txns);
    } else {
      var n := |log| - 1;
      RedoCarries(files, log[..n], txns);
      if log[n].IsWrite() {
        RestoreCarries(files, RedoFiles(files, log[..n]), Redo(map[], log[..n]), txns, log[n].page, 0, log[n].key,
                       log[n].after);
      }
    }
  }

  lemma {:induction false} UndoCarries(before: Files, files: Files, d: Values, log: seq<Entry>, b: nat, txns: set<nat>)
    requires b <= |log| && Carries(before, files, d, txns)
    requires forall i :: b <= i < |log| && log[i].IsUpdate() && Open(log, i) ==> log[i].txn in txns
    ensures Carries(before, UndoFiles(files, log, b), UndoTo(d, log, b), txns)
    decreases |log| - b
  {
    hide Carries, Restore, Open;
    if b < |log| {
      UndoCarries(before, files, d, log, b + 1, txns);
      if Open(log, b) && log[b].IsUpdate() {
        RestoreCarries(before, UndoFiles(files, log, b + 1), UndoTo(d, log, b + 1), txns, log[b].page, log[b].txn,
                       log[b].key, log[b].before);
      }
    }
  }

  /** Reading a restored place, with none of the restoring transactions running, gives its value to every reader. */
  lemma CarriedRead(before: Files, files: Files, d: Values, txns: set<nat>, active: set<nat>, page: nat, key: Blob,
                    reader: nat, now: int)
    requires Carries(before, files, d, txns) && txns !! active && now < 0x7FFF_FFFF_FFFF_FFFF && (page, key) in d
    ensures S.ReadSpec(On(files, page), active, reader, key, now) == Some(d[(page, key)])
  {
    hide OfKey;
    assert CarriesAt(On(before, page), On(files, page), (page, key), d, txns);
    ReadOfKey(On(files, page), active, reader, key, now);
  }

  /** Reading any other place gives what it gave before. */
  lemma UncarriedRead(before: Files, files: Files, d: Values, txns: set<nat>, active: set<nat>, page: nat, key: Blob,
                      reader: nat, now: int)
    requires Carries(before, files, d, txns) && (page, key) !in d
    ensures S.ReadSpec(On(files, page), active, reader, key, now)
      == S.ReadSpec(On(before, page), active, reader, key, now)
  {
    hide OfKey, S.ReadSpec;
    assert CarriesAt(On(before, page), On(files, page), (page, key), d, txns);
    ReadOfKey(On(files, page), active, reader, key, now);
    ReadOfKey(On(before, page), active, reader, key, now);
  }
}
