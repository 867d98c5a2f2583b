/** The state of the buffer pool, what every step of it keeps, and what a client sees through it. */
module PoolModel {
  import opened Bytes
  import opened SlottedPage
  import opened Lru

  datatype Frame = Frame(id: nat, data: PageBytes, pins: nat, dirty: bool)

  /** Frames, page table, free frames, eviction order and the device. */
  datatype State = State(frames: seq<Frame>, table: map<nat, nat>, free: seq<nat>, order: seq<nat>,
                         device: map<nat, PageBytes>)

  type Crc = f: Blob -> nat | forall b :: f(b) < 0x1_0000_0000 witness (b: Blob) => 0

  const BTREE_ROOT: nat := 1002

  predicate IsBTreePage(id: nat) { id >= BTREE_ROOT - 2 }

  /** The page with its checksum field up to date. */
  function Stamp(crc: Crc, id: nat, d: PageBytes): PageBytes {
    if IsBTreePage(id) then d else PutLe(crc(d[4..]), 4) + d[4..]
  }

  predicate AllZero(d: PageBytes) { forall i :: 0 <= i < |d| ==> d[i] == 0 }

  /** The test a page read from the device has to pass. */
  predicate Loadable(crc: Crc, id: nat, d: PageBytes) {
    AllZero(d) || IsBTreePage(id) || Le(d[..4]) == crc(d[4..]) || Le(d[..4]) == 0
  }

  /** Equal, apart from the checksum field of a slotted page. */
  predicate Same(id: nat, a: PageBytes, b: PageBytes) {
    if IsBTreePage(id) then a == b else a[4..] == b[4..]
  }

  lemma StampSame(crc: Crc, id: nat, d: PageBytes)
    ensures Same(id, Stamp(crc, id, d), d) && Loadable(crc, id, Stamp(crc, id, d))
  {
    hide Le, PutLe;
    LePut4(crc(d[4..]));
    var s := Stamp(crc, id, d);
    if !IsBTreePage(id) {
      assert s[..4] == PutLe(crc(d[4..]), 4) && s[4..] == d[4..];
    }
  }

  function Stored(st: State, id: nat): PageBytes {
    if id in st.device then st.device[id] else Zeros(PAGE_SIZE)
  }

  // --- Invariant --------------------------------------------------------------------------

  /** Free frames, frames in use and the frame in hand partition the frames. */
  ghost predicate Places(st: State, held: set<nat>) {
    && (forall id :: id in st.table ==> st.table[id] < |st.frames| && st.frames[st.table[id]].id == id)
    && (forall id :: id in st.table ==> st.table[id] !in st.free && st.table[id] !in held)
    && NoDup(st.free)
    && (forall f :: f in st.free ==> f < |st.frames| && f !in held)
    && (forall f :: f in held ==> f < |st.frames|)
    && (forall f :: 0 <= f < |st.frames| ==> f in st.free || f in held || InUse(st, f))
  }

  predicate InUse(st: State, f: nat)
    requires f < |st.frames|
  {
    st.frames[f].id in st.table && st.table[st.frames[f].id] == f
  }

  /** The evictor tracks exactly the resident pages. */
  ghost predicate Tracked(st: State) {
    NoDup(st.order) && forall id :: id in st.order <==> id in st.table
  }

  ghost function FrameOf(st: State, id: nat): Frame {
    if id in st.table && st.table[id] < |st.frames| then st.frames[st.table[id]]
    else Frame(id, Stored(st, id), 0, false)
  }

  /** `owing` are the pages some pin holder has changed and not yet released as dirty. Every other clean page is on
      the device, and will pass the test when it is read back.
   */
  ghost predicate Synced(st: State, owing: set<nat>, crc: Crc) {
    forall id :: SyncedAt(st, id, owing, crc)
  }

  ghost predicate SyncedAt(st: State, id: nat, owing: set<nat>, crc: Crc) {
    && (id in owing ==> id in st.table && FrameOf(st, id).pins > 0)
    && (id in st.table && id !in owing && !FrameOf(st, id).dirty ==> OnDevice(st, id, crc))
  }

  /** The device holds the page, and in a form that can be read back. */
  ghost predicate OnDevice(st: State, id: nat, crc: Crc) {
    Same(id, FrameOf(st, id).data, Stored(st, id)) && Loadable(crc, id, Stored(st, id))
  }

  ghost predicate Inv(st: State, held: set<nat>, owing: set<nat>, crc: Crc) {
    Places(st, held) && Tracked(st) && Synced(st, owing, crc)
  }

  /** What a client sees under a page id. */
  ghost function Contents(st: State, id: nat): PageBytes { FrameOf(st, id).data }

  /** A fetch of the page will not be refused as corrupt. */
  ghost predicate Sound(st: State, id: nat, crc: Crc) {
    id in st.table || Loadable(crc, id, Stored(st, id))
  }

  ghost predicate KeepsPage(a: State, b: State, id: nat, crc: Crc) {
    && Same(id, Contents(b, id), Contents(a, id))
    && (Sound(a, id, crc) ==> Sound(b, id, crc))
    && (id !in a.table ==> Stored(b, id) == Stored(a, id))
    && (id in b.table ==> id in a.table)
    && (id in a.table && FrameOf(a, id).pins > 0 ==>
          id in b.table && b.table[id] == a.table[id] && FrameOf(b, id).pins == FrameOf(a, id).pins)
  }

  /** No client sees a difference: every page reads the same, none became unreadable, and pinned pages stay
      where they are.
   */
  ghost predicate Transparent(a: State, b: State, crc: Crc) {
    |b.frames| == |a.frames| && forall id :: KeepsPage(a, b, id, crc)
  }

  lemma TransparentRefl(a: State, crc: Crc)
    ensures Transparent(a, a, crc)
  {
  }

  lemma SameTransitive(id: nat, a: PageBytes, b: PageBytes, c: PageBytes)
    requires Same(id, a, b) && Same(id, b, c)
    ensures Same(id, a, c)
  {
  }

  lemma TransparentTrans(a: State, b: State, c: State, crc: Crc)
    requires Transparent(a, b, crc) && Transparent(b, c, crc)
    ensures Transparent(a, c, crc)
  {
    forall id
      ensures KeepsPage(a, c, id, crc)
    {
      assert KeepsPage(a, b, id, crc) && KeepsPage(b, c, id, crc);
      KeepsPageTrans(a, b, c, id, crc);
    }
  }

  lemma KeepsPageTrans(a: State, b: State, c: State, id: nat, crc: Crc)
    requires KeepsPage(a, b, id, crc) && KeepsPage(b, c, id, crc)
    ensures KeepsPage(a, c, id, crc)
  {
    hide Same, Sound, Contents, Stored, FrameOf;
    SameTransitive(id, Contents(c, id), Contents(b, id), Contents(a, id));
  }

  // --- Steps ------------------------------------------------------------------------------

  /** The step does not concern this page. */
  ghost predicate Untouched(a: State, b: State, id: nat) {
    && FrameOf(a, id) == FrameOf(b, id) && Stored(a, id) == Stored(b, id)
    && (id in a.table <==> id in b.table) && (id in a.table ==> a.table[id] == b.table[id])
  }

  lemma UntouchedKeeps(a: State, b: State, id: nat, owing: set<nat>, after: set<nat>, crc: Crc)
    requires Untouched(a, b, id) && SyncedAt(a, id, owing, crc) && (id in owing <==> id in after)
    ensures KeepsPage(a, b, id, crc) && SyncedAt(b, id, after, crc)
  {
    hide Loadable, FrameOf, Stored;
  }

  lemma SyncedFor(st: State, id: nat, owing: set<nat>, crc: Crc)
    requires Synced(st, owing, crc)
    ensures SyncedAt(st, id, owing, crc)
  {
  }

  /** A step that concerns one page only. */
  lemma OneStep(a: State, b: State, id: nat, owing: set<nat>, after: set<nat>, crc: Crc)
    requires Synced(a, owing, crc) && SyncedAt(b, id, after, crc)
    requires forall x :: x != id ==> Untouched(a, b, x) && (x in owing <==> x in after)
    ensures Synced(b, after, crc) && forall x :: x != id ==> KeepsPage(a, b, x, crc)
  {
    hide Untouched, KeepsPage, SyncedAt;
    forall x | x != id
      ensures KeepsPage(a, b, x, crc) && SyncedAt(b, x, after, crc)
    {
      UntouchedKeeps(a, b, x, owing, after, crc);
    }
  }

  lemma NoStep(a: State, b: State, owing: set<nat>, crc: Crc)
    requires Synced(a, owing, crc) && |a.frames| == |b.frames| && forall x :: Untouched(a, b, x)
    ensures Synced(b, owing, crc) && Transparent(a, b, crc)
  {
    hide Untouched, KeepsPage, SyncedAt;
    forall x
      ensures KeepsPage(a, b, x, crc) && SyncedAt(b, x, owing, crc)
    {
      UntouchedKeeps(a, b, x, owing, owing, crc);
    }
  }

  /** The first free frame is taken. */
  lemma TakeFree(st: State, owing: set<nat>, crc: Crc)
    requires Inv(st, {}, owing, crc) && st.free != []
    ensures var t := st.(free := st.free[1..]); Inv(t, {st.free[0]}, owing, crc) && Transparent(st, t, crc)
  {
    hide Synced, KeepsPage, Transparent;
    var t := st.(free := st.free[1..]);
    assert forall f :: f in st.free <==> f == st.free[0] || f in t.free;
    assert forall i :: 0 <= i < |t.free| ==> t.free[i] == st.free[i + 1];
    assert st.free[0] !in t.free;
    assert forall f: nat :: f < |st.frames| ==> InUse(t, f) == InUse(st, f);
    NoStep(st, t, owing, crc);
  }

  /** A frame that holds no page is given back; its contents do not matter. */
  lemma GiveBack(st: State, f: nat, junk: Frame, owing: set<nat>, crc: Crc)
    requires Inv(st, {f}, owing, crc)
    ensures var t := st.(frames := st.frames[f := junk], free := st.free + [f]);
      Inv(t, {}, owing, crc) && Transparent(st, t, crc)
  {
    hide Synced, KeepsPage, Transparent;
    var t := st.(frames := st.frames[f := junk], free := st.free + [f]);
    assert forall g :: g in t.free <==> g == f || g in st.free;
    assert forall g: nat :: g < |st.frames| && g != f ==> InUse(t, g) == InUse(st, g);
    NoStep(st, t, owing, crc);
  }

  ghost function Installed(st: State, f: nat, id: nat): State
    requires f < |st.frames|
  {
    st.(frames := st.frames[f := Frame(id, Stored(st, id), 1, false)], table := st.table[id := f],
        order := Promote(st.order, id))
  }

  /** The page just read is installed in the frame in hand, pinned once. */
  lemma Install(st: State, f: nat, id: nat, owing: set<nat>, crc: Crc)
    requires Inv(st, {f}, owing, crc) && id !in st.table && Loadable(crc, id, Stored(st, id))
    ensures var t := Installed(st, f, id); Inv(t, {}, owing, crc) && |t.frames| == |st.frames|
    ensures var t := Installed(st, f, id); forall x :: x != id ==> KeepsPage(st, t, x, crc)
    ensures FrameOf(Installed(st, f, id), id) == Frame(id, Contents(st, id), 1, false)
  {
    hide Same, Loadable, Without, KeepsPage, Synced, Stored;
    var t := Installed(st, f, id);
    WithoutMeaning(st.order, id);
    InstallPlaces(st, f, id);
    SameRefl(id, Stored(st, id));
    InstallUntouched(st, f, id);
    SyncedFor(st, id, owing, crc);
    InstallSynced(st, f, id, owing, crc);
    OneStep(st, t, id, owing, owing, crc);
  }

  lemma InstallUntouched(st: State, f: nat, id: nat)
    requires Places(st, {f})
    ensures forall x :: x != id ==> Untouched(st, Installed(st, f, id), x)
  {
    hide Without;
  }

  lemma InstallPlaces(st: State, f: nat, id: nat)
    requires Places(st, {f}) && id !in st.table
    ensures Places(Installed(st, f, id), {})
  {
    hide Without, Stored;
    var t := Installed(st, f, id);
    assert forall g: nat :: g < |st.frames| && g != f && InUse(st, g) ==> InUse(t, g);
    assert InUse(t, f);
  }

  lemma InstallSynced(st: State, f: nat, id: nat, owing: set<nat>, crc: Crc)
    requires Places(st, {f}) && id !in st.table && Loadable(crc, id, Stored(st, id)) && SyncedAt(st, id, owing, crc)
    ensures SyncedAt(Installed(st, f, id), id, owing, crc)
  {
    hide Loadable, Without;
  }

  lemma SameRefl(id: nat, d: PageBytes)
    ensures Same(id, d, d)
  {
  }

  lemma SameSym(id: nat, a: PageBytes, b: PageBytes)
    requires Same(id, a, b)
    ensures Same(id, b, a)
  {
  }

  /** An unpinned page whose contents are on the device leaves the pool. */
  lemma DropPage(st: State, id: nat, order: seq<nat>, owing: set<nat>, crc: Crc)
    requires Inv(st, {}, owing, crc) && id in st.table && FrameOf(st, id).pins == 0 && OnDevice(st, id, crc)
    requires NoDup(order) && forall x :: x in order <==> x in st.order && x != id
    ensures var t := st.(table := st.table - {id}, order := order);
      Inv(t, {st.table[id]}, owing, crc) && Transparent(st, t, crc)
  {
    hide Same, Loadable, KeepsPage, Synced;
    var t := st.(table := st.table - {id}, order := order);
    DropPlaces(st, id, order);
    SyncedFor(st, id, owing, crc);
    OneStep(st, t, id, owing, owing, crc);
    DropKeeps(st, id, order, crc);
  }

  lemma DropPlaces(st: State, id: nat, order: seq<nat>)
    requires Places(st, {}) && id in st.table
    ensures Places(st.(table := st.table - {id}, order := order), {st.table[id]})
  {
    var t := st.(table := st.table - {id}, order := order);
    assert forall g: nat :: g < |st.frames| && g != st.table[id] ==> InUse(t, g) == InUse(st, g);
  }

  lemma DropKeeps(st: State, id: nat, order: seq<nat>, crc: Crc)
    requires Places(st, {}) && id in st.table && FrameOf(st, id).pins == 0 && OnDevice(st, id, crc)
    ensures KeepsPage(st, st.(table := st.table - {id}, order := order), id, crc)
  {
    hide Same, Loadable;
    SameSym(id, FrameOf(st, id).data, Stored(st, id));
  }

  /** A dirty page is stamped and written. When the write fails the device holds anything under that page, and the
      page stays dirty; when it succeeds it may be marked clean.
   */
  ghost function Written(st: State, id: nat, ok: bool, torn: PageBytes, clean: bool, crc: Crc): State
    requires id in st.table && st.table[id] < |st.frames|
  {
    var f := st.table[id];
    var page := st.frames[f];
    var d := Stamp(crc, id, page.data);
    st.(frames := st.frames[f := page.(data := d, dirty := !(ok && clean))],
        device := st.device[id := if ok then d else torn])
  }

  lemma WriteKeeps(st: State, id: nat, ok: bool, torn: PageBytes, clean: bool, owing: set<nat>, crc: Crc)
    requires Inv(st, {}, owing, crc) && id in st.table
    ensures var t := Written(st, id, ok, torn, clean, crc);
      Inv(t, {}, owing, crc) && Transparent(st, t, crc) && (ok ==> OnDevice(t, id, crc))
  {
    hide Same, Loadable, Stamp, KeepsPage, Synced;
    var t := Written(st, id, ok, torn, clean, crc);
    WritePlaces(st, id, ok, torn, clean, crc);
    WriteAt(st, id, ok, torn, clean, crc);
    SyncedFor(st, id, owing, crc);
    assert forall x :: x != id && x in st.table ==> st.table[x] != st.table[id];
    OneStep(st, t, id, owing, owing, crc);
  }

  lemma WritePlaces(st: State, id: nat, ok: bool, torn: PageBytes, clean: bool, crc: Crc)
    requires Places(st, {}) && id in st.table
    ensures Places(Written(st, id, ok, torn, clean, crc), {})
  {
    hide Stamp;
    var t := Written(st, id, ok, torn, clean, crc);
    assert forall g: nat :: g < |st.frames| ==> InUse(t, g) == InUse(st, g);
  }

  lemma WriteAt(st: State, id: nat, ok: bool, torn: PageBytes, clean: bool, crc: Crc)
    requires Places(st, {}) && id in st.table
    ensures var t := Written(st, id, ok, torn, clean, crc);
      KeepsPage(st, t, id, crc) && (ok ==> OnDevice(t, id, crc))
  {
    hide Same, Loadable, Stamp;
    StampSame(crc, id, FrameOf(st, id).data);
    SameRefl(id, Stamp(crc, id, FrameOf(st, id).data));
  }

  /** Only the eviction order changes. */
  lemma Reorder(st: State, order: seq<nat>, owing: set<nat>, crc: Crc)
    requires Inv(st, {}, owing, crc) && NoDup(order) && forall x :: x in order <==> x in st.order
    ensures var t := st.(order := order); Inv(t, {}, owing, crc) && Transparent(st, t, crc)
  {
    hide Synced, KeepsPage, Transparent;
    var t := st.(order := order);
    assert forall g: nat :: g < |st.frames| ==> InUse(t, g) == InUse(st, g);
    NoStep(st, t, owing, crc);
  }

  /** A client step on a resident page: its bytes, pins and dirty flag change and no other page does. */
  lemma ClientStep(st: State, id: nat, page: Frame, owing: set<nat>, after: set<nat>, crc: Crc)
    requires Inv(st, {}, owing, crc) && id in st.table && page.id == id
    requires forall x :: x != id ==> (x in after <==> x in owing)
    requires id in after ==> page.pins > 0
    requires id in after || page.dirty ||
      (id !in owing && page.data == FrameOf(st, id).data && page.dirty == FrameOf(st, id).dirty)
    ensures var t := st.(frames := st.frames[st.table[id] := page]);
      && Inv(t, {}, after, crc) && FrameOf(t, id) == page
      && forall x :: x != id ==> KeepsPage(st, t, x, crc)
  {
    hide Same, Loadable, KeepsPage, Synced;
    var t := st.(frames := st.frames[st.table[id] := page]);
    ClientPlaces(st, id, page);
    SyncedFor(st, id, owing, crc);
    assert forall x :: x != id && x in st.table ==> st.table[x] != st.table[id];
    OneStep(st, t, id, owing, after, crc);
  }

  lemma ClientPlaces(st: State, id: nat, page: Frame)
    requires Places(st, {}) && id in st.table && page.id == id
    ensures Places(st.(frames := st.frames[st.table[id] := page]), {})
  {
    var t := st.(frames := st.frames[st.table[id] := page]);
    assert forall g: nat :: g < |st.frames| ==> InUse(t, g) == InUse(st, g);
  }
}
