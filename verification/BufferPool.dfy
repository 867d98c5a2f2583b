/** The buffer pool over a device that may fail: fetch, unpin, flush and eviction, one at a time. */
module BufferPool {
  import opened Wrappers
  import opened Bytes
  import opened SlottedPage
  import opened Lru
  import opened PoolModel

  /** What happens to the next device access: nothing, or an error that leaves arbitrary bytes where a page was
      being written.
   */
  datatype Fault = Fine | Broken(left: PageBytes)

  class Disk {
    var device: map<nat, PageBytes>
    var faults: seq<Fault>

    constructor (device: map<nat, PageBytes>, faults: seq<Fault>)
      ensures this.device == device && this.faults == faults
    {
      this.device, this.faults := device, faults;
    }

    method NextFault() returns (f: Fault)
      modifies this`faults
    {
      f := Fine;
      if faults != [] {
        f := faults[0];
        faults := faults[1..];
      }
    }

    /** Reading past the end of the device gives zeros. */
    method ReadPage(id: nat) returns (ok: bool, data: PageBytes)
      modifies this`faults
      ensures ok ==> data == if id in device then device[id] else Zeros(PAGE_SIZE)
    {
      var f := NextFault();
      ok := f.Fine?;
      data := if id in device then device[id] else Zeros(PAGE_SIZE);
    }

    method WritePage(id: nat, data: PageBytes) returns (ok: bool, ghost left: PageBytes)
      modifies this
      ensures device == old(device)[id := if ok then data else left]
    {
      var f := NextFault();
      match f
      case Fine =>
        ok, left := true, data;
        device := device[id := data];
      case Broken(bytes) =>
        ok, left := false, bytes;
        device := device[id := bytes];
    }
  }

  datatype Fetched = Page(frame: nat) | IoError | Corrupt

  /** A frame can be found: one is free, or some resident page is unpinned, or there is nothing to search. */
  ghost predicate CanFind(st: State) {
    st.free != [] || st.order == [] || exists id :: id in st.order && FrameOf(st, id).pins == 0
  }

  /** `i` is the place of the least recently used unpinned page. */
  ghost predicate OldestUnpinned(st: State, i: int) {
    && 0 <= i < |st.order| && FrameOf(st, st.order[i]).pins == 0
    && forall j :: i < j < |st.order| ==> FrameOf(st, st.order[j]).pins > 0
  }

  /** The frame found is the first free one, or that of the least recently used unpinned page, which alone left the
      pool; pinned pages passed over count as just used.
   */
  ghost predicate Found(a: State, b: State, f: nat) {
    if a.free != [] then f == a.free[0] && b.table == a.table && b.free == a.free[1..] && b.order == a.order
    else
      && b.free == []
      && exists i :: OldestUnpinned(a, i) && a.order[i] in a.table && f == a.table[a.order[i]]
                     && b.table == a.table - {a.order[i]} && b.order == a.order[i + 1..] + a.order[..i]
  }

  /** Nothing but page bytes, dirty flags and the device differ. */
  ghost predicate SameShape(a: State, b: State) {
    && b.table == a.table && b.free == a.free && b.order == a.order && |b.frames| == |a.frames|
    && forall f :: 0 <= f < |a.frames| ==> b.frames[f].id == a.frames[f].id && b.frames[f].pins == a.frames[f].pins
  }

  ghost predicate Remembers(st: State, given: map<nat, PageBytes>) {
    forall id :: id in given ==> Same(id, Contents(st, id), given[id])
  }

  class Pool {
    const disk: Disk
    const lru: Policy
    const crc: Crc
    var frames: seq<Frame>
    var pageTable: map<nat, nat>
    var freeList: seq<nat>
    ghost var owing: set<nat>
    ghost var given: map<nat, PageBytes>

    ghost function St(): State
      reads this, disk, lru
    {
      State(frames, pageTable, freeList, lru.list, disk.device)
    }

    ghost predicate Valid()
      reads this, disk, lru
    {
      lru.Valid() && Inv(St(), {}, owing, crc)
    }

    /** Every page reads as the last contents given to it, apart from the checksum field of slotted pages. */
    ghost predicate Faithful()
      reads this, disk, lru
    {
      Remembers(St(), given)
    }

    constructor (disk: Disk, poolSize: nat, crc: Crc)
      ensures Valid() && this.disk == disk && fresh(lru) && this.crc == crc
      ensures |frames| == poolSize && pageTable == map[] && owing == {} && given == map[] && Faithful()
      ensures forall id :: Contents(St(), id) == Stored(St(), id)
    {
      this.disk, this.crc := disk, crc;
      lru := new Policy();
      frames := seq(poolSize, _ => Frame(0, Zeros(PAGE_SIZE), 0, false));
      pageTable := map[];
      freeList := seq(poolSize, i => i);
      owing, given := {}, map[];
      new;
      FreshInv(St(), crc);
    }

    method FetchPage(id: nat) returns (r: Fetched)
      requires Valid() && (id in pageTable || CanFind(St()))
      modifies this`frames, this`pageTable, this`freeList, disk, lru
      ensures Valid() && (old(Faithful()) ==> Faithful())
      ensures r.Page? ==>
        && id in pageTable && pageTable[id] == r.frame && r.frame < |frames|
        && FrameOf(St(), id).pins == old(FrameOf(St(), id).pins) + 1
        && lru.list != [] && lru.list[0] == id
      ensures r.Page? && id in given && old(Faithful()) ==> Same(id, frames[r.frame].data, given[id])
      ensures Same(id, Contents(St(), id), old(Contents(St(), id)))
      ensures old(Sound(St(), id, crc)) == Sound(St(), id, crc)
      ensures old(id in pageTable) ==> r.Page? && r.frame == old(pageTable)[id]
      ensures r.Corrupt? ==> !old(Sound(St(), id, crc))
      ensures old(id !in pageTable && id in disk.device && id < 1000) ==>
        var d := old(disk.device[id]);
        && (r.Page? ==> Le(d[..4]) == crc(d[4..]) || Le(d[..4]) == 0)
        && (r.Corrupt? ==> Le(d[..4]) != crc(d[4..]) && Le(d[..4]) != 0)
      ensures old(id in pageTable || id !in disk.device || id >= 1000) ==> !r.Corrupt?
      ensures !r.Page? ==> id !in pageTable
      ensures forall x :: x != id ==> KeepsPage(old(St()), St(), x, crc)
    {
      hide Inv, KeepsPage, Same, Loadable, ByRecency, Remembers, CanFind;
      ghost var st0 := St();
      if id in pageTable {
        r := Hit(id);
        SameRefl(id, Contents(st0, id));
      } else {
        r := Miss(id);
        SoundMeans(st0, id, crc);
      }
      RemembersStep(st0, St(), id, given, crc);
      RemembersAt(St(), id, given);
      InvParts(St(), {}, owing, crc);
    }

    method Miss(id: nat) returns (r: Fetched)
      requires Valid() && id !in pageTable && CanFind(St())
      modifies this`frames, this`pageTable, this`freeList, disk, lru
      ensures Valid()
      ensures r.Page? ==> id in pageTable && pageTable[id] == r.frame && FrameOf(St(), id).pins == 1
      ensures r.Page? ==> lru.list != [] && lru.list[0] == id && old(Sound(St(), id, crc))
      ensures !r.Page? ==> id !in pageTable && old(Sound(St(), id, crc)) == Sound(St(), id, crc)
      ensures Same(id, Contents(St(), id), old(Contents(St(), id)))
      ensures r.Corrupt? ==> !old(Sound(St(), id, crc))
      ensures forall x :: x != id ==> KeepsPage(old(St()), St(), x, crc)
    {
      hide Inv, KeepsPage, Same, Loadable, Without, ByRecency, Transparent, CanFind, Found, Zeros, AllZero, IsBTreePage;
      ghost var st0 := St();
      var found, idx := GetAvailableFrame();
      ghost var st1 := St();
      MissKeeps(st0, st1, id, crc);
      if !found {
        return IoError;
      }
      HeldFrame(st1, idx, owing, crc);
      var ok, data := disk.ReadPage(id);
      frames := frames[idx := Frame(id, data, 1, false)];
      if !ok || (!AllZero(data) && !IsBTreePage(id) && Le(data[..4]) != crc(data[4..]) && Le(data[..4]) != 0) {
        freeList := freeList + [idx];
        GiveBack(st1, idx, Frame(id, data, 1, false), owing, crc);
        TransparentTrans(st0, st1, St(), crc);
        MissKeeps(st0, St(), id, crc);
        r := if ok then Corrupt else IoError;
        if ok {
          CorruptMeans(crc, id, data);
        }
        return;
      }
      LoadableMeans(crc, id, data);
      Install(st1, idx, id, owing, crc);
      pageTable := pageTable[id := idx];
      lru.RecordAccess(id);
      r := Page(idx);
      MissInstalled(st0, st1, St(), id, crc);
    }

    /** Hands out the page at the end of the device: writes zeros there, fetches it and formats it. The client owes
        the dirty flag. A page that is already resident is handed out and formatted all the same. When the write fails
        under a resident page that counted as stored, what the device holds is no longer that page.
     */
    method NewPage(id: nat) returns (r: Fetched, wrote: bool)
      requires Valid() && (id in pageTable || CanFind(St()))
      modifies this, disk, lru
      ensures wrote || !old(Settled(St(), owing, id)) ==> Valid()
      ensures old(Faithful()) ==> Faithful()
      ensures r.Page? ==> wrote && id in pageTable && pageTable[id] == r.frame && Contents(St(), id) == EmptyPage()
      ensures r.Page? ==> FrameOf(St(), id).pins == old(FrameOf(St(), id).pins) + 1 && owing == old(owing) + {id}
      ensures old(id in pageTable) && wrote ==> r.Page?
      ensures r.Page? ==> given == old(given)[id := EmptyPage()]
      ensures !r.Page? ==> given == old(given) - {id}
      ensures !r.Page? ==> owing == old(owing) && (wrote ==> id !in pageTable)
      ensures !wrote ==>
        r.IoError? && id in disk.device && St() == old(St()).(device := old(disk.device)[id := disk.device[id]])
      ensures forall x :: x != id ==> KeepsPage(old(St()), St(), x, crc)
    {
      hide Inv, KeepsPage, Same, Loadable, Without, ByRecency, Transparent, Layout, CanFind, Zeros, Remembers,
           EmptyPage;
      ghost var st0 := St();
      var ok, left := disk.WritePage(id, Zeros(PAGE_SIZE));
      wrote := ok;
      ghost var st1 := St();
      DeviceKeeps(st0, id, st1.device[id], crc);
      RemembersBut(st0, st1, id, given, crc);
      given := given - {id};
      if id !in pageTable {
        PastEnd(st0, id, st1.device[id], owing, crc);
      }
      if !ok {
        r := IoError;
        NotSettled(st0, id, st1.device[id], owing, crc);
        assert st1 == st0.(device := st0.device[id := st1.device[id]]);
      } else if id in pageTable {
        r := TakeResident(id, st0);
      } else {
        r := TakeFetched(id);
        KeepsTrans(st0, st1, St(), id, crc);
      }
    }

    /** Fetches a page and formats it. */
    method TakeFetched(id: nat) returns (r: Fetched)
      requires Valid() && CanFind(St())
      modifies this`frames, this`pageTable, this`freeList, this`owing, this`given, disk, lru
      ensures Valid() && (old(Faithful()) ==> Faithful())
      ensures r.Page? ==> id in pageTable && pageTable[id] == r.frame && Contents(St(), id) == EmptyPage()
      ensures r.Page? ==> FrameOf(St(), id).pins == old(FrameOf(St(), id).pins) + 1 && owing == old(owing) + {id}
      ensures given == if r.Page? then old(given)[id := EmptyPage()] else old(given)
      ensures !r.Page? ==> owing == old(owing) && id !in pageTable
      ensures forall x :: x != id ==> KeepsPage(old(St()), St(), x, crc)
    {
      hide Inv, KeepsPage, Same, Loadable, ByRecency, Layout, CanFind, Remembers, EmptyPage;
      ghost var st0 := St();
      r := FetchPage(id);
      ghost var st1 := St();
      if r.Page? {
        var page := EmptyPage();
        Modify(id, page);
        KeepsTrans(st0, st1, St(), id, crc);
      }
    }

    /** Pins a resident page and formats it, over a device that was just changed under it. */
    method TakeResident(id: nat, ghost st0: State) returns (r: Fetched)
      requires lru.Valid() && Inv(st0, {}, owing, crc) && id in pageTable && id in disk.device && id !in given
      requires St() == st0.(device := st0.device[id := disk.device[id]])
      requires forall x :: x != id ==> KeepsPage(st0, St(), x, crc)
      modifies this`frames, this`owing, this`given, lru
      ensures Valid() && r == Page(pageTable[id]) && owing == old(owing) + {id}
        && given == old(given)[id := EmptyPage()]
      ensures FrameOf(St(), id).pins == FrameOf(st0, id).pins + 1 && Contents(St(), id) == EmptyPage()
      ensures forall x :: x != id ==> KeepsPage(st0, St(), x, crc)
      ensures old(Faithful()) ==> Faithful()
    {
      hide Inv, KeepsPage, Same, Loadable, Without, ByRecency, Transparent, Layout, Remembers, Tracked, Stored,
           EmptyPage;
      ghost var st1 := St();
      InvParts(st0, {}, owing, crc);
      WithoutMeaning(lru.list, id);
      lru.RecordAccess(id);
      var idx := pageTable[id];
      var page := EmptyPage();
      frames := frames[idx := frames[idx].(pins := frames[idx].pins + 1, data := page)];
      TakenKeeps(st0, id, lru.list, disk.device[id], owing, crc);
      owing := owing + {id};
      r := Page(idx);
      TakenRemembers(st0, st1, St(), id, disk.device[id], given, crc);
      given := given[id := page];
    }

    method Hit(id: nat) returns (r: Fetched)
      requires Valid() && id in pageTable
      modifies this`frames, lru
      ensures Valid() && id in pageTable && r == Page(old(pageTable)[id])
      ensures pageTable == old(pageTable)
      ensures FrameOf(St(), id) == old(FrameOf(St(), id)).(pins := old(FrameOf(St(), id).pins) + 1)
      ensures lru.list == Promote(old(lru.list), id) && disk.device == old(disk.device)
      ensures forall x :: x != id ==> KeepsPage(old(St()), St(), x, crc)
    {
      hide Inv, KeepsPage, Same, Loadable, Without, ByRecency, Transparent;
      ghost var st0 := St();
      InvParts(st0, {}, owing, crc);
      WithoutMeaning(lru.list, id);
      lru.RecordAccess(id);
      Reorder(st0, lru.list, owing, crc);
      var idx := pageTable[id];
      var page := frames[idx];
      ClientStep(st0.(order := lru.list), id, page.(pins := page.pins + 1), owing, owing, crc);
      frames := frames[idx := page.(pins := page.pins + 1)];
      r := Page(idx);
      forall x | x != id
        ensures KeepsPage(st0, St(), x, crc)
      {
        TransparentAt(st0, st0.(order := lru.list), x, crc);
        KeepsPageTrans(st0, st0.(order := lru.list), St(), x, crc);
      }
    }

    /** A client changes the bytes of a page it has pinned. */
    method Modify(id: nat, data: PageBytes)
      requires Valid() && id in pageTable && FrameOf(St(), id).pins > 0
      modifies this`frames, this`owing, this`given
      ensures Valid() && owing == old(owing) + {id} && pageTable == old(pageTable)
      ensures given == old(given)[id := data] && (old(Faithful()) ==> Faithful())
      ensures FrameOf(St(), id) == old(FrameOf(St(), id)).(data := data)
      ensures forall x :: x != id ==> KeepsPage(old(St()), St(), x, crc)
    {
      hide Inv, KeepsPage, Same, Loadable, ByRecency, Remembers;
      InvParts(St(), {}, owing, crc);
      ghost var st0 := St();
      var idx := pageTable[id];
      ClientStep(St(), id, frames[idx].(data := data), owing, owing + {id}, crc);
      frames := frames[idx := frames[idx].(data := data)];
      owing := owing + {id};
      RemembersGiven(st0, St(), id, data, given, crc);
      given := given[id := data];
    }

    /** A client releases a pin it holds. A client that changed the page says so: when it does not, another holder
        that owes the dirty flag is left.
     */
    method UnpinPage(id: nat, isDirty: bool)
      requires Valid() && (id in pageTable ==> FrameOf(St(), id).pins > 0)
      requires id in owing && !isDirty ==> FrameOf(St(), id).pins > 1
      modifies this`frames, this`owing
      ensures Valid() && (old(Faithful()) ==> Faithful()) && pageTable == old(pageTable)
      ensures owing == if isDirty then old(owing) - {id} else old(owing)
      ensures id in pageTable ==> FrameOf(St(), id).pins == old(FrameOf(St(), id).pins) - 1
      ensures id in pageTable ==> FrameOf(St(), id).dirty == (isDirty || old(FrameOf(St(), id).dirty))
      ensures Contents(St(), id) == old(Contents(St(), id))
      ensures forall x :: x != id ==> KeepsPage(old(St()), St(), x, crc)
    {
      hide Inv, KeepsPage, Same, Loadable, ByRecency, Remembers;
      InvParts(St(), {}, owing, crc);
      ghost var st0 := St();
      ghost var after := if isDirty then owing - {id} else owing;
      if id in pageTable {
        var idx := pageTable[id];
        var page := frames[idx];
        var now := page.(pins := page.pins - 1, dirty := page.dirty || isDirty);
        ClientStep(St(), id, now, owing, after, crc);
        frames := frames[idx := now];
      } else {
        SelfKeeps(St(), crc);
        NotOwing(St(), id, owing, crc);
        assert after == owing;
      }
      owing := after;
      SameRefl(id, Contents(st0, id));
      RemembersStep(st0, St(), id, given, crc);
    }

    method GetAvailableFrame() returns (ok: bool, idx: nat)
      requires Valid() && CanFind(St())
      modifies this`frames, this`pageTable, this`freeList, disk, lru
      ensures lru.Valid() && Transparent(old(St()), St(), crc)
      ensures !ok ==> Inv(St(), {}, owing, crc) && pageTable == old(pageTable)
      ensures ok ==> Inv(St(), {idx}, owing, crc) && Found(old(St()), St(), idx)
    {
      hide Inv, KeepsPage, Transparent, ByRecency, CanFind, SameShape, Found;
      ghost var st0 := St();
      InvParts(st0, {}, owing, crc);
      TransparentRefl(st0, crc);
      SameShapeRefl(st0);
      var dirtyCount := |set id | id in pageTable && frames[pageTable[id]].dirty|;
      if |frames| > 0 && 5 * dirtyCount >= 4 * |frames| {
        var flushed := FlushAll();
      }
      ghost var st1 := St();
      CanFindShape(st0, st1);
      if freeList != [] {
        TakeFree(st1, owing, crc);
        idx := freeList[0];
        freeList := freeList[1..];
        ok := true;
        TransparentTrans(st0, st1, St(), crc);
        FoundFree(st0, st1, St(), idx);
        return;
      }
      ok, idx := EvictOne();
      TransparentTrans(st0, st1, St(), crc);
      if ok {
        FoundEvicted(st0, st1, St(), idx);
      } else {
        ShapeTable(st0, st1);
      }
    }

    /** Tries resident pages from the least recently used on until an unpinned one is found. The evictor names
        resident pages only, so every name is in the page table.
     */
    method EvictOne() returns (ok: bool, idx: nat)
      requires Valid() && CanFind(St()) && freeList == []
      modifies this`frames, this`pageTable, disk, lru
      ensures lru.Valid() && freeList == [] && Transparent(old(St()), St(), crc)
      ensures !ok ==> Inv(St(), {}, owing, crc) && pageTable == old(pageTable)
      ensures ok ==> Inv(St(), {idx}, owing, crc) && Found(old(St()), St(), idx)
    {
      hide Inv, KeepsPage, Transparent, ByRecency, CanFind, Without, Found, PinnedFrom, Victim, Rotated;
      ghost var st0 := St();
      TransparentRefl(st0, crc);
      ghost var k := |st0.order|;
      CanFindBelow(st0);
      idx := 0;
      while true
        invariant 0 <= k <= |st0.order|
        invariant PinnedFrom(st0, k) && lru.Valid() && Inv(St(), {}, owing, crc)
        invariant St() == st0.(order := Rotated(st0.order, k)) && Transparent(st0, St(), crc)
        decreases k
      {
        ghost var st := St();
        var victim := lru.Evict();
        if victim.None? {
          ok := false;
          SameEmpty(st0, k);
          return;
        }
        var v := victim.value;
        ghost var list := lru.list;
        VictimIs(st0, st, k, v, list, owing, crc);
        var f := pageTable[v];
        if frames[f].pins > 0 {
          lru.RecordAccess(v);
          PassOver(st0, st, k, v, list, owing, crc);
          k := k - 1;
        } else {
          ok, idx := WriteOut(v, f, st, k, st0);
          return;
        }
      }
    }

    /** The unpinned victim `v` is written if dirty, and leaves the pool unless that fails. */
    method WriteOut(v: nat, f: nat, ghost st: State, ghost k: int, ghost st0: State) returns (ok: bool, idx: nat)
      requires Victim(st0, st, k, v, owing, crc) && lru.Valid() && lru.list == st0.order[k..] + st0.order[..k - 1]
      requires St() == st.(order := lru.list) && v in pageTable && f == pageTable[v] && f < |frames|
      requires freeList == [] && frames[f].pins == 0
      modifies this`frames, this`pageTable, disk, lru
      ensures lru.Valid() && freeList == [] && Transparent(st0, St(), crc)
      ensures !ok ==> Inv(St(), {}, owing, crc) && pageTable == old(pageTable)
      ensures ok ==> Inv(St(), {idx}, owing, crc) && Found(st0, St(), idx)
    {
      hide Inv, KeepsPage, Transparent, ByRecency, Without, Found, Victim, Stamp;
      ghost var list := lru.list;
      if !frames[f].dirty {
        VictimDrops(st0, st, k, v, list, owing, crc);
      } else {
        var page := frames[f];
        var data := Stamp(crc, v, page.data);
        frames := frames[f := page.(data := data)];
        var wrote, left := disk.WritePage(v, data);
        ok := wrote;
        VictimWritten(st0, st, k, v, list, ok, left, owing, crc);
        if !ok {
          lru.RecordAccess(v);
          return false, 0;
        }
      }
      pageTable := pageTable - {v};
      return true, f;
    }

    method FlushOne(id: nat) returns (wrote: bool)
      requires Valid() && id in pageTable && FrameOf(St(), id).dirty
      modifies this`frames, disk
      ensures Valid() && Transparent(old(St()), St(), crc) && SameShape(old(St()), St())
      ensures |frames| == old(|frames|) && FrameOf(St(), id).dirty == !wrote
      ensures forall x :: x != id ==> FrameOf(St(), x).dirty == old(FrameOf(St(), x).dirty)
    {
      hide Inv, KeepsPage, Transparent, ByRecency, SameShape, Stamp;
      ghost var st := St();
      InvParts(st, {}, owing, crc);
      var f := pageTable[id];
      var page := frames[f];
      var data := Stamp(crc, id, page.data);
      frames := frames[f := page.(data := data)];
      var ok, left := disk.WritePage(id, data);
      if ok {
        frames := frames[f := frames[f].(dirty := false)];
      }
      wrote := ok;
      assert St() == Written(st, id, wrote, left, true, crc);
      WriteKeeps(st, id, wrote, left, true, owing, crc);
      WrittenShape(st, id, wrote, left, crc);
    }

    /** Writes every dirty page. When it succeeds, every page that nobody is still changing is on the device. */
    method FlushAll() returns (ok: bool)
      requires Valid()
      modifies this`frames, disk
      ensures Valid() && (old(Faithful()) ==> Faithful()) && Transparent(old(St()), St(), crc)
        && SameShape(old(St()), St())
      ensures ok ==> forall id :: id in pageTable && id !in owing ==> OnDevice(St(), id, crc)
    {
      hide Inv, KeepsPage, Transparent, ByRecency, SameShape, OnDevice, Remembers;
      ghost var st0 := St();
      InvParts(st0, {}, owing, crc);
      TransparentRefl(st0, crc);
      SameShapeRefl(st0);
      ok := true;
      var todo := set id | id in pageTable && frames[pageTable[id]].dirty;
      while todo != {}
        invariant Valid()
        invariant Transparent(st0, St(), crc) && SameShape(st0, St())
        invariant todo <= pageTable.Keys && |frames| == |st0.frames|
        invariant forall id :: id in todo ==> FrameOf(St(), id).dirty
        invariant ok ==> forall id :: id in pageTable && FrameOf(St(), id).dirty ==> id in todo
        decreases |todo|
      {
        var id :| id in todo;
        ghost var st := St();
        var wrote := FlushOne(id);
        ok := ok && wrote;
        TransparentTrans(st0, st, St(), crc);
        ShapeTrans(st0, st, St());
        todo := todo - {id};
      }
      var f := disk.NextFault();
      if f.Broken? {
        ok := false;
      }
      RemembersAll(st0, St(), given, crc);
      if ok {
        CleanOnDevice(St(), owing, crc);
      }
    }
  }

  // --- Lemmas for the steps of the methods ------------------------------------------------

  lemma InvParts(st: State, held: set<nat>, owing: set<nat>, crc: Crc)
    requires Inv(st, held, owing, crc)
    ensures Tracked(st) && forall id :: id in st.table ==>
      st.table[id] < |st.frames| && st.frames[st.table[id]].id == id
  {
  }

  lemma FreshInv(st: State, crc: Crc)
    requires st.table == map[] && st.order == []
    requires |st.free| == |st.frames| && forall f: nat :: f < |st.frames| ==> st.free[f] == f
    ensures Inv(st, {}, {}, crc)
  {
    hide Same, Loadable;
    forall f: nat | f < |st.frames|
      ensures f in st.free
    {
      assert st.free[f] == f;
    }
    assert Places(st, {});
  }

  lemma PastEnd(st: State, id: nat, d: PageBytes, owing: set<nat>, crc: Crc)
    requires Inv(st, {}, owing, crc) && CanFind(st) && id !in st.table
    ensures var t := st.(device := st.device[id := d]); Inv(t, {}, owing, crc) && CanFind(t)
    ensures var t := st.(device := st.device[id := d]); forall x :: x != id ==> KeepsPage(st, t, x, crc)
  {
    hide Synced, KeepsPage, SyncedAt, OnDevice;
    var t := st.(device := st.device[id := d]);
    assert forall g: nat :: g < |st.frames| ==> InUse(t, g) == InUse(st, g);
    assert forall x :: x in st.order ==> FrameOf(t, x) == FrameOf(st, x);
    SyncedFor(st, id, owing, crc);
    AbsentSynced(st, t, id, owing, crc);
    OneStep(st, t, id, owing, owing, crc);
  }

  lemma AbsentSynced(a: State, b: State, id: nat, owing: set<nat>, crc: Crc)
    requires SyncedAt(a, id, owing, crc) && id !in a.table && id !in b.table
    ensures SyncedAt(b, id, owing, crc)
  {
  }

  /** The page is resident, clean, and nobody is changing it: its contents count as stored. */
  ghost predicate Settled(st: State, owing: set<nat>, id: nat) {
    id in st.table && id !in owing && !FrameOf(st, id).dirty
  }

  lemma DeviceUntouched(st: State, id: nat, d: PageBytes, x: nat)
    requires x != id
    ensures Untouched(st, st.(device := st.device[id := d]), x)
  {
  }

  /** The device under one page says nothing about the others. */
  lemma DeviceKeeps(st: State, id: nat, d: PageBytes, crc: Crc)
    ensures var t := st.(device := st.device[id := d]); forall x :: x != id ==> KeepsPage(st, t, x, crc)
  {
    hide KeepsPage, Untouched;
    var t := st.(device := st.device[id := d]);
    forall x | x != id
      ensures KeepsPage(st, t, x, crc)
    {
      DeviceUntouched(st, id, d, x);
      UntouchedSame(st, t, x, crc);
    }
  }

  lemma UntouchedSame(a: State, b: State, id: nat, crc: Crc)
    requires Untouched(a, b, id)
    ensures KeepsPage(a, b, id, crc)
  {
    hide Loadable, FrameOf, Stored;
  }

  /** What the device holds under a page that is not settled does not matter. */
  lemma NotSettled(st: State, id: nat, d: PageBytes, owing: set<nat>, crc: Crc)
    requires Inv(st, {}, owing, crc)
    ensures !Settled(st, owing, id) ==> Inv(st.(device := st.device[id := d]), {}, owing, crc)
  {
    hide Synced, KeepsPage, OnDevice;
    if !Settled(st, owing, id) {
      var t := st.(device := st.device[id := d]);
      assert forall g: nat :: g < |st.frames| ==> InUse(t, g) == InUse(st, g);
      SyncedFor(st, id, owing, crc);
      forall x | x != id
        ensures Untouched(st, t, x)
      {
        DeviceUntouched(st, id, d, x);
      }
      OneStep(st, t, id, owing, owing, crc);
    }
  }

  /** A resident page taken over: pinned once more, formatted, used just now, and owed. */
  lemma TakenKeeps(st: State, id: nat, order: seq<nat>, d: PageBytes, owing: set<nat>, crc: Crc)
    requires Inv(st, {}, owing, crc) && id in st.table && order == Promote(st.order, id)
    ensures var page := FrameOf(st, id);
      var t := st.(frames := st.frames[st.table[id] := page.(pins := page.pins + 1, data := EmptyPage())],
                   order := order, device := st.device[id := d]);
      && Inv(t, {}, owing + {id}, crc)
      && FrameOf(t, id) == page.(pins := page.pins + 1, data := EmptyPage())
      && forall x :: x != id ==> KeepsPage(st, t, x, crc)
  {
    hide Inv, KeepsPage, Same, Loadable, Without, Transparent, EmptyPage;
    InvParts(st, {}, owing, crc);
    WithoutMeaning(st.order, id);
    Reorder(st, order, owing, crc);
    var s1, page := st.(order := order), FrameOf(st, id).(pins := FrameOf(st, id).pins + 1, data := EmptyPage());
    ClientStep(s1, id, page, owing, owing + {id}, crc);
    var s2 := s1.(frames := s1.frames[s1.table[id] := page]);
    NotSettled(s2, id, d, owing + {id}, crc);
    DeviceKeeps(s2, id, d, crc);
    forall x | x != id
      ensures KeepsPage(st, s1, x, crc)
    {
      TransparentAt(st, s1, x, crc);
    }
    KeepsTrans(st, s1, s2, id, crc);
    KeepsTrans(st, s2, s2.(device := s2.device[id := d]), id, crc);
  }

  lemma TakenRemembers(st0: State, st1: State, t: State, id: nat, d: PageBytes, given: map<nat, PageBytes>, crc: Crc)
    requires st1 == st0.(device := st0.device[id := d]) && id !in given
    requires forall x :: x != id ==> KeepsPage(st0, t, x, crc)
    ensures Remembers(st1, given) ==> Remembers(t, given[id := Contents(t, id)])
  {
    hide KeepsPage, Same, Contents, Remembers;
    BackRemembers(st0, id, d, given);
    RemembersGiven(st0, t, id, Contents(t, id), given, crc);
  }

  lemma BackRemembers(st: State, id: nat, d: PageBytes, given: map<nat, PageBytes>)
    requires id !in given
    ensures Remembers(st.(device := st.device[id := d]), given) ==> Remembers(st, given)
  {
    hide Same, Untouched, Contents;
    var t := st.(device := st.device[id := d]);
    forall x | x in given
      ensures Contents(st, x) == Contents(t, x)
    {
      DeviceUntouched(st, id, d, x);
      SameContents(st, t, x);
    }
  }

  lemma SameContents(a: State, b: State, x: nat)
    requires Untouched(a, b, x)
    ensures Contents(a, x) == Contents(b, x)
  {
  }

  /** Formatting keeps the records of a page exactly when there are none. */
  lemma NewPageKeepsExactly(recs: seq<Rec>)
    ensures Layout(EmptyPage(), recs) <==> recs == []
  {
    hide Layout, Le;
    if Layout(EmptyPage(), recs) {
      LayoutFields(EmptyPage(), recs);
      LayoutFields(EmptyPage(), []);
    }
  }

  /** A resident page with a record, past the end of the device: it is the next page to be handed out, and then holds no
      record.
   */
  lemma ResidentIsFormatted(crc: Crc)
    ensures var rec := Rec(1, 0, [7], [9]);
      var d := Appended(EmptyPage(), 0, PAGE_SIZE - rec.Size(), EncodeRec(rec));
      var st := State([Frame(0, d, 0, true)], map[0 := 0], [], [0], map[]);
      var t := State([Frame(0, EmptyPage(), 1, true)], map[0 := 0], [], [0], map[0 := Zeros(PAGE_SIZE)]);
      && Inv(st, {}, {}, crc) && Layout(Contents(st, 0), [rec])
      && Inv(t, {}, {0}, crc) && !Layout(Contents(t, 0), [rec])
  {
    hide Layout, EncodeRec, Appended, EmptyPage;
    var rec := Rec(1, 0, [7], [9]);
    NewPageKeepsExactly([rec]);
    OneRecord(rec);
    var d := Appended(EmptyPage(), 0, PAGE_SIZE - rec.Size(), EncodeRec(rec));
    OneDirtyPage(d, 0, map[], {}, crc);
    OneDirtyPage(EmptyPage(), 1, map[0 := Zeros(PAGE_SIZE)], {0}, crc);
  }

  lemma OneRecord(rec: Rec)
    requires Fits(rec) && rec.Size() + 4 + SLOTTED_HEADER <= PAGE_SIZE
    ensures Layout(Appended(EmptyPage(), 0, PAGE_SIZE - rec.Size(), EncodeRec(rec)), [rec])
  {
    hide Layout, EncodeRec, Appended, EmptyPage;
    assert [] + [rec] == [rec] && [rec][1..] == [];
    assert Total([rec]) == rec.Size() && Total([]) == 0;
    EmptyIsLaidOut();
    LayoutAppend(EmptyPage(), [], rec);
  }

  lemma EmptyIsLaidOut()
    ensures Layout(EmptyPage(), [])
  {
    hide Layout;
  }

  lemma OneDirtyPage(d: PageBytes, pins: nat, device: map<nat, PageBytes>, owing: set<nat>, crc: Crc)
    requires forall id :: id in owing ==> id == 0 && pins > 0
    ensures Inv(State([Frame(0, d, pins, true)], map[0 := 0], [], [0], device), {}, owing, crc)
  {
    hide OnDevice;
  }

  /** A page that is neither resident nor on the device holds nothing that could be lost. */
  lemma PastEndIsBlank(st: State, id: nat)
    requires id !in st.table && id !in st.device
    ensures Contents(st, id) == Zeros(PAGE_SIZE)
  {
  }

  lemma KeepsTrans(a: State, b: State, c: State, id: nat, crc: Crc)
    requires forall x :: x != id ==> KeepsPage(a, b, x, crc)
    requires forall x :: x != id ==> KeepsPage(b, c, x, crc)
    ensures forall x :: x != id ==> KeepsPage(a, c, x, crc)
  {
    hide KeepsPage;
    forall x | x != id
      ensures KeepsPage(a, c, x, crc)
    {
      KeepsPageTrans(a, b, c, x, crc);
    }
  }

  lemma RemembersStep(a: State, b: State, id: nat, given: map<nat, PageBytes>, crc: Crc)
    requires Same(id, Contents(b, id), Contents(a, id)) && forall x :: x != id ==> KeepsPage(a, b, x, crc)
    ensures Remembers(a, given) ==> Remembers(b, given)
  {
    hide Contents, Same, KeepsPage;
    if Remembers(a, given) {
      forall x | x in given
        ensures Same(x, Contents(b, x), given[x])
      {
        if x != id {
          KeepsSame(a, b, x, crc);
        }
        SameTransitive(x, Contents(b, x), Contents(a, x), given[x]);
      }
    }
  }

  lemma RemembersAt(st: State, id: nat, given: map<nat, PageBytes>)
    ensures Remembers(st, given) && id in given ==> Same(id, Contents(st, id), given[id])
  {
  }

  lemma KeepsSame(a: State, b: State, x: nat, crc: Crc)
    requires KeepsPage(a, b, x, crc)
    ensures Same(x, Contents(b, x), Contents(a, x))
  {
  }

  lemma RemembersBut(a: State, b: State, id: nat, given: map<nat, PageBytes>, crc: Crc)
    requires forall x :: x != id ==> KeepsPage(a, b, x, crc)
    ensures Remembers(a, given) ==> Remembers(b, given - {id})
  {
    hide Contents, Same, KeepsPage;
    if Remembers(a, given) {
      forall x | x in given && x != id
        ensures Same(x, Contents(b, x), given[x])
      {
        KeepsSame(a, b, x, crc);
        SameTransitive(x, Contents(b, x), Contents(a, x), given[x]);
      }
    }
  }

  lemma RemembersGiven(a: State, b: State, id: nat, data: PageBytes, given: map<nat, PageBytes>, crc: Crc)
    requires Contents(b, id) == data && forall x :: x != id ==> KeepsPage(a, b, x, crc)
    ensures Remembers(a, given) ==> Remembers(b, given[id := data])
  {
    hide Contents, Same, KeepsPage;
    RemembersBut(a, b, id, given, crc);
    SameRefl(id, data);
    assert forall x :: x in given[id := data] && x != id ==> x in given - {id};
  }

  lemma RemembersAll(a: State, b: State, given: map<nat, PageBytes>, crc: Crc)
    requires Transparent(a, b, crc)
    ensures Remembers(a, given) ==> Remembers(b, given)
  {
    KeepsSame(a, b, 0, crc);
    RemembersStep(a, b, 0, given, crc);
  }

  lemma HeldFrame(st: State, f: nat, owing: set<nat>, crc: Crc)
    requires Inv(st, {f}, owing, crc)
    ensures f < |st.frames|
  {
  }

  lemma NotOwing(st: State, id: nat, owing: set<nat>, crc: Crc)
    requires Inv(st, {}, owing, crc) && id !in st.table
    ensures id !in owing
  {
    SyncedFor(st, id, owing, crc);
  }

  lemma SelfKeeps(st: State, crc: Crc)
    ensures forall x :: KeepsPage(st, st, x, crc)
  {
    TransparentRefl(st, crc);
  }

  lemma TransparentAt(a: State, b: State, x: nat, crc: Crc)
    requires Transparent(a, b, crc)
    ensures KeepsPage(a, b, x, crc)
  {
  }

  /** A page that is not resident stays so and stays as it is. */
  lemma MissKeeps(a: State, b: State, id: nat, crc: Crc)
    requires Transparent(a, b, crc) && id !in a.table
    ensures id !in b.table && Stored(b, id) == Stored(a, id)
    ensures Contents(b, id) == Contents(a, id) == Stored(a, id) && Same(id, Contents(b, id), Contents(a, id))
    ensures Sound(a, id, crc) == Sound(b, id, crc) == Loadable(crc, id, Stored(a, id))
    ensures forall x :: KeepsPage(a, b, x, crc)
  {
    hide Loadable;
    assert KeepsPage(a, b, id, crc);
  }

  lemma CorruptMeans(crc: Crc, id: nat, d: PageBytes)
    requires !AllZero(d) && !IsBTreePage(id) && Le(d[..4]) != crc(d[4..]) && Le(d[..4]) != 0
    ensures !Loadable(crc, id, d)
  {
  }

  /** The test on a page that is not resident, in plain terms. */
  lemma SoundMeans(st: State, id: nat, crc: Crc)
    requires id !in st.table
    ensures id in st.device && id < 1000 ==>
      var d := st.device[id]; Sound(st, id, crc) <==> Le(d[..4]) == crc(d[4..]) || Le(d[..4]) == 0
    ensures id !in st.device || id >= 1000 ==> Sound(st, id, crc)
  {
    hide Le;
    if id in st.device {
      ZeroSum(st.device[id]);
    }
  }

  lemma ZeroSum(d: PageBytes)
    ensures AllZero(d) ==> Le(d[..4]) == 0
  {
    if AllZero(d) {
      assert d[..4] == [0, 0, 0, 0];
      assert Le([0]) == 0 && Le([0, 0]) == 0 && Le([0, 0, 0]) == 0;
    }
  }

  lemma LoadableMeans(crc: Crc, id: nat, d: PageBytes)
    requires !(!AllZero(d) && !IsBTreePage(id) && Le(d[..4]) != crc(d[4..]) && Le(d[..4]) != 0)
    ensures Loadable(crc, id, d)
  {
  }

  lemma MissInstalled(a: State, b: State, c: State, id: nat, crc: Crc)
    requires Transparent(a, b, crc) && id !in a.table && forall x :: x != id ==> KeepsPage(b, c, x, crc)
    requires FrameOf(c, id) == Frame(id, Contents(b, id), 1, false)
    ensures forall x :: x != id ==> KeepsPage(a, c, x, crc)
    ensures Same(id, Contents(c, id), Contents(a, id)) && FrameOf(a, id).pins == 0
  {
    hide KeepsPage, Same;
    MissKeeps(a, b, id, crc);
    forall x | x != id
      ensures KeepsPage(a, c, x, crc)
    {
      KeepsPageTrans(a, b, c, x, crc);
    }
  }

  lemma SameShapeRefl(a: State)
    ensures SameShape(a, a)
  {
  }

  lemma ShapeTable(a: State, b: State)
    requires SameShape(a, b)
    ensures a.table == b.table && a.free == b.free && a.order == b.order
  {
  }

  lemma ShapePins(a: State, b: State)
    requires SameShape(a, b)
    ensures forall id :: FrameOf(b, id).pins == FrameOf(a, id).pins
  {
  }

  lemma CanFindShape(a: State, b: State)
    requires SameShape(a, b) && CanFind(a)
    ensures CanFind(b) && a.table == b.table && a.free == b.free
  {
    ShapePins(a, b);
  }

  lemma FoundFree(a: State, b: State, c: State, f: nat)
    requires SameShape(a, b) && b.free != [] && f == b.free[0]
    requires c == b.(free := b.free[1..])
    ensures Found(a, c, f)
  {
  }

  lemma FoundEvicted(a: State, b: State, c: State, f: nat)
    requires SameShape(a, b) && b.free == [] && Found(b, c, f)
    ensures Found(a, c, f)
  {
    ShapePins(a, b);
    var i :| OldestUnpinned(b, i) && b.order[i] in b.table && f == b.table[b.order[i]]
                     && c.table == b.table - {b.order[i]} && c.order == b.order[i + 1..] + b.order[..i];
    assert OldestUnpinned(a, i);
  }

  lemma WrittenShape(st: State, id: nat, ok: bool, left: PageBytes, crc: Crc)
    requires id in st.table && st.table[id] < |st.frames|
    ensures SameShape(st, Written(st, id, ok, left, true, crc))
  {
    hide Stamp;
  }

  lemma ShapeTrans(a: State, b: State, c: State)
    requires SameShape(a, b) && SameShape(b, c)
    ensures SameShape(a, c)
  {
  }

  lemma CleanOnDevice(st: State, owing: set<nat>, crc: Crc)
    requires Inv(st, {}, owing, crc) && forall id :: id in st.table ==> !FrameOf(st, id).dirty
    ensures forall id :: id in st.table && id !in owing ==> OnDevice(st, id, crc)
  {
    hide OnDevice;
    forall id | id in st.table && id !in owing
      ensures OnDevice(st, id, crc)
    {
      SyncedFor(st, id, owing, crc);
    }
  }

  // --- The eviction loop ------------------------------------------------------------------

  /** The order after the pages from place `k` on were passed over. */
  function Rotated(order: seq<nat>, k: int): seq<nat>
    requires 0 <= k <= |order|
  {
    order[k..] + order[..k]
  }

  ghost predicate PinnedFrom(st: State, k: int) {
    && 0 <= k <= |st.order|
    && (forall j :: k <= j < |st.order| ==> FrameOf(st, st.order[j]).pins > 0)
    && (st.order == [] || exists u :: 0 <= u < k && FrameOf(st, st.order[u]).pins == 0)
  }

  lemma CanFindBelow(st: State)
    requires CanFind(st) && st.free == []
    ensures PinnedFrom(st, |st.order|) && Rotated(st.order, |st.order|) == st.order
  {
    if st.order != [] {
      var id :| id in st.order && FrameOf(st, id).pins == 0;
      var u :| 0 <= u < |st.order| && st.order[u] == id;
    }
  }

  ghost predicate Victim(st0: State, st: State, k: int, v: nat, owing: set<nat>, crc: Crc) {
    && Inv(st, {}, owing, crc) && Transparent(st0, st, crc) && PinnedFrom(st0, k) && k > 0
    && st == st0.(order := Rotated(st0.order, k)) && v == st0.order[k - 1] && v in st0.table && st0.free == []
  }

  lemma VictimIs(st0: State, st: State, k: int, v: nat, list: seq<nat>, owing: set<nat>, crc: Crc)
    requires PinnedFrom(st0, k) && Inv(st, {}, owing, crc) && Transparent(st0, st, crc) && st0.free == []
    requires st == st0.(order := Rotated(st0.order, k)) && st.order == list + [v]
    ensures Victim(st0, st, k, v, owing, crc) && v in st0.table && st0.table[v] < |st0.frames|
    ensures k > 0 && list == st0.order[k..] + st0.order[..k - 1]
  {
    hide Transparent, Inv;
    assert |st.order| == |st0.order|;
    RotatedLast(st0.order, k, list, v);
    InvParts(st, {}, owing, crc);
    assert st.order[|list|] == v;
  }

  lemma RotatedLast(order: seq<nat>, k: int, list: seq<nat>, v: nat)
    requires 0 < k <= |order| && Rotated(order, k) == list + [v]
    ensures v == order[k - 1] && list == order[k..] + order[..k - 1]
  {
    var r := Rotated(order, k);
    assert r[|r| - 1] == order[k - 1];
    assert r[..|r| - 1] == order[k..] + order[..k - 1];
  }

  lemma RotateOn(order: seq<nat>, k: int)
    requires 0 < k <= |order|
    ensures [order[k - 1]] + (order[k..] + order[..k - 1]) == Rotated(order, k - 1)
    ensures Rotated(order, k) == (order[k..] + order[..k - 1]) + [order[k - 1]]
  {
    assert order[k - 1..] == [order[k - 1]] + order[k..];
    assert order[..k] == order[..k - 1] + [order[k - 1]];
  }

  /** A pinned candidate goes back to the front and the search moves on. */
  lemma PassOver(st0: State, st: State, k: int, v: nat, list: seq<nat>, owing: set<nat>, crc: Crc)
    requires Victim(st0, st, k, v, owing, crc) && FrameOf(st0, v).pins > 0
    requires list == st0.order[k..] + st0.order[..k - 1] && v !in list
    ensures PinnedFrom(st0, k - 1) && Promote(list, v) == Rotated(st0.order, k - 1)
    ensures var t := st0.(order := Promote(list, v)); Inv(t, {}, owing, crc) && Transparent(st0, t, crc)
  {
    hide Transparent, Inv, Without, Rotated, FrameOf;
    RotateOn(st0.order, k);
    WithoutMeaning(list, v);
    VictimNoDup(st0, st, k, v, list, owing, crc);
    Reorder(st, Promote(list, v), owing, crc);
    TransparentTrans(st0, st, st0.(order := Promote(list, v)), crc);
  }

  lemma SnocNoDup(list: seq<nat>, v: nat)
    requires NoDup(list + [v])
    ensures NoDup(list) && v !in list && NoDup([v] + list)
    ensures forall x :: x in list <==> x in list + [v] && x != v
    ensures forall x :: x in [v] + list <==> x in list + [v]
  {
    var s := list + [v];
    assert forall i :: 0 <= i < |list| ==> list[i] == s[i];
    assert s[|list|] == v;
  }

  lemma VictimNoDup(st0: State, st: State, k: int, v: nat, list: seq<nat>, owing: set<nat>, crc: Crc)
    requires Victim(st0, st, k, v, owing, crc)
    requires list == st0.order[k..] + st0.order[..k - 1]
    ensures st.order == list + [v] && v !in list && NoDup(list) && NoDup(Promote(list, v))
    ensures forall x :: x in list <==> x in st.order && x != v
    ensures forall x :: x in Promote(list, v) <==> x in st.order
  {
    hide Transparent, Inv, Without, Rotated, FrameOf;
    RotateOn(st0.order, k);
    InvParts(st, {}, owing, crc);
    WithoutMeaning(list, v);
    SnocNoDup(list, v);
  }

  lemma SameEmpty(st0: State, k: int)
    requires PinnedFrom(st0, k) && Rotated(st0.order, k) == []
    ensures st0.order == []
  {
    assert |Rotated(st0.order, k)| == |st0.order|;
  }

  /** Dropping the victim, once it is on the device, from the state `w` that the write left. */
  lemma DropVictim(st0: State, st: State, w: State, k: int, v: nat, list: seq<nat>, owing: set<nat>, crc: Crc)
    requires Victim(st0, st, k, v, owing, crc) && list == st0.order[k..] + st0.order[..k - 1]
    requires Inv(w, {}, owing, crc) && Transparent(st, w, crc) && OnDevice(w, v, crc)
    requires w.table == st.table && w.free == st.free && w.order == st.order
    requires FrameOf(w, v).pins == 0 && FrameOf(st0, v).pins == 0
    ensures var t := w.(table := w.table - {v}, order := list);
      Inv(t, {w.table[v]}, owing, crc) && Transparent(st0, t, crc) && Found(st0, t, w.table[v])
  {
    hide Transparent, Inv, OnDevice, FrameOf;
    var t := w.(table := w.table - {v}, order := list);
    VictimNoDup(st0, st, k, v, list, owing, crc);
    DropPage(w, v, list, owing, crc);
    TransparentTrans(st0, st, w, crc);
    TransparentTrans(st0, w, t, crc);
    assert OldestUnpinned(st0, k - 1);
  }

  lemma VictimDrops(st0: State, st: State, k: int, v: nat, list: seq<nat>, owing: set<nat>, crc: Crc)
    requires Victim(st0, st, k, v, owing, crc) && list == st0.order[k..] + st0.order[..k - 1]
    requires FrameOf(st, v).pins == 0 && !FrameOf(st, v).dirty
    ensures var t := st.(table := st.table - {v}, order := list);
      Inv(t, {st.table[v]}, owing, crc) && Transparent(st0, t, crc) && Found(st0, t, st.table[v])
  {
    hide Transparent, Inv, OnDevice, Found, Synced, Places;
    InvSynced(st, v, owing, crc);
    TransparentRefl(st, crc);
    DropVictim(st0, st, st, k, v, list, owing, crc);
  }

  lemma InvSynced(st: State, id: nat, owing: set<nat>, crc: Crc)
    requires Inv(st, {}, owing, crc)
    ensures SyncedAt(st, id, owing, crc)
  {
    SyncedFor(st, id, owing, crc);
  }

  lemma VictimWritten(st0: State, st: State, k: int, v: nat, list: seq<nat>, ok: bool, left: PageBytes,
                      owing: set<nat>, crc: Crc)
    requires Victim(st0, st, k, v, owing, crc) && list == st0.order[k..] + st0.order[..k - 1]
    requires FrameOf(st, v).pins == 0 && st.table[v] < |st.frames|
    ensures var w := Written(st, v, ok, left, false, crc);
      && (ok ==> var t := w.(table := w.table - {v}, order := list);
          Inv(t, {w.table[v]}, owing, crc) && Transparent(st0, t, crc) && Found(st0, t, w.table[v]))
      && (!ok ==> var t := w.(order := Promote(list, v)); Inv(t, {}, owing, crc) && Transparent(st0, t, crc))
  {
    hide Transparent, Inv, OnDevice, Found, Stamp, Without, PinnedFrom;
    var w := Written(st, v, ok, left, false, crc);
    WriteKeeps(st, v, ok, left, false, owing, crc);
    if ok {
      DropVictim(st0, st, w, k, v, list, owing, crc);
    } else {
      VictimNoDup(st0, st, k, v, list, owing, crc);
      Reorder(w, Promote(list, v), owing, crc);
      TransparentTrans(st0, st, w, crc);
      TransparentTrans(st0, w, w.(order := Promote(list, v)), crc);
    }
  }

  /** The page evicted is, of all unpinned resident pages, the one used longest ago. */
  lemma OldestIsLeastRecent(st: State, i: int, history: seq<nat>)
    requires OldestUnpinned(st, i) && ByRecency(st.order, history) && Tracked(st)
    ensures forall x :: x in st.table && x != st.order[i] && FrameOf(st, x).pins == 0 ==>
      LastUse(history, st.order[i]) < LastUse(history, x)
  {
    hide LastUse, FrameOf;
    forall x | x in st.table && x != st.order[i] && FrameOf(st, x).pins == 0
      ensures LastUse(history, st.order[i]) < LastUse(history, x)
    {
      assert x in st.order;
      var j :| 0 <= j < |st.order| && st.order[j] == x;
      assert j < i;
    }
  }

  /** The eviction order after `n` rounds that each pass over the page at its end. */
  function Passes(order: seq<nat>, n: nat): seq<nat> {
    if n == 0 || order == [] then order
    else
      var before := Passes(order, n - 1);
      if before == [] then [] else Promote(before[..|before| - 1], before[|before| - 1])
  }

  /** When no frame is free and every resident page is pinned the search does not end: however many rounds it has
      made, the next candidate exists and is pinned, so neither exit is taken and exhaustion is never reported.
   */
  lemma {:induction false} AllPinnedSpins(st: State, n: nat)
    requires Tracked(st) && st.order != [] && forall id :: id in st.order ==> FrameOf(st, id).pins > 0
    ensures var now := Passes(st.order, n);
      now != [] && FrameOf(st, now[|now| - 1]).pins > 0 && forall x :: x in now <==> x in st.order
  {
    hide FrameOf;
    if n > 0 {
      AllPinnedSpins(st, n - 1);
      var before := Passes(st.order, n - 1);
      var init, v := before[..|before| - 1], before[|before| - 1];
      assert before == init + [v];
      WithoutMeaning(init, v);
      assert forall x :: x in before <==> x in init || x == v;
    }
    var now := Passes(st.order, n);
    assert now[|now| - 1] in now;
  }
}
