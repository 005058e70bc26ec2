/** The directory operations as the kernel runs them: read the directory's sectors, scan their slots, write back. */
module DirectoryCode {
  import opened Fat12Types
  import opened Chains
  import opened FatHeap
  import opened ItemData
  import opened Volumes
  import opened Names
  import opened Directories
  import opened DirectoryItems

  /** dir is the root, or a subdirectory with chain c. */
  ghost predicate IsDir(vol: Volume, dir: Entry, c: seq<nat>)
    requires vol.Valid()
    reads vol, vol.disk, vol.table
  {
    dir != 0 ==> DirChain(vol.geometry, vol.State(), dir, c)
  }

  ghost function Slots(vol: Volume, dir: Entry, c: seq<nat>): seq<DirEntry>
    requires vol.Valid()
    reads vol, vol.disk, vol.table
  {
    DirSlots(vol.geometry, vol.State(), dir, c)
  }

  method ReadDirectory(vol: Volume, dir: Entry, ghost c: seq<nat>) returns (sectors: seq<Sector>)
    requires vol.Valid() && IsDir(vol, dir, c)
    ensures sectors == DirSectors(vol.geometry, vol.State(), dir, c)
  {
    var count := vol.GetSectorsCount(dir, c);
    var buffer := new Sector[count](_ => ZeroSector());
    if dir != 0 {
      ReadOnChain(vol.geometry, vol.State(), buffer[..], c, 0, count);
      assert c[0..count] == c;
    }
    var _ := vol.ReadItem(buffer, dir, 0, count);
    sectors := buffer[..];
  }

  /** The search in Get_Item: the first live slot whose name is the one looked for. */
  method LookupIn(vol: Volume, dir: Entry, name: Text, ghost c: seq<nat>) returns (found: Option<DirEntry>)
    requires vol.Valid() && IsDir(vol, dir, c)
    ensures found == Resolve(Slots(vol, dir, c), name)
  {
    hide Display, Find;
    var sectors := ReadDirectory(vol, dir, c);
    ghost var es := SlotsOf(sectors);
    for i := 0 to |sectors|
      invariant forall h | 0 <= h < SLOTS * i :: !Shows(es[h], name)
    {
      for j := 0 to SLOTS
        invariant forall h | 0 <= h < SLOTS * i + j :: !Shows(es[h], name)
      {
        var e := Slot(sectors[i], j);
        assert e == es[SLOTS * i + j] by {
          SlotAt(sectors, i, j);
        }
        if e[0] != NEVER_USED && e[0] != DELETED {
          var same := SameFilename(e, name);
          if same {
            FindIs(es, name, SLOTS * i + j);
            return Some(e);
          }
        }
      }
    }
    FindIs(es, name, |es|);
    return None;
  }

  lemma SlotAt(dir: seq<Sector>, i: nat, j: nat)
    requires i < |dir| && j < SLOTS
    ensures SLOTS * i + j < |SlotsOf(dir)| && SlotsOf(dir)[SLOTS * i + j] == Slot(dir[i], j)
  {
  }

  /** Is_Directory_Empty: an item that is not a directory counts as empty. */
  method IsDirectoryEmpty(vol: Volume, item: DirEntry, ghost c: seq<nat>) returns (empty: bool)
    requires vol.Valid() && (IsDirectory(item) ==> IsDir(vol, StartSector(item), c))
    ensures empty <==> !IsDirectory(item) || NoneLiveFrom(Slots(vol, StartSector(item), c), 0)
  {
    if !IsDirectory(item) {
      return true;
    }
    var sectors := ReadDirectory(vol, StartSector(item), c);
    ghost var es := SlotsOf(sectors);
    for i := 0 to |sectors|
      invariant forall h | 0 <= h < SLOTS * i :: !Live(es[h])
    {
      for j := 0 to SLOTS
        invariant forall h | 0 <= h < SLOTS * i + j :: !Live(es[h])
      {
        SlotAt(sectors, i, j);
        var e := Slot(sectors[i], j);
        if e[0] != NEVER_USED && e[0] != DELETED {
          return false;
        }
      }
    }
    return true;
  }

  lemma FirstDeadIs(es: seq<DirEntry>, k: nat)
    requires k <= |es| && (k < |es| ==> !Live(es[k])) && forall i | 0 <= i < k :: Live(es[i])
    ensures FirstDead(es) == k
  {
  }

  lemma FirstEqualIs(es: seq<DirEntry>, item: DirEntry, k: nat)
    requires k <= |es| && (k < |es| ==> CompareEntries(es[k], item) == 0)
    requires forall i | 0 <= i < k :: CompareEntries(es[i], item) != 0
    ensures FirstEqual(es, item) == k
  {
  }

  /** The scan for a free slot; i is |sectors| when the directory is full. */
  method FindDeadSlot(sectors: seq<Sector>) returns (i: nat, j: nat)
    ensures i <= |sectors| && (i < |sectors| ==> j < SLOTS)
    ensures FirstDead(SlotsOf(sectors)) == if i < |sectors| then SLOTS * i + j else SLOTS * |sectors|
  {
    ghost var es := SlotsOf(sectors);
    i := 0;
    while i < |sectors|
      invariant i <= |sectors| && forall h | 0 <= h < SLOTS * i :: Live(es[h])
    {
      j := 0;
      while j < SLOTS
        invariant j <= SLOTS && forall h | 0 <= h < SLOTS * i + j :: Live(es[h])
      {
        SlotAt(sectors, i, j);
        var e := Slot(sectors[i], j);
        if e[0] == NEVER_USED || e[0] == DELETED {
          FirstDeadIs(es, SLOTS * i + j);
          return;
        }
        j := j + 1;
      }
      i := i + 1;
    }
    j := 0;
    FirstDeadIs(es, |es|);
  }

  /** The scan for the slot of an item, dead slots included; i is |sectors| when there is none. */
  method FindEqualSlot(sectors: seq<Sector>, item: DirEntry) returns (i: nat, j: nat)
    ensures i <= |sectors| && (i < |sectors| ==> j < SLOTS)
    ensures FirstEqual(SlotsOf(sectors), item) == if i < |sectors| then SLOTS * i + j else SLOTS * |sectors|
  {
    ghost var es := SlotsOf(sectors);
    i := 0;
    while i < |sectors|
      invariant i <= |sectors| && forall h | 0 <= h < SLOTS * i :: CompareEntries(es[h], item) != 0
    {
      j := 0;
      while j < SLOTS
        invariant j <= SLOTS && forall h | 0 <= h < SLOTS * i + j :: CompareEntries(es[h], item) != 0
      {
        SlotAt(sectors, i, j);
        if CompareEntries(Slot(sectors[i], j), item) == 0 {
          FirstEqualIs(es, item, SLOTS * i + j);
          return;
        }
        j := j + 1;
      }
      i := i + 1;
    }
    j := 0;
    FirstEqualIs(es, item, |es|);
  }

  /** Allocation keeps a subdirectory readable even when no cluster was free and the root was written instead. */
  lemma AllocatedKeepsDir(g: Geometry, v: VolumeState, dir: Entry, c: seq<nat>)
    requires v.Valid(g) && DirChain(g, v, dir, c)
    ensures var a := Allocated(g, v);
            a.Some? && a.value.Valid(g) && DirChain(g, a.value, dir, c)
  {
  }

  method AllocateItem(vol: Volume) returns (start: nat)
    requires vol.Valid()
    modifies vol.table, vol.phys, vol.disk
    ensures vol.Valid() && start == FindFree(old(vol.table[..]), vol.geometry.RootSectors())
    ensures Some(vol.State()) == Allocated(vol.geometry, old(vol.State()))
  {
    ghost var v := vol.State();
    start := vol.FindFreeSector();
    if start == 0 {
      NoRoomWipesRoot(vol.geometry, v);
    } else {
      AllocatedIs(vol.geometry, v);
    }
    var _ := vol.WriteItem([ZeroSector()], start, Some(0), 1);
    vol.table[start] := LAST_SECTOR;
    vol.SaveTableToDisk();
  }

  method AppendDirSector(vol: Volume, dir: Entry, e: DirEntry) returns (ok: bool)
    requires vol.Valid() && dir < TABLE_SIZE
    modifies vol.table, vol.phys, vol.disk
    ensures vol.Valid()
    ensures var r := AppendSector(vol.geometry, old(vol.State()), dir, e);
            ok == r.Some? && (ok ==> vol.State() == r.value)
  {
    var extra := vol.FindFreeSector();
    ok := vol.WriteItem([Padded(e)], extra, None, 1);
    if ok {
      vol.table[dir] := extra;
      vol.table[extra] := LAST_SECTOR;
      vol.SaveTableToDisk();
    }
  }

  method StoreDirSlot(vol: Volume, dir: Entry, sectors: seq<Sector>, i: nat, j: nat, e: DirEntry) returns (ok: bool)
    requires vol.Valid() && i < |sectors| && j < SLOTS
    modifies vol.table, vol.phys, vol.disk
    ensures vol.Valid()
    ensures var r := StoreSlot(vol.geometry, old(vol.State()), dir, sectors, SLOTS * i + j, e);
            ok == r.Some? && (ok ==> vol.State() == r.value)
  {
    assert (SLOTS * i + j) / SLOTS == i && (SLOTS * i + j) % SLOTS == j;
    ok := vol.WriteItem([WithSlot(sectors[i], j, e)], dir, Some(i), 1);
  }

  method PlaceEntry(vol: Volume, dir: Entry, e: DirEntry, ghost c: seq<nat>) returns (ok: bool)
    requires vol.Valid() && IsDir(vol, dir, c) && dir < TABLE_SIZE
    modifies vol.table, vol.phys, vol.disk
    ensures vol.Valid()
    ensures var r := PlaceIn(vol.geometry, old(vol.State()), dir, c, e);
            ok == r.Some? && (ok ==> vol.State() == r.value)
  {
    var sectors := ReadDirectory(vol, dir, c);
    var i, j := FindDeadSlot(sectors);
    if i < |sectors| {
      ok := StoreDirSlot(vol, dir, sectors, i, j, e);
    } else {
      ok := AppendDirSector(vol, dir, e);
    }
  }

  /** Create_Item once the parent directory is known and the name accepted. */
  method CreateItemIn(vol: Volume, dir: Entry, item: NewItem, ghost c: seq<nat>) returns (ok: bool)
    requires vol.Valid() && IsDir(vol, dir, c) && Accepted(item.name) && dir < TABLE_SIZE
    modifies vol.table, vol.phys, vol.disk
    ensures vol.Valid()
    ensures var r := CreateIn(vol.geometry, old(vol.State()), dir, c, item);
            ok == r.Some? && (ok ==> vol.State() == r.value)
  {
    if dir != 0 {
      AllocatedKeepsDir(vol.geometry, vol.State(), dir, c);
    }
    var start := AllocateItem(vol);
    ok := PlaceEntry(vol, dir, item.At(start), c);
  }

  lemma StoreWorks(g: Geometry, v: VolumeState, dir: Entry, c: seq<nat>, k: nat, e: DirEntry)
    requires v.Valid(g) && (dir != 0 ==> DirChain(g, v, dir, c)) && k < |DirSlots(g, v, dir, c)|
    ensures StoreSlot(g, v, dir, DirSectors(g, v, dir, c), k, e).Some?
  {
    if dir == 0 {
      StoreSlotInRoot(g, v, k, e);
    } else {
      StoreSlotOnChain(g, v, dir, c, k, e);
    }
  }

  /** Search for the item's slot and write it back changed; false when no slot compares equal to item. */
  method ChangeEntry(vol: Volume, dir: Entry, item: DirEntry, how: SlotChange, ghost c: seq<nat>) returns (ok: bool)
    requires vol.Valid() && IsDir(vol, dir, c) && how.Valid()
    modifies vol.table, vol.phys, vol.disk
    ensures vol.Valid()
    ensures var r := ChangeIn(vol.geometry, old(vol.State()), dir, c, item, how);
            ok == r.Some? && (ok ==> vol.State() == r.value)
    ensures !ok ==> vol.State() == old(vol.State())
  {
    var sectors := ReadDirectory(vol, dir, c);
    var i, j := FindEqualSlot(sectors, item);
    if i == |sectors| {
      return false;
    }
    SlotAt(sectors, i, j);
    StoreWorks(vol.geometry, vol.State(), dir, c, SLOTS * i + j, how.On(Slot(sectors[i], j)));
    ok := StoreDirSlot(vol, dir, sectors, i, j, how.On(Slot(sectors[i], j)));
  }

  /** Remove_Item once the item and its parent directory are known. */
  method RemoveItemIn(vol: Volume, dir: Entry, item: DirEntry, ghost c: seq<nat>) returns (ok: bool)
    requires vol.Valid() && IsDir(vol, dir, c) && InRange(vol.table[..]) && StartSector(item) < TABLE_SIZE
    modifies vol.table, vol.phys, vol.disk
    ensures vol.Valid()
    ensures var r := RemoveIn(vol.geometry, old(vol.State()), dir, c, item);
            if r.Some? then ok && vol.State() == r.value else !ok && vol.State() == old(vol.State())
  {
    ChangedInRange(vol.geometry, vol.State(), dir, c, item, Delete);
    ok := ChangeEntry(vol, dir, item, Delete, c);
    if ok {
      vol.RemoveItemData(StartSector(item));
      vol.SaveTableToDisk();
    }
  }

  /** The change works whenever the entry is there, and leaves all links inside the table. */
  lemma ChangedInRange(g: Geometry, v: VolumeState, dir: Entry, c: seq<nat>, item: DirEntry, how: SlotChange)
    requires v.Valid(g) && InRange(v.table) && (dir != 0 ==> DirChain(g, v, dir, c)) && how.Valid()
    ensures var w := ChangeIn(g, v, dir, c, item, how);
            && (w.Some? <==> FirstEqual(DirSlots(g, v, dir, c), item) < |DirSlots(g, v, dir, c)|)
            && (w.Some? ==> InRange(w.value.table))
  {
    var es := DirSlots(g, v, dir, c);
    var r := FirstEqual(es, item);
    if r < |es| {
      StoredInRange(g, v, dir, c, r, how.On(es[r]));
    }
  }

  lemma StoredInRange(g: Geometry, v: VolumeState, dir: Entry, c: seq<nat>, k: nat, e: DirEntry)
    requires v.Valid(g) && InRange(v.table) && (dir != 0 ==> DirChain(g, v, dir, c))
    requires k < |DirSlots(g, v, dir, c)|
    ensures var w := StoreSlot(g, v, dir, DirSectors(g, v, dir, c), k, e);
            w.Some? && InRange(w.value.table)
  {
    if dir == 0 {
      RootStoreInRange(g, v, k, e);
    } else {
      StoreSlotOnChain(g, v, dir, c, k, e);
    }
  }

  lemma RootStoreInRange(g: Geometry, v: VolumeState, k: nat, e: DirEntry)
    requires v.Valid(g) && InRange(v.table) && k < SLOTS * g.RootSectors()
    ensures var w := StoreSlot(g, v, 0, RootArea(g, v), k, e);
            w.Some? && InRange(w.value.table)
  {
  }
}
