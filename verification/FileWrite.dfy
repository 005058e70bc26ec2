/** File_Handle::Write: the old clusters are freed, the data is written, and the directory entry gets the length. */
module FileWrite {
  import opened Fat12Types
  import opened Chains
  import opened FatHeap
  import opened ItemData
  import opened Volumes
  import opened Names
  import opened Directories
  import opened DirectoryItems
  import opened DirectoryCode
  import opened FileData
  import opened FileHandles

  /** dir (with chain c) holds the item, whose old chain x shares no cluster with it. */
  ghost predicate Writable(g: Geometry, v: VolumeState, dir: Entry, c: seq<nat>, item: DirEntry, x: seq<nat>)
    requires v.Valid(g)
  {
    && InRange(v.table) && Chain(v.table, x) && x[0] == StartSector(item)
    && (dir != 0 ==> DirChain(g, v, dir, c) && Disjoint(x, c))
  }

  /** The volume after the whole write. */
  ghost function FileWritten(g: Geometry, v: VolumeState, dir: Entry, c: seq<nat>, item: DirEntry, b: seq<Byte>)
    : Option<VolumeState>
    requires v.Valid(g) && InRange(v.table) && StartSector(item) < TABLE_SIZE && |b| < 0x1_0000_0000
  {
    var d := Rewritten(g, v, StartSector(item), b);
    if d.None? || !d.value.Valid(g) then None
    else
      var u := ChangeIn(g, d.value, dir, c, item, Resize(|b|));
      if u.Some? then u else d
  }

  /** Rewriting a file leaves the directory that lists it readable. */
  lemma RewriteKeepsDir(g: Geometry, v: VolumeState, dir: Entry, c: seq<nat>, item: DirEntry, x: seq<nat>, b: seq<Byte>)
    requires v.Valid(g) && Writable(g, v, dir, c, item, x)
    ensures var d := Rewritten(g, v, x[0], b);
            d.Some? && d.value.Valid(g) && (dir != 0 ==> DirChain(g, d.value, dir, c))
  {
    RewrittenTable(g, v, x, b);
    FreedChain(v.table, x);
    if dir != 0 {
      NonZeroOn(v.table, c);
      var t := Freed(v.table, x[0]);
      var t' := Rewritten(g, v, x[0], b).value.table;
      forall i | 0 <= i < |c| ensures t'[c[i]] == v.table[c[i]] {
        assert c[i] !in x;
        assert t[c[i]] == v.table[c[i]] != 0;
      }
    }
  }

  /** The 16-bit loop counter of Write_Item reaches the sector count of less than this many bytes (LongWrites). */
  const MAX_WRITE: nat := 65535 * SECTOR_SIZE

  /** What the code needs to come to its end: links that stay inside the table, and a directory that can still be read,
      by chain c, once the data is written. */
  ghost predicate Finishes(g: Geometry, v: VolumeState, dir: Entry, c: seq<nat>, item: DirEntry, b: seq<Byte>)
    requires v.Valid(g)
  {
    && InRange(v.table) && StartSector(item) < TABLE_SIZE
    && var d := Rewritten(g, v, StartSector(item), b);
       d.Some? && dir != 0 ==> d.value.Valid(g) && DirChain(g, d.value, dir, c)
  }

  /** A file with a chain that the directory has no part in. */
  lemma WritableFinishes(g: Geometry, v: VolumeState, dir: Entry, c: seq<nat>, item: DirEntry, x: seq<nat>, b: seq<Byte>)
    requires v.Valid(g) && Writable(g, v, dir, c, item, x)
    ensures Finishes(g, v, dir, c, item, b) && Rewritten(g, v, StartSector(item), b).Some?
  {
    RewriteKeepsDir(g, v, dir, c, item, x, b);
  }

  /** ok is false when the table is left, and then nothing is promised about the state. */
  method RewriteData(vol: Volume, start: Entry, b: seq<Byte>) returns (ok: bool)
    requires vol.Valid() && InRange(vol.table[..]) && start < TABLE_SIZE && |b| < MAX_WRITE
    modifies vol.table, vol.phys, vol.disk
    ensures vol.Valid()
    ensures var r := Rewritten(vol.geometry, old(vol.State()), start, b);
            ok == r.Some? && (ok ==> vol.State() == r.value)
  {
    vol.RemoveItemData(start);
    ok := vol.WriteItem(Sectors(b), start, Some(0), |Sectors(b)|);
  }

  method WriteAndRegister(vol: Volume, item: DirEntry, b: seq<Byte>, dir: Entry, ghost c: seq<nat>) returns (ok: bool)
    requires vol.Valid() && |b| < MAX_WRITE && Finishes(vol.geometry, vol.State(), dir, c, item, b)
    modifies vol.table, vol.phys, vol.disk
    ensures vol.Valid()
    ensures var r := FileWritten(vol.geometry, old(vol.State()), dir, c, item, b);
            ok == r.Some? && (ok ==> vol.State() == r.value)
  {
    ok := RewriteData(vol, StartSector(item), b);
    if ok {
      var _ := ChangeEntry(vol, dir, item, Resize(|b|), c);
    }
  }

  /** None: the table is left. The file may have a chain (WritableFinishes), or no cluster at all. */
  method Write(vol: Volume, handle: FileHandle, b: seq<Byte>, dir: Entry, ghost c: seq<nat>) returns (written: Option<nat>)
    requires vol.Valid() && handle.Valid() && |b| < MAX_WRITE
    requires Finishes(vol.geometry, vol.State(), dir, c, handle.item, b)
    modifies handle, vol.table, vol.phys, vol.disk
    ensures vol.Valid() && handle.Valid() && handle.seek == 1 && handle.length == |b|
    ensures var r := FileWritten(vol.geometry, old(vol.State()), dir, c, handle.item, b);
            if r.None? then written == None else written == Some(|b|) && vol.State() == r.value
  {
    handle.seek := 1;
    handle.length := |b|;
    var ok := WriteAndRegister(vol, handle.item, b, dir, c);
    written := if ok then Some(|b|) else None;
  }

  // ----- what a write achieves -----

  /** Even when the contents lose their chain, a rewrite of a whole file keeps the heap. */
  lemma RewriteKeepsHeap(g: Geometry, v: VolumeState, x: seq<nat>, b: seq<Byte>)
    requires v.Valid(g) && HeapOk(v.table) && InRange(v.table) && Chain(v.table, x)
    requires v.table[x[0]] != 0 && !HasPredecessor(v.table, x[0])
    ensures var r := Rewritten(g, v, x[0], b);
            r.Some? && HeapOk(r.value.table)
  {
    RewrittenTable(g, v, x, b);
    FreeKeepsHeapIffHead(v.table, x);
    var t := Freed(v.table, x[0]);
    if |b| < SECTOR_SIZE {
      SealKeepsHeap(t, x[0]);
    } else {
      var free := FindFree(t, g.RootSectors());
      HeapIgnoresReserved(t, t[0 := free]);
      if free == 0 {
        HeapIgnoresReserved(t, Seal(t[0 := free], 0));
      } else {
        SealKeepsHeap(t[0 := free], free);
      }
    }
  }

  /** Contents of less than one sector, written to a file in a subdirectory: looked up again by name the file has
      the new length, and its one cluster holds the contents. */
  lemma ShortWriteReopens(g: Geometry, v: VolumeState, dir: Entry, c: seq<nat>, name: Text, x: seq<nat>, b: seq<Byte>)
    requires v.Valid(g) && DirChain(g, v, dir, c) && Resolve(DirSlots(g, v, dir, c), name).Some?
    requires Writable(g, v, dir, c, Resolve(DirSlots(g, v, dir, c), name).value, x)
    requires OnDisk(g, v.disk, x) && |b| < SECTOR_SIZE
    ensures var item := Resolve(DirSlots(g, v, dir, c), name).value;
            var c' := c[..Find(DirSlots(g, v, dir, c), name) / SLOTS + 1];
            var w := FileWritten(g, v, dir, c, item, b);
            && w.Some? && w.value.Valid(g) && DirChain(g, w.value, dir, c')
            && Chain(w.value.table, [x[0]])
            && Bytes(Contents(g, w.value.disk, [x[0]]))[..Total(|b|, 1)] == b
            && var again := Resolve(DirSlots(g, w.value, dir, c'), name);
               again.Some? && StartSector(again.value) == x[0] && FileLength(again.value) == |b|
  {
    hide Display, Live, Find, FirstEqual, WriteItem, FatImage;
    var es := DirSlots(g, v, dir, c);
    var k := Find(es, name);
    ShortRewriteOnDir(g, v, dir, c, es[k], x, b);
    var d := Rewritten(g, v, x[0], b).value;
    ChangeInSlot(g, d, dir, c, name, Resize(|b|));
    ResizedResolves(es, name, |b|, SLOTS * (k / SLOTS + 1));
    ChangeFrame(g, d, dir, c, es[k], Resize(|b|), [x[0]]);
  }

  /** A longer write, with a free cluster left, leaves the directory's slots as they are. */
  lemma LongRewriteOnDir(g: Geometry, v: VolumeState, dir: Entry, c: seq<nat>, item: DirEntry, x: seq<nat>, b: seq<Byte>)
    requires v.Valid(g) && dir != 0 && Writable(g, v, dir, c, item, x) && |b| >= SECTOR_SIZE
    requires FindFree(Freed(v.table, x[0]), g.RootSectors()) != 0
    ensures var r := Rewritten(g, v, x[0], b);
            && r.Some? && r.value.Valid(g) && DirChain(g, r.value, dir, c)
            && DirSlots(g, r.value, dir, c) == DirSlots(g, v, dir, c)
  {
    hide FatImage;
    RewriteKeepsDir(g, v, dir, c, item, x, b);
    FreedChain(v.table, x);
    NonZeroOn(v.table, c);
    var t, file := Freed(v.table, x[0]), Sectors(b);
    var free := FindFree(t, g.RootSectors());
    var v1 := VolumeState(t, Put(v.disk, g.Lba(x[0]), file[0]));
    WriteRestFromFree(g, v1, file, 1, |file|, x[0]);
    var w := WriteRest(g, v1, file, 1, |file|, x[0]).value.0;
    SavedPlaces(g, w.(table := Seal(w.table, free)));
    assert g.DirStart() > FAT_SECTORS && Walk(t, x[0], 0) == Some(x[0]);
    assert Rewritten(g, v, x[0], b) == Some(Saved(w.(table := Seal(w.table, free))));
    forall i | 0 <= i < |c| ensures c[i] != x[0] && c[i] != free {
      assert c[i] !in x && t[c[i]] == v.table[c[i]] != 0;
    }
    assert Contents(g, Rewritten(g, v, x[0], b).value.disk, c) == Contents(g, v.disk, c);
  }

  /** Contents of a sector or more: the name is found with the new length all the same, though its chain is then the
      one free cluster it starts at. */
  lemma LongWriteReopens(g: Geometry, v: VolumeState, dir: Entry, c: seq<nat>, name: Text, x: seq<nat>, b: seq<Byte>)
    requires v.Valid(g) && DirChain(g, v, dir, c) && Resolve(DirSlots(g, v, dir, c), name).Some?
    requires Writable(g, v, dir, c, Resolve(DirSlots(g, v, dir, c), name).value, x)
    requires SECTOR_SIZE <= |b| < 0x1_0000_0000 && FindFree(Freed(v.table, x[0]), g.RootSectors()) != 0
    ensures var item := Resolve(DirSlots(g, v, dir, c), name).value;
            var c' := c[..Find(DirSlots(g, v, dir, c), name) / SLOTS + 1];
            var w := FileWritten(g, v, dir, c, item, b);
            && w.Some? && w.value.Valid(g) && DirChain(g, w.value, dir, c')
            && var again := Resolve(DirSlots(g, w.value, dir, c'), name);
               again.Some? && StartSector(again.value) == x[0] && FileLength(again.value) == |b|
  {
    hide Display, Live, Find, FirstEqual, WriteItem, FatImage;
    var es := DirSlots(g, v, dir, c);
    var k := Find(es, name);
    LongRewriteOnDir(g, v, dir, c, es[k], x, b);
    var d := Rewritten(g, v, x[0], b).value;
    ChangeInSlot(g, d, dir, c, name, Resize(|b|));
    ResizedResolves(es, name, |b|, SLOTS * (k / SLOTS + 1));
  }

  lemma ShortRewriteOnDir(g: Geometry, v: VolumeState, dir: Entry, c: seq<nat>, item: DirEntry, x: seq<nat>, b: seq<Byte>)
    requires v.Valid(g) && dir != 0 && Writable(g, v, dir, c, item, x) && OnDisk(g, v.disk, x) && |b| < SECTOR_SIZE
    ensures var r := Rewritten(g, v, x[0], b);
            && r.Some? && r.value.Valid(g) && DirChain(g, r.value, dir, c) && Chain(r.value.table, [x[0]])
            && Bytes(Contents(g, r.value.disk, [x[0]]))[..Total(|b|, 1)] == b
            && DirSlots(g, r.value, dir, c) == DirSlots(g, v, dir, c)
  {
    RewriteKeepsDir(g, v, dir, c, item, x, b);
    ShortWriteReadsBack(g, v, x, b);
    FreedChain(v.table, x);
    var v1 := v.(table := Freed(v.table, x[0]));
    var one := [x[0]];
    assert Chain(v1.table, one);
    WriteWithinChain(g, v1, Sectors(b), one, 0, 1);
    WrittenUntouched(g, v1, Sectors(b), one, 0, 1);
    var w := Written(g, v1, Sectors(b), one, 0, 1);
    UntouchedContents(g, v1, w, one, 0, 1, c);
  }

  lemma ResizedResolves(es: seq<DirEntry>, name: Text, n: nat, m: nat)
    requires Find(es, name) < m <= |es| && n < 0x1_0000_0000
    ensures var k := Find(es, name);
            Resolve(es[k := WithLength(es[k], n)][..m], name) == Some(WithLength(es[k], n))
  {
    var k := Find(es, name);
    var es' := es[k := WithLength(es[k], n)][..m];
    assert forall i | 0 <= i < k :: es'[i] == es[i];
    FindIs(es', name, k);
  }

  /** Storing a directory slot leaves a chain that shares no cluster with the directory alone. */
  lemma StoreFrame(g: Geometry, v: VolumeState, dir: Entry, c: seq<nat>, k: nat, e: DirEntry, x: seq<nat>)
    requires v.Valid(g) && DirChain(g, v, dir, c) && k < SLOTS * |c| && Chain(v.table, x) && Disjoint(c, x)
    ensures var w := StoreSlot(g, v, dir, Contents(g, v.disk, c), k, e);
            w.Some? && Chain(w.value.table, x) && Contents(g, w.value.disk, x) == Contents(g, v.disk, x)
  {
    var i := k / SLOTS;
    var sec := WithSlot(Contents(g, v.disk, c)[i], k % SLOTS, e);
    WriteWithinChain(g, v, [sec], c, i, 1);
    WriteFrame(g, v, [sec], c, i, x);
  }

  lemma ChangeFrame(g: Geometry, v: VolumeState, dir: Entry, c: seq<nat>, item: DirEntry, how: SlotChange, x: seq<nat>)
    requires v.Valid(g) && DirChain(g, v, dir, c) && how.Valid() && Chain(v.table, x) && Disjoint(c, x)
    requires FirstEqual(DirSlots(g, v, dir, c), item) < |DirSlots(g, v, dir, c)|
    ensures var w := ChangeIn(g, v, dir, c, item, how);
            w.Some? && Chain(w.value.table, x) && Contents(g, w.value.disk, x) == Contents(g, v.disk, x)
  {
    var es := DirSlots(g, v, dir, c);
    var k := FirstEqual(es, item);
    StoreFrame(g, v, dir, c, k, how.On(es[k]), x);
  }
}
