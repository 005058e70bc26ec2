/** The part of a directory that Create_Item, Remove_Item and File_Handle::Write can change without losing anything:
    the slots of its first sector, in the root and in a one-sector subdirectory alike. */
module FirstSector {
  import opened Fat12Types
  import opened Chains
  import opened FatHeap
  import opened ItemData
  import opened Names
  import opened Directories
  import opened DirectoryItems
  import opened CreateLimits
  import opened FileData
  import opened FileWrite

  /** The chain of a directory of one sector; the root has none. */
  function Home(dir: Entry): seq<nat> { if dir == 0 then [] else [dir] }

  ghost predicate DirReady(g: Geometry, v: VolumeState, dir: Entry)
    requires v.Valid(g)
  {
    dir != 0 ==> DirChain(g, v, dir, Home(dir))
  }

  /** All slots of the root, or those of the subdirectory's one sector. */
  function HomeSlots(g: Geometry, v: VolumeState, dir: Entry): (es: seq<DirEntry>)
    requires v.Valid(g)
    ensures |es| >= SLOTS
  {
    DirSlots(g, v, dir, Home(dir))
  }

  // ----- what a change leaves -----

  /** No link is added. */
  ghost predicate NoNewLinks(t: Table, t': Table) {
    forall i | 2 <= i < TABLE_SIZE && !EndOfChain(t'[i]) :: t'[i] == t[i]
  }

  lemma FewerPredecessors(t: Table, t': Table, x: nat)
    requires NoNewLinks(t, t') && !HasPredecessor(t, x)
    ensures !HasPredecessor(t', x)
  {
  }

  /** A cluster that is free has no predecessor. */
  lemma FreeHasNone(t: Table, x: nat)
    requires HeapOk(t) && x < TABLE_SIZE && t[x] == 0
    ensures !HasPredecessor(t, x)
  {
  }

  /** The chain and its contents are as before. */
  ghost predicate Spared(g: Geometry, v: VolumeState, w: VolumeState, x: seq<nat>)
    requires v.Valid(g) && w.Valid(g)
  {
    && (forall i | 0 <= i < |x| :: x[i] < TABLE_SIZE && w.table[x[i]] == v.table[x[i]])
    && Contents(g, w.disk, x) == Contents(g, v.disk, x)
  }

  // ----- storing one slot -----

  /** Entries 2 and on of the table are as before, but the chain of a subdirectory ends at dir. */
  ghost predicate OnlyEnds(t: Table, t': Table, dir: Entry) {
    forall i | 2 <= i < TABLE_SIZE :: t'[i] == if i == dir then LAST_SECTOR else t[i]
  }

  /** Slot k holds e, and nothing else that can be read through the table has changed. */
  ghost predicate Stored(g: Geometry, v: VolumeState, w: VolumeState, dir: Entry, k: nat, e: DirEntry)
    requires v.Valid(g)
  {
    && w.Valid(g) && w.Synced() && |w.disk| == |v.disk| && DirReady(g, w, dir) && OnlyEnds(v.table, w.table, dir)
    && (InRange(v.table) ==> InRange(w.table))
    && k < |HomeSlots(g, v, dir)| && HomeSlots(g, w, dir) == HomeSlots(g, v, dir)[k := e]
  }

  lemma StoreFirst(g: Geometry, v: VolumeState, dir: Entry, k: nat, e: DirEntry)
    requires v.Valid(g) && DirReady(g, v, dir) && k < SLOTS
    ensures var w := StoreSlot(g, v, dir, DirSectors(g, v, dir, Home(dir)), k, e);
            w.Some? && Stored(g, v, w.value, dir, k, e)
  {
    hide Display, Live, FatImage;
    if dir == 0 {
      StoreFirstInRoot(g, v, k, e);
    } else {
      StoreSlotOnChain(g, v, dir, [dir], k, e);
      StoreKeepsRoot(g, v, dir, [dir], k, e);
      assert [dir][..1] == [dir];
    }
  }

  lemma StoreFirstInRoot(g: Geometry, v: VolumeState, k: nat, e: DirEntry)
    requires v.Valid(g) && k < SLOTS
    ensures var w := StoreSlot(g, v, 0, RootArea(g, v), k, e);
            w.Some? && Stored(g, v, w.value, 0, k, e)
  {
    hide Display, Live, FatImage;
    var root := RootArea(g, v);
    StoreSlotInRoot(g, v, k, e);
    RootSlotsAfter(root, k, e);
    RootAfterFirst(SlotsOf(root), k, e);
    RootWrite(g, v, WithSlot(root[0], k, e), Some(0));
    RootStaysInRange(g, v, WithSlot(root[0], k, e), Some(0));
  }

  lemma RootStaysInRange(g: Geometry, v: VolumeState, x: Sector, num: Option<nat>)
    requires v.Valid(g)
    ensures var w := WriteItem(g, v, [x], 0, num, 1);
            w.Some? && (InRange(v.table) ==> InRange(w.value.table))
  {
  }

  lemma StoreFirstSpares(g: Geometry, v: VolumeState, dir: Entry, k: nat, e: DirEntry, x: seq<nat>)
    requires v.Valid(g) && DirReady(g, v, dir) && k < SLOTS && Chain(v.table, x) && dir !in x
    ensures var w := StoreSlot(g, v, dir, DirSectors(g, v, dir, Home(dir)), k, e);
            w.Some? && w.value.Valid(g) && Spared(g, v, w.value, x)
  {
    hide Display, Live, FatImage, HomeSlots, StoreSlot;
    StoreFirst(g, v, dir, k, e);
    if dir == 0 {
      RootStoreSpares(g, v, k, e, x);
    } else {
      assert Disjoint([dir], x);
      StoreFrame(g, v, dir, [dir], k, e, x);
    }
  }

  lemma RootStoreSpares(g: Geometry, v: VolumeState, k: nat, e: DirEntry, x: seq<nat>)
    requires v.Valid(g) && k < SLOTS * g.RootSectors() && forall i | 0 <= i < |x| :: 2 <= x[i] < TABLE_SIZE
    ensures var w := StoreSlot(g, v, 0, RootArea(g, v), k, e);
            w.Some? && w.value.Valid(g) && Spared(g, v, w.value, x)
  {
    hide FatImage, WriteItem;
    var root := RootArea(g, v);
    RootWrite(g, v, WithSlot(root[k / SLOTS], k % SLOTS, e), Some(k / SLOTS));
    SameContents(g, v, StoreSlot(g, v, 0, root, k, e).value, x);
  }

  lemma OnlyEndsKeepsHeap(t: Table, t': Table, dir: Entry)
    requires HeapOk(t) && OnlyEnds(t, t', dir)
    ensures HeapOk(t') && NoNewLinks(t, t')
  {
    if 2 <= dir < TABLE_SIZE {
      SealKeepsHeap(t, dir);
      HeapIgnoresReserved(Seal(t, dir), t');
    } else {
      HeapIgnoresReserved(t, t');
    }
  }

  // ----- the three calls, as stores of one slot -----

  /** Create_Item with a dead slot in the first sector: the item gets a wiped cluster, then the slot is stored. */
  lemma CreateIsStore(g: Geometry, v: VolumeState, dir: Entry, item: NewItem)
    requires v.Valid(g) && DirReady(g, v, dir) && Accepted(item.name)
    requires ItemCluster(g, v) != 0 && FirstDead(HomeSlots(g, v, dir)) < SLOTS
    ensures var a := Allocated(g, v);
            && a.Some? && a.value.Valid(g) && |a.value.disk| == |v.disk| && DirReady(g, a.value, dir)
            && a.value.table == Seal(v.table, ItemCluster(g, v)) && HomeSlots(g, a.value, dir) == HomeSlots(g, v, dir)
            && CreateIn(g, v, dir, Home(dir), item) ==
               StoreSlot(g, a.value, dir, DirSectors(g, a.value, dir, Home(dir)), FirstDead(HomeSlots(g, v, dir)),
                         item.At(ItemCluster(g, v)))
  {
    hide Display, Live, FatImage, WriteItem, BuildEntry, Accepted, FirstDead, Allocated, StoreSlot;
    AllocatedAlways(g, v);
    AllocatedIs(g, v);
    if dir != 0 {
      AllocatedKeeps(g, v, [dir]);
    }
  }

  /** Remove_Item and File_Handle::Write find an entry again that its name was found at. */
  lemma ChangeIsStore(g: Geometry, v: VolumeState, dir: Entry, name: Text, how: SlotChange)
    requires v.Valid(g) && how.Valid() && Find(HomeSlots(g, v, dir), name) < |HomeSlots(g, v, dir)|
    ensures var es := HomeSlots(g, v, dir);
            var k := Find(es, name);
            && k < SLOTS * |DirSectors(g, v, dir, Home(dir))|
            && ChangeIn(g, v, dir, Home(dir), es[k], how) ==
               StoreSlot(g, v, dir, DirSectors(g, v, dir, Home(dir)), k, how.On(es[k]))
  {
    EqualFindsItself(HomeSlots(g, v, dir), name);
  }

  /** Rewriting a file with short contents touches no other chain, and not the root. */
  lemma RewriteFrame(g: Geometry, v: VolumeState, x: seq<nat>, b: seq<Byte>, y: seq<nat>)
    requires v.Valid(g) && InRange(v.table) && Chain(v.table, x) && |b| < SECTOR_SIZE
    requires Chain(v.table, y) && Disjoint(y, x)
    ensures var r := Rewritten(g, v, x[0], b);
            r.Some? && r.value.Valid(g) && Spared(g, v, r.value, y)
  {
    hide FatImage;
    FreedChain(v.table, x);
    var v1 := v.(table := Freed(v.table, x[0]));
    var one := [x[0]];
    assert Chain(v1.table, one);
    WriteWithinChain(g, v1, Sectors(b), one, 0, 1);
    WrittenUntouched(g, v1, Sectors(b), one, 0, 1);
    assert forall i | 0 <= i < |y| :: y[i] != x[0] && y[i] !in x;
    UntouchedContents(g, v1, Written(g, v1, Sectors(b), one, 0, 1), one, 0, 1, y);
  }

  lemma RewriteKeepsRoot(g: Geometry, v: VolumeState, x: seq<nat>, b: seq<Byte>)
    requires v.Valid(g) && InRange(v.table) && Chain(v.table, x) && |b| < SECTOR_SIZE
    ensures var r := Rewritten(g, v, x[0], b);
            r.Some? && r.value.Valid(g) && RootArea(g, r.value) == RootArea(g, v) && |r.value.disk| == |v.disk|
  {
    hide FatImage;
    FreedChain(v.table, x);
    var v1 := v.(table := Freed(v.table, x[0]));
    var one := [x[0]];
    assert Chain(v1.table, one);
    WriteWithinChain(g, v1, Sectors(b), one, 0, 1);
    WrittenUntouched(g, v1, Sectors(b), one, 0, 1);
    UntouchedRoot(g, v1, Written(g, v1, Sectors(b), one, 0, 1), one, 0, 1);
  }

  /** File_Handle::Write before it comes to the entry: the data is in the file's first cluster. */
  lemma RewriteStays(g: Geometry, v: VolumeState, dir: Entry, x: seq<nat>, b: seq<Byte>)
    requires v.Valid(g) && InRange(v.table) && DirReady(g, v, dir) && |b| < SECTOR_SIZE
    requires Chain(v.table, x) && dir !in x && OnDisk(g, v.disk, x)
    ensures var r := Rewritten(g, v, x[0], b);
            && r.Some? && r.value.Valid(g) && |r.value.disk| == |v.disk| && InRange(r.value.table)
            && r.value.table == Seal(Freed(v.table, x[0]), x[0])
            && DirReady(g, r.value, dir) && HomeSlots(g, r.value, dir) == HomeSlots(g, v, dir)
            && Chain(r.value.table, [x[0]]) && Bytes(Contents(g, r.value.disk, [x[0]]))[..Total(|b|, 1)] == b
  {
    hide FatImage, Rewritten, SlotsOf, Bytes;
    RewrittenTable(g, v, x, b);
    FreedChain(v.table, x);
    RewriteKeepsRoot(g, v, x, b);
    ShortWriteReadsBack(g, v, x, b);
    if dir != 0 {
      assert Disjoint([dir], x);
      RewriteFrame(g, v, x, b, [dir]);
      assert Rewritten(g, v, x[0], b).value.table[[dir][0]] == v.table[dir];
    }
  }
}
