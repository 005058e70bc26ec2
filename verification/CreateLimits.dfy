/** Create_Item when clusters run out: the two calls that look for a free one, and what is lost when they fail. */
module CreateLimits {
  import opened Fat12Types
  import opened Chains
  import opened FatHeap
  import opened ItemData
  import opened Names
  import opened Directories
  import opened DirectoryItems

  // ----- the two searches for a free cluster -----

  /** The cluster taken for the item, 0 when there is none. */
  function ItemCluster(g: Geometry, v: VolumeState): nat
    requires g.Valid()
  {
    FindFree(v.table, g.RootSectors())
  }

  /** The table once the item has its cluster; entries 0 and 1 are no part of it. */
  ghost predicate TableWithItem(g: Geometry, v: VolumeState, t: Table)
    requires g.Valid()
  {
    forall i | 2 <= i < TABLE_SIZE :: t[i] == if i == ItemCluster(g, v) then LAST_SECTOR else v.table[i]
  }

  /** The cluster taken for a further directory sector, 0 when there is none. */
  function ExtraCluster(g: Geometry, v: VolumeState): nat
    requires g.Valid()
  {
    var start := ItemCluster(g, v);
    if start == 0 then 0 else FindFree(Seal(v.table, start), g.RootSectors())
  }

  predicate Full(es: seq<DirEntry>) { FirstDead(es) == |es| }

  /** Both searches that Create_Item makes find a cluster. */
  predicate ClustersFound(g: Geometry, v: VolumeState, es: seq<DirEntry>)
    requires g.Valid()
  {
    ItemCluster(g, v) != 0 && (Full(es) ==> ExtraCluster(g, v) != 0)
  }

  lemma FindFreeSame(t: Table, t': Table, lo: nat)
    requires lo >= 2 && forall i | 2 <= i < TABLE_SIZE :: t'[i] == t[i]
    ensures FindFree(t', lo) == FindFree(t, lo)
  {
  }

  /** The first sector written to the root with number 0 goes over its first sector, and clusters stay. */
  lemma RootWrite(g: Geometry, v: VolumeState, x: Sector, num: Option<nat>)
    requires v.Valid(g)
    ensures var w := WriteItem(g, v, [x], 0, num, 1);
            && w.Some? && w.value.Valid(g) && |w.value.disk| == |v.disk|
            && RootArea(g, w.value) == [x] + RootArea(g, v)[1..]
            && (forall i | 2 <= i < TABLE_SIZE :: w.value.table[i] == v.table[i])
            && (forall l | g.DirStart() < l < |v.disk| :: w.value.disk[l] == v.disk[l])
  {
    var u := VolumeState(Seal(RootLinks(v.table, 1), 1), PutRun(v.disk, g.DirStart(), [x][..1]));
    assert WriteItem(g, v, [x], 0, num, 1) == Some(Saved(u));
    assert g.DirStart() > FAT_SECTORS;
    SavedPlaces(g, u);
    assert RootArea(g, u) == [x] + RootArea(g, v)[1..];
  }

  lemma SameContents(g: Geometry, v: VolumeState, w: VolumeState, c: seq<nat>)
    requires v.Valid(g) && |w.disk| == |v.disk| && forall i | 0 <= i < |c| :: c[i] >= 2
    requires forall l | g.DirStart() + g.RootSectors() <= l < |v.disk| :: w.disk[l] == v.disk[l]
    ensures Contents(g, w.disk, c) == Contents(g, v.disk, c)
  {
  }

  /** Whether or not there was a cluster for the item: what its allocation leaves. */
  lemma AllocatedAlways(g: Geometry, v: VolumeState)
    requires v.Valid(g)
    ensures var a := Allocated(g, v);
            && a.Some? && a.value.Valid(g) && |a.value.disk| == |v.disk| && TableWithItem(g, v, a.value.table)
            && FindFree(a.value.table, g.RootSectors()) == ExtraCluster(g, v)
            && RootArea(g, a.value) ==
               if ItemCluster(g, v) == 0 then [ZeroSector()] + RootArea(g, v)[1..] else RootArea(g, v)
  {
    var start := ItemCluster(g, v);
    if start == 0 {
      RootWrite(g, v, ZeroSector(), Some(0));
      var w := WriteItem(g, v, [ZeroSector()], 0, Some(0), 1).value;
      var u := w.(table := Seal(w.table, 0));
      SavedPlaces(g, u);
      assert g.DirStart() > FAT_SECTORS;
      FindFreeSame(v.table, u.table, g.RootSectors());
    } else {
      AllocatedIs(g, v);
      AllocatedRoot(g, v);
    }
  }

  lemma WipedCluster(g: Geometry, v: VolumeState)
    requires v.Valid(g) && ItemCluster(g, v) != 0 && g.Lba(ItemCluster(g, v)) < |v.disk|
    ensures var a := Allocated(g, v);
            a.Some? && Contents(g, a.value.disk, [ItemCluster(g, v)]) == [ZeroSector()]
  {
    hide FatImage, WriteItem;
    var one := [ItemCluster(g, v)];
    AllocatedIs(g, v);
    assert Chain(v.table, one);
    WrittenPlaces(g, v, [ZeroSector()], one, 0, 1);
    var w := Written(g, v, [ZeroSector()], one, 0, 1);
    WrittenUntouched(g, v, [ZeroSector()], one, 0, 1);
    SavedContents(g, w, one);
    assert w.disk[g.Lba(one[0 + 0])] == ZeroSector();
  }

  lemma AllocatedKeeps(g: Geometry, v: VolumeState, c: seq<nat>)
    requires v.Valid(g) && Chain(v.table, c) && v.table[c[|c| - 1]] != 0
    ensures var a := Allocated(g, v);
            && a.Some? && a.value.Valid(g) && Chain(a.value.table, c) && a.value.table[c[|c| - 1]] != 0
            && Contents(g, a.value.disk, c) == Contents(g, v.disk, c)
  {
    AllocatedAlways(g, v);
    NonZeroOn(v.table, c);
    if ItemCluster(g, v) == 0 {
      RootWrite(g, v, ZeroSector(), Some(0));
      var w := WriteItem(g, v, [ZeroSector()], 0, Some(0), 1).value;
      var u := w.(table := Seal(w.table, 0));
      SavedPlaces(g, u);
      assert g.DirStart() > FAT_SECTORS;
      SameContents(g, v, Allocated(g, v).value, c);
    } else {
      AllocatedFrame(g, v, c);
    }
  }

  // ----- a full directory, and no cluster for another sector -----

  /** With no free cluster, the sector meant for the directory goes over the first root sector, and the directory's
      own first cluster is marked free. */
  lemma AppendWithoutRoom(g: Geometry, v: VolumeState, dir: Entry, e: DirEntry)
    requires v.Valid(g) && dir < TABLE_SIZE && FindFree(v.table, g.RootSectors()) == 0
    ensures var w := AppendSector(g, v, dir, e);
            && w.Some? && w.value.Valid(g) && |w.value.disk| == |v.disk|
            && RootArea(g, w.value) == [Padded(e)] + RootArea(g, v)[1..]
            && (forall i | 2 <= i < TABLE_SIZE :: w.value.table[i] == if i == dir then 0 else v.table[i])
            && (forall l | g.DirStart() < l < |v.disk| :: w.value.disk[l] == v.disk[l])
  {
    RootWrite(g, v, Padded(e), None);
    var w := WriteItem(g, v, [Padded(e)], 0, None, 1).value;
    SavedPlaces(g, w.(table := Extend(w.table, dir, 0)));
    assert g.DirStart() > FAT_SECTORS;
  }

  /** With a free cluster the root stays, wherever on the disk the cluster is. */
  lemma AppendWithRoom(g: Geometry, v: VolumeState, dir: Entry, e: DirEntry)
    requires v.Valid(g) && dir < TABLE_SIZE && FindFree(v.table, g.RootSectors()) != 0
    ensures var extra := FindFree(v.table, g.RootSectors());
            var w := AppendSector(g, v, dir, e);
            && w.Some? && w.value.Valid(g) && |w.value.disk| == |v.disk| && RootArea(g, w.value) == RootArea(g, v)
            && w.value.table == Extend(v.table, dir, extra)
            && forall l | FAT_SECTORS < l < |v.disk| && l != g.Lba(extra) :: w.value.disk[l] == v.disk[l]
  {
    var extra := FindFree(v.table, g.RootSectors());
    var one := [extra];
    assert Chain(v.table, one);
    var w := Written(g, v, [Padded(e)], one, 0, 1);
    WriteWithinChain(g, v, [Padded(e)], one, 0, 1);
    assert WriteItem(g, v, [Padded(e)], extra, None, 1) == Some(w);
    WrittenUntouched(g, v, [Padded(e)], one, 0, 1);
    UntouchedRoot(g, v, w, one, 0, 1);
    var u := w.(table := Extend(w.table, dir, extra));
    assert u.table == Extend(v.table, dir, extra);
    SavedPlaces(g, u);
    assert g.DirStart() > FAT_SECTORS;
  }

  // ----- the whole directory half, whatever the searches found -----

  /** Storing a slot of a subdirectory leaves the root. */
  lemma StoreKeepsRoot(g: Geometry, v: VolumeState, dir: Entry, c: seq<nat>, k: nat, e: DirEntry)
    requires v.Valid(g) && DirChain(g, v, dir, c) && k < SLOTS * |c|
    ensures var w := StoreSlot(g, v, dir, Contents(g, v.disk, c), k, e);
            w.Some? && w.value.Valid(g) && RootArea(g, w.value) == RootArea(g, v) && |w.value.disk| == |v.disk|
  {
    var i := k / SLOTS;
    var x := WithSlot(Contents(g, v.disk, c)[i], k % SLOTS, e);
    WriteWithinChain(g, v, [x], c, i, 1);
    WrittenUntouched(g, v, [x], c, i, 1);
    UntouchedRoot(g, v, Written(g, v, [x], c, i, 1), c, i, 1);
  }

  /** The sector of the chain that a slot is in. */
  function SectorOf(c: seq<nat>, k: nat): nat
    requires k < SLOTS * |c|
  {
    c[k / SLOTS]
  }

  /** With a dead slot, Create_Item stores that slot once the item has its cluster. */
  lemma CreateIsSlot(g: Geometry, v: VolumeState, dir: Entry, c: seq<nat>, item: NewItem)
    requires v.Valid(g) && DirChain(g, v, dir, c) && Accepted(item.name) && !Full(DirSlots(g, v, dir, c))
    ensures var a := Allocated(g, v);
            var k := FirstDead(DirSlots(g, v, dir, c));
            && a.Some? && a.value.Valid(g) && DirChain(g, a.value, dir, c) && k < SLOTS * |c|
            && CreateIn(g, v, dir, c, item) ==
               StoreSlot(g, a.value, dir, Contents(g, a.value.disk, c), k, item.At(ItemCluster(g, v)))
  {
    hide Display, Live, WriteItem, FatImage, BuildEntry, Allocated, StoreSlot, AppendSector, Accepted, FirstDead;
    AllocatedAlways(g, v);
    AllocatedKeeps(g, v, c);
  }

  lemma CreateEndsInSlot(g: Geometry, v: VolumeState, dir: Entry, c: seq<nat>, item: NewItem)
    requires v.Valid(g) && DirChain(g, v, dir, c) && Accepted(item.name) && !Full(DirSlots(g, v, dir, c))
    ensures var w := CreateIn(g, v, dir, c, item);
            var k := FirstDead(DirSlots(g, v, dir, c));
            && w.Some? && w.value.Valid(g) && |w.value.disk| == |v.disk| && k < SLOTS * |c|
            && (forall x | 2 <= x < TABLE_SIZE ::
                  w.value.table[x] == if x == SectorOf(c, k) || x == ItemCluster(g, v) then LAST_SECTOR else v.table[x])
            && RootArea(g, w.value) ==
               if ItemCluster(g, v) == 0 then [ZeroSector()] + RootArea(g, v)[1..] else RootArea(g, v)
  {
    hide Display, Live, WriteItem, FatImage, BuildEntry, Allocated, StoreSlot, Accepted, FirstDead, CreateIn, SlotsOf,
         RootArea;
    AllocatedAlways(g, v);
    CreateIsSlot(g, v, dir, c, item);
    var a := Allocated(g, v).value;
    var k, e := FirstDead(DirSlots(g, v, dir, c)), item.At(ItemCluster(g, v));
    StoreSlotOnChain(g, a, dir, c, k, e);
    StoreKeepsRoot(g, a, dir, c, k, e);
  }

  lemma CreateEndsFull(g: Geometry, v: VolumeState, dir: Entry, c: seq<nat>, item: NewItem)
    requires v.Valid(g) && DirChain(g, v, dir, c) && Accepted(item.name) && Full(DirSlots(g, v, dir, c))
    ensures var w := CreateIn(g, v, dir, c, item);
            var extra := ExtraCluster(g, v);
            && w.Some? && w.value.Valid(g) && |w.value.disk| == |v.disk|
            && (forall x | 2 <= x < TABLE_SIZE ::
                  w.value.table[x] == if x == dir then extra
                                      else if x == extra || x == ItemCluster(g, v) then LAST_SECTOR
                                      else v.table[x])
            && Contents(g, w.value.disk, [dir]) == Contents(g, v.disk, [dir])
            && RootArea(g, w.value) ==
               if extra == 0 then [Padded(item.At(ItemCluster(g, v)))] + RootArea(g, v)[1..] else RootArea(g, v)
  {
    hide Display, Live, WriteItem, FatImage, BuildEntry, Allocated, StoreSlot, AppendSector, Accepted, FirstDead;
    AllocatedAlways(g, v);
    AllocatedKeeps(g, v, c);
    var a := Allocated(g, v).value;
    NonZeroOn(v.table, c);
    assert Contents(g, a.disk, c)[0] == Contents(g, v.disk, c)[0];
    var e := item.At(ItemCluster(g, v));
    if ExtraCluster(g, v) == 0 {
      AppendWithoutRoom(g, a, dir, e);
    } else {
      AppendWithRoom(g, a, dir, e);
      assert a.table[dir] != 0;
    }
  }

  lemma BlankFirst(root: seq<Sector>, x: Sector)
    requires root != []
    ensures [x] + root[1..] == root <==> root[0] == x
  {
    assert root == [root[0]] + root[1..];
  }

  /** In a subdirectory Create_Item leaves the root area and keeps the directory's own cluster in use exactly when
      both searches find a cluster; or when only the first fails, the directory has room, and the root sector it
      wipes was blank. */
  lemma CreateKeepsRootIff(g: Geometry, v: VolumeState, dir: Entry, c: seq<nat>, item: NewItem)
    requires v.Valid(g) && DirChain(g, v, dir, c) && Accepted(item.name)
    ensures var w := CreateIn(g, v, dir, c, item);
            var es := DirSlots(g, v, dir, c);
            w.Some? && w.value.Valid(g) &&
            (RootArea(g, w.value) == RootArea(g, v) && w.value.table[dir] != 0 <==>
             ClustersFound(g, v, es) || (!Full(es) && RootArea(g, v)[0] == ZeroSector()))
  {
    hide CreateIn, DirSlots, FirstDead, FindFree;
    NonZeroOn(v.table, c);
    var root := RootArea(g, v);
    BlankFirst(root, ZeroSector());
    if Full(DirSlots(g, v, dir, c)) {
      CreateEndsFull(g, v, dir, c, item);
    } else {
      CreateEndsInSlot(g, v, dir, c, item);
    }
  }

  /** Create_Item keeps the heap, in the root and in every subdirectory, except exactly when a full subdirectory that
      some cluster links to gets no further one. */
  lemma CreateKeepsHeapIff(g: Geometry, v: VolumeState, dir: Entry, c: seq<nat>, item: NewItem)
    requires v.Valid(g) && (dir != 0 ==> DirChain(g, v, dir, c)) && Accepted(item.name) && HeapOk(v.table)
    ensures var w := CreateIn(g, v, dir, c, item);
            w.Some? && w.value.Valid(g) &&
            (HeapOk(w.value.table) <==>
             dir == 0 || !Full(DirSlots(g, v, dir, c)) || ExtraCluster(g, v) != 0 || !HasPredecessor(v.table, dir))
  {
    hide HeapOk, CreateIn, DirSlots, FirstDead, HasPredecessor;
    if dir == 0 {
      CreateInRootKeepsHeap(g, v, c, item);
    } else {
      var t := if ItemCluster(g, v) == 0 then v.table else Seal(v.table, ItemCluster(g, v));
      if ItemCluster(g, v) != 0 {
        SealKeepsHeap(v.table, ItemCluster(g, v));
      }
      NonZeroOn(v.table, c);
      if Full(DirSlots(g, v, dir, c)) {
        CreateEndsFull(g, v, dir, c, item);
        FullKeepsHeapIff(g, v, dir, t, CreateIn(g, v, dir, c, item).value.table);
      } else {
        CreateEndsInSlot(g, v, dir, c, item);
        var last := SectorOf(c, FirstDead(DirSlots(g, v, dir, c)));
        SealKeepsHeap(t, last);
        HeapIgnoresReserved(Seal(t, last), CreateIn(g, v, dir, c, item).value.table);
      }
    }
  }

  /** The table of a full subdirectory's volume, t being the one with the item's cluster taken. */
  lemma FullKeepsHeapIff(g: Geometry, v: VolumeState, dir: Entry, t: Table, t': Table)
    requires v.Valid(g) && HeapOk(t) && 2 <= dir < TABLE_SIZE && v.table[dir] != 0 && dir != ItemCluster(g, v)
    requires t == if ItemCluster(g, v) == 0 then v.table else Seal(v.table, ItemCluster(g, v))
    requires forall x | 2 <= x < TABLE_SIZE ::
               t'[x] == if x == dir then ExtraCluster(g, v)
                        else if x == ExtraCluster(g, v) || x == ItemCluster(g, v) then LAST_SECTOR
                        else v.table[x]
    ensures HeapOk(t') <==> ExtraCluster(g, v) != 0 || !HasPredecessor(v.table, dir)
  {
    hide HeapOk, HasPredecessor;
    var extra := ExtraCluster(g, v);
    if extra != 0 {
      ExtendKeepsHeap(t, dir, extra);
      HeapIgnoresReserved(Extend(t, dir, extra), t');
    } else {
      DropKeepsHeapIff(t, dir);
      SameHeap(t[dir := 0], t');
      SamePredecessors(v.table, t, ItemCluster(g, v), dir);
    }
  }

  lemma SameHeap(t: Table, t': Table)
    requires forall i | 2 <= i < TABLE_SIZE :: t'[i] == t[i]
    ensures HeapOk(t) <==> HeapOk(t')
  {
    if HeapOk(t) {
      HeapIgnoresReserved(t, t');
    } else if HeapOk(t') {
      HeapIgnoresReserved(t', t);
    }
  }

  /** Ending the chain of a free cluster changes no link. */
  lemma SamePredecessors(t: Table, t': Table, start: nat, x: nat)
    requires start < TABLE_SIZE && (start == 0 ==> t' == t) && (start != 0 ==> t[start] == 0 && t' == Seal(t, start))
    ensures HasPredecessor(t', x) <==> HasPredecessor(t, x)
  {
    if p :| 2 <= p < TABLE_SIZE && !EndOfChain(t[p]) && t[p] == x {
      assert t'[p] == t[p];
    }
    if p :| 2 <= p < TABLE_SIZE && !EndOfChain(t'[p]) && t'[p] == x {
      assert t[p] == t'[p];
    }
  }

  lemma CreateInRootKeepsHeap(g: Geometry, v: VolumeState, c: seq<nat>, item: NewItem)
    requires v.Valid(g) && Accepted(item.name) && HeapOk(v.table)
    ensures var w := CreateIn(g, v, 0, c, item);
            w.Some? && w.value.Valid(g) && HeapOk(w.value.table)
  {
    hide HeapOk, Display, Live, WriteItem, FatImage, BuildEntry, Allocated, StoreSlot, AppendSector, FirstDead;
    AllocatedAlways(g, v);
    var a := Allocated(g, v).value;
    var start := ItemCluster(g, v);
    if start != 0 {
      SealKeepsHeap(v.table, start);
    }
    HeapIgnoresReserved(if start == 0 then v.table else Seal(v.table, start), a.table);
    var root := RootArea(g, a);
    var k, e := FirstDead(SlotsOf(root)), item.At(start);
    if k < SLOTS * |root| {
      StoreSlotInRoot(g, a, k, e);
      HeapIgnoresReserved(a.table, CreateIn(g, v, 0, c, item).value.table);
    } else if FindFree(a.table, g.RootSectors()) == 0 {
      AppendWithoutRoom(g, a, 0, e);
      HeapIgnoresReserved(a.table, CreateIn(g, v, 0, c, item).value.table);
    } else {
      AppendWithRoom(g, a, 0, e);
      var extra := FindFree(a.table, g.RootSectors());
      SealKeepsHeap(a.table, extra);
      HeapIgnoresReserved(Seal(a.table, extra), CreateIn(g, v, 0, c, item).value.table);
    }
  }

  // ----- the root -----

  lemma RootChainIgnored(g: Geometry, v: VolumeState, c: seq<nat>, item: NewItem)
    requires v.Valid(g) && Accepted(item.name)
    ensures DirSlots(g, v, 0, c) == DirSlots(g, v, 0, []) && CreateIn(g, v, 0, c, item) == CreateIn(g, v, 0, [], item)
  {
  }

  lemma WipedSector(e: DirEntry)
    ensures WithSlot(ZeroSector(), 0, e) == Padded(e) && !Live(Slot(ZeroSector(), 0))
  {
    assert Slot(ZeroSector(), 0)[0] == 0;
  }

  /** The root after Create_Item. When a search for a cluster fails, the first sector holds the new entry alone: without
      a cluster for the item it was wiped before the scan, without one for the directory it is written over. When both
      succeed, a full root stays as it was, and otherwise the sector with the entry takes the place of the first. */
  lemma CreateInRootArea(g: Geometry, v: VolumeState, item: NewItem)
    requires v.Valid(g) && Accepted(item.name)
    ensures var w := CreateIn(g, v, 0, [], item);
            var es := DirSlots(g, v, 0, []);
            var k, e := FirstDead(es), item.At(ItemCluster(g, v));
            var root := RootArea(g, v);
            w.Some? && w.value.Valid(g) && |es| == SLOTS * |root| &&
            RootArea(g, w.value) ==
            if !ClustersFound(g, v, es) then [Padded(e)] + root[1..]
            else if Full(es) then root
            else [WithSlot(root[k / SLOTS], k % SLOTS, e)] + root[1..]
  {
    hide Display, WriteItem, FatImage, BuildEntry, Allocated, StoreSlot, AppendSector, Accepted;
    AllocatedAlways(g, v);
    var a := Allocated(g, v).value;
    var root, e := RootArea(g, a), item.At(ItemCluster(g, v));
    var k := FirstDead(SlotsOf(root));
    if ItemCluster(g, v) == 0 {
      WipedSector(e);
      assert SlotsOf(root)[0] == Slot(root[0], 0);
    }
    if k < SLOTS * |root| {
      StoreSlotInRoot(g, a, k, e);
    } else if ExtraCluster(g, v) == 0 {
      AppendWithoutRoom(g, a, 0, e);
    } else {
      AppendWithRoom(g, a, 0, e);
    }
  }

  /** The same for the slots. */
  lemma CreateInRootSlots(g: Geometry, v: VolumeState, item: NewItem)
    requires v.Valid(g) && Accepted(item.name)
    ensures var w := CreateIn(g, v, 0, [], item);
            var es := DirSlots(g, v, 0, []);
            var k, e := FirstDead(es), item.At(ItemCluster(g, v));
            w.Some? && w.value.Valid(g) && |es| >= SLOTS && |es| % SLOTS == 0 &&
            DirSlots(g, w.value, 0, []) ==
            if !ClustersFound(g, v, es) then SlotsOf([Padded(e)]) + es[SLOTS..]
            else if Full(es) then es
            else RootAfter(es, k, e)
  {
    hide Display, CreateIn, BuildEntry, Accepted;
    CreateInRootArea(g, v, item);
    var root := RootArea(g, v);
    var k, e := FirstDead(SlotsOf(root)), item.At(ItemCluster(g, v));
    WholeSectors(root);
    SlotsOfAppend([Padded(e)], root[1..]);
    SlotsOfAppend([root[0]], root[1..]);
    assert root == [root[0]] + root[1..];
    if !Full(SlotsOf(root)) {
      RootSlotsAfter(root, k, e);
    }
  }

  lemma AloneInSector(e: DirEntry, i: nat)
    requires i < SLOTS
    ensures i == 0 ==> SlotsOf([Padded(e)])[i] == e
    ensures i > 0 ==> !Live(SlotsOf([Padded(e)])[i])
  {
  }

  /** With the first sector given to the new entry, every name found there before is gone, and the others stay. */
  lemma FirstSectorGone(es: seq<DirEntry>, name: Text, e: DirEntry, n: Text)
    requires LiveDistinct(es) && |es| >= SLOTS && Resolve(es, name) == None && Shows(e, name)
    ensures Resolve(SlotsOf([Padded(e)]) + es[SLOTS..], n) ==
            if n == name then Some(e) else if Find(es, n) < SLOTS then None else Resolve(es, n)
  {
    hide Display, Live, Padded, SlotsOf;
    var first := SlotsOf([Padded(e)]);
    var es' := first + es[SLOTS..];
    assert |first| == SLOTS by {
      WholeSectors([Padded(e)]);
    }
    var f := Find(es, n);
    forall i | 0 <= i < |es'| ensures es'[i] == if i < SLOTS then first[i] else es[i] {
    }
    forall i | 0 <= i < SLOTS ensures first[i] == e || !Live(first[i]) {
      AloneInSector(e, i);
    }
    AloneInSector(e, 0);
    if n == name {
      FindIs(es', n, 0);
    } else if f < SLOTS {
      FindIs(es', n, |es'|);
    } else {
      FindIs(es', n, f);
    }
  }

  /** When a search for a cluster fails, creating in the root loses exactly the names of its first sector. */
  lemma NoClusterLosesFirst(g: Geometry, v: VolumeState, item: NewItem, n: Text)
    requires v.Valid(g) && Accepted(item.name) && !ClustersFound(g, v, DirSlots(g, v, 0, []))
    requires LiveDistinct(DirSlots(g, v, 0, [])) && Resolve(DirSlots(g, v, 0, []), item.name) == None
    requires Shows(item.At(ItemCluster(g, v)), item.name)
    ensures var es := DirSlots(g, v, 0, []);
            var e := item.At(ItemCluster(g, v));
            var w := CreateIn(g, v, 0, [], item);
            w.Some? && w.value.Valid(g) &&
            Resolve(DirSlots(g, w.value, 0, []), n) ==
            if n == item.name then Some(e) else if Find(es, n) < SLOTS then None else Resolve(es, n)
  {
    hide Display, CreateIn, BuildEntry, Accepted, FirstDead, Resolve, SlotsOf, LiveDistinct, FindFree, Find, Live;
    CreateInRootSlots(g, v, item);
    FirstSectorGone(DirSlots(g, v, 0, []), item.name, item.At(ItemCluster(g, v)), n);
  }

  lemma RootCreateIff(es: seq<DirEntry>, name: Text, e: DirEntry)
    requires LiveDistinct(es) && |es| >= SLOTS && |es| % SLOTS == 0
    requires Resolve(es, name) == None && Shows(e, name)
    ensures var k := FirstDead(es);
            ActsAsInsert(es, if k < |es| then RootAfter(es, k, e) else es, name, e) <==> k < SLOTS
  {
    var k := FirstDead(es);
    if k < |es| {
      RootInsertIff(es, k, e);
    } else {
      assert Resolve(es, name) != Some(e);
    }
  }

  /** In the root Create_Item binds the name to an item with a cluster of its own, and keeps every other name, exactly
      when there is a free cluster and the first dead slot is in the first sector. */
  lemma CreateInRootIff(g: Geometry, v: VolumeState, item: NewItem)
    requires v.Valid(g) && Accepted(item.name)
    requires LiveDistinct(DirSlots(g, v, 0, [])) && Resolve(DirSlots(g, v, 0, []), item.name) == None
    requires Shows(item.At(ItemCluster(g, v)), item.name)
    ensures var w := CreateIn(g, v, 0, [], item);
            var es := DirSlots(g, v, 0, []);
            var e := item.At(ItemCluster(g, v));
            w.Some? && w.value.Valid(g) &&
            (StartSector(e) != 0 && ActsAsInsert(es, DirSlots(g, w.value, 0, []), item.name, e) <==>
             ItemCluster(g, v) != 0 && FirstDead(es) < SLOTS)
  {
    hide Display, CreateIn, BuildEntry, Accepted, Resolve, SlotsOf, LiveDistinct, FindFree, Find, ActsAsInsert;
    var es, e := DirSlots(g, v, 0, []), item.At(ItemCluster(g, v));
    BuiltFields(item.name, item.garbage, item.attribute, item.time, item.date, ItemCluster(g, v));
    CreateInRootSlots(g, v, item);
    if ClustersFound(g, v, es) {
      RootCreateIff(es, item.name, e);
    } else if ItemCluster(g, v) != 0 {
      FullRootLoses(es, item.name, e);
    }
  }

  /** A full root that gives its first sector to the new entry loses the name in slot 0. */
  lemma FullRootLoses(es: seq<DirEntry>, name: Text, e: DirEntry)
    requires LiveDistinct(es) && |es| >= SLOTS && Full(es) && Resolve(es, name) == None && Shows(e, name)
    ensures !ActsAsInsert(es, SlotsOf([Padded(e)]) + es[SLOTS..], name, e)
  {
    hide Display, SlotsOf, Padded;
    var n := Display(es[0]);
    ResolveIs(es, 0);
    assert Shows(es[0], n) && n != name;
    FirstSectorGone(es, name, e, n);
  }

  // ----- when creating is a map insertion, whatever the searches found -----

  /** In a subdirectory Create_Item binds the name to an item with a cluster of its own, and keeps every other name,
      exactly when there is room on the disk and nothing live lies behind the sector it writes. */
  lemma CreateIsInsertIff(g: Geometry, v: VolumeState, dir: Entry, c: seq<nat>, item: NewItem)
    requires v.Valid(g) && DirChain(g, v, dir, c) && Accepted(item.name)
    requires LiveDistinct(DirSlots(g, v, dir, c)) && Resolve(DirSlots(g, v, dir, c), item.name) == None
    requires Shows(item.At(ItemCluster(g, v)), item.name)
    ensures var w := CreateIn(g, v, dir, c, item);
            var es := DirSlots(g, v, dir, c);
            var e := item.At(ItemCluster(g, v));
            w.Some? && w.value.Valid(g) && HasChain(w.value.table, dir) &&
            var es' := DirSlots(g, w.value, dir, ChainOf(w.value.table, dir));
            (StartSector(e) != 0 && ActsAsInsert(es, es', item.name, e) <==>
             RoomFor(g, v, es) && NoneLiveFrom(es, CutAt(es)))
  {
    hide Display, Live, CreateIn, BuildEntry, FirstDead, Resolve, Accepted, LiveDistinct, NoneLiveFrom, ActsAsInsert,
         DirSlots;
    var es := DirSlots(g, v, dir, c);
    var start := ItemCluster(g, v);
    BuiltFields(item.name, item.garbage, item.attribute, item.time, item.date, start);
    if RoomFor(g, v, es) {
      CreateWithRoomIff(g, v, dir, c, item);
      ChainOfIs(CreateIn(g, v, dir, c, item).value.table, ChainAfterCreate(g, v, dir, c));
    } else if Full(es) {
      NoRoomLosesName(g, v, dir, c, item);
      var w := CreateIn(g, v, dir, c, item).value;
      NotBound(es, DirSlots(g, w, dir, ChainOf(w.table, dir)), item.name, item.At(start));
    } else {
      CreateEndsInSlot(g, v, dir, c, item);
      SomeChain(v.table, CreateIn(g, v, dir, c, item).value.table, c, FirstDead(es) / SLOTS);
    }
  }

  /** With no cluster for the item the directory still has a chain. */
  lemma SomeChain(t: Table, t': Table, c: seq<nat>, i: nat)
    requires Chain(t, c) && i < |c|
    requires forall x | 2 <= x < TABLE_SIZE :: t'[x] == if x == c[i] then LAST_SECTOR else t[x]
    ensures HasChain(t', c[0])
  {
    ChainDistinct(t, c);
    var front := c[..i + 1];
    forall k | 0 <= k < |front| - 1 ensures t'[front[k]] == front[k + 1] {
      assert t[c[k]] == c[k + 1] && c[k] != c[i];
    }
    assert Chain(t', front);
  }

  /** A full directory that gets no further sector on the disk is read as its first sector alone. */
  lemma NoRoomLosesName(g: Geometry, v: VolumeState, dir: Entry, c: seq<nat>, item: NewItem)
    requires v.Valid(g) && DirChain(g, v, dir, c) && Accepted(item.name) && Full(DirSlots(g, v, dir, c))
    requires !RoomFor(g, v, DirSlots(g, v, dir, c)) && Resolve(DirSlots(g, v, dir, c), item.name) == None
    ensures var w := CreateIn(g, v, dir, c, item);
            w.Some? && w.value.Valid(g) && HasChain(w.value.table, dir)
            && Resolve(DirSlots(g, w.value, dir, ChainOf(w.value.table, dir)), item.name) == None
  {
    hide Display, Live, CreateIn, BuildEntry, FirstDead, Accepted, FindFree, Resolve, RoomFor;
    var less := NoRoomSectors(g, v, dir, c, item);
    var sectors := Contents(g, v.disk, c);
    assert DirSlots(g, v, dir, c) == SlotsOf(sectors);
    FirstSectorNames(sectors, less, item.name);
  }

  lemma NoRoomSectors(g: Geometry, v: VolumeState, dir: Entry, c: seq<nat>, item: NewItem) returns (less: seq<Sector>)
    requires v.Valid(g) && DirChain(g, v, dir, c) && Accepted(item.name) && Full(DirSlots(g, v, dir, c))
    requires !RoomFor(g, v, DirSlots(g, v, dir, c))
    ensures var w := CreateIn(g, v, dir, c, item);
            w.Some? && w.value.Valid(g) && HasChain(w.value.table, dir)
            && DirSlots(g, w.value, dir, ChainOf(w.value.table, dir)) == SlotsOf(less)
    ensures var first := Contents(g, v.disk, c)[0];
            less == [first] || less == [first, ZeroSector()]
  {
    hide Display, Live, CreateIn, BuildEntry, Accepted, FindFree, FirstDead, Contents, SlotsOf, RootArea;
    CreateEndsFull(g, v, dir, c, item);
    var w := CreateIn(g, v, dir, c, item).value;
    var extra := ExtraCluster(g, v);
    FirstContents(g, v.disk, c);
    if extra == 0 {
      assert Chain(w.table, [dir]);
      ChainOfIs(w.table, [dir]);
      less := Contents(g, w.disk, [dir]);
    } else {
      assert Chain(w.table, [dir, extra]);
      ChainOfIs(w.table, [dir, extra]);
      OffDiskContents(g, w.disk, dir, extra);
      less := Contents(g, w.disk, [dir, extra]);
    }
  }

  lemma FirstContents(g: Geometry, d: seq<Sector>, c: seq<nat>)
    requires g.Valid() && c != []
    ensures Contents(g, d, c) != [] && Contents(g, d, [c[0]]) == [Contents(g, d, c)[0]]
  {
  }

  lemma OffDiskContents(g: Geometry, d: seq<Sector>, dir: nat, extra: nat)
    requires g.Valid() && g.Lba(extra) >= |d|
    ensures Contents(g, d, [dir, extra]) == Contents(g, d, [dir]) + [ZeroSector()]
  {
  }

  lemma NotBound(es: seq<DirEntry>, es': seq<DirEntry>, name: Text, e: DirEntry)
    requires Resolve(es', name) == None
    ensures !ActsAsInsert(es, es', name, e)
  {
    assert Resolve(es', name) != Some(e);
  }

  /** What the first sector of a list does not show, it does not show when a blank sector follows it. */
  lemma FirstSectorNames(sectors: seq<Sector>, less: seq<Sector>, name: Text)
    requires sectors != [] && Resolve(SlotsOf(sectors), name) == None
    requires less == [sectors[0]] || less == [sectors[0], ZeroSector()]
    ensures Resolve(SlotsOf(less), name) == None
  {
    hide Display;
    var es, es' := SlotsOf(sectors), SlotsOf(less);
    forall i | 0 <= i < |es'| ensures !Shows(es'[i], name) {
      if i < SLOTS {
        assert es'[i] == es[i];
      } else {
        assert es'[i] == Slot(ZeroSector(), i - SLOTS);
        assert es'[i][0] == ZeroSector()[32 * (i - SLOTS)];
      }
    }
    FindIs(es', name, |es'|);
  }
}
