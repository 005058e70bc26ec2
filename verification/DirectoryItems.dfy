/** Create_Item and Remove_Item inside one directory, as functions on the volume's value, and the exact
    conditions under which the directory behaves as a finite map from names. */
module DirectoryItems {
  import opened Fat12Types
  import opened Chains
  import opened FatHeap
  import opened ItemData
  import opened Names
  import opened Directories

  /** The sectors of a directory: the root area for sector 0, else the contents of its chain c. */
  function DirSectors(g: Geometry, v: VolumeState, dir: Entry, c: seq<nat>): seq<Sector>
    requires v.Valid(g)
  {
    if dir == 0 then RootArea(g, v) else Contents(g, v.disk, c)
  }

  /** Slot k of a directory are bytes 32 k to 32 k + 31 of its sectors laid end to end. */
  lemma SlotBytes(dir: seq<Sector>, k: nat)
    requires k < SLOTS * |dir|
    ensures 32 * k + 32 <= |Bytes(dir)| && SlotsOf(dir)[k] == Bytes(dir)[32 * k..32 * k + 32]
  {
    SectorBytes(dir, k / SLOTS);
    var x := dir[k / SLOTS];
    assert Bytes(dir)[32 * k..32 * k + 32] == x[32 * (k % SLOTS)..32 * (k % SLOTS) + 32];
  }

  lemma {:induction false} SectorBytes(dir: seq<Sector>, i: nat)
    requires i < |dir|
    ensures Bytes(dir)[SECTOR_SIZE * i..SECTOR_SIZE * (i + 1)] == dir[i]
    decreases |dir|
  {
    if i < |dir| - 1 {
      SectorBytes(dir[..|dir| - 1], i);
    }
  }


  function DirSlots(g: Geometry, v: VolumeState, dir: Entry, c: seq<nat>): seq<DirEntry>
    requires v.Valid(g)
  {
    SlotsOf(DirSectors(g, v, dir, c))
  }

  /** c is the whole chain of a subdirectory, properly ended and on the disk. */
  ghost predicate DirChain(g: Geometry, v: VolumeState, dir: Entry, c: seq<nat>)
    requires v.Valid(g)
  {
    dir != 0 && Chain(v.table, c) && c[0] == dir && v.table[c[|c| - 1]] != 0 && OnDisk(g, v.disk, c)
  }

  /** Write back the sector of slot k with that slot replaced. */
  function StoreSlot(g: Geometry, v: VolumeState, dir: Entry, sectors: seq<Sector>, k: nat, e: DirEntry)
    : Option<VolumeState>
    requires g.Valid() && k < SLOTS * |sectors|
  {
    WriteItem(g, v, [WithSlot(sectors[k / SLOTS], k % SLOTS, e)], dir, Some(k / SLOTS), 1)
  }

  /** A new item's first cluster: zeroed, marked as the end, table saved. */
  function Allocated(g: Geometry, v: VolumeState): Option<VolumeState>
    requires g.Valid()
  {
    var start := FindFree(v.table, g.RootSectors());
    match WriteItem(g, v, [ZeroSector()], start, Some(0), 1)
    case None => None
    case Some(w) => Some(Saved(w.(table := Seal(w.table, start))))
  }

  function Padded(e: DirEntry): Sector {
    e + Zeros(SECTOR_SIZE - 32)
  }

  /** A full directory: the entry goes to a fresh sector, linked from the directory's first sector. */
  function AppendSector(g: Geometry, v: VolumeState, dir: Entry, e: DirEntry): Option<VolumeState>
    requires g.Valid()
  {
    var extra := FindFree(v.table, g.RootSectors());
    match WriteItem(g, v, [Padded(e)], extra, None, 1)
    case None => None
    case Some(w) => if dir < TABLE_SIZE then Some(Saved(w.(table := Extend(w.table, dir, extra)))) else None
  }

  /** What a new entry is made of, but for its start sector; garbage is what the entry's memory held before. */
  datatype NewItem = NewItem(name: Text, garbage: DirEntry, attribute: Byte, time: Entry, date: Entry) {
    function At(start: Entry): DirEntry
      requires Accepted(name)
    {
      BuildEntry(name, garbage, attribute, time, date, start)
    }
  }

  /** The entry goes to the first free slot, or to a new sector. */
  function PlaceIn(g: Geometry, v: VolumeState, dir: Entry, c: seq<nat>, e: DirEntry): Option<VolumeState>
    requires v.Valid(g)
  {
    var sectors := DirSectors(g, v, dir, c);
    var k := FirstDead(SlotsOf(sectors));
    if k < SLOTS * |sectors| then StoreSlot(g, v, dir, sectors, k, e)
    else AppendSector(g, v, dir, e)
  }

  /** Create_Item from the choice of the start sector on. */
  function CreateIn(g: Geometry, v: VolumeState, dir: Entry, c: seq<nat>, item: NewItem): Option<VolumeState>
    requires v.Valid(g) && Accepted(item.name)
  {
    var a := Allocated(g, v);
    if a.None? || !a.value.Valid(g) then None
    else PlaceIn(g, a.value, dir, c, item.At(FindFree(v.table, g.RootSectors())))
  }

  // ----- the parts, on a chain -----

  lemma AllocatedIs(g: Geometry, v: VolumeState)
    requires v.Valid(g) && FindFree(v.table, g.RootSectors()) != 0
    ensures var start := FindFree(v.table, g.RootSectors());
            && Allocated(g, v).Some? && Allocated(g, v).value == Saved(Written(g, v, [ZeroSector()], [start], 0, 1))
            && Allocated(g, v).value.table == Seal(v.table, start)
            && Allocated(g, v).value.Valid(g)
  {
    var start := FindFree(v.table, g.RootSectors());
    assert Chain(v.table, [start]);
    WriteWithinChain(g, v, [ZeroSector()], [start], 0, 1);
    var w := Written(g, v, [ZeroSector()], [start], 0, 1);
    assert w.table == Seal(v.table, start);
    assert w.(table := Seal(w.table, start)) == w;
  }

  /** Allocation leaves every properly ended chain and the root directory alone. */
  lemma AllocatedFrame(g: Geometry, v: VolumeState, c: seq<nat>)
    requires v.Valid(g) && FindFree(v.table, g.RootSectors()) != 0
    requires Chain(v.table, c) && v.table[c[|c| - 1]] != 0
    ensures Allocated(g, v).Some? && Allocated(g, v).value.Valid(g)
    ensures Chain(Allocated(g, v).value.table, c)
    ensures Contents(g, Allocated(g, v).value.disk, c) == Contents(g, v.disk, c)
    ensures FindFree(v.table, g.RootSectors()) !in c
  {
    AllocatedIs(g, v);
    var start := FindFree(v.table, g.RootSectors());
    NonZeroOn(v.table, c);
    assert Disjoint([start], c);
    assert Chain(v.table, [start]);
    WriteFrame(g, v, [ZeroSector()], [start], 0, c);
    SavedContents(g, Written(g, v, [ZeroSector()], [start], 0, 1), c);
  }

  lemma AllocatedRoot(g: Geometry, v: VolumeState)
    requires v.Valid(g) && FindFree(v.table, g.RootSectors()) != 0
    ensures Allocated(g, v).Some? && Allocated(g, v).value.Valid(g)
    ensures RootArea(g, Allocated(g, v).value) == RootArea(g, v)
  {
    hide FatImage, WriteItem;
    AllocatedIs(g, v);
    var one := [FindFree(v.table, g.RootSectors())];
    assert Chain(v.table, one);
    WrittenUntouched(g, v, [ZeroSector()], one, 0, 1);
    UntouchedRoot(g, v, Written(g, v, [ZeroSector()], one, 0, 1), one, 0, 1);
  }

  lemma NonZeroOn(t: Table, c: seq<nat>)
    requires Chain(t, c) && t[c[|c| - 1]] != 0
    ensures forall i | 0 <= i < |c| :: t[c[i]] != 0
  {
    forall i | 0 <= i < |c| ensures t[c[i]] != 0 {
      if i < |c| - 1 {
        assert t[c[i]] == c[i + 1];
      }
    }
  }

  lemma SavedContents(g: Geometry, v: VolumeState, c: seq<nat>)
    requires v.Valid(g)
    requires forall i | 0 <= i < |c| :: c[i] >= 2
    ensures Contents(g, Saved(v).disk, c) == Contents(g, v.disk, c)
  {
  }

  /** Writing one sector of a chain changes that sector and cuts off those behind it. */
  lemma WrittenSector(g: Geometry, v: VolumeState, c: seq<nat>, i: nat, x: Sector)
    requires v.Valid(g) && Chain(v.table, c) && OnDisk(g, v.disk, c) && i < |c|
    ensures var w := Written(g, v, [x], c, i, 1);
            && w.Valid(g) && w.Synced() && |w.disk| == |v.disk| && Chain(w.table, c[..i + 1])
            && Contents(g, w.disk, c[..i + 1]) == Contents(g, v.disk, c)[..i] + [x]
  {
    hide FatImage, PutAll;
    WrittenUntouched(g, v, [x], c, i, 1);
    WrittenPlaces(g, v, [x], c, i, 1);
    TruncatedChain(v.table, c, i + 1);
    ChainDistinct(v.table, c);
    var w := Written(g, v, [x], c, i, 1);
    UntouchedContents(g, v, w, c, i, 1, c[..i]);
    assert [x][0] == x && w.disk[g.Lba(c[i + 0])] == x;
    assert Contents(g, w.disk, c[..i + 1]) == Contents(g, w.disk, c[..i]) + [x];
    assert Contents(g, v.disk, c[..i]) == Contents(g, v.disk, c)[..i];
  }

  /** Storing a slot of a subdirectory changes that slot and cuts off the sectors behind it. */
  lemma StoreSlotOnChain(g: Geometry, v: VolumeState, dir: Entry, c: seq<nat>, k: nat, e: DirEntry)
    requires v.Valid(g) && DirChain(g, v, dir, c) && k < SLOTS * |c|
    ensures var w := StoreSlot(g, v, dir, Contents(g, v.disk, c), k, e);
            var i := k / SLOTS;
            && i < |c| && w.Some? && w.value.Valid(g) && w.value.Synced()
            && w.value.table == Seal(v.table, c[i])
            && DirChain(g, w.value, dir, c[..i + 1])
            && SLOTS * (i + 1) <= |DirSlots(g, v, dir, c)|
            && DirSlots(g, w.value, dir, c[..i + 1]) == DirSlots(g, v, dir, c)[k := e][..SLOTS * (i + 1)]
  {
    hide FatImage, WriteItem, SlotsOf, PutAll;
    var sectors := Contents(g, v.disk, c);
    var i := k / SLOTS;
    var x := WithSlot(sectors[i], k % SLOTS, e);
    WriteWithinChain(g, v, [x], c, i, 1);
    WrittenSector(g, v, c, i, x);
    SlotsOfUpdate(sectors, k, e);
  }

  lemma ExtraWritten(g: Geometry, v: VolumeState, extra: nat, c: seq<nat>, x: Sector)
    requires v.Valid(g) && 2 <= extra < TABLE_SIZE && v.table[extra] == 0 && OnDisk(g, v.disk, [extra])
    requires Chain(v.table, c) && v.table[c[|c| - 1]] != 0
    ensures var w := Written(g, v, [x], [extra], 0, 1);
            && WriteItem(g, v, [x], extra, None, 1) == Some(w)
            && w.Valid(g) && w.table == Seal(v.table, extra) && |w.disk| == |v.disk|
            && Contents(g, w.disk, [extra]) == [x]
            && Contents(g, w.disk, c) == Contents(g, v.disk, c)
  {
    NonZeroOn(v.table, c);
    var one := [extra];
    assert Chain(v.table, one);
    var w := Written(g, v, [x], one, 0, 1);
    WriteWithinChain(g, v, [x], one, 0, 1);
    WrittenUntouched(g, v, [x], one, 0, 1);
    WrittenPlaces(g, v, [x], one, 0, 1);
    assert Disjoint(one, c);
    WriteFrame(g, v, [x], one, 0, c);
    assert w.disk[g.Lba(one[0 + 0])] == x;
  }

  /** Appending a sector leaves exactly the directory's first sector and the new one in the chain. */
  lemma AppendSectorOnChain(g: Geometry, v: VolumeState, dir: Entry, c: seq<nat>, e: DirEntry)
    requires v.Valid(g) && DirChain(g, v, dir, c)
    requires FindFree(v.table, g.RootSectors()) != 0
    requires OnDisk(g, v.disk, [FindFree(v.table, g.RootSectors())])
    ensures var w := AppendSector(g, v, dir, e);
            var extra := FindFree(v.table, g.RootSectors());
            && w.Some? && w.value.Valid(g) && w.value.Synced()
            && w.value.table == Extend(v.table, dir, extra)
            && DirChain(g, w.value, dir, [dir, extra])
            && DirSectors(g, w.value, dir, [dir, extra]) == [Contents(g, v.disk, c)[0], Padded(e)]
  {
    hide WriteRest, WriteItem, PutAll, FatImage;
    var extra := FindFree(v.table, g.RootSectors());
    NonZeroOn(v.table, c);
    ExtraWritten(g, v, extra, c, Padded(e));
    var w := Written(g, v, [Padded(e)], [extra], 0, 1);
    var u := w.(table := Extend(v.table, dir, extra));
    assert Extend(w.table, dir, extra) == u.table;
    assert AppendSector(g, v, dir, e) == Some(Saved(u));
    var both := [dir, extra];
    SavedContents(g, u, both);
    SavedPlaces(g, u);
    assert Contents(g, w.disk, both) == [Contents(g, w.disk, c)[0], Contents(g, w.disk, [extra])[0]];
    assert Chain(u.table, both);
  }

  lemma AppendedSlots(s: Sector, e: DirEntry)
    ensures SlotsOf([s, Padded(e)])[..SLOTS] == SlotsOf([s])
    ensures SlotsOf([s, Padded(e)])[SLOTS] == e
    ensures NoneLiveFrom(SlotsOf([s, Padded(e)]), SLOTS + 1)
  {
  }

  // ----- Create_Item -----

  /** Where the directory is cut: behind the sector written, or behind the first one when it was full. */
  function CutAt(es: seq<DirEntry>): nat {
    var k := FirstDead(es);
    if k < |es| then SLOTS * (k / SLOTS + 1) else SLOTS
  }

  /** Enough free clusters for Create_Item in dir: one for the item, and one more when the directory is full. */
  predicate RoomFor(g: Geometry, v: VolumeState, es: seq<DirEntry>)
    requires g.Valid()
  {
    var start := FindFree(v.table, g.RootSectors());
    && start != 0
    && (FirstDead(es) == |es| ==>
          var extra := FindFree(Seal(v.table, start), g.RootSectors());
          extra != 0 && g.Lba(extra) < |v.disk|)
  }

  /** The chain of the directory afterwards. */
  function ChainAfterCreate(g: Geometry, v: VolumeState, dir: Entry, c: seq<nat>): seq<nat>
    requires v.Valid(g) && |c| > 0
  {
    var k := FirstDead(DirSlots(g, v, dir, c));
    if k < SLOTS * |c| then c[..k / SLOTS + 1]
    else [dir, FindFree(Seal(v.table, FindFree(v.table, g.RootSectors())), g.RootSectors())]
  }

  /** A subdirectory with a dead slot, after Create_Item: that slot holds the new entry, and the slots behind
      its sector are gone. */
  lemma CreateInSlot(g: Geometry, v: VolumeState, dir: Entry, c: seq<nat>, item: NewItem)
    requires v.Valid(g) && DirChain(g, v, dir, c) && Accepted(item.name)
    requires FindFree(v.table, g.RootSectors()) != 0 && FirstDead(DirSlots(g, v, dir, c)) < SLOTS * |c|
    ensures var w := CreateIn(g, v, dir, c, item);
            var es := DirSlots(g, v, dir, c);
            var k := FirstDead(es);
            var c' := c[..k / SLOTS + 1];
            && CutAt(es) <= |es| && w.Some? && w.value.Valid(g) && w.value.Synced() && DirChain(g, w.value, dir, c')
            && w.value.table == Seal(Seal(v.table, FindFree(v.table, g.RootSectors())), c[k / SLOTS])
            && DirSlots(g, w.value, dir, c') ==
               es[k := item.At(FindFree(v.table, g.RootSectors()))][..CutAt(es)]
  {
    AllocatedFrame(g, v, c);
    AllocatedIs(g, v);
    NonZeroOn(v.table, c);
    var a := Allocated(g, v).value;
    assert DirChain(g, a, dir, c);
    var k := FirstDead(DirSlots(g, v, dir, c));
    StoreSlotOnChain(g, a, dir, c, k, item.At(FindFree(v.table, g.RootSectors())));
  }

  /** A full subdirectory after Create_Item: its first sector, then one that starts with the new entry. */
  lemma CreateInFull(g: Geometry, v: VolumeState, dir: Entry, c: seq<nat>, item: NewItem)
    requires v.Valid(g) && DirChain(g, v, dir, c) && Accepted(item.name)
    requires RoomFor(g, v, DirSlots(g, v, dir, c)) && FirstDead(DirSlots(g, v, dir, c)) == SLOTS * |c|
    ensures var w := CreateIn(g, v, dir, c, item);
            var es := DirSlots(g, v, dir, c);
            var c' := ChainAfterCreate(g, v, dir, c);
            && w.Some? && w.value.Valid(g) && w.value.Synced() && DirChain(g, w.value, dir, c')
            && w.value.table == Extend(Seal(v.table, FindFree(v.table, g.RootSectors())), dir, c'[1])
            && var es' := DirSlots(g, w.value, dir, c');
               |es| >= SLOTS && |es'| == 2 * SLOTS && es'[..SLOTS] == es[..SLOTS]
               && es'[SLOTS] == item.At(FindFree(v.table, g.RootSectors())) && NoneLiveFrom(es', SLOTS + 1)
  {
    hide Display, Live, WriteItem, FatImage, StoreSlot, AppendSector, BuildEntry;
    AllocatedFrame(g, v, c);
    AllocatedIs(g, v);
    NonZeroOn(v.table, c);
    var a := Allocated(g, v).value;
    assert DirChain(g, a, dir, c);
    var e := item.At(FindFree(v.table, g.RootSectors()));
    AppendSectorOnChain(g, a, dir, c, e);
    var sectors := Contents(g, v.disk, c);
    AppendedSlots(sectors[0], e);
    assert SlotsOf([sectors[0]]) == SlotsOf(sectors)[..SLOTS];
  }

  /** In a subdirectory with room for it Create_Item adds the name, and keeps every other exactly when nothing live
      lies behind the sector it writes; for a full directory, exactly when that is a single sector. */
  lemma CreateWithRoomIff(g: Geometry, v: VolumeState, dir: Entry, c: seq<nat>, item: NewItem)
    requires v.Valid(g) && DirChain(g, v, dir, c) && Accepted(item.name)
    requires RoomFor(g, v, DirSlots(g, v, dir, c))
    requires LiveDistinct(DirSlots(g, v, dir, c)) && Resolve(DirSlots(g, v, dir, c), item.name) == None
    requires Shows(item.At(FindFree(v.table, g.RootSectors())), item.name)
    ensures var w := CreateIn(g, v, dir, c, item);
            var es := DirSlots(g, v, dir, c);
            var e := item.At(FindFree(v.table, g.RootSectors()));
            w.Some? && w.value.Valid(g) && DirChain(g, w.value, dir, ChainAfterCreate(g, v, dir, c)) &&
            var es' := DirSlots(g, w.value, dir, ChainAfterCreate(g, v, dir, c));
            && LiveDistinct(es')
            && Resolve(es', item.name) == Some(e)
            && (ActsAsInsert(es, es', item.name, e) <==>
                NoneLiveFrom(es, CutAt(es)))
  {
    hide Display, Live, CreateIn, BuildEntry, Find, FirstDead, Resolve, Accepted, LiveDistinct, NoneLiveFrom,
         ActsAsInsert;
    var es := DirSlots(g, v, dir, c);
    var k := FirstDead(es);
    var e := item.At(FindFree(v.table, g.RootSectors()));
    if k < |es| {
      CreateInSlot(g, v, dir, c, item);
      InsertThenCut(es, k, e, CutAt(es));
    } else {
      CreateInFull(g, v, dir, c, item);
      CutThenInsert(es, DirSlots(g, CreateIn(g, v, dir, c, item).value, dir, ChainAfterCreate(g, v, dir, c)), e);
    }
  }

  /** The entry Create_Item builds for a well-padded name is live and shows that name, and its start sector was
      free. */
  lemma NewItemShows(item: NewItem, t: Table, lo: nat)
    requires Accepted(item.name) && Printable(item.name) && WellPadded(item.name) && item.name[0] != DELETED
    requires FindFree(t, lo) != 0
    ensures Shows(item.At(FindFree(t, lo)), item.name)
    ensures StartSector(item.At(FindFree(t, lo))) == FindFree(t, lo) && t[FindFree(t, lo)] == 0
  {
    var e := item.At(FindFree(t, lo));
    BuiltFields(item.name, item.garbage, item.attribute, item.time, item.date, FindFree(t, lo));
    BuiltShows(item.name, item.garbage, item.attribute, item.time, item.date, FindFree(t, lo));
    var n := NameField(item.name);
    assert e[0] == Name(e)[0] == n[0];
    assert n == Base(item.name) + Spaces(8 - |Base(item.name)|);
    assert n[0] == if |Base(item.name)| > 0 then item.name[0] else SPACE;
  }

  /** A one-sector subdirectory with a dead slot keeps its one sector and acts as a finite map. */
  lemma OneSectorIsMap(g: Geometry, v: VolumeState, dir: Entry, item: NewItem)
    requires v.Valid(g) && DirChain(g, v, dir, [dir]) && Accepted(item.name) && FindFree(v.table, g.RootSectors()) != 0
    requires LiveDistinct(DirSlots(g, v, dir, [dir])) && Resolve(DirSlots(g, v, dir, [dir]), item.name) == None
    requires FirstDead(DirSlots(g, v, dir, [dir])) < SLOTS
    requires Shows(item.At(FindFree(v.table, g.RootSectors())), item.name)
    ensures var w := CreateIn(g, v, dir, [dir], item);
            && w.Some? && w.value.Valid(g) && DirChain(g, w.value, dir, [dir])
            && LiveDistinct(DirSlots(g, w.value, dir, [dir]))
            && ActsAsInsert(DirSlots(g, v, dir, [dir]), DirSlots(g, w.value, dir, [dir]), item.name,
                            item.At(FindFree(v.table, g.RootSectors())))
  {
    CreateWithRoomIff(g, v, dir, [dir], item);
    OneSectorCut(g, v, dir);
  }

  lemma OneSectorCut(g: Geometry, v: VolumeState, dir: Entry)
    requires v.Valid(g) && FirstDead(DirSlots(g, v, dir, [dir])) < SLOTS && dir != 0
    ensures ChainAfterCreate(g, v, dir, [dir]) == [dir]
    ensures NoneLiveFrom(DirSlots(g, v, dir, [dir]), CutAt(DirSlots(g, v, dir, [dir])))
  {
  }

  lemma InsertThenCut(es: seq<DirEntry>, k: nat, e: DirEntry, m: nat)
    requires LiveDistinct(es) && k < m <= |es| && !Live(es[k]) && Live(e) && Resolve(es, Display(e)) == None
    ensures var es' := es[k := e][..m];
            && LiveDistinct(es') && Resolve(es', Display(e)) == Some(e)
            && (ActsAsInsert(es, es', Display(e), e) <==>
                NoneLiveFrom(es, m))
  {
    hide Display, Live, Find;
    var full := es[k := e];
    InsertResolves(es, k, e);
    CutKeepsNamesIff(full, m);
    ResolveIs(full[..m], k);
    assert forall i | m <= i < |es| :: full[i] == es[i];
    assert forall n :: Resolve(full, n) == if n == Display(e) then Some(e) else Resolve(es, n);
  }

  /** A list, then a live entry of a new name, then dead slots only. */
  lemma AppendResolves(cut: seq<DirEntry>, es': seq<DirEntry>, e: DirEntry)
    requires LiveDistinct(cut) && Live(e) && Resolve(cut, Display(e)) == None
    requires |es'| > |cut| && es'[..|cut|] == cut && es'[|cut|] == e && NoneLiveFrom(es', |cut| + 1)
    ensures LiveDistinct(es')
    ensures forall n :: Resolve(es', n) == if n == Display(e) then Some(e) else Resolve(cut, n)
  {
    hide Display, Live, Find;
    forall i | 0 <= i < |cut| ensures es'[i] == cut[i] && !Shows(cut[i], Display(e)) {
      assert es'[..|cut|][i] == cut[i];
    }
    forall n ensures Resolve(es', n) == if n == Display(e) then Some(e) else Resolve(cut, n) {
      var f := Find(cut, n);
      FindIs(es', n, if n == Display(e) then |cut| else if f < |cut| then f else |es'|);
    }
  }

  lemma CutThenInsert(es: seq<DirEntry>, es': seq<DirEntry>, e: DirEntry)
    requires LiveDistinct(es) && |es| >= SLOTS && Live(e) && Resolve(es, Display(e)) == None
    requires |es'| > SLOTS && es'[..SLOTS] == es[..SLOTS] && es'[SLOTS] == e && NoneLiveFrom(es', SLOTS + 1)
    ensures LiveDistinct(es') && Resolve(es', Display(e)) == Some(e)
    ensures ActsAsInsert(es, es', Display(e), e) <==>
            NoneLiveFrom(es, SLOTS)
  {
    hide Display, Live, Find;
    var cut := es[..SLOTS];
    CutKeepsNamesIff(es, SLOTS);
    assert forall i | 0 <= i < |es| :: !Shows(es[i], Display(e));
    FindIs(cut, Display(e), SLOTS);
    AppendResolves(cut, es', e);
    if !NoneLiveFrom(es, SLOTS) {
      var n :| Resolve(cut, n) != Resolve(es, n);
      assert n != Display(e);
    }
  }

  // ----- the root directory -----

  /** Storing a slot of the root always writes the first root sector, whatever sector the slot is in. */
  lemma StoreSlotInRoot(g: Geometry, v: VolumeState, k: nat, e: DirEntry)
    requires v.Valid(g) && k < SLOTS * g.RootSectors()
    ensures var root := RootArea(g, v);
            var w := StoreSlot(g, v, 0, root, k, e);
            && w.Some? && w.value.Valid(g) && w.value.Synced()
            && RootArea(g, w.value) == [WithSlot(root[k / SLOTS], k % SLOTS, e)] + root[1..]
            && forall i | 2 <= i < TABLE_SIZE :: w.value.table[i] == v.table[i]
  {
    var root := RootArea(g, v);
    var x := WithSlot(root[k / SLOTS], k % SLOTS, e);
    var u := VolumeState(Seal(RootLinks(v.table, 1), 1), PutRun(v.disk, g.DirStart(), [x][..1]));
    assert StoreSlot(g, v, 0, root, k, e) == Some(Saved(u));
    assert g.DirStart() > FAT_SECTORS;
    SavedPlaces(g, u);
    assert RootArea(g, u) == [x] + root[1..];
  }

  lemma RootSlotsAfter(root: seq<Sector>, k: nat, e: DirEntry)
    requires k < SLOTS * |root|
    ensures var i := k / SLOTS;
            i < |root| && |SlotsOf(root)| % SLOTS == 0
            && SlotsOf([WithSlot(root[i], k % SLOTS, e)] + root[1..]) == RootAfter(SlotsOf(root), k, e)
  {
    var i := k / SLOTS;
    var x := WithSlot(root[i], k % SLOTS, e);
    WholeSectors(root);
    SlotsOfAppend([x], root[1..]);
    SlotsOfAppend([root[0]], root[1..]);
    assert root == [root[0]] + root[1..];
    SlotsOfUpdate(root, k, e);
    SlotsOfAppend(root[..i], [x]);
    var front := SlotsOf(root[..i] + [x]);
    assert front == SlotsOf(root)[k := e][..SLOTS * (i + 1)];
    assert SlotsOf([x]) == front[SLOTS * i..];
  }

  /** The slots of the root after the sector of slot k was stored with e in that slot. */
  function RootAfter(es: seq<DirEntry>, k: nat, e: DirEntry): seq<DirEntry>
    requires k < |es| && |es| % SLOTS == 0
  {
    var i := k / SLOTS;
    es[k := e][SLOTS * i..SLOTS * (i + 1)] + es[SLOTS..]
  }

  lemma RootAfterFirst(es: seq<DirEntry>, k: nat, e: DirEntry)
    requires k < SLOTS <= |es| && |es| % SLOTS == 0
    ensures RootAfter(es, k, e) == es[k := e]
  {
  }

  lemma RootInsertIff(es: seq<DirEntry>, k: nat, e: DirEntry)
    requires LiveDistinct(es) && k < |es| && |es| % SLOTS == 0
    requires !Live(es[k]) && (k > 0 ==> Live(es[0]))
    requires Live(e) && Resolve(es, Display(e)) == None
    ensures ActsAsInsert(es, RootAfter(es, k, e), Display(e), e) <==> k < SLOTS
  {
    if k < SLOTS {
      RootAfterFirst(es, k, e);
      InsertResolves(es, k, e);
    } else {
      FirstNameLost(es, k, e);
    }
  }

  /** Overwriting the first sector by a later one loses the name in slot 0. */
  lemma FirstNameLost(es: seq<DirEntry>, k: nat, e: DirEntry)
    requires LiveDistinct(es) && SLOTS <= k < |es| && |es| % SLOTS == 0
    requires Live(es[0]) && Resolve(es, Display(e)) == None
    ensures !ActsAsInsert(es, RootAfter(es, k, e), Display(e), e)
  {
    hide Display, Live, Find;
    var es' := RootAfter(es, k, e);
    var n := Display(es[0]);
    ResolveIs(es, 0);
    assert n != Display(e);
    forall h | 0 <= h < |es'| ensures !Shows(es'[h], n) {
      if h < SLOTS {
        assert es'[h] == es[k := e][SLOTS * (k / SLOTS) + h];
      } else {
        assert es'[h] == es[h];
      }
    }
    FindIs(es', n, |es'|);
    assert Resolve(es', n) != Resolve(es, n);
  }

  /** With no free cluster at all, Create_Item takes sector 0 for the item and wipes the first root sector. */
  lemma NoRoomWipesRoot(g: Geometry, v: VolumeState)
    requires v.Valid(g) && FindFree(v.table, g.RootSectors()) == 0
    ensures var a := Allocated(g, v);
            a.Some? && a.value.Valid(g) && RootArea(g, a.value) == [ZeroSector()] + RootArea(g, v)[1..]
  {
    var u := VolumeState(Seal(RootLinks(v.table, 1), 1), PutRun(v.disk, g.DirStart(), [ZeroSector()][..1]));
    assert WriteItem(g, v, [ZeroSector()], 0, Some(0), 1) == Some(Saved(u));
    SavedPlaces(g, u);
    assert g.DirStart() > FAT_SECTORS;
    var w := Saved(u);
    SavedPlaces(g, w.(table := Seal(w.table, 0)));
    assert RootArea(g, u) == [ZeroSector()] + RootArea(g, v)[1..];
  }

  // ----- Remove_Item -----

  /** What is done to an existing slot: it is marked deleted, or its length is updated. */
  datatype SlotChange = Delete | Resize(length: nat) {
    predicate Valid() { Resize? ==> length < 0x1_0000_0000 }

    function On(e: DirEntry): DirEntry
      requires Valid()
    {
      if Delete? then Marked(e) else WithLength(e, length)
    }
  }

  /** The slot that compares equal to item is changed; None also when there is no such slot. */
  function ChangeIn(g: Geometry, v: VolumeState, dir: Entry, c: seq<nat>, item: DirEntry, how: SlotChange)
    : Option<VolumeState>
    requires v.Valid(g) && how.Valid()
  {
    var sectors := DirSectors(g, v, dir, c);
    var es := SlotsOf(sectors);
    var r := FirstEqual(es, item);
    if r < |es| then StoreSlot(g, v, dir, sectors, r, how.On(es[r])) else None
  }

  /** Remove_Item from the search for the entry on. */
  ghost function RemoveIn(g: Geometry, v: VolumeState, dir: Entry, c: seq<nat>, item: DirEntry): Option<VolumeState>
    requires v.Valid(g)
  {
    var w := ChangeIn(g, v, dir, c, item, Delete);
    if w.Some? && InRange(w.value.table) && StartSector(item) < TABLE_SIZE then
      Some(Saved(w.value.(table := Freed(w.value.table, StartSector(item)))))
    else None
  }

  lemma RemoveThenCut(es: seq<DirEntry>, k: nat, m: nat)
    requires LiveDistinct(es) && k < m <= |es| && Live(es[k])
    ensures var es' := es[k := Marked(es[k])][..m];
            && LiveDistinct(es') && Resolve(es', Display(es[k])) == None
            && (ActsAsRemove(es, es', Display(es[k])) <==>
                NoneLiveFrom(es, m))
  {
    hide Display, Find;
    var full := es[k := Marked(es[k])];
    RemoveResolves(es, k);
    CutKeepsNamesIff(full, m);
    assert forall i | m <= i < |es| :: full[i] == es[i];
    assert forall n :: Resolve(full, n) == if n == Display(es[k]) then None else Resolve(es, n);
    FindIs(full[..m], Display(es[k]), m);
  }

  /** Freeing the clusters of a removed item: its chain is free, chains that share nothing are untouched,
      and the heap is kept. */
  lemma FreeAfterSeal(t: Table, s: nat, x: seq<nat>, c: seq<nat>)
    requires HeapOk(t) && InRange(t) && Chain(t, x) && t[x[0]] != 0 && !HasPredecessor(t, x[0])
    requires 2 <= s < TABLE_SIZE && s !in x && Chain(Seal(t, s), c) && Disjoint(x, c)
    ensures InRange(Seal(t, s))
    ensures var t' := Freed(Seal(t, s), x[0]);
            HeapOk(t') && Chain(t', c) && (forall i | 0 <= i < |x| :: t'[x[i]] == 0)
            && (forall i | 0 <= i < |c| :: t'[c[i]] == Seal(t, s)[c[i]])
  {
    var t1 := Seal(t, s);
    SealKeepsHeap(t, s);
    assert InRange(t1);
    assert Chain(t1, x);
    assert !HasPredecessor(t1, x[0]) by {
      forall p | 2 <= p < TABLE_SIZE && !EndOfChain(t1[p]) ensures t1[p] != x[0] {
        assert t1[p] == t[p];
      }
    }
    FreeKeepsHeapIffHead(t1, x);
    FreedChain(t1, x);
  }

  /** The item found under name owns the chain x, and neither x nor the directory is linked to from elsewhere. */
  ghost predicate OwnsChain(g: Geometry, v: VolumeState, dir: Entry, c: seq<nat>, name: Text, x: seq<nat>)
    requires v.Valid(g)
  {
    && HeapOk(v.table) && InRange(v.table)
    && Resolve(DirSlots(g, v, dir, c), name).Some?
    && Chain(v.table, x) && x[0] == StartSector(Resolve(DirSlots(g, v, dir, c), name).value)
    && v.table[x[0]] != 0 && x[0] != dir && !HasPredecessor(v.table, x[0]) && !HasPredecessor(v.table, dir)
  }

  lemma ChangeInSlot(g: Geometry, v: VolumeState, dir: Entry, c: seq<nat>, name: Text, how: SlotChange)
    requires v.Valid(g) && DirChain(g, v, dir, c) && Resolve(DirSlots(g, v, dir, c), name).Some? && how.Valid()
    ensures var es := DirSlots(g, v, dir, c);
            var k := Find(es, name);
            var i := k / SLOTS;
            var w := ChangeIn(g, v, dir, c, es[k], how);
            && i < |c| && w.Some? && w.value.Valid(g) && w.value.table == Seal(v.table, c[i])
            && DirChain(g, w.value, dir, c[..i + 1])
            && SLOTS * (i + 1) <= |es|
            && DirSlots(g, w.value, dir, c[..i + 1]) == es[k := how.On(es[k])][..SLOTS * (i + 1)]
  {
    var es := DirSlots(g, v, dir, c);
    var k := Find(es, name);
    EqualFindsItself(es, name);
    StoreSlotOnChain(g, v, dir, c, k, how.On(es[k]));
  }

  /** After Remove_Item in a subdirectory: the entry's slot is marked, the slots behind its sector are gone,
      the item's clusters are free and the heap is kept. */
  lemma RemoveInSlot(g: Geometry, v: VolumeState, dir: Entry, c: seq<nat>, name: Text, x: seq<nat>)
    requires v.Valid(g) && DirChain(g, v, dir, c) && OwnsChain(g, v, dir, c, name, x)
    ensures var es := DirSlots(g, v, dir, c);
            var k := Find(es, name);
            var i := k / SLOTS;
            var w := RemoveIn(g, v, dir, c, es[k]);
            && i < |c| && w.Some? && w.value.Valid(g) && w.value.Synced() && HeapOk(w.value.table)
            && DirChain(g, w.value, dir, c[..i + 1])
            && (forall j | 0 <= j < |x| :: w.value.table[x[j]] == 0)
            && SLOTS * (i + 1) <= |es|
            && DirSlots(g, w.value, dir, c[..i + 1]) == es[k := Marked(es[k])][..SLOTS * (i + 1)]
  {
    hide Display, Live, FirstEqual, WriteItem, FatImage, ChangeIn, StoreSlot, Find, HeapOk, HasPredecessor, SlotsOf;
    var es := DirSlots(g, v, dir, c);
    var k := Find(es, name);
    var i := k / SLOTS;
    ChangeInSlot(g, v, dir, c, name, Delete);
    HeadsAreDisjoint(v.table, x, c);
    var w1 := ChangeIn(g, v, dir, c, es[k], Delete).value;
    var c' := c[..i + 1];
    FreeAfterSeal(v.table, c[i], x, c');
    var u := w1.(table := Freed(w1.table, x[0]));
    SavedContents(g, u, c');
    SavedPlaces(g, u);
  }

  /** In a subdirectory Remove_Item removes the name, and every other name resolves as before exactly when
      nothing live lies behind the sector it writes. */
  lemma RemoveIsDeleteIff(g: Geometry, v: VolumeState, dir: Entry, c: seq<nat>, name: Text, x: seq<nat>)
    requires v.Valid(g) && DirChain(g, v, dir, c) && OwnsChain(g, v, dir, c, name, x)
    requires LiveDistinct(DirSlots(g, v, dir, c))
    ensures var es := DirSlots(g, v, dir, c);
            var i := Find(es, name) / SLOTS;
            var w := RemoveIn(g, v, dir, c, Resolve(es, name).value);
            i < |c| && w.Some? && w.value.Valid(g) && DirChain(g, w.value, dir, c[..i + 1]) &&
            var es' := DirSlots(g, w.value, dir, c[..i + 1]);
            && LiveDistinct(es') && Resolve(es', name) == None
            && (ActsAsRemove(es, es', name) <==> NoneLiveFrom(es, SLOTS * (i + 1)))
  {
    RemoveInSlot(g, v, dir, c, name, x);
    var es := DirSlots(g, v, dir, c);
    var k := Find(es, name);
    RemoveThenCut(es, k, SLOTS * (k / SLOTS + 1));
  }

  /** The slots of the root after Remove_Item: the sector with the marked slot takes the place of the first. */
  lemma RemoveInRootSlots(g: Geometry, v: VolumeState, name: Text)
    requires v.Valid(g) && InRange(v.table) && Resolve(DirSlots(g, v, 0, []), name).Some?
    requires StartSector(Resolve(DirSlots(g, v, 0, []), name).value) < TABLE_SIZE
    ensures var es := DirSlots(g, v, 0, []);
            var k := Find(es, name);
            var w := RemoveIn(g, v, 0, [], es[k]);
            w.Some? && w.value.Valid(g) && |es| % SLOTS == 0
            && DirSlots(g, w.value, 0, []) == RootAfter(es, k, Marked(es[k]))
  {
    hide Display, Live, FatImage;
    var root := RootArea(g, v);
    var es := SlotsOf(root);
    var k := Find(es, name);
    EqualFindsItself(es, name);
    WholeSectors(root);
    StoreSlotInRoot(g, v, k, Marked(es[k]));
    var w1 := StoreSlot(g, v, 0, root, k, Marked(es[k])).value;
    assert forall j | 2 <= j < TABLE_SIZE :: w1.table[j] == v.table[j];
    assert InRange(w1.table);
    var u := w1.(table := Freed(w1.table, StartSector(es[k])));
    SavedPlaces(g, u);
    assert g.DirStart() > FAT_SECTORS;
    assert RootArea(g, Saved(u)) == RootArea(g, w1);
    RootSlotsAfter(root, k, Marked(es[k]));
  }

  /** In the root directory Remove_Item removes the name, and no other, exactly when the entry found is in the first
      root sector and no other entry shows the name; otherwise the name still resolves. */
  lemma RemoveInRootIff(g: Geometry, v: VolumeState, name: Text)
    requires v.Valid(g) && InRange(v.table) && Resolve(DirSlots(g, v, 0, []), name).Some?
    requires StartSector(Resolve(DirSlots(g, v, 0, []), name).value) < TABLE_SIZE
    ensures var es := DirSlots(g, v, 0, []);
            var k := Find(es, name);
            var w := RemoveIn(g, v, 0, [], Resolve(es, name).value);
            w.Some? && w.value.Valid(g) &&
            var es' := DirSlots(g, w.value, 0, []);
            && (ActsAsRemove(es, es', name) <==> k < SLOTS && !ShownFrom(es, name, k + 1))
            && (Resolve(es', name).Some? <==> k >= SLOTS || ShownFrom(es, name, k + 1))
  {
    hide Display, Live, RemoveIn, SlotsOf, RootArea, RootAfter, ActsAsRemove;
    RemoveInRootSlots(g, v, name);
    RootDeleteIff(DirSlots(g, v, 0, []), name);
  }

  lemma RootDeleteIff(es: seq<DirEntry>, name: Text)
    requires Find(es, name) < |es| && |es| % SLOTS == 0
    ensures var k := Find(es, name);
            var es' := RootAfter(es, k, Marked(es[k]));
            && (ActsAsRemove(es, es', name) <==> k < SLOTS && !ShownFrom(es, name, k + 1))
            && (Resolve(es', name).Some? <==> k >= SLOTS || ShownFrom(es, name, k + 1))
  {
    hide Display, Live, Find, Resolve, RootAfter;
    var k := Find(es, name);
    if k < SLOTS {
      RootAfterFirst(es, k, Marked(es[k]));
      MarkedResolves(es, name);
    } else {
      LaterStillShown(es, k, name);
    }
  }

  lemma LaterStillShown(es: seq<DirEntry>, k: nat, name: Text)
    requires SLOTS <= k < |es| && |es| % SLOTS == 0 && Shows(es[k], name)
    ensures Resolve(RootAfter(es, k, Marked(es[k])), name).Some?
  {
    hide Display, Live;
    var es' := RootAfter(es, k, Marked(es[k]));
    assert es'[k] == es[k];
    assert Shows(es'[k], name);
  }

  /** What a list shows whose first sector is replaced. */
  lemma ReplacedNames(es: seq<DirEntry>, first: seq<DirEntry>, n: Text)
    requires |first| == SLOTS <= |es| && (LiveDistinct(es) || Resolve(es, n) == None)
    ensures Resolve(first + es[SLOTS..], n) ==
            if Resolve(first, n).Some? then Resolve(first, n) else if Find(es, n) < SLOTS then None else Resolve(es, n)
  {
    hide Display, Live;
    var es' := first + es[SLOTS..];
    forall i | 0 <= i < |es'| ensures es'[i] == if i < SLOTS then first[i] else es[i] {
    }
    var f, h := Find(first, n), Find(es, n);
    FindIs(es', n, if f < SLOTS then f else if h < SLOTS then |es'| else h);
  }

  /** The sector of slot k, with e in that slot, takes the place of the first: the names of the first sector are lost,
      and those of the others stay, unless e shows the name. */
  lemma CopiedNames(es: seq<DirEntry>, k: nat, e: DirEntry, n: Text)
    requires SLOTS <= k < |es| && |es| % SLOTS == 0 && !Shows(e, n) && (LiveDistinct(es) || Resolve(es, n) == None)
    ensures Resolve(RootAfter(es, k, e), n) == if Find(es, n) < SLOTS then None else Resolve(es, n)
  {
    hide Display, Live, Find, Resolve, LiveDistinct;
    var at := SLOTS * (k / SLOTS);
    ReplacedNames(es, es[k := e][at..at + SLOTS], n);
    CopyIsFound(es, k, e, n);
  }

  lemma CopyIsFound(es: seq<DirEntry>, k: nat, e: DirEntry, n: Text)
    requires SLOTS <= k < |es| && |es| % SLOTS == 0 && !Shows(e, n) && (LiveDistinct(es) || Resolve(es, n) == None)
    ensures var first := es[k := e][SLOTS * (k / SLOTS)..SLOTS * (k / SLOTS) + SLOTS];
            Resolve(first, n).Some? ==> Resolve(first, n) == Resolve(es, n) && Find(es, n) >= SLOTS
  {
    hide Display, Live;
    var at := SLOTS * (k / SLOTS);
    var first := es[k := e][at..at + SLOTS];
    var f := Find(first, n);
    if f < SLOTS {
      assert first[f] == if at + f == k then e else es[at + f];
      assert Shows(es[at + f], n);
      assert Find(es, n) == at + f;
    }
  }

  /** A sector of the root that was copied over the first one shows its names twice: the copy is found, and the slot in
      its own sector lies behind it. */
  lemma CopiedShowsTwice(es: seq<DirEntry>, k: nat, e: DirEntry, h: nat)
    requires SLOTS <= k < |es| && |es| % SLOTS == 0
    requires h < |es| && h / SLOTS == k / SLOTS && h != k && Live(es[h])
    ensures var es' := RootAfter(es, k, e);
            var n := Display(es[h]);
            Find(es', n) < SLOTS && ShownFrom(es', n, Find(es', n) + 1)
  {
    hide Display, Live;
    var es' := RootAfter(es, k, e);
    var n := Display(es[h]);
    assert es'[h % SLOTS] == es[h] && es'[h] == es[h];
    assert Shows(es'[h % SLOTS], n) && Shows(es'[h], n);
    assert Find(es', n) <= h % SLOTS;
  }
}
