/** The tree of names after Create_Item, whatever the searches for clusters found and wherever the entry is stored; what
    the next Get_Item and the caller's working directory come to. */
module CreatedTree {
  import opened Fat12Types
  import opened Chains
  import opened FatHeap
  import opened ItemData
  import opened Names
  import opened Directories
  import opened DirectoryItems
  import opened CreateLimits
  import opened FileWrite
  import opened FirstSector
  import opened PathTexts
  import opened Paths
  import opened WorkingDir
  import opened VolumeTree
  import opened ItemLookup
  import opened ItemCalls

  // ----- chains that share nothing with the directory -----

  lemma CreateFrameInSlot(g: Geometry, v: VolumeState, d: Entry, c: seq<nat>, item: NewItem, x: seq<nat>)
    requires v.Valid(g) && DirChain(g, v, d, c) && Disjoint(c, x) && Accepted(item.name) && !Full(DirSlots(g, v, d, c))
    requires Chain(v.table, x) && forall i | 0 <= i < |x| :: v.table[x[i]] != 0
    ensures var w := CreateIn(g, v, d, c, item);
            w.Some? && w.value.Valid(g) && Spared(g, v, w.value, x)
  {
    hide Display, Live, FatImage, WriteItem, BuildEntry, Accepted, FirstDead, Allocated, StoreSlot, AppendSector, CreateIn,
         SlotsOf, RootArea, FindFree;
    AllocatedKeeps(g, v, x);
    CreateIsSlot(g, v, d, c, item);
    CreateEndsInSlot(g, v, d, c, item);
    var k, e := FirstDead(DirSlots(g, v, d, c)), item.At(ItemCluster(g, v));
    StoreFrame(g, Allocated(g, v).value, d, c, k, e, x);
    assert forall i | 0 <= i < |x| :: x[i] != c[k / SLOTS];
    ItemClusterApart(g, v, x);
  }

  /** The item's cluster is none of a chain in use. */
  lemma ItemClusterApart(g: Geometry, v: VolumeState, x: seq<nat>)
    requires v.Valid(g) && forall i | 0 <= i < |x| :: 2 <= x[i] < TABLE_SIZE && v.table[x[i]] != 0
    ensures forall i | 0 <= i < |x| :: x[i] != ItemCluster(g, v)
  {
  }

  lemma FullContents(g: Geometry, v: VolumeState, d: Entry, c: seq<nat>, item: NewItem, x: seq<nat>)
    requires v.Valid(g) && DirChain(g, v, d, c) && Accepted(item.name) && Full(DirSlots(g, v, d, c))
    requires Chain(v.table, x) && forall i | 0 <= i < |x| :: v.table[x[i]] != 0
    ensures var w := CreateIn(g, v, d, c, item);
            w.Some? && Contents(g, w.value.disk, x) == Contents(g, v.disk, x)
  {
    hide Display, Live, FatImage, WriteItem, BuildEntry, Accepted, FirstDead, Allocated, StoreSlot, AppendSector,
         RootArea, SlotsOf;
    AllocatedKeeps(g, v, x);
    AllocatedKeeps(g, v, c);
    AllocatedAlways(g, v);
    var a, e := Allocated(g, v).value, item.At(ItemCluster(g, v));
    assert CreateIn(g, v, d, c, item) == AppendSector(g, a, d, e);
    assert forall i | 0 <= i < |x| :: a.table[x[i]] == v.table[x[i]];
    AppendedContents(g, a, d, e, x);
  }

  lemma AppendedContents(g: Geometry, v: VolumeState, d: Entry, e: DirEntry, x: seq<nat>)
    requires v.Valid(g) && d < TABLE_SIZE && forall i | 0 <= i < |x| :: 2 <= x[i] < TABLE_SIZE && v.table[x[i]] != 0
    ensures var w := AppendSector(g, v, d, e);
            w.Some? && w.value.Valid(g) && Contents(g, w.value.disk, x) == Contents(g, v.disk, x)
  {
    hide AppendSector;
    var extra := FindFree(v.table, g.RootSectors());
    if extra == 0 {
      AppendWithoutRoom(g, v, d, e);
      SameContents(g, v, AppendSector(g, v, d, e).value, x);
    } else {
      AppendWithRoom(g, v, d, e);
      AppendContents(g, v, AppendSector(g, v, d, e).value, x, extra);
    }
  }

  lemma CreateFrameFull(g: Geometry, v: VolumeState, d: Entry, c: seq<nat>, item: NewItem, x: seq<nat>)
    requires v.Valid(g) && DirChain(g, v, d, c) && Disjoint(c, x) && Accepted(item.name) && Full(DirSlots(g, v, d, c))
    requires Chain(v.table, x) && forall i | 0 <= i < |x| :: v.table[x[i]] != 0
    ensures var w := CreateIn(g, v, d, c, item);
            w.Some? && w.value.Valid(g) && Spared(g, v, w.value, x)
  {
    hide Display, Live, FatImage, CreateIn, BuildEntry, Accepted, FirstDead, SlotsOf;
    CreateEndsFull(g, v, d, c, item);
    FullContents(g, v, d, c, item, x);
    assert forall i | 0 <= i < |x| :: x[i] != c[0];
    assert ExtraCluster(g, v) != 0 ==> v.table[ExtraCluster(g, v)] == 0;
  }

  lemma CreateFrameInRoot(g: Geometry, v: VolumeState, item: NewItem, x: seq<nat>)
    requires v.Valid(g) && Accepted(item.name)
    requires Chain(v.table, x) && forall i | 0 <= i < |x| :: v.table[x[i]] != 0
    ensures var w := CreateIn(g, v, 0, [], item);
            w.Some? && w.value.Valid(g) && Spared(g, v, w.value, x)
  {
    hide Display, Live, FatImage, WriteItem, BuildEntry, Accepted, FirstDead, Allocated, StoreSlot, AppendSector, SlotsOf,
         FindFree, Contents;
    AllocatedKeeps(g, v, x);
    AllocatedAlways(g, v);
    ItemClusterApart(g, v, x);
    var a, e := Allocated(g, v).value, item.At(ItemCluster(g, v));
    assert forall i | 0 <= i < |x| :: a.table[x[i]] == v.table[x[i]];
    PlaceFrameInRoot(g, a, e, x);
  }

  lemma PlaceFrameInRoot(g: Geometry, v: VolumeState, e: DirEntry, x: seq<nat>)
    requires v.Valid(g) && Chain(v.table, x) && forall i | 0 <= i < |x| :: v.table[x[i]] != 0
    ensures var w := PlaceIn(g, v, 0, [], e);
            w.Some? && w.value.Valid(g) && Spared(g, v, w.value, x)
  {
    hide Display, Live, FatImage, WriteItem, FirstDead, StoreSlot, AppendSector, SlotsOf, Contents;
    var k := FirstDead(DirSlots(g, v, 0, []));
    if k < SLOTS * g.RootSectors() {
      RootStoreSpares(g, v, k, e, x);
    } else {
      AppendedContents(g, v, 0, e, x);
      if FindFree(v.table, g.RootSectors()) == 0 {
        AppendWithoutRoom(g, v, 0, e);
      } else {
        AppendWithRoom(g, v, 0, e);
      }
    }
  }

  lemma AppendContents(g: Geometry, v: VolumeState, w: VolumeState, x: seq<nat>, extra: nat)
    requires v.Valid(g) && |w.disk| == |v.disk| && forall i | 0 <= i < |x| :: x[i] >= 2 && x[i] != extra
    requires forall l | FAT_SECTORS < l < |v.disk| && l != g.Lba(extra) :: w.disk[l] == v.disk[l]
    ensures Contents(g, w.disk, x) == Contents(g, v.disk, x)
  {
  }

  /** Every other safe directory shows what it showed. */
  lemma OtherKept(g: Geometry, v: VolumeState, d: Entry, c: seq<nat>, item: NewItem, s: Entry, n: Text)
    requires v.Valid(g) && HeapOk(v.table) && SafeDir(v.table, d) && (d != 0 ==> DirChain(g, v, d, c))
    requires Accepted(item.name) && SafeDir(v.table, s) && s != d && s != 0
    ensures var w := CreateIn(g, v, d, c, item);
            w.Some? && w.value.Valid(g) && LookOf(g, w.value)(s, n) == LookOf(g, v)(s, n)
  {
    hide Display, Live, BuildEntry, Accepted, CreateIn, HeapOk, HasPredecessor, LookOf, SlotsOf, FirstDead;
    var x := ChainOf(v.table, s);
    ChainInUse(v.table, x);
    if d == 0 {
      RootChainIgnored(g, v, c, item);
      CreateFrameInRoot(g, v, item, x);
    } else {
      HeadsAreDisjoint(v.table, c, x);
      if Full(DirSlots(g, v, d, c)) {
        CreateFrameFull(g, v, d, c, item, x);
      } else {
        CreateFrameInSlot(g, v, d, c, item, x);
      }
    }
    SparedLook(g, v, CreateIn(g, v, d, c, item).value, s, x, n);
  }

  // ----- the root, as the parent -----

  /** The first root sector is lost: it was wiped or written over, or another sector took its place. */
  predicate RootLost(g: Geometry, v: VolumeState, d: Entry, es: seq<DirEntry>)
    requires g.Valid()
  {
    !ClustersFound(g, v, es) || (d == 0 && !Full(es) && FirstDead(es) >= SLOTS)
  }

  lemma AloneNames(e: DirEntry, name: Text, n: Text)
    requires Shows(e, name)
    ensures |SlotsOf([Padded(e)])| == SLOTS && Resolve(SlotsOf([Padded(e)]), n) == if n == name then Some(e) else None
  {
    hide Display, Live, Padded, SlotsOf;
    var first := SlotsOf([Padded(e)]);
    assert |first| == SLOTS by {
      WholeSectors([Padded(e)]);
    }
    forall i | 0 <= i < SLOTS ensures if i == 0 then first[i] == e else !Live(first[i]) {
      AloneInSector(e, i);
    }
    FindIs(first, n, if n == name then 0 else SLOTS);
  }

  lemma BlankNames(n: Text)
    ensures |SlotsOf([ZeroSector()])| == SLOTS && Resolve(SlotsOf([ZeroSector()]), n) == None
  {
    hide Display;
    var first := SlotsOf([ZeroSector()]);
    forall i | 0 <= i < SLOTS ensures !Live(first[i]) {
      assert first[i] == Slot(ZeroSector(), i);
      assert first[i][0] == ZeroSector()[32 * i];
    }
    FindIs(first, n, SLOTS);
  }

  /** A copied sector that holds e shows it, when no other slot shows its name. */
  lemma CopiedNew(es: seq<DirEntry>, k: nat, name: Text, e: DirEntry)
    requires k < |es| && |es| % SLOTS == 0 && Resolve(es, name) == None && Shows(e, name)
    ensures Resolve(RootAfter(es, k, e), name) == Some(e)
  {
    hide Display, Live;
    var es' := RootAfter(es, k, e);
    assert |es'| == |es| && es'[k % SLOTS] == e;
    forall i | 0 <= i < k % SLOTS ensures !Shows(es'[i], name) {
      assert es'[i] == es[SLOTS * (k / SLOTS) + i];
    }
    FindIs(es', name, k % SLOTS);
  }

  /** A name in the root after Create_Item there. */
  lemma RootCreated(g: Geometry, v: VolumeState, item: NewItem, n: Text)
    requires v.Valid(g) && Accepted(item.name) && Shows(item.At(ItemCluster(g, v)), item.name)
    requires n == item.name ==> Resolve(DirSlots(g, v, 0, []), n) == None
    requires RootLost(g, v, 0, DirSlots(g, v, 0, [])) ==>
               LiveDistinct(DirSlots(g, v, 0, [])) || Resolve(DirSlots(g, v, 0, []), n) == None
    ensures var w := CreateIn(g, v, 0, [], item);
            var es := DirSlots(g, v, 0, []);
            w.Some? && w.value.Valid(g) &&
            Resolve(DirSlots(g, w.value, 0, []), n) ==
            if n == item.name then
              if ClustersFound(g, v, es) && Full(es) then None else Some(item.At(ItemCluster(g, v)))
            else if RootLost(g, v, 0, es) && Find(es, n) < SLOTS then None
            else Resolve(es, n)
  {
    hide Display, Live, CreateIn, BuildEntry, Accepted, SlotsOf, RootArea, FindFree, Resolve, Find, RootAfter,
         LiveDistinct;
    var es, e := DirSlots(g, v, 0, []), item.At(ItemCluster(g, v));
    var k := FirstDead(es);
    CreateInRootSlots(g, v, item);
    if !ClustersFound(g, v, es) {
      AloneNames(e, item.name, n);
      ReplacedNames(es, SlotsOf([Padded(e)]), n);
      ResolveNone(es, n);
    } else if !Full(es) {
      if n == item.name {
        CopiedNew(es, k, n, e);
      } else if k < SLOTS {
        RootAfterFirst(es, k, e);
        UpdateKeepsOthers(es, k, e, n);
      } else {
        CopiedNames(es, k, e, n);
      }
    }
  }

  lemma ResolveNone(es: seq<DirEntry>, n: Text)
    ensures Resolve(es, n) == None <==> Find(es, n) == |es|
  {
  }

  // ----- the root, when the parent is a subdirectory -----

  /** The new entry stands alone in the first root sector. */
  predicate InRootToo(g: Geometry, v: VolumeState, d: Entry, es: seq<DirEntry>)
    requires g.Valid()
  {
    d != 0 && Full(es) && !ClustersFound(g, v, es)
  }

  lemma RootBehind(g: Geometry, v: VolumeState, w: VolumeState, x: Sector)
    requires v.Valid(g) && w.Valid(g) && RootArea(g, w) == [x] + RootArea(g, v)[1..]
    ensures |DirSlots(g, v, 0, [])| >= SLOTS
    ensures DirSlots(g, w, 0, []) == SlotsOf([x]) + DirSlots(g, v, 0, [])[SLOTS..]
  {
    var root := RootArea(g, v);
    assert root == [root[0]] + root[1..];
    SlotsOfAppend([root[0]], root[1..]);
    SlotsOfAppend([x], root[1..]);
  }

  lemma RootBeside(g: Geometry, v: VolumeState, d: Entry, c: seq<nat>, item: NewItem, n: Text)
    requires v.Valid(g) && DirChain(g, v, d, c) && Accepted(item.name) && Shows(item.At(ItemCluster(g, v)), item.name)
    requires RootLost(g, v, d, DirSlots(g, v, d, c)) ==>
               LiveDistinct(DirSlots(g, v, 0, [])) || Resolve(DirSlots(g, v, 0, []), n) == None
    ensures var w := CreateIn(g, v, d, c, item);
            var es, root := DirSlots(g, v, d, c), DirSlots(g, v, 0, []);
            w.Some? && w.value.Valid(g) &&
            Resolve(DirSlots(g, w.value, 0, []), n) ==
            if n == item.name && InRootToo(g, v, d, es) then Some(item.At(ItemCluster(g, v)))
            else if RootLost(g, v, d, es) && Find(root, n) < SLOTS then None
            else Resolve(root, n)
  {
    hide Display, Live, CreateIn, BuildEntry, Accepted, SlotsOf, RootArea, FindFree, Resolve, Find, LiveDistinct, FirstDead;
    var es, root, e := DirSlots(g, v, d, c), DirSlots(g, v, 0, []), item.At(ItemCluster(g, v));
    if Full(es) {
      CreateEndsFull(g, v, d, c, item);
      if !ClustersFound(g, v, es) {
        RootBehind(g, v, CreateIn(g, v, d, c, item).value, Padded(e));
        AloneNames(e, item.name, n);
        ReplacedNames(root, SlotsOf([Padded(e)]), n);
      }
    } else {
      CreateEndsInSlot(g, v, d, c, item);
      if !ClustersFound(g, v, es) {
        RootBehind(g, v, CreateIn(g, v, d, c, item).value, ZeroSector());
        BlankNames(n);
        ReplacedNames(root, SlotsOf([ZeroSector()]), n);
      }
    }
  }

  // ----- a subdirectory, as the parent -----

  lemma CutNames(es: seq<DirEntry>, k: nat, name: Text, e: DirEntry, m: nat, n: Text)
    requires k < m <= |es| && !Live(es[k]) && Shows(e, name) && Resolve(es, name) == None
    ensures Resolve(es[k := e][..m], n) == if n == name then Some(e) else if Find(es, n) < m then Resolve(es, n) else None
  {
    hide Display, Live;
    var es' := es[k := e][..m];
    forall i | 0 <= i < m ensures es'[i] == if i == k then e else es[i] {
    }
    var f := Find(es, n);
    FindIs(es', n, if n == name then k else if f < m then f else m);
  }

  lemma TakeNames(es: seq<DirEntry>, es': seq<DirEntry>, n: Text)
    requires |es| >= SLOTS && |es'| >= SLOTS && es'[..SLOTS] == es[..SLOTS] && NoneLiveFrom(es', SLOTS)
    ensures Resolve(es', n) == if Find(es, n) < SLOTS then Resolve(es, n) else None
  {
    hide Display, Live;
    forall i | 0 <= i < SLOTS ensures es'[i] == es[i] {
      assert es'[..SLOTS][i] == es[..SLOTS][i];
    }
    var f := Find(es, n);
    FindIs(es', n, if f < SLOTS then f else |es'|);
  }

  lemma AppendNames(es: seq<DirEntry>, es': seq<DirEntry>, name: Text, e: DirEntry, n: Text)
    requires |es| >= SLOTS && |es'| > SLOTS && es'[..SLOTS] == es[..SLOTS] && es'[SLOTS] == e
    requires NoneLiveFrom(es', SLOTS + 1) && Shows(e, name) && Resolve(es, name) == None
    ensures Resolve(es', n) == if n == name then Some(e) else if Find(es, n) < SLOTS then Resolve(es, n) else None
  {
    hide Display, Live;
    forall i | 0 <= i < SLOTS ensures es'[i] == es[i] {
      assert es'[..SLOTS][i] == es[..SLOTS][i];
    }
    var f := Find(es, n);
    FindIs(es', n, if n == name then SLOTS else if f < SLOTS then f else |es'|);
  }

  /** The new entry can be read in the parent directory. */
  predicate NameThere(g: Geometry, v: VolumeState, d: Entry, es: seq<DirEntry>)
    requires g.Valid()
  {
    if d == 0 then !(ClustersFound(g, v, es) && Full(es)) else Full(es) ==> RoomFor(g, v, es)
  }

  /** A name in a subdirectory after Create_Item there: what lies behind the sector written is gone. */
  lemma SubdirectoryCreated(g: Geometry, v: VolumeState, d: Entry, c: seq<nat>, item: NewItem, n: Text)
    requires v.Valid(g) && DirChain(g, v, d, c) && Accepted(item.name) && Shows(item.At(ItemCluster(g, v)), item.name)
    requires Resolve(DirSlots(g, v, d, c), item.name) == None
    ensures var w := CreateIn(g, v, d, c, item);
            var es := DirSlots(g, v, d, c);
            w.Some? && w.value.Valid(g) && HasChain(w.value.table, d) &&
            Resolve(DirSlots(g, w.value, d, ChainOf(w.value.table, d)), n) ==
            if n == item.name && NameThere(g, v, d, es) then Some(item.At(ItemCluster(g, v)))
            else if Find(es, n) < CutAt(es) then Resolve(es, n)
            else None
  {
    hide Display, Live, CreateIn, BuildEntry, FirstDead, Accepted, Resolve, Find, StoreSlot, Contents, SlotsOf, Allocated,
         FindFree;
    var es, e := DirSlots(g, v, d, c), item.At(ItemCluster(g, v));
    ResolveNone(es, item.name);
    if !Full(es) {
      var k := FirstDead(es);
      CreateIsSlot(g, v, d, c, item);
      AllocatedKeeps(g, v, c);
      StoreSlotOnChain(g, Allocated(g, v).value, d, c, k, e);
      ChainOfIs(CreateIn(g, v, d, c, item).value.table, c[..k / SLOTS + 1]);
      CutNames(es, k, item.name, e, CutAt(es), n);
    } else if RoomFor(g, v, es) {
      ChainSlots(g, v, d, c);
      CreateInFull(g, v, d, c, item);
      var c' := ChainAfterCreate(g, v, d, c);
      ChainOfIs(CreateIn(g, v, d, c, item).value.table, c');
      AppendNames(es, DirSlots(g, CreateIn(g, v, d, c, item).value, d, c'), item.name, e, n);
    } else {
      var less := NoRoomSectors(g, v, d, c, item);
      FirstContents(g, v.disk, c);
      FirstOfSectors(Contents(g, v.disk, c), less);
      TakeNames(es, SlotsOf(less), n);
    }
  }

  lemma ChainSlots(g: Geometry, v: VolumeState, d: Entry, c: seq<nat>)
    requires v.Valid(g) && d != 0
    ensures |DirSlots(g, v, d, c)| == SLOTS * |c|
  {
  }

  lemma FirstOfSectors(sectors: seq<Sector>, less: seq<Sector>)
    requires sectors != [] && (less == [sectors[0]] || less == [sectors[0], ZeroSector()])
    ensures var es, es' := SlotsOf(sectors), SlotsOf(less);
            |es| >= SLOTS && |es'| >= SLOTS && es'[..SLOTS] == es[..SLOTS] && NoneLiveFrom(es', SLOTS)
  {
    var es' := SlotsOf(less);
    forall i | SLOTS <= i < |es'| ensures !Live(es'[i]) {
      assert es'[i] == Slot(ZeroSector(), i - SLOTS);
      assert es'[i][0] == ZeroSector()[32 * (i - SLOTS)];
    }
  }

  // ----- every directory -----

  /** Directory s loses the name n when an item is created in d: it was shown in the first root sector, and that is lost;
      or it is shown in d, behind the sector written. es are the slots of d. */
  predicate Drops(g: Geometry, v: VolumeState, d: Entry, es: seq<DirEntry>, s: Entry, n: Text)
    requires v.Valid(g)
  {
    || (s == 0 && RootLost(g, v, d, es) && Find(DirSlots(g, v, 0, []), n) < SLOTS)
    || (s == d && d != 0 && Find(es, n) >= CutAt(es))
  }

  /** An item that is shown under its name is created in d, which is safe; if the root loses a sector its names are
      distinct. */
  ghost predicate Creatable(g: Geometry, v: VolumeState, d: Entry, c: seq<nat>, item: NewItem) {
    && v.Valid(g) && HeapOk(v.table) && SafeDir(v.table, d) && (d != 0 ==> DirChain(g, v, d, c))
    && Accepted(item.name) && Shows(item.At(ItemCluster(g, v)), item.name)
    && (RootLost(g, v, d, DirSlots(g, v, d, c)) ==> LiveDistinct(DirSlots(g, v, 0, [])))
    && (d != 0 ==> LookOf(g, v)(d, item.name) == None)
  }

  /** The whole tree after Create_Item: what every safe directory shows under every name. */
  lemma CreatedLook(g: Geometry, v: VolumeState, d: Entry, c: seq<nat>, item: NewItem, s: Entry, n: Text)
    requires Creatable(g, v, d, c, item) && SafeDir(v.table, s)
    requires s == d && n == item.name ==> LookOf(g, v)(d, n) == None
    ensures var w := CreateIn(g, v, d, c, item);
            var es := DirSlots(g, v, d, c);
            w.Some? && w.value.Valid(g) &&
            LookOf(g, w.value)(s, n) ==
            if n == item.name && (if s == d then NameThere(g, v, d, es) else s == 0 && InRootToo(g, v, d, es))
            then Some(item.At(ItemCluster(g, v)))
            else if Drops(g, v, d, es, s, n) then None
            else LookOf(g, v)(s, n)
  {
    hide Display, Live, CreateIn, BuildEntry, Accepted, SlotsOf, FindFree, HeapOk, HasPredecessor, LookOf, Drops, NameThere,
         InRootToo, RootLost, FirstDead;
    if s == 0 && d == 0 {
      RootLook(g, v, c, item, n);
    } else if s == 0 {
      RootLookBeside(g, v, d, c, item, n);
    } else if s == d {
      SubdirectoryLook(g, v, d, c, item, n);
    } else {
      OtherKept(g, v, d, c, item, s, n);
      OthersDropNothing(g, v, d, DirSlots(g, v, d, c), s, n);
    }
  }

  lemma OthersDropNothing(g: Geometry, v: VolumeState, d: Entry, es: seq<DirEntry>, s: Entry, n: Text)
    requires v.Valid(g) && s != 0 && s != d
    ensures !Drops(g, v, d, es, s, n)
  {
  }

  lemma RootLook(g: Geometry, v: VolumeState, c: seq<nat>, item: NewItem, n: Text)
    requires Creatable(g, v, 0, c, item) && (n == item.name ==> LookOf(g, v)(0, n) == None)
    ensures var w := CreateIn(g, v, 0, c, item);
            var es := DirSlots(g, v, 0, c);
            w.Some? && w.value.Valid(g) &&
            LookOf(g, w.value)(0, n) ==
            if n == item.name && NameThere(g, v, 0, es) then Some(item.At(ItemCluster(g, v)))
            else if Drops(g, v, 0, es, 0, n) then None
            else LookOf(g, v)(0, n)
  {
    hide Display, Live, CreateIn, BuildEntry, Accepted, SlotsOf, FindFree, Resolve, Find, LiveDistinct, HeapOk, LookOf,
         FirstDead;
    RootChainIgnored(g, v, c, item);
    LookAt(g, v, 0, [], n);
    RootCreated(g, v, item, n);
    LookAt(g, CreateIn(g, v, 0, [], item).value, 0, [], n);
    ResolveNone(DirSlots(g, v, 0, []), n);
  }

  lemma RootLookBeside(g: Geometry, v: VolumeState, d: Entry, c: seq<nat>, item: NewItem, n: Text)
    requires Creatable(g, v, d, c, item) && d != 0
    ensures var w := CreateIn(g, v, d, c, item);
            var es := DirSlots(g, v, d, c);
            w.Some? && w.value.Valid(g) &&
            LookOf(g, w.value)(0, n) ==
            if n == item.name && InRootToo(g, v, d, es) then Some(item.At(ItemCluster(g, v)))
            else if Drops(g, v, d, es, 0, n) then None
            else LookOf(g, v)(0, n)
  {
    hide Display, Live, CreateIn, BuildEntry, Accepted, SlotsOf, FindFree, Resolve, Find, LiveDistinct, HeapOk, LookOf,
         FirstDead, InRootToo, RootLost;
    LookAt(g, v, 0, [], n);
    RootBeside(g, v, d, c, item, n);
    LookAt(g, CreateIn(g, v, d, c, item).value, 0, [], n);
  }

  lemma SubdirectoryLook(g: Geometry, v: VolumeState, d: Entry, c: seq<nat>, item: NewItem, n: Text)
    requires Creatable(g, v, d, c, item) && d != 0
    ensures var w := CreateIn(g, v, d, c, item);
            var es := DirSlots(g, v, d, c);
            w.Some? && w.value.Valid(g) &&
            LookOf(g, w.value)(d, n) ==
            if n == item.name && NameThere(g, v, d, es) then Some(item.At(ItemCluster(g, v)))
            else if Drops(g, v, d, es, d, n) then None
            else LookOf(g, v)(d, n)
  {
    hide Display, Live, CreateIn, BuildEntry, Accepted, SlotsOf, FindFree, Resolve, Find, LiveDistinct, HeapOk, LookOf,
         FirstDead, CutAt, NameThere, RootLost;
    LookAt(g, v, d, c, n);
    LookAt(g, v, d, c, item.name);
    SubdirectoryCreated(g, v, d, c, item, n);
    var w := CreateIn(g, v, d, c, item).value;
    LookAt(g, w, d, ChainOf(w.table, d), n);
  }

  // ----- ways -----

  /** From place b of the way on, some directory loses the next component. */
  ghost predicate WayDrops(g: Geometry, v: VolumeState, d: Entry, es: seq<DirEntry>, names: seq<Text>, b: nat)
    requires v.Valid(g)
  {
    exists k :: b <= k < |names| && Reaches(LookOf(g, v), names[..k]).Some?
                && Drops(g, v, d, es, Reaches(LookOf(g, v), names[..k]).value, names[k])
  }

  /** No component that is looked for in the root is shown there by the new entry. */
  ghost predicate NotHidden(g: Geometry, v: VolumeState, d: Entry, es: seq<DirEntry>, names: seq<Text>, name: Text)
    requires v.Valid(g)
  {
    InRootToo(g, v, d, es) ==>
      forall k | 0 <= k < |names| && Reaches(LookOf(g, v), names[..k]) == Some(0) :: names[k] != name
  }

  /** Each step of a way is kept or lost. */
  lemma StepsAfterCreate(g: Geometry, v: VolumeState, d: Entry, c: seq<nat>, item: NewItem, names: seq<Text>, b: nat)
    requires Creatable(g, v, d, c, item) && WaySafe(g, v, names) && GoodNames(names)
    requires LookOf(g, v)(d, item.name) == None || SLASH in item.name
    requires Reaches(LookOf(g, v), names).Some? && NotHidden(g, v, d, DirSlots(g, v, d, c), names, item.name)
    ensures var w := CreateIn(g, v, d, c, item);
            && w.Some? && w.value.Valid(g)
            && KeptFrom(LookOf(g, v), LookOf(g, w.value), names, b)
            && (LosesFrom(LookOf(g, v), LookOf(g, w.value), names, b) <==>
                WayDrops(g, v, d, DirSlots(g, v, d, c), names, b))
  {
    hide LookOf, Creatable, CreateIn, SafeDir, Drops, NameThere, InRootToo, Reaches;
    CreatedSome(g, v, d, c, item);
    var look, look' := LookOf(g, v), LookOf(g, CreateIn(g, v, d, c, item).value);
    forall k | 0 <= k < |names|
      ensures var s := Step(look, names, k);
              look'(s, names[k]) ==
              if Drops(g, v, d, DirSlots(g, v, d, c), s, names[k]) then None else look(s, names[k])
    {
      var s := Step(look, names, k);
      assert GoodName(names[k]) && SafeDir(v.table, s);
      CreatedLook(g, v, d, c, item, s, names[k]);
    }
    if WayDrops(g, v, d, DirSlots(g, v, d, c), names, b) {
      var k :| b <= k < |names| && Reaches(look, names[..k]).Some?
               && Drops(g, v, d, DirSlots(g, v, d, c), Reaches(look, names[..k]).value, names[k]);
      assert Step(look, names, k) == Reaches(look, names[..k]).value;
    }
  }

  lemma CreatedSome(g: Geometry, v: VolumeState, d: Entry, c: seq<nat>, item: NewItem)
    requires Creatable(g, v, d, c, item)
    ensures v.Valid(g) && SafeDir(v.table, d) && Accepted(item.name)
    ensures CreateIn(g, v, d, c, item).Some? && CreateIn(g, v, d, c, item).value.Valid(g)
  {
    hide CreateIn, LookOf, HeapOk, FirstDead, SlotsOf, RootArea;
    if d == 0 {
      RootChainIgnored(g, v, c, item);
      CreateInRootArea(g, v, item);
    } else if Full(DirSlots(g, v, d, c)) {
      CreateEndsFull(g, v, d, c, item);
    } else {
      CreateEndsInSlot(g, v, d, c, item);
    }
  }

  /** After Create_Item a working directory still agrees with its sector exactly when no directory on the way there loses
      the next component. */
  lemma CreateThenAgreesIff(g: Geometry, v: VolumeState, d: Entry, c: seq<nat>, item: NewItem, wd: Text, sector: Entry,
                            names: seq<Text>)
    requires Creatable(g, v, d, c, item) && (LookOf(g, v)(d, item.name) == None || SLASH in item.name)
    requires Agrees(LookOf(g, v), wd, sector, names) && WaySafe(g, v, names)
    requires NotHidden(g, v, d, DirSlots(g, v, d, c), names, item.name)
    ensures var w := CreateIn(g, v, d, c, item);
            w.Some? && w.value.Valid(g)
            && (Agrees(LookOf(g, w.value), wd, sector, names) <==> !WayDrops(g, v, d, DirSlots(g, v, d, c), names, 0))
  {
    hide LookOf, Creatable, CreateIn, WaySafe, Reaches, NotHidden, WayDrops;
    CreatedSome(g, v, d, c, item);
    StepsAfterCreate(g, v, d, c, item, names, 0);
    WayIff(LookOf(g, v), LookOf(g, CreateIn(g, v, d, c, item).value), names);
  }

  // ----- Create_Item and the next Get_Item -----

  /** Create_Item in the root, and the next Get_Item for the same path, for every volume and any caller: the item is found
      exactly when the path is no slash and one component, and the root was not left full. */
  lemma CreateInRootThenGetIff(g: Geometry, v: VolumeState, wd: Text, sector: Entry, names: seq<Text>, path: Text,
                               item: NewItem)
    requires v.Valid(g) && PathNames(LookOf(g, v), wd, sector, names, path, 0) && ParentOf(names, Parse(path)) == []
    requires LookOf(g, v)(0, LastOf(path)) == None && Accepted(StoredFor(path))
    requires Shows(item.(name := StoredFor(path)).At(ItemCluster(g, v)), StoredFor(path))
    ensures Plain(wd)
    ensures var r := CreateItem(g, v, wd, sector, path, item);
            var es := DirSlots(g, v, 0, []);
            var e := item.(name := StoredFor(path)).At(ItemCluster(g, v));
            && r.Some? && r.value.0 && r.value.1.Valid(g) && StartSector(e) == ItemCluster(g, v)
            && (ItemCluster(g, v) != 0 ==> v.table[ItemCluster(g, v)] == 0)
            && var o := GetItem(LookOf(g, r.value.1), wd, sector, path, [], 0, false);
               && (o.found <==> !SlashAndName(FullPath(path)) && !(ClustersFound(g, v, es) && Full(es)))
               && (o.found ==> o == Outcome(Some(e), Joined([LastOf(path)]), 1, true))
  {
    hide Reaches, GetItem, CreateIn, LookOf, Parse, LooksUp, NamesItem, ParentOf, Resolve, IsName, CreateItem, Accepted,
         Display, Live, BuildEntry, FirstDead, DirSlots, SlashAndName;
    var made, last := item.(name := StoredFor(path)), LastOf(path);
    CreateItemIs(g, v, wd, sector, names, path, item, 0);
    NewNameWasFree(LookOf(g, v), names, path, 0);
    BuiltFields(made.name, made.garbage, made.attribute, made.time, made.date, ItemCluster(g, v));
    LookAt(g, v, 0, [], last);
    RootCreated(g, v, made, last);
    var w := CreateIn(g, v, 0, [], made).value;
    LookAt(g, w, 0, [], last);
    AgreeingIsKept(LookOf(g, v), wd, sector, names);
    RootLookup(LookOf(g, w), wd, sector, names, path);
    var o := GetItem(LookOf(g, w), wd, sector, path, [], 0, false);
    assert [] + [last] == [last];
    if LookOf(g, w)(0, last).Some? {
      FoundItem(LookOf(g, w), [], 0, last, o);
    } else {
      MissingItem(LookOf(g, w), [], 0, last, o);
    }
  }

  /** The tree as it was, but for what d shows under last. */
  function Mixed(look: Look, look': Look, d: Entry, last: Text): Look {
    (s: Entry, n: Text) => if s == d && n == last then look'(d, last) else look(s, n)
  }

  lemma MixedWay(look: Look, look': Look, d: Entry, last: Text, names: seq<Text>)
    requires look(d, last) == None && Reaches(look, names).Some?
    ensures Reaches(Mixed(look, look', d, last), names) == Reaches(look, names)
    ensures forall k | 0 <= k <= |names| :: Step(Mixed(look, look', d, last), names, k) == Step(look, names, k)
  {
    var mixed := Mixed(look, look', d, last);
    forall k | 0 <= k <= |names|
      ensures Reaches(mixed, names[..k]) == Reaches(look, names[..k])
    {
      ReachesPrefix(look, names, k);
      var r := names[..k];
      forall j | 0 <= j < k ensures Step(look, r, j) == Step(look, names, j) && r[j] == names[j] {
        assert r[..j] == names[..j];
      }
      WayIff(look, mixed, r);
    }
    assert names[..|names|] == names;
  }

  /** What the mixed tree and the new one have in common. */
  lemma MixedSteps(look: Look, look': Look, d: Entry, last: Text, names: seq<Text>, b: nat)
    requires look(d, last) == None && Reaches(look, names).Some?
    ensures Reaches(Mixed(look, look', d, last), names).Some?
    ensures KeptFrom(look, look', names, b) ==> KeptFrom(Mixed(look, look', d, last), look', names, b)
    ensures LosesFrom(Mixed(look, look', d, last), look', names, b) <==> LosesFrom(look, look', names, b)
  {
    hide Reaches;
    MixedWay(look, look', d, last, names);
    var mixed := Mixed(look, look', d, last);
    forall k | 0 <= k < |names|
      ensures Step(mixed, names, k) == Step(look, names, k)
              && mixed(Step(look, names, k), names[k]) == look(Step(look, names, k), names[k])
    {
    }
  }

  /** The directories that Get_Item enters from the root before it comes to the path's own components. */
  function WayUp(names: seq<Text>, p: Parsed): seq<Text>
    requires DotDots(p.toks) <= |names|
  {
    if GoesUp(p) then WorkingDir.Base(names, p) else []
  }

  lemma WayUpSteps(look: Look, look': Look, names: seq<Text>, p: Parsed)
    requires DotDots(p.toks) <= |names| && Reaches(look, names).Some? && GoesUp(p)
    requires Reaches(look, WayUp(names, p)).Some? && KeptFrom(look, look', WayUp(names, p), 0)
    requires !LosesFrom(look, look', WayUp(names, p), 0)
    ensures forall j | 0 <= j < |WorkingDir.Base(names, p)| ::
              look'(Step(look, names, j), names[j]) == look(Step(look, names, j), names[j])
  {
    hide Reaches;
    var up := WayUp(names, p);
    forall j | 0 <= j < |up| ensures up[j] == names[j] && Step(look, up, j) == Step(look, names, j) {
      assert up[..j] == names[..j];
    }
  }

  /** Get_Item in the new tree, in terms of the old one. */
  lemma LookupAfter(look: Look, look': Look, wd: Text, sector: Entry, names: seq<Text>, path: Text, d: Entry)
    requires PathNames(look, wd, sector, names, path, d) && look(d, LastOf(path)) == None
    requires var p := Parse(path);
             && KeptFrom(look, look', ParentOf(names, p), |WorkingDir.Base(names, p)|)
             && Reaches(look, WayUp(names, p)).Some? && KeptFrom(look, look', WayUp(names, p), 0)
             && !LosesFrom(look, look', WayUp(names, p), 0)
    ensures Plain(wd)
    ensures var p := Parse(path);
            var o := GetItem(look', wd, sector, path, [], 0, false);
            if LosesFrom(look, look', ParentOf(names, p), |WorkingDir.Base(names, p)|) then !o.found
            else LooksUp(Mixed(look, look', d, LastOf(path)), ParentOf(names, p), d, LastOf(path), true, o)
  {
    hide Reaches, GetItem, Parse, LooksUp, ParentOf, NamesIn, DotDots, KeptFrom, LosesFrom, IsName;
    var p, last := Parse(path), LastOf(path);
    var mixed := Mixed(look, look', d, last);
    LastNameIsLast(p.toks);
    MixedWay(look, look', d, last, names);
    MixedSteps(look, look', d, last, ParentOf(names, p), |WorkingDir.Base(names, p)|);
    MixedWay(look, look', d, last, ParentOf(names, p));
    FirstLookup(mixed, wd, sector, names, path, d);
    if GoesUp(p) {
      MixedSteps(look, look', d, last, WayUp(names, p), 0);
      WayUpSteps(mixed, look', names, p);
    }
    GetItemEither(mixed, look', wd, sector, names, path, d);
  }

  /** End to end, for every volume: Create_Item, and the next Get_Item for the same path. When the way up from the working
      directory, if the path goes up, loses nothing, the item is found exactly when it is stored under the name looked
      for, can be read in its directory, and no further directory on the way loses the next component. */
  lemma CreateThenGetIff(g: Geometry, v: VolumeState, wd: Text, sector: Entry, names: seq<Text>, path: Text,
                         item: NewItem, d: Entry, c: seq<nat>)
    requires PathNames(LookOf(g, v), wd, sector, names, path, d) && Creatable(g, v, d, c, item.(name := StoredFor(path)))
    requires LookOf(g, v)(d, LastOf(path)) == None
    requires WaySafe(g, v, names) && WaySafe(g, v, ParentOf(names, Parse(path)))
    requires NotHidden(g, v, d, DirSlots(g, v, d, c), ParentOf(names, Parse(path)), StoredFor(path))
    requires !WayDrops(g, v, d, DirSlots(g, v, d, c), WayUp(names, Parse(path)), 0)
    ensures Plain(wd)
    ensures var parent, es := ParentOf(names, Parse(path)), DirSlots(g, v, d, c);
            var e := item.(name := StoredFor(path)).At(ItemCluster(g, v));
            var r := CreateItem(g, v, wd, sector, path, item);
            && r.Some? && r.value.0 && r.value.1.Valid(g) && StartSector(e) == ItemCluster(g, v)
            && (ItemCluster(g, v) != 0 ==> v.table[ItemCluster(g, v)] == 0)
            && var o := GetItem(LookOf(g, r.value.1), wd, sector, path, [], 0, false);
               && (o.found <==> !SlashAndName(FullPath(path)) && NameThere(g, v, d, es)
                                && !WayDrops(g, v, d, es, parent, |WorkingDir.Base(names, Parse(path))|))
               && (o.found ==> o == Outcome(Some(e), Joined(parent + [LastOf(path)]), |parent| + 1, true))
  {
    hide Reaches, GetItem, CreateIn, LookOf, Parse, LooksUp, DotDots, NamesIn, ParentOf, IsName, CreateItem, Creatable,
         WaySafe, NotHidden, WayDrops, KeptFrom, LosesFrom, NameThere, InRootToo, SlashAndName, BuildEntry, Accepted, Agrees;
    var p, made, last := Parse(path), item.(name := StoredFor(path)), LastOf(path);
    var look, parent := LookOf(g, v), ParentOf(names, p);
    CreatedSome(g, v, d, c, made);
    CreatedParts(g, v, d, c, made);
    CreateItemIs(g, v, wd, sector, names, path, item, d);
    NewNameWasFree(look, names, path, d);
    FirstLookup(look, wd, sector, names, path, d);
    var w := CreateIn(g, v, d, c, made).value;
    CreatedLast(g, v, d, c, made, path, names);
    StepsAfterCreate(g, v, d, c, made, parent, |WorkingDir.Base(names, p)|);
    UpAfterCreate(g, v, d, c, made, names, p);
    LookupAfter(look, LookOf(g, w), wd, sector, names, path, d);
    var o := GetItem(LookOf(g, w), wd, sector, path, [], 0, false);
    if !LosesFrom(look, LookOf(g, w), parent, |WorkingDir.Base(names, p)|) {
      var mixed := Mixed(look, LookOf(g, w), d, last);
      if mixed(d, last).Some? {
        FoundItem(mixed, parent, d, last, o);
      } else {
        MissingItem(mixed, parent, d, last, o);
      }
    }
  }

  lemma CreatedParts(g: Geometry, v: VolumeState, d: Entry, c: seq<nat>, made: NewItem)
    requires Creatable(g, v, d, c, made)
    ensures v.Valid(g) && Accepted(made.name) && CreateIn(g, v, d, c, made).Some?
    ensures CreateAt(g, v, d, made) == Some((true, CreateIn(g, v, d, c, made).value))
    ensures var e := made.At(ItemCluster(g, v));
            StartSector(e) == ItemCluster(g, v) && (ItemCluster(g, v) != 0 ==> v.table[ItemCluster(g, v)] == 0)
  {
    hide CreateIn, LookOf, HeapOk;
    CreatedSome(g, v, d, c, made);
    BuiltFields(made.name, made.garbage, made.attribute, made.time, made.date, ItemCluster(g, v));
    if d != 0 {
      ChainOfIs(v.table, c);
    } else {
      RootChainIgnored(g, v, c, made);
    }
  }

  /** What the directory shows afterwards under the last component of the path. */
  lemma CreatedLast(g: Geometry, v: VolumeState, d: Entry, c: seq<nat>, made: NewItem, path: Text, names: seq<Text>)
    requires path != [] && NUL !in path && Parse(path).toks != [] && made.name == StoredFor(path)
    requires Creatable(g, v, d, c, made) && LookOf(g, v)(d, LastOf(path)) == None
    requires SlashAndName(FullPath(path)) ==> d == 0
    ensures var w := CreateIn(g, v, d, c, made);
            w.Some? &&
            LookOf(g, w.value)(d, LastOf(path)) ==
            if !SlashAndName(FullPath(path)) && NameThere(g, v, d, DirSlots(g, v, d, c))
            then Some(made.At(ItemCluster(g, v))) else None
  {
    hide LookOf, Parse, Creatable, SlashAndName, NameThere, CreateIn, Drops;
    CreatedSome(g, v, d, c, made);
    assert |[SLASH] + LastOf(path)| != |LastOf(path)|;
    CreatedLook(g, v, d, c, made, d, LastOf(path));
  }

  lemma UpAfterCreate(g: Geometry, v: VolumeState, d: Entry, c: seq<nat>, made: NewItem, names: seq<Text>, p: Parsed)
    requires Creatable(g, v, d, c, made) && NamesItem(names, p) && GoodNames(ParentOf(names, p))
    requires Reaches(LookOf(g, v), ParentOf(names, p)).Some? && WaySafe(g, v, ParentOf(names, p))
    requires LookOf(g, v)(d, made.name) == None || SLASH in made.name
    requires NotHidden(g, v, d, DirSlots(g, v, d, c), ParentOf(names, p), made.name)
    requires !WayDrops(g, v, d, DirSlots(g, v, d, c), WayUp(names, p), 0)
    ensures var w := CreateIn(g, v, d, c, made);
            && w.Some? && w.value.Valid(g) && Reaches(LookOf(g, v), WayUp(names, p)).Some?
            && KeptFrom(LookOf(g, v), LookOf(g, w.value), WayUp(names, p), 0)
            && !LosesFrom(LookOf(g, v), LookOf(g, w.value), WayUp(names, p), 0)
  {
    hide LookOf, Creatable, CreateIn, SafeDir, Drops, InRootToo, Reaches;
    CreatedSome(g, v, d, c, made);
    var up, parent := WayUp(names, p), ParentOf(names, p);
    assert up == parent[..|up|];
    assert forall k | 0 <= k <= |up| :: up[..k] == parent[..k];
    ReachesPrefix(LookOf(g, v), parent, |up|);
    assert GoodNames(up) && WaySafe(g, v, up) && NotHidden(g, v, d, DirSlots(g, v, d, c), up, made.name);
    StepsAfterCreate(g, v, d, c, made, up, 0);
  }
}
