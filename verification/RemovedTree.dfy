/** The tree of names after Remove_Item in the root, and what the next Get_Item and the caller's working directory come
    to. */
module RemovedTree {
  import opened Fat12Types
  import opened Chains
  import opened FatHeap
  import opened ItemData
  import opened Names
  import opened Directories
  import opened DirectoryItems
  import opened CreateLimits
  import opened DirectoryCode
  import opened FirstSector
  import opened PathTexts
  import opened Paths
  import opened WorkingDir
  import opened VolumeTree
  import opened ItemLookup
  import opened ItemCalls

  // ----- Remove_Item and the next Get_Item -----

  /** End to end, for an item of the root and any caller, one whose own directory is removed included: Remove_Item runs
      to its end, and the next Get_Item for the same path finds an item of that name exactly when the entry removed was
      in a later root sector, or another entry shows the name. */
  lemma RemoveThenGetIff(g: Geometry, v: VolumeState, wd: Text, sector: Entry, names: seq<Text>, path: Text, e: DirEntry)
    requires v.Valid(g) && InRange(v.table)
    requires PathNames(LookOf(g, v), wd, sector, names, path, 0) && ParentOf(names, Parse(path)) == []
    requires LookOf(g, v)(0, LastOf(path)) == Some(e) && StartSector(e) < TABLE_SIZE
    requires IsDirectory(e) ==> EmptyAt(g, v, StartSector(e))
    ensures Plain(wd)
    ensures var r := RemoveItem(g, v, wd, sector, path);
            var es, last := DirSlots(g, v, 0, []), LastOf(path);
            && r.Some? && r.value.0 && r.value.1.Valid(g)
            && (GetItem(LookOf(g, r.value.1), wd, sector, path, [], 0, false).found <==>
                Find(es, last) >= SLOTS || ShownFrom(es, last, Find(es, last) + 1))
  {
    hide Reaches, GetItem, RemoveIn, LookOf, Parse, LooksUp, NamesItem, ParentOf, Resolve, IsName, RemoveItem,
         FirstEqual, Find, DirSlots;
    var last := LastOf(path);
    RemoveItemIff(g, v, wd, sector, names, path, 0, e);
    LookAt(g, v, 0, [], last);
    RemoveInRootIff(g, v, last);
    RootEntryEqual(DirSlots(g, v, 0, []), last);
    var w := RemoveIn(g, v, 0, [], e).value;
    assert RemoveAt(g, v, 0, e) == Some((true, w));
    LookAt(g, w, 0, [], last);
    AgreeingIsKept(LookOf(g, v), wd, sector, names);
    RootLookup(LookOf(g, w), wd, sector, names, path);
    var o := GetItem(LookOf(g, w), wd, sector, path, [], 0, false);
    if LookOf(g, w)(0, last).Some? {
      FoundItem(LookOf(g, w), [], 0, last, o);
    } else {
      MissingItem(LookOf(g, w), [], 0, last, o);
    }
  }

  lemma RootEntryEqual(es: seq<DirEntry>, name: Text)
    requires Resolve(es, name).Some?
    ensures FirstEqual(es, Resolve(es, name).value) < |es|
  {
    EqualFindsItself(es, name);
  }

  /** After one Create_Item in a root whose first dead slot is in a later sector, with another live slot there, removing
      the name of that slot leaves it found. */
  lemma CreateThenRemoveKeepsName(g: Geometry, v: VolumeState, item: NewItem, h: nat)
    requires v.Valid(g) && InRange(v.table) && Accepted(item.name) && ClustersFound(g, v, DirSlots(g, v, 0, []))
    requires var es := DirSlots(g, v, 0, []);
             SLOTS <= FirstDead(es) < |es| && h < |es| && h / SLOTS == FirstDead(es) / SLOTS && h != FirstDead(es)
             && Live(es[h])
    requires forall e | Live(e) && e in DirSlots(g, v, 0, []) + [item.At(ItemCluster(g, v))] :: StartSector(e) < TABLE_SIZE
    ensures var n := Display(DirSlots(g, v, 0, [])[h]);
            var w := CreateIn(g, v, 0, [], item);
            && w.Some? && w.value.Valid(g) && Resolve(DirSlots(g, w.value, 0, []), n).Some?
            && var u := RemoveIn(g, w.value, 0, [], Resolve(DirSlots(g, w.value, 0, []), n).value);
               u.Some? && u.value.Valid(g) && Resolve(DirSlots(g, u.value, 0, []), n).Some?
  {
    hide Display, Live, CreateIn, RemoveIn, BuildEntry, Accepted, SlotsOf, RootArea, FindFree, RootAfter, Resolve, Find;
    var es, e := DirSlots(g, v, 0, []), item.At(ItemCluster(g, v));
    var k, n := FirstDead(es), Display(es[h]);
    CreateInRootSlots(g, v, item);
    CreatedInRange(g, v, item);
    var w := CreateIn(g, v, 0, [], item).value;
    CopiedShowsTwice(es, k, e, h);
    var es' := DirSlots(g, w, 0, []);
    FoundSlot(es', n);
    CopiedSlots(es, k, e);
    RemoveInRootIff(g, w, n);
  }

  lemma FoundSlot(es: seq<DirEntry>, n: Text)
    requires Find(es, n) < |es|
    ensures Resolve(es, n) == Some(es[Find(es, n)]) && Live(es[Find(es, n)]) && es[Find(es, n)] in es
  {
  }

  lemma ResolvedAt(es: seq<DirEntry>, name: Text, e: DirEntry)
    requires Resolve(es, name) == Some(e)
    ensures Find(es, name) < |es| && es[Find(es, name)] == e
  {
  }

  lemma CopiedSlots(es: seq<DirEntry>, k: nat, e: DirEntry)
    requires k < |es| && |es| % SLOTS == 0
    ensures |RootAfter(es, k, e)| == |es| && forall x | x in RootAfter(es, k, e) :: x in es + [e]
  {
  }

  lemma CreatedInRange(g: Geometry, v: VolumeState, item: NewItem)
    requires v.Valid(g) && InRange(v.table) && Accepted(item.name) && ClustersFound(g, v, DirSlots(g, v, 0, []))
    requires !Full(DirSlots(g, v, 0, [])) && CreateIn(g, v, 0, [], item).Some?
    ensures InRange(CreateIn(g, v, 0, [], item).value.table)
  {
    hide Display, Live, FatImage, WriteItem, BuildEntry, Accepted, FirstDead, Allocated, StoreSlot;
    AllocatedIs(g, v);
    AllocatedRoot(g, v);
    var a := Allocated(g, v).value;
    assert InRange(a.table);
    RootStoreInRange(g, a, FirstDead(SlotsOf(RootArea(g, a))), item.At(ItemCluster(g, v)));
  }

  // ----- the working directory after Remove_Item -----

  /** Removing an item of the root leaves every chain that shares no cluster with it. */
  lemma RemoveInRootSpares(g: Geometry, v: VolumeState, name: Text, x: seq<nat>, y: seq<nat>)
    requires v.Valid(g) && InRange(v.table) && Find(DirSlots(g, v, 0, []), name) < |DirSlots(g, v, 0, [])|
    requires Chain(v.table, x) && x[0] == StartSector(DirSlots(g, v, 0, [])[Find(DirSlots(g, v, 0, []), name)])
    requires Chain(v.table, y) && Disjoint(y, x)
    ensures var es := DirSlots(g, v, 0, []);
            var w := RemoveIn(g, v, 0, [], es[Find(es, name)]);
            w.Some? && w.value.Valid(g) && Spared(g, v, w.value, y)
  {
    hide Display, Live, FatImage, StoreSlot, SlotsOf;
    var es := HomeSlots(g, v, 0);
    var k := Find(es, name);
    ChangeIsStore(g, v, 0, name, Delete);
    StoreSlotInRoot(g, v, k, Marked(es[k]));
    RootStoreInRange(g, v, k, Marked(es[k]));
    RootStoreSpares(g, v, k, Marked(es[k]), y);
    var u := StoreSlot(g, v, 0, RootArea(g, v), k, Marked(es[k])).value;
    assert forall i | 0 <= i < |x| :: u.table[x[i]] == v.table[x[i]];
    FreedChain(u.table, x);
    var w := u.(table := Freed(u.table, x[0]));
    SavedContents(g, w, y);
    SavedPlaces(g, w);
    forall h | 0 <= h < |y| ensures w.table[y[h]] == v.table[y[h]] {
      assert y[h] !in x;
    }
  }

  /** The names the root loses: the removed one, or, when its entry is in a later sector, those of the first sector; the
      removed one is then found as before. */
  ghost predicate RootDrops(es: seq<DirEntry>, name: Text, n: Text) {
    if Find(es, name) < SLOTS then n == name else Find(es, n) < SLOTS
  }

  lemma RemovedNames(es: seq<DirEntry>, name: Text, n: Text)
    requires LiveDistinct(es) && Find(es, name) < |es| && |es| % SLOTS == 0
    ensures var k := Find(es, name);
            Resolve(RootAfter(es, k, Marked(es[k])), n) == if RootDrops(es, name, n) then None else Resolve(es, n)
  {
    hide Display, Live, Find, LiveDistinct, Resolve, RootAfter;
    var k := Find(es, name);
    if k < SLOTS {
      RootAfterFirst(es, k, Marked(es[k]));
      MarkedResolves(es, name);
      OnlyOnce(es, name);
    } else {
      MarkedIsDead(es[k]);
      CopiedNames(es, k, Marked(es[k]), n);
    }
  }

  lemma OnlyOnce(es: seq<DirEntry>, name: Text)
    requires LiveDistinct(es) && Find(es, name) < |es|
    ensures !ShownFrom(es, name, Find(es, name) + 1)
  {
  }

  lemma RemovedLook(g: Geometry, v: VolumeState, last: Text, e: DirEntry, x: seq<nat>, s: Entry, n: Text)
    requires v.Valid(g) && HeapOk(v.table) && InRange(v.table) && LiveDistinct(DirSlots(g, v, 0, []))
    requires LookOf(g, v)(0, last) == Some(e) && Chain(v.table, x) && x[0] == StartSector(e) && SafeDir(v.table, x[0])
    requires SafeDir(v.table, s) && s != x[0]
    ensures var w := RemoveIn(g, v, 0, [], e);
            w.Some? && w.value.Valid(g) &&
            LookOf(g, w.value)(s, n) ==
            if s == 0 && RootDrops(DirSlots(g, v, 0, []), last, n) then None else LookOf(g, v)(s, n)
  {
    hide Display, Live, FatImage, RemoveIn, Find, HeapOk, HasPredecessor, LookOf, SlotsOf, LiveDistinct, Resolve,
         RootDrops, RootAfter;
    var es := DirSlots(g, v, 0, []);
    LookAt(g, v, 0, [], last);
    ResolvedAt(es, last, e);
    RemoveInRootSlots(g, v, last);
    var w := RemoveIn(g, v, 0, [], e).value;
    if s == 0 {
      LookAt(g, v, 0, [], n);
      LookAt(g, w, 0, [], n);
      RemovedNames(es, last, n);
    } else {
      var y := ChainOf(v.table, s);
      HeadsAreDisjoint(v.table, y, x);
      RemoveInRootSpares(g, v, last, x, y);
      SparedLook(g, v, w, s, y, n);
    }
  }

  /** No directory is entered further from the item's first cluster on the way. */
  ghost predicate WayApart(look: Look, names: seq<Text>, start: Entry) {
    forall k | 0 <= k < |names| :: Reaches(look, names[..k]) != Some(start)
  }

  /** So it is when the item is an empty directory, whatever the way. */
  lemma EmptyIsApart(g: Geometry, v: VolumeState, names: seq<Text>, start: Entry)
    requires v.Valid(g) && EmptyAt(g, v, start) && start != 0 && Reaches(LookOf(g, v), names).Some?
    ensures WayApart(LookOf(g, v), names, start)
  {
    hide LookOf, Reaches, Resolve, DirSlots;
    var c := ChainFor(v.table, start).value;
    forall k | 0 <= k < |names| ensures Reaches(LookOf(g, v), names[..k]) != Some(start) {
      if Step(LookOf(g, v), names, k) == start {
        LookAt(g, v, start, c, names[k]);
        NothingLive(DirSlots(g, v, start, c), names[k]);
        assert false;
      }
    }
  }

  lemma NothingLive(es: seq<DirEntry>, n: Text)
    requires NoneLiveFrom(es, 0)
    ensures Resolve(es, n) == None
  {
  }

  /** A step of the way is one that the root loses. */
  ghost predicate WayDropped(g: Geometry, v: VolumeState, names: seq<Text>, last: Text)
    requires v.Valid(g)
  {
    exists k :: 0 <= k < |names| && Reaches(LookOf(g, v), names[..k]) == Some(0)
                && RootDrops(DirSlots(g, v, 0, []), last, names[k])
  }

  /** After removing an item of the root, from whatever sector, a working directory still agrees with its sector exactly
      when the way there has no component that the root loses: the item, or, when its entry is in a later sector, an
      item of the first sector. */
  lemma RemoveThenAgreesIff(g: Geometry, v: VolumeState, wd: Text, sector: Entry, names: seq<Text>, last: Text,
                            e: DirEntry, x: seq<nat>)
    requires v.Valid(g) && HeapOk(v.table) && InRange(v.table) && LiveDistinct(DirSlots(g, v, 0, []))
    requires Agrees(LookOf(g, v), wd, sector, names) && WaySafe(g, v, names)
    requires LookOf(g, v)(0, last) == Some(e) && Chain(v.table, x) && x[0] == StartSector(e) && SafeDir(v.table, x[0])
    requires WayApart(LookOf(g, v), names, StartSector(e))
    ensures var w := RemoveIn(g, v, 0, [], e);
            w.Some? && w.value.Valid(g)
            && (Agrees(LookOf(g, w.value), wd, sector, names) <==> !WayDropped(g, v, names, last))
  {
    hide LookOf, RemoveIn, HeapOk, SafeDir, DirSlots, LiveDistinct, Find, Reaches, RootDrops;
    SafeRoot(v.table);
    RemovedLook(g, v, last, e, x, 0, last);
    var look, look' := LookOf(g, v), LookOf(g, RemoveIn(g, v, 0, [], e).value);
    forall k | 0 <= k < |names|
      ensures var s := Step(look, names, k);
              look'(s, names[k]) ==
              if s == 0 && RootDrops(DirSlots(g, v, 0, []), last, names[k]) then None else look(s, names[k])
    {
      var s := Step(look, names, k);
      assert Reaches(look, names[..k]).Some? ==> SafeDir(v.table, s);
      RemovedLook(g, v, last, e, x, s, names[k]);
    }
    WayIff(look, look', names);
    DroppedIsLost(g, v, look', names, last);
  }

  lemma DroppedIsLost(g: Geometry, v: VolumeState, look': Look, names: seq<Text>, last: Text)
    requires v.Valid(g) && Reaches(LookOf(g, v), names).Some?
    requires forall k | 0 <= k < |names| ::
               var s := Step(LookOf(g, v), names, k);
               look'(s, names[k]) ==
               if s == 0 && RootDrops(DirSlots(g, v, 0, []), last, names[k]) then None else LookOf(g, v)(s, names[k])
    ensures LosesFrom(LookOf(g, v), look', names, 0) <==> WayDropped(g, v, names, last)
  {
    hide LookOf, DirSlots, Reaches, RootDrops;
    if WayDropped(g, v, names, last) {
      var k :| 0 <= k < |names| && Reaches(LookOf(g, v), names[..k]) == Some(0)
               && RootDrops(DirSlots(g, v, 0, []), last, names[k]);
      assert Step(LookOf(g, v), names, k) == 0;
    }
  }
}
