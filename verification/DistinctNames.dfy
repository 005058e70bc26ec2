/** Whether Create_Item keeps the live names of a directory distinct. It looks for the last component of the path, but
    may store that name with a slash in front, and may give a sector of the root to the first one as well. */
module DistinctNames {
  import opened Fat12Types
  import opened Chains
  import opened FatHeap
  import opened ItemData
  import opened Names
  import opened Directories
  import opened DirectoryItems
  import opened CreateLimits
  import opened PathTexts
  import opened Paths
  import opened WorkingDir
  import opened VolumeTree
  import opened ItemLookup
  import opened ItemCalls

  // ----- slots -----

  lemma FilledDistinctIff(es: seq<DirEntry>, k: nat, name: Text, e: DirEntry)
    requires LiveDistinct(es) && k < |es| && !Live(es[k]) && Shows(e, name)
    ensures LiveDistinct(es[k := e]) <==> !ShownFrom(es, name, 0)
  {
    hide Display, Live;
    var es' := es[k := e];
    assert es'[k] == e;
    if h :| 0 <= h < |es| && Shows(es[h], name) {
      assert es'[h] == es[h];
      assert h < k ==> !LiveDistinct(es');
    }
  }

  /** first takes the place of the first sector. */
  lemma ReplacedDistinctIff(es: seq<DirEntry>, first: seq<DirEntry>)
    requires LiveDistinct(es) && |first| == SLOTS <= |es| && LiveDistinct(first)
    ensures LiveDistinct(first + es[SLOTS..]) <==>
            forall i | 0 <= i < SLOTS && Live(first[i]) :: !ShownFrom(es, Display(first[i]), SLOTS)
  {
    hide Display, Live;
    var es' := first + es[SLOTS..];
    assert forall h | SLOTS <= h < |es| :: es'[h] == es[h];
    assert forall h | 0 <= h < SLOTS :: es'[h] == first[h];
    if i :| 0 <= i < SLOTS && Live(first[i]) && ShownFrom(es, Display(first[i]), SLOTS) {
      var h :| SLOTS <= h < |es| && Shows(es[h], Display(first[i]));
      assert Live(es'[i]) && Live(es'[h]) && Display(es'[i]) == Display(es'[h]);
    }
  }

  lemma AloneDistinctIff(es: seq<DirEntry>, name: Text, e: DirEntry)
    requires LiveDistinct(es) && |es| >= SLOTS && Shows(e, name)
    ensures LiveDistinct(SlotsOf([Padded(e)]) + es[SLOTS..]) <==> !ShownFrom(es, name, SLOTS)
  {
    hide Display, Live, Padded, SlotsOf;
    var first := SlotsOf([Padded(e)]);
    assert |first| == SLOTS by {
      WholeSectors([Padded(e)]);
    }
    forall i | 0 <= i < SLOTS ensures if i == 0 then first[i] == e else !Live(first[i]) {
      AloneInSector(e, i);
    }
    assert Live(first[0]) && Display(first[0]) == name;
    ReplacedDistinctIff(es, first);
  }

  /** The sector of slot k, with e in that slot, stands in place of the first sector and in its own. */
  lemma CopiedDistinctIff(es: seq<DirEntry>, k: nat, name: Text, e: DirEntry)
    requires LiveDistinct(es) && SLOTS <= k < |es| && |es| % SLOTS == 0 && !Live(es[k]) && Shows(e, name)
    ensures LiveDistinct(RootAfter(es, k, e)) <==> !ShownFrom(es, name, SLOTS) && !OthersInSector(es, k)
  {
    hide Display, Live, LiveDistinct;
    var at := SLOTS * (k / SLOTS);
    var first := es[k := e][at..at + SLOTS];
    assert forall i | 0 <= i < SLOTS :: first[i] == if at + i == k then e else es[at + i];
    assert first[k - at] == e;
    if ShownFrom(es, name, SLOTS) {
      var h :| SLOTS <= h < |es| && Shows(es[h], name);
      CopyShown(es, first, k - at, h);
    } else if OthersInSector(es, k) {
      var h :| at <= h < |es| && h < at + SLOTS && h != k && Live(es[h]);
      assert first[h - at] == es[h];
      CopyShown(es, first, h - at, h);
    } else {
      LoneInFirst(es, first, k, name, e);
    }
  }

  lemma LoneInFirst(es: seq<DirEntry>, first: seq<DirEntry>, k: nat, name: Text, e: DirEntry)
    requires LiveDistinct(es) && k < |es| && |es| >= SLOTS && Shows(e, name)
    requires SLOTS * (k / SLOTS) + SLOTS <= |es|
    requires first == es[k := e][SLOTS * (k / SLOTS)..SLOTS * (k / SLOTS) + SLOTS]
    requires !ShownFrom(es, name, SLOTS) && !OthersInSector(es, k)
    ensures LiveDistinct(first + es[SLOTS..])
  {
    hide Display, Live;
    var at := SLOTS * (k / SLOTS);
    forall i | 0 <= i < SLOTS ensures first[i] == e || !Live(first[i]) {
      assert first[i] == if at + i == k then e else es[at + i];
    }
    assert forall i | 0 <= i < SLOTS && first[i] == e :: at + i == k || !Live(first[i]);
    ReplacedDistinctIff(es, first);
  }

  lemma CopyShown(es: seq<DirEntry>, first: seq<DirEntry>, i: nat, h: nat)
    requires |first| == SLOTS && i < SLOTS <= h < |es|
    requires Live(first[i]) && Live(es[h]) && Display(first[i]) == Display(es[h])
    ensures !LiveDistinct(first + es[SLOTS..])
  {
    var es' := first + es[SLOTS..];
    assert es'[i] == first[i] && es'[h] == es[h];
  }

  // ----- directories -----

  /** The root shows some name twice after Create_Item. */
  ghost predicate Doubles(g: Geometry, v: VolumeState, es: seq<DirEntry>, name: Text)
    requires g.Valid()
  {
    var k := FirstDead(es);
    if !ClustersFound(g, v, es) then ShownFrom(es, name, SLOTS)
    else if Full(es) then false
    else if k < SLOTS then ShownFrom(es, name, 0)
    else ShownFrom(es, name, SLOTS) || OthersInSector(es, k)
  }

  lemma RootDistinctIff(g: Geometry, v: VolumeState, item: NewItem)
    requires v.Valid(g) && Accepted(item.name) && LiveDistinct(DirSlots(g, v, 0, []))
    requires Shows(item.At(ItemCluster(g, v)), item.name)
    ensures var w := CreateIn(g, v, 0, [], item);
            w.Some? && w.value.Valid(g) &&
            (LiveDistinct(DirSlots(g, w.value, 0, [])) <==> !Doubles(g, v, DirSlots(g, v, 0, []), item.name))
  {
    hide Display, CreateIn, BuildEntry, Accepted, SlotsOf, LiveDistinct, FindFree, RootArea;
    CreateInRootSlots(g, v, item);
    var es, e := DirSlots(g, v, 0, []), item.At(ItemCluster(g, v));
    var k := FirstDead(es);
    if !ClustersFound(g, v, es) {
      AloneDistinctIff(es, item.name, e);
    } else if Full(es) {
    } else if k < SLOTS {
      RootAfterFirst(es, k, e);
      FilledDistinctIff(es, k, item.name, e);
    } else {
      CopiedDistinctIff(es, k, item.name, e);
    }
  }

  lemma CutDistinct(es: seq<DirEntry>, k: nat, name: Text, e: DirEntry, m: nat)
    requires LiveDistinct(es) && k < m <= |es| && !Live(es[k]) && Shows(e, name) && Resolve(es, name) == None
    ensures LiveDistinct(es[k := e][..m])
  {
    hide Display, Live;
    ShownIsResolved(es, name);
    FilledDistinctIff(es, k, name, e);
  }

  lemma FirstDistinct(sectors: seq<Sector>, less: seq<Sector>)
    requires sectors != [] && LiveDistinct(SlotsOf(sectors))
    requires less == [sectors[0]] || less == [sectors[0], ZeroSector()]
    ensures LiveDistinct(SlotsOf(less))
  {
    hide Display;
    var es, es' := SlotsOf(sectors), SlotsOf(less);
    forall i | 0 <= i < |es'| ensures if i < SLOTS then es'[i] == es[i] else !Live(es'[i]) {
      if i >= SLOTS {
        assert es'[i] == Slot(ZeroSector(), i - SLOTS);
        assert es'[i][0] == ZeroSector()[32 * (i - SLOTS)];
      }
    }
  }

  /** A subdirectory keeps its names distinct, whatever the searches for clusters find. */
  lemma SubdirectoryStaysDistinct(g: Geometry, v: VolumeState, dir: Entry, c: seq<nat>, item: NewItem)
    requires v.Valid(g) && DirChain(g, v, dir, c) && Accepted(item.name)
    requires LiveDistinct(DirSlots(g, v, dir, c)) && Resolve(DirSlots(g, v, dir, c), item.name) == None
    requires Shows(item.At(ItemCluster(g, v)), item.name)
    ensures var w := CreateIn(g, v, dir, c, item);
            w.Some? && w.value.Valid(g) && HasChain(w.value.table, dir)
            && LiveDistinct(DirSlots(g, w.value, dir, ChainOf(w.value.table, dir)))
  {
    hide Display, Live, CreateIn, BuildEntry, FirstDead, Accepted, LiveDistinct, Resolve, StoreSlot, Contents, SlotsOf,
         Allocated;
    var es := DirSlots(g, v, dir, c);
    if !Full(es) {
      var k, e := FirstDead(es), item.At(ItemCluster(g, v));
      CreateIsSlot(g, v, dir, c, item);
      AllocatedKeeps(g, v, c);
      StoreSlotOnChain(g, Allocated(g, v).value, dir, c, k, e);
      ChainOfIs(CreateIn(g, v, dir, c, item).value.table, c[..k / SLOTS + 1]);
      CutDistinct(es, k, item.name, e, SLOTS * (k / SLOTS + 1));
    } else if RoomFor(g, v, es) {
      CreateWithRoomIff(g, v, dir, c, item);
      ChainOfIs(CreateIn(g, v, dir, c, item).value.table, ChainAfterCreate(g, v, dir, c));
    } else {
      var less := NoRoomSectors(g, v, dir, c, item);
      FirstContents(g, v.disk, c);
      FirstDistinct(Contents(g, v.disk, c), less);
    }
  }

  // ----- the whole call -----

  /** The slots of directory d, read by the chain that starts there. */
  ghost predicate NamesDistinct(g: Geometry, v: VolumeState, d: Entry)
    requires v.Valid(g)
  {
    var c := ChainFor(v.table, d);
    c.Some? && LiveDistinct(DirSlots(g, v, d, c.value))
  }

  /** Create_Item for an item that is not there keeps the names of the parent directory distinct in every subdirectory.
      In the root it does exactly when nothing is shown twice; with a cluster for the item and a dead slot in the first
      sector that is, unless the path is a slash and one component whose name is stored already, with its slash. */
  lemma CreateKeepsDistinctIff(g: Geometry, v: VolumeState, wd: Text, sector: Entry, names: seq<Text>, path: Text,
                               item: NewItem, d: Entry, c: seq<nat>)
    requires v.Valid(g) && PathNames(LookOf(g, v), wd, sector, names, path, d) && LookOf(g, v)(d, LastOf(path)) == None
    requires Accepted(StoredFor(path)) && Shows(item.(name := StoredFor(path)).At(ItemCluster(g, v)), StoredFor(path))
    requires (d != 0 ==> DirChain(g, v, d, c)) && NamesDistinct(g, v, d)
    ensures Plain(wd)
    ensures var r := CreateItem(g, v, wd, sector, path, item);
            var es, last := DirSlots(g, v, d, c), LastOf(path);
            && r.Some? && r.value.0 && r.value.1.Valid(g)
            && (NamesDistinct(g, r.value.1, d) <==> d != 0 || !Doubles(g, v, es, StoredFor(path)))
            && (d == 0 && ItemCluster(g, v) != 0 && FirstDead(es) < SLOTS ==>
                  (NamesDistinct(g, r.value.1, d) <==>
                   !(SlashAndName(FullPath(path)) && Resolve(es, [SLASH] + last).Some?)))
  {
    hide Display, Live, CreateIn, BuildEntry, FirstDead, Accepted, LiveDistinct, Resolve, SlotsOf, CreateItem, Parse,
         SlashAndName, FullPath, Reaches, NamesItem, ParentOf, FindFree, IsName;
    var made := item.(name := StoredFor(path));
    CreateItemIs(g, v, wd, sector, names, path, item, d);
    NewNameWasFree(LookOf(g, v), names, path, d);
    LookAt(g, v, d, c, made.name);
    LookAt(g, v, d, c, LastOf(path));
    if d != 0 {
      ChainOfIs(v.table, c);
      SubdirectoryStaysDistinct(g, v, d, c, made);
    } else {
      RootChainIgnored(g, v, c, made);
      RootDistinctIff(g, v, made);
      ShownIsResolved(DirSlots(g, v, 0, []), made.name);
    }
  }
}
