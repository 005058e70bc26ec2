/** Sessions of one caller that moves, creates and removes: the directories stay a tree, and the working directory agrees
    with its sector. */
module TreeSessions {
  import opened Fat12Types
  import opened Chains
  import opened FatHeap
  import opened ItemData
  import opened Names
  import opened Directories
  import opened DirectoryItems
  import opened CreateLimits
  import opened DirectoryCode
  import opened FileWrite
  import opened FirstSector
  import opened PathTexts
  import opened Paths
  import opened WorkingDir
  import opened VolumeTree
  import opened ItemLookup
  import opened ItemCalls
  import opened RemovedTree
  import opened CreatedTree

  // ----- the tree -----

  /** A directory that can be reached from the root. */
  ghost predicate InTree(look: Look, s: Entry) {
    exists names :: Reaches(look, names) == Some(s)
  }

  /** A cluster in use that nothing links to. */
  ghost predicate Head(t: Table, x: Entry) {
    2 <= x < TABLE_SIZE && t[x] != 0 && !HasPredecessor(t, x)
  }

  /** Every entry of the tree starts at a cluster of its own. */
  ghost predicate Owned(look: Look, t: Table) {
    forall s: Entry, n: Text | InTree(look, s) && look(s, n).Some? :: Head(t, StartSector(look(s, n).value))
  }

  /** No two entries of the tree start at the same cluster; so no directory can be reached in two ways. */
  ghost predicate Apart(look: Look) {
    forall s: Entry, n: Text, s': Entry, n': Text |
      InTree(look, s) && InTree(look, s') && look(s, n).Some? && look(s', n').Some?
      && StartSector(look(s, n).value) == StartSector(look(s', n').value) ::
      s == s' && n == n'
  }

  ghost predicate TreeOk(g: Geometry, v: VolumeState) {
    && v.Valid(g) && HeapOk(v.table) && InRange(v.table) && LiveDistinct(DirSlots(g, v, 0, []))
    && Owned(LookOf(g, v), v.table) && Apart(LookOf(g, v))
  }

  lemma TreeValid(g: Geometry, v: VolumeState)
    requires TreeOk(g, v)
    ensures v.Valid(g)
  {
  }

  lemma RootInTree(look: Look)
    ensures InTree(look, 0)
  {
    assert Reaches(look, []) == Some(0);
  }

  lemma ChildInTree(look: Look, s: Entry, n: Text)
    requires InTree(look, s) && look(s, n).Some? && IsDirectory(look(s, n).value)
    ensures InTree(look, StartSector(look(s, n).value))
  {
    var names :| Reaches(look, names) == Some(s);
    ReachesStep(look, names, n);
    assert Reaches(look, names + [n]) == Some(StartSector(look(s, n).value));
  }

  /** A directory of the tree but the root is an entry's start, and safe. */
  lemma InTreeSafe(look: Look, t: Table, names: seq<Text>)
    requires Owned(look, t) && HeapOk(t) && Reaches(look, names).Some?
    ensures SafeDir(t, Reaches(look, names).value) && (Reaches(look, names) == Some(0) <==> names == [])
  {
    if names != [] {
      var m := |names| - 1;
      ReachesPrefix(look, names, m);
      var s := Reaches(look, names[..m]).value;
      assert InTree(look, s);
      assert Head(t, StartSector(look(s, names[m]).value));
    }
  }

  lemma TreeWaySafe(g: Geometry, v: VolumeState, names: seq<Text>)
    requires TreeOk(g, v)
    ensures WaySafe(g, v, names)
  {
    hide LookOf, SafeDir, HeapOk, Reaches, Owned, Apart;
    forall k | 0 <= k <= |names|
      ensures var s := Reaches(LookOf(g, v), names[..k]);
              s.Some? ==> SafeDir(v.table, s.value)
    {
      if Reaches(LookOf(g, v), names[..k]).Some? {
        InTreeSafe(LookOf(g, v), v.table, names[..k]);
      }
    }
  }

  // ----- creating -----

  /** The table after an item got cluster f: what was in use still is, and new links lead to clusters that were free. */
  ghost predicate Grown(t: Table, t': Table, f: nat) {
    && HeapOk(t') && InRange(t') && f < TABLE_SIZE && t[f] == 0 && t'[f] == LAST_SECTOR
    && (forall i | 2 <= i < TABLE_SIZE && t[i] != 0 :: t'[i] != 0)
    && (forall i | 2 <= i < TABLE_SIZE && !EndOfChain(t'[i]) :: t'[i] == t[i] || (t[t'[i]] == 0 && t'[i] != f))
  }

  lemma HeadsStay(t: Table, t': Table, f: nat, x: Entry)
    requires HeapOk(t) && Grown(t, t', f) && (Head(t, x) || (x == f && f >= 2))
    ensures Head(t', x)
  {
    if x == f {
      FreeHasNone(t, f);
    }
  }

  /** There is room for the item, on the disk and without losing a sector of the root. */
  ghost predicate Roomy(g: Geometry, v: VolumeState, d: Entry, es: seq<DirEntry>)
    requires g.Valid()
  {
    ItemCluster(g, v) != 0 && NameThere(g, v, d, es) && !RootLost(g, v, d, es)
  }

  lemma GrownBySeal(t: Table, t': Table, f: nat)
    requires HeapOk(t) && InRange(t') && 2 <= f < TABLE_SIZE && t[f] == 0
    requires forall i | 2 <= i < TABLE_SIZE :: t'[i] == Seal(t, f)[i]
    ensures Grown(t, t', f)
  {
    hide HeapOk;
    SealKeepsHeap(t, f);
    HeapIgnoresReserved(Seal(t, f), t');
  }

  lemma GrownBySealTwice(t: Table, f: nat, x: nat)
    requires HeapOk(t) && InRange(t) && 2 <= f < TABLE_SIZE && t[f] == 0 && 2 <= x < TABLE_SIZE
    ensures Grown(t, Seal(Seal(t, f), x), f)
  {
    hide HeapOk;
    SealKeepsHeap(t, f);
    SealKeepsHeap(Seal(t, f), x);
  }

  lemma GrownByExtend(t: Table, f: nat, d: nat, extra: nat)
    requires HeapOk(t) && InRange(t) && 2 <= f < TABLE_SIZE && t[f] == 0
    requires 2 <= d < TABLE_SIZE && t[d] != 0 && 2 <= extra < TABLE_SIZE && Seal(t, f)[extra] == 0
    ensures Grown(t, Extend(Seal(t, f), d, extra), f)
  {
    hide HeapOk;
    SealKeepsHeap(t, f);
    ExtendKeepsHeap(Seal(t, f), d, extra);
  }

  lemma CreatedTable(g: Geometry, v: VolumeState, d: Entry, c: seq<nat>, item: NewItem)
    requires Creatable(g, v, d, c, item) && InRange(v.table) && Roomy(g, v, d, DirSlots(g, v, d, c))
    ensures var w := CreateIn(g, v, d, c, item);
            w.Some? && w.value.Valid(g) && Grown(v.table, w.value.table, ItemCluster(g, v))
  {
    hide Display, Live, CreateIn, BuildEntry, Accepted, SlotsOf, HeapOk, LookOf, FirstDead, SafeDir, RootArea, Grown, InRange,
         CutAt, NoneLiveFrom;
    var es, f := DirSlots(g, v, d, c), ItemCluster(g, v);
    if d == 0 {
      RootChainIgnored(g, v, c, item);
      CreatedRootTable(g, v, item);
    } else {
      ChainSlots(g, v, d, c);
      NonZeroOn(v.table, c);
      if Full(es) {
        CreateInFull(g, v, d, c, item);
        GrownByExtend(v.table, f, d, ExtraCluster(g, v));
      } else {
        CreateInSlot(g, v, d, c, item);
        GrownBySealTwice(v.table, f, c[FirstDead(es) / SLOTS]);
      }
    }
  }

  lemma CreatedRootTable(g: Geometry, v: VolumeState, item: NewItem)
    requires v.Valid(g) && HeapOk(v.table) && InRange(v.table) && Accepted(item.name)
    requires ItemCluster(g, v) != 0 && FirstDead(DirSlots(g, v, 0, [])) < SLOTS
    ensures var w := CreateIn(g, v, 0, [], item);
            w.Some? && w.value.Valid(g) && Grown(v.table, w.value.table, ItemCluster(g, v))
  {
    hide Display, Live, CreateIn, BuildEntry, Accepted, SlotsOf, HeapOk, FirstDead, RootArea, StoreSlot, Allocated;
    CreateIsStore(g, v, 0, item);
    var a := Allocated(g, v).value;
    StoreFirst(g, a, 0, FirstDead(DirSlots(g, v, 0, [])), item.At(ItemCluster(g, v)));
    GrownBySeal(v.table, CreateIn(g, v, 0, [], item).value.table, ItemCluster(g, v));
  }

  /** A new directory is empty. */
  lemma NewClusterEmpty(g: Geometry, v: VolumeState, d: Entry, c: seq<nat>, item: NewItem, n: Text)
    requires Creatable(g, v, d, c, item) && ItemCluster(g, v) != 0
    ensures var w := CreateIn(g, v, d, c, item);
            w.Some? && w.value.Valid(g) && LookOf(g, w.value)(ItemCluster(g, v), n) == None
  {
    hide Display, Live, FatImage, WriteItem, BuildEntry, Accepted, FirstDead, Allocated, StoreSlot, AppendSector, SlotsOf,
         HeapOk, LookOf, SafeDir, Contents;
    CreatedSome(g, v, d, c, item);
    var f := ItemCluster(g, v);
    var a := Allocated(g, v).value;
    AllocatedWipes(g, v);
    PlaceSparesNew(g, v, d, c, item);
    var w := CreateIn(g, v, d, c, item).value;
    assert Chain(w.table, [f]);
    LookAt(g, w, f, [f], n);
    BlankNames(n);
  }

  /** The cluster is read as zeros, also when it is not on the disk. */
  lemma AllocatedWipes(g: Geometry, v: VolumeState)
    requires v.Valid(g) && ItemCluster(g, v) != 0
    ensures var a := Allocated(g, v);
            && a.Some? && a.value.Valid(g) && a.value.table[ItemCluster(g, v)] == LAST_SECTOR
            && Contents(g, a.value.disk, [ItemCluster(g, v)]) == [ZeroSector()]
  {
    hide Allocated;
    AllocatedAlways(g, v);
    AllocatedIs(g, v);
    if g.Lba(ItemCluster(g, v)) < |v.disk| {
      WipedCluster(g, v);
    }
  }

  lemma PlaceSparesNew(g: Geometry, v: VolumeState, d: Entry, c: seq<nat>, item: NewItem)
    requires v.Valid(g) && (d != 0 ==> DirChain(g, v, d, c)) && Accepted(item.name) && ItemCluster(g, v) != 0
    ensures var w := CreateIn(g, v, d, c, item);
            var one := [ItemCluster(g, v)];
            && w.Some? && w.value.Valid(g) && w.value.table[one[0]] == LAST_SECTOR
            && Contents(g, w.value.disk, one) == [ZeroSector()]
  {
    hide Display, Live, FatImage, WriteItem, BuildEntry, Accepted, FirstDead, Allocated, StoreSlot, AppendSector, SlotsOf,
         Contents, RootArea, FindFree;
    var f, e := ItemCluster(g, v), item.At(ItemCluster(g, v));
    var one := [f];
    AllocatedWipes(g, v);
    AllocatedAlways(g, v);
    var a := Allocated(g, v).value;
    assert Chain(a.table, one);
    if d == 0 {
      PlaceFrameInRoot(g, a, e, one);
      RootChainIgnored(g, v, c, item);
    } else {
      AllocatedKeeps(g, v, c);
      NonZeroOn(v.table, c);
      ItemClusterApart(g, v, c);
      if Full(DirSlots(g, v, d, c)) {
        CreateEndsFull(g, v, d, c, item);
        AppendedContents(g, a, d, e, one);
      } else {
        CreateIsSlot(g, v, d, c, item);
        CreateEndsInSlot(g, v, d, c, item);
        StoreFrame(g, a, d, c, FirstDead(DirSlots(g, v, d, c)), e, one);
      }
    }
  }

  // ----- the tree after Create_Item -----

  /** The new tree against the old one: the new entry e under name in d, everything else kept or gone, and nothing in the
      new entry's own cluster. */
  ghost predicate OneMore(look: Look, look': Look, d: Entry, name: Text, e: DirEntry) {
    && (forall s: Entry, n: Text | InTree(look, s) ::
          if s == d && n == name then look'(s, n) == Some(e) else look'(s, n) == look(s, n) || look'(s, n) == None)
    && (forall n: Text :: look'(StartSector(e), n) == None)
  }

  lemma {:induction false} ReachedAfter(look: Look, look': Look, d: Entry, name: Text, e: DirEntry, names: seq<Text>)
    requires OneMore(look, look', d, name, e) && Reaches(look', names).Some?
    ensures var s := Reaches(look', names).value;
            InTree(look, s) || s == StartSector(e)
    decreases |names|
  {
    if names == [] {
      RootInTree(look);
    } else {
      var m := |names| - 1;
      ReachesPrefix(look', names, m);
      ReachedAfter(look, look', d, name, e, names[..m]);
      var s := Reaches(look', names[..m]).value;
      if InTree(look, s) && !(s == d && names[m] == name) {
        ChildInTree(look, s, names[m]);
      }
    }
  }

  /** Every entry of the new tree is the new one or one of the old tree. */
  lemma EntryAfter(look: Look, look': Look, d: Entry, name: Text, e: DirEntry, s: Entry, n: Text)
    requires OneMore(look, look', d, name, e) && InTree(look', s) && look'(s, n).Some?
    ensures InTree(look, s)
    ensures if s == d && n == name then look'(s, n) == Some(e) else look(s, n) == look'(s, n)
  {
    var names :| Reaches(look', names) == Some(s);
    ReachedAfter(look, look', d, name, e, names);
  }

  lemma OneMoreOwned(look: Look, look': Look, t: Table, t': Table, d: Entry, name: Text, e: DirEntry)
    requires OneMore(look, look', d, name, e) && Owned(look, t) && HeapOk(t) && Grown(t, t', StartSector(e))
    requires StartSector(e) >= 2
    ensures Owned(look', t')
  {
    hide HeapOk, Grown, OneMore, Head;
    forall s: Entry, n: Text | InTree(look', s) && look'(s, n).Some?
      ensures Head(t', StartSector(look'(s, n).value))
    {
      EntryAfter(look, look', d, name, e, s, n);
      HeadsStay(t, t', StartSector(e), StartSector(look'(s, n).value));
    }
  }

  lemma OneMoreApart(look: Look, look': Look, t: Table, d: Entry, name: Text, e: DirEntry)
    requires OneMore(look, look', d, name, e) && Owned(look, t) && Apart(look)
    requires StartSector(e) < TABLE_SIZE && t[StartSector(e)] == 0
    ensures Apart(look')
  {
    hide OneMore;
    forall s: Entry, n: Text, s': Entry, n': Text |
      InTree(look', s) && InTree(look', s') && look'(s, n).Some? && look'(s', n').Some?
      && StartSector(look'(s, n).value) == StartSector(look'(s', n').value)
      ensures s == s' && n == n'
    {
      EntryAfter(look, look', d, name, e, s, n);
      EntryAfter(look, look', d, name, e, s', n');
    }
  }

  lemma CreatedOneMore(g: Geometry, v: VolumeState, d: Entry, c: seq<nat>, item: NewItem)
    requires TreeOk(g, v) && Creatable(g, v, d, c, item) && Roomy(g, v, d, DirSlots(g, v, d, c)) && InTree(LookOf(g, v), d)
    requires LookOf(g, v)(d, item.name) == None
    ensures var w := CreateIn(g, v, d, c, item);
            var e := item.At(ItemCluster(g, v));
            && w.Some? && w.value.Valid(g) && StartSector(e) == ItemCluster(g, v) >= 2
            && OneMore(LookOf(g, v), LookOf(g, w.value), d, item.name, e)
  {
    hide LookOf, HeapOk, SafeDir, Creatable, CreateIn, BuildEntry, Accepted, DirSlots, Owned, Apart, NameThere, InRange,
         Drops;
    CreatedSome(g, v, d, c, item);
    BuiltFields(item.name, item.garbage, item.attribute, item.time, item.date, ItemCluster(g, v));
    var look, look' := LookOf(g, v), LookOf(g, CreateIn(g, v, d, c, item).value);
    forall s: Entry, n: Text | InTree(look, s)
      ensures if s == d && n == item.name then look'(s, n) == Some(item.At(ItemCluster(g, v)))
              else look'(s, n) == look(s, n) || look'(s, n) == None
    {
      var names :| Reaches(look, names) == Some(s);
      InTreeSafe(look, v.table, names);
      CreatedLook(g, v, d, c, item, s, n);
    }
    forall n: Text ensures look'(ItemCluster(g, v), n) == None {
      NewClusterEmpty(g, v, d, c, item, n);
    }
  }

  lemma CreatedRootDistinct(g: Geometry, v: VolumeState, d: Entry, c: seq<nat>, item: NewItem)
    requires Creatable(g, v, d, c, item) && Roomy(g, v, d, DirSlots(g, v, d, c)) && LiveDistinct(DirSlots(g, v, 0, []))
    requires LookOf(g, v)(d, item.name) == None
    ensures var w := CreateIn(g, v, d, c, item);
            w.Some? && w.value.Valid(g) && LiveDistinct(DirSlots(g, w.value, 0, []))
  {
    hide Display, Live, CreateIn, BuildEntry, Accepted, SlotsOf, HeapOk, LookOf, FirstDead, SafeDir, RootArea, Resolve,
         LiveDistinct;
    var es := DirSlots(g, v, 0, []);
    if d == 0 {
      RootChainIgnored(g, v, c, item);
      LookAt(g, v, 0, [], item.name);
      CreateInRootSlots(g, v, item);
      RootAfterFirst(es, FirstDead(es), item.At(ItemCluster(g, v)));
      InsertResolves(es, FirstDead(es), item.At(ItemCluster(g, v)));
    } else if Full(DirSlots(g, v, d, c)) {
      CreateEndsFull(g, v, d, c, item);
    } else {
      CreateEndsInSlot(g, v, d, c, item);
    }
  }

  /** Creating where there is room keeps the tree. */
  lemma CreateKeepsTree(g: Geometry, v: VolumeState, d: Entry, c: seq<nat>, item: NewItem)
    requires TreeOk(g, v) && Creatable(g, v, d, c, item) && Roomy(g, v, d, DirSlots(g, v, d, c)) && InTree(LookOf(g, v), d)
    requires LookOf(g, v)(d, item.name) == None
    ensures var w := CreateIn(g, v, d, c, item);
            w.Some? && TreeOk(g, w.value)
  {
    hide LookOf, HeapOk, SafeDir, Creatable, CreateIn, BuildEntry, Accepted, DirSlots, Owned, Apart, InRange, LiveDistinct,
         OneMore, FindFree;
    CreatedSome(g, v, d, c, item);
    CreatedTable(g, v, d, c, item);
    CreatedOneMore(g, v, d, c, item);
    CreatedRootDistinct(g, v, d, c, item);
    var w, e := CreateIn(g, v, d, c, item).value, item.At(ItemCluster(g, v));
    OneMoreOwned(LookOf(g, v), LookOf(g, w), v.table, w.table, d, item.name, e);
    OneMoreApart(LookOf(g, v), LookOf(g, w), v.table, d, item.name, e);
  }

  // ----- the tree after Remove_Item -----

  /** The new tree against the old one: the root's entry last is gone, and all other directories but the one that started
      at its cluster are as before. */
  ghost predicate OneLess(look: Look, look': Look, last: Text, start: Entry) {
    && look'(0, last) == None && look(0, last).Some? && StartSector(look(0, last).value) == start != 0
    && forall s: Entry, n: Text | InTree(look, s) && s != start && !(s == 0 && n == last) :: look'(s, n) == look(s, n)
  }

  lemma {:induction false} ReachedWithout(look: Look, look': Look, last: Text, start: Entry, names: seq<Text>)
    requires OneLess(look, look', last, start) && Apart(look) && Reaches(look', names).Some?
    ensures var s := Reaches(look', names).value;
            InTree(look, s) && s != start
    decreases |names|
  {
    RootInTree(look);
    if names != [] {
      var m := |names| - 1;
      ReachesPrefix(look', names, m);
      ReachedWithout(look, look', last, start, names[..m]);
      var s := Reaches(look', names[..m]).value;
      assert !(s == 0 && names[m] == last);
      ChildInTree(look, s, names[m]);
    }
  }

  lemma EntryWithout(look: Look, look': Look, last: Text, start: Entry, s: Entry, n: Text)
    requires OneLess(look, look', last, start) && Apart(look) && InTree(look', s) && look'(s, n).Some?
    ensures InTree(look, s) && look(s, n) == look'(s, n) && StartSector(look(s, n).value) != start
  {
    RootInTree(look);
    var names :| Reaches(look', names) == Some(s);
    ReachedWithout(look, look', last, start, names);
  }

  /** The table after the chain x was freed. */
  ghost predicate Shrunk(t: Table, t': Table, x: seq<nat>) {
    HeapOk(t') && InRange(t') && forall i | 2 <= i < TABLE_SIZE :: t'[i] == if i in x then 0 else t[i]
  }

  lemma HeadsOutside(t: Table, t': Table, x: seq<nat>, y: Entry)
    requires Chain(t, x) && Shrunk(t, t', x) && Head(t, y) && y != x[0]
    ensures Head(t', y)
  {
    hide HeapOk, InRange;
    if y in x {
      var p := LinkedFrom(t, x, y);
      assert false;
    }
    forall p | 2 <= p < TABLE_SIZE && !EndOfChain(t'[p]) ensures t'[p] != y {
      assert t'[p] == t[p];
    }
  }

  lemma OneLessTree(look: Look, look': Look, t: Table, t': Table, last: Text, x: seq<nat>)
    requires Chain(t, x) && x[0] < 0x1_0000 && OneLess(look, look', last, x[0]) && Shrunk(t, t', x)
    requires Owned(look, t) && Apart(look)
    ensures Owned(look', t') && Apart(look')
  {
    hide OneLess, Shrunk, Head, Apart;
    forall s: Entry, n: Text | InTree(look', s) && look'(s, n).Some?
      ensures Head(t', StartSector(look'(s, n).value))
    {
      EntryWithout(look, look', last, x[0], s, n);
      HeadsOutside(t, t', x, StartSector(look'(s, n).value));
    }
    OneLessApart(look, look', last, x[0]);
  }

  lemma OneLessApart(look: Look, look': Look, last: Text, start: Entry)
    requires OneLess(look, look', last, start) && Apart(look)
    ensures Apart(look')
  {
    hide OneLess;
    forall s: Entry, n: Text, s': Entry, n': Text |
      InTree(look', s) && InTree(look', s') && look'(s, n).Some? && look'(s', n').Some?
      && StartSector(look'(s, n).value) == StartSector(look'(s', n').value)
      ensures s == s' && n == n'
    {
      EntryWithout(look, look', last, start, s, n);
      EntryWithout(look, look', last, start, s', n');
    }
  }

  lemma RemovedTable(g: Geometry, v: VolumeState, last: Text, e: DirEntry, x: seq<nat>)
    requires v.Valid(g) && HeapOk(v.table) && InRange(v.table) && LookOf(g, v)(0, last) == Some(e)
    requires Chain(v.table, x) && x[0] == StartSector(e) && Head(v.table, x[0])
    ensures var w := RemoveIn(g, v, 0, [], e);
            w.Some? && w.value.Valid(g) && Shrunk(v.table, w.value.table, x)
  {
    hide Display, Live, FatImage, StoreSlot, SlotsOf, HeapOk, FirstEqual, Find;
    LookAt(g, v, 0, [], last);
    var es := HomeSlots(g, v, 0);
    var k := Find(es, last);
    ResolvedAt(es, last, e);
    ChangeIsStore(g, v, 0, last, Delete);
    StoreSlotInRoot(g, v, k, Marked(e));
    RootStoreInRange(g, v, k, Marked(e));
    var u := StoreSlot(g, v, 0, RootArea(g, v), k, Marked(e)).value;
    FreedHead(v.table, u.table, x);
  }

  lemma FreedHead(t: Table, u: Table, x: seq<nat>)
    requires HeapOk(t) && InRange(u) && forall i | 2 <= i < TABLE_SIZE :: u[i] == t[i]
    requires Chain(t, x) && Head(t, x[0])
    ensures Chain(u, x) && Shrunk(t, Freed(u, x[0]), x)
  {
    hide HeapOk;
    HeapIgnoresReserved(t, u);
    assert Chain(u, x) && !HasPredecessor(u, x[0]);
    FreedChain(u, x);
    FreeKeepsHeapIffHead(u, x);
  }

  lemma RemovedOneLess(g: Geometry, v: VolumeState, last: Text, e: DirEntry, x: seq<nat>)
    requires TreeOk(g, v) && LookOf(g, v)(0, last) == Some(e) && Find(DirSlots(g, v, 0, []), last) < SLOTS
    requires Chain(v.table, x) && x[0] == StartSector(e) && SafeDir(v.table, x[0])
    ensures var w := RemoveIn(g, v, 0, [], e);
            w.Some? && w.value.Valid(g) && OneLess(LookOf(g, v), LookOf(g, w.value), last, StartSector(e))
  {
    hide LookOf, HeapOk, SafeDir, DirSlots, Owned, Apart, InRange, RemoveIn, Find;
    SafeRoot(v.table);
    RemovedLook(g, v, last, e, x, 0, last);
    var look, look' := LookOf(g, v), LookOf(g, RemoveIn(g, v, 0, [], e).value);
    forall s: Entry, n: Text | InTree(look, s) && s != StartSector(e) && !(s == 0 && n == last)
      ensures look'(s, n) == look(s, n)
    {
      var names :| Reaches(look, names) == Some(s);
      InTreeSafe(look, v.table, names);
      RemovedLook(g, v, last, e, x, s, n);
    }
  }

  lemma RemovedRootDistinct(g: Geometry, v: VolumeState, last: Text, e: DirEntry)
    requires v.Valid(g) && InRange(v.table) && LiveDistinct(DirSlots(g, v, 0, [])) && LookOf(g, v)(0, last) == Some(e)
    requires Find(DirSlots(g, v, 0, []), last) < SLOTS && StartSector(e) < TABLE_SIZE
    ensures var w := RemoveIn(g, v, 0, [], e);
            w.Some? && w.value.Valid(g) && LiveDistinct(DirSlots(g, w.value, 0, []))
  {
    hide Display, Live, RemoveIn, SlotsOf, RootArea, LookOf, Find, LiveDistinct;
    var es := DirSlots(g, v, 0, []);
    LookAt(g, v, 0, [], last);
    ResolvedAt(es, last, e);
    FoundSlot(es, last);
    RemoveInRootSlots(g, v, last);
    RootAfterFirst(es, Find(es, last), Marked(e));
    RemoveResolves(es, Find(es, last));
  }

  /** Removing an item of the first root sector keeps the tree. */
  lemma RemoveKeepsTree(g: Geometry, v: VolumeState, last: Text, e: DirEntry)
    requires TreeOk(g, v) && LookOf(g, v)(0, last) == Some(e) && Find(DirSlots(g, v, 0, []), last) < SLOTS
    ensures var w := RemoveIn(g, v, 0, [], e);
            w.Some? && TreeOk(g, w.value)
  {
    hide LookOf, SafeDir, DirSlots, InRange, RemoveIn, Find, LiveDistinct, OneLess, Apart, Shrunk;
    var x := ItemChain(g, v, last, e);
    RemovedTable(g, v, last, e, x);
    RemovedOneLess(g, v, last, e, x);
    RemovedRootDistinct(g, v, last, e);
    var w := RemoveIn(g, v, 0, [], e).value;
    OneLessTree(LookOf(g, v), LookOf(g, w), v.table, w.table, last, x);
    assert HeapOk(w.table) && InRange(w.table) by {
      ShrunkOk(v.table, w.table, x);
    }
  }

  lemma ShrunkOk(t: Table, t': Table, x: seq<nat>)
    requires Shrunk(t, t', x)
    ensures HeapOk(t') && InRange(t')
  {
  }

  lemma ItemChain(g: Geometry, v: VolumeState, last: Text, e: DirEntry) returns (x: seq<nat>)
    requires TreeOk(g, v) && LookOf(g, v)(0, last) == Some(e)
    ensures Chain(v.table, x) && x[0] == StartSector(e) && Head(v.table, x[0]) && SafeDir(v.table, x[0])
  {
    hide LookOf, DirSlots, LiveDistinct, InRange;
    RootInTree(LookOf(g, v));
    assert Head(v.table, StartSector(e));
    x := ChainOf(v.table, StartSector(e));
  }

  // ----- sessions -----

  datatype State = State(v: VolumeState, wd: Text, sector: Entry)

  datatype Call = MoveTo(path: Text) | MakeItem(path: Text, item: NewItem) | DropItem(path: Text)

  ghost predicate SessionOk(g: Geometry, s: State) {
    TreeOk(g, s.v) && exists names :: Agrees(LookOf(g, s.v), s.wd, s.sector, names)
  }

  /** The call as the code makes it. None: a null pointer is followed or the table is left. */
  ghost function Called(g: Geometry, s: State, call: Call): Option<State>
    requires s.v.Valid(g) && Plain(s.wd) && call.path != [] && NUL !in call.path
  {
    match call
    case MoveTo(path) =>
      var r := MoveToDir(LookOf(g, s.v), s.wd, s.sector, path);
      Some(State(s.v, r.1, r.2))
    case MakeItem(path, item) => Changed(s, CreateItem(g, s.v, s.wd, s.sector, path, item))
    case DropItem(path) => Changed(s, RemoveItem(g, s.v, s.wd, s.sector, path))
  }

  ghost function Changed(s: State, r: Option<(bool, VolumeState)>): Option<State> {
    match r
    case None => None
    case Some((_, w)) => Some(s.(v := w))
  }

  /** The item can be created: its name is shown and new, there is room, and the way to the caller loses nothing. */
  ghost predicate FitsMake(g: Geometry, v: VolumeState, names: seq<Text>, d: Entry, made: NewItem)
    requires v.Valid(g) && Accepted(made.name)
  {
    && Shows(made.At(ItemCluster(g, v)), made.name) && LookOf(g, v)(d, made.name) == None
    && (d == 0 || HasChain(v.table, d))
    && var c := if d == 0 then [] else ChainOf(v.table, d);
       (d != 0 ==> DirChain(g, v, d, c)) && Roomy(g, v, d, DirSlots(g, v, d, c))
       && !WayDrops(g, v, d, DirSlots(g, v, d, c), names, 0)
  }

  /** The item can be removed: it is in the first root sector, and the caller is not inside. */
  ghost predicate FitsDrop(g: Geometry, v: VolumeState, names: seq<Text>, path: Text, last: Text)
    requires v.Valid(g) && path != [] && NUL !in path && NamesItem(names, Parse(path))
  {
    && ParentOf(names, Parse(path)) == [] && Find(DirSlots(g, v, 0, []), last) < SLOTS
    && (names != [] ==> names[0] != last)
  }

  /** What is asked of a call: the parent directory of its path is there; a call that would change something fits. */
  ghost predicate Fits(g: Geometry, s: State, call: Call) {
    && s.v.Valid(g) && call.path != [] && NUL !in call.path
    && match call
       case MoveTo(_) => true
       case MakeItem(path, item) =>
         exists names, d ::
           PathNames(LookOf(g, s.v), s.wd, s.sector, names, path, d)
           && (LookOf(g, s.v)(d, LastOf(path)) == None && Accepted(StoredFor(path)) ==>
                 FitsMake(g, s.v, names, d, item.(name := StoredFor(path))))
       case DropItem(path) =>
         exists names, d ::
           PathNames(LookOf(g, s.v), s.wd, s.sector, names, path, d)
           && (Removable(g, s.v, LookOf(g, s.v)(d, LastOf(path))) ==> FitsDrop(g, s.v, names, path, LastOf(path)))
  }

  /** There is an item, and it is no directory with entries. */
  ghost predicate Removable(g: Geometry, v: VolumeState, e: Option<DirEntry>)
    requires v.Valid(g)
  {
    e.Some? && (IsDirectory(e.value) ==> EmptyAt(g, v, StartSector(e.value)))
  }

  lemma MoveStep(g: Geometry, s: State, path: Text)
    requires SessionOk(g, s) && path != [] && NUL !in path
    ensures Plain(s.wd) && s.v.Valid(g)
    ensures var s' := Called(g, s, MoveTo(path));
            s'.Some? && SessionOk(g, s'.value)
  {
    hide LookOf, HeapOk, InRange, Owned, Apart, MoveToDir, Reaches, Parse;
    var names :| Agrees(LookOf(g, s.v), s.wd, s.sector, names);
    MoveIff(LookOf(g, s.v), s.wd, s.sector, names, path);
    var s' := Called(g, s, MoveTo(path)).value;
    assert Agrees(LookOf(g, s.v), s'.wd, s'.sector, names)
           || Agrees(LookOf(g, s.v), s'.wd, s'.sector, Target(names, Parse(path)));
  }

  /** Create_Item for an item that is there changes nothing. */
  lemma MakeFound(g: Geometry, v: VolumeState, wd: Text, sector: Entry, names: seq<Text>, path: Text, item: NewItem, d: Entry)
    requires v.Valid(g) && PathNames(LookOf(g, v), wd, sector, names, path, d) && LookOf(g, v)(d, LastOf(path)).Some?
    ensures Plain(wd) && CreateItem(g, v, wd, sector, path, item) == Some((false, v))
  {
    hide Reaches, GetItem, LookOf, Parse, LooksUp, NamesItem, ParentOf, IsName;
    FirstLookup(LookOf(g, v), wd, sector, names, path, d);
    var o := GetItem(LookOf(g, v), wd, sector, path, [], 0, false);
    FoundItem(LookOf(g, v), ParentOf(names, Parse(path)), d, LastOf(path), o);
  }

  lemma MakeStep(g: Geometry, v: VolumeState, wd: Text, sector: Entry, names: seq<Text>, path: Text, item: NewItem, d: Entry)
    requires TreeOk(g, v) && PathNames(LookOf(g, v), wd, sector, names, path, d)
    requires LookOf(g, v)(d, LastOf(path)) == None && Accepted(StoredFor(path)) ==>
               FitsMake(g, v, names, d, item.(name := StoredFor(path)))
    ensures Plain(wd)
    ensures var r := CreateItem(g, v, wd, sector, path, item);
            r.Some? && TreeOk(g, r.value.1) && Agrees(LookOf(g, r.value.1), wd, sector, names)
  {
    hide Reaches, LookOf, Parse, NamesItem, ParentOf, IsName, CreateItem, TreeOk, Agrees, Accepted, FitsMake, SlashAndName,
         FullPath;
    TreeValid(g, v);
    if LookOf(g, v)(d, LastOf(path)).Some? {
      MakeFound(g, v, wd, sector, names, path, item, d);
    } else {
      CreateItemIs(g, v, wd, sector, names, path, item, d);
      if Accepted(StoredFor(path)) {
        ParentInTree(LookOf(g, v), wd, sector, names, path, d);
        MadeStep(g, v, wd, sector, names, item.(name := StoredFor(path)), d);
      }
    }
  }

  lemma ParentInTree(look: Look, wd: Text, sector: Entry, names: seq<Text>, path: Text, d: Entry)
    requires PathNames(look, wd, sector, names, path, d)
    ensures InTree(look, d) && Agrees(look, wd, sector, names)
  {
  }

  lemma MadeStep(g: Geometry, v: VolumeState, wd: Text, sector: Entry, names: seq<Text>, made: NewItem, d: Entry)
    requires TreeOk(g, v) && InTree(LookOf(g, v), d) && Agrees(LookOf(g, v), wd, sector, names)
    requires Accepted(made.name) && FitsMake(g, v, names, d, made)
    ensures var r := CreateAt(g, v, d, made);
            r.Some? && TreeOk(g, r.value.1) && Agrees(LookOf(g, r.value.1), wd, sector, names)
  {
    hide LookOf, HeapOk, InRange, Owned, Apart, Reaches, CreateIn, LiveDistinct, Accepted, BuildEntry, DirSlots, SafeDir,
         NameThere, WayDrops, WaySafe, Agrees;
    var c := if d == 0 then [] else ChainOf(v.table, d);
    var names' :| Reaches(LookOf(g, v), names') == Some(d);
    InTreeSafe(LookOf(g, v), v.table, names');
    assert Creatable(g, v, d, c, made);
    CreateKeepsTree(g, v, d, c, made);
    TreeWaySafe(g, v, names);
    RoomyShowsAll(g, v, d, DirSlots(g, v, d, c), names, made.name);
    CreateThenAgreesIff(g, v, d, c, made, wd, sector, names);
    CreatedParts(g, v, d, c, made);
  }

  lemma RoomyShowsAll(g: Geometry, v: VolumeState, d: Entry, es: seq<DirEntry>, names: seq<Text>, name: Text)
    requires v.Valid(g) && Roomy(g, v, d, es)
    ensures NotHidden(g, v, d, es, names, name)
  {
  }

  /** Remove_Item for an item that is not there, or a directory with entries, changes nothing. */
  lemma DropRefused(g: Geometry, v: VolumeState, wd: Text, sector: Entry, names: seq<Text>, path: Text, d: Entry)
    requires v.Valid(g) && PathNames(LookOf(g, v), wd, sector, names, path, d)
    requires !Removable(g, v, LookOf(g, v)(d, LastOf(path)))
    ensures Plain(wd) && RemoveItem(g, v, wd, sector, path) == Some((false, v))
  {
    hide Reaches, GetItem, LookOf, Parse, LooksUp, NamesItem, ParentOf, IsName, EmptyAt;
    FirstLookup(LookOf(g, v), wd, sector, names, path, d);
    var o := GetItem(LookOf(g, v), wd, sector, path, [], 0, false);
    if LookOf(g, v)(d, LastOf(path)).Some? {
      FoundItem(LookOf(g, v), ParentOf(names, Parse(path)), d, LastOf(path), o);
    } else {
      MissingItem(LookOf(g, v), ParentOf(names, Parse(path)), d, LastOf(path), o);
    }
  }

  lemma DropStep(g: Geometry, v: VolumeState, wd: Text, sector: Entry, names: seq<Text>, path: Text, d: Entry)
    requires TreeOk(g, v) && PathNames(LookOf(g, v), wd, sector, names, path, d)
    requires Removable(g, v, LookOf(g, v)(d, LastOf(path))) ==> FitsDrop(g, v, names, path, LastOf(path))
    ensures Plain(wd)
    ensures var r := RemoveItem(g, v, wd, sector, path);
            r.Some? && TreeOk(g, r.value.1) && Agrees(LookOf(g, r.value.1), wd, sector, names)
  {
    hide LookOf, Parse, NamesItem, ParentOf, IsName, RemoveItem, TreeOk, Agrees, EmptyAt, Find, DirSlots, RemoveIn, FirstEqual,
         Reaches;
    TreeValid(g, v);
    ParentInTree(LookOf(g, v), wd, sector, names, path, d);
    var last := LastOf(path);
    if !Removable(g, v, LookOf(g, v)(d, last)) {
      DropRefused(g, v, wd, sector, names, path, d);
    } else {
      var e := LookOf(g, v)(d, last).value;
      RootParent(LookOf(g, v), wd, sector, names, path, d);
      RemoveItemIff(g, v, wd, sector, names, path, d, e);
      RemoveKeepsTree(g, v, last, e);
      DroppedAt(g, v, last, e);
      DropKeepsWay(g, v, wd, sector, names, last, e);
    }
  }

  lemma RootParent(look: Look, wd: Text, sector: Entry, names: seq<Text>, path: Text, d: Entry)
    requires PathNames(look, wd, sector, names, path, d) && ParentOf(names, Parse(path)) == []
    ensures d == 0
  {
  }

  lemma DroppedAt(g: Geometry, v: VolumeState, last: Text, e: DirEntry)
    requires v.Valid(g) && LookOf(g, v)(0, last) == Some(e) && RemoveIn(g, v, 0, [], e).Some?
    ensures RemoveAt(g, v, 0, e) == Some((true, RemoveIn(g, v, 0, [], e).value))
  {
    hide RemoveIn, LookOf, DirSlots, FirstEqual, Resolve;
    LookAt(g, v, 0, [], last);
    RootEntryEqual(DirSlots(g, v, 0, []), last);
  }

  /** A caller who is not inside the removed item keeps the way. */
  lemma DropKeepsWay(g: Geometry, v: VolumeState, wd: Text, sector: Entry, names: seq<Text>, last: Text, e: DirEntry)
    requires TreeOk(g, v) && Agrees(LookOf(g, v), wd, sector, names) && LookOf(g, v)(0, last) == Some(e)
    requires Find(DirSlots(g, v, 0, []), last) < SLOTS && (names != [] ==> names[0] != last)
    ensures var w := RemoveIn(g, v, 0, [], e);
            w.Some? && w.value.Valid(g) && Agrees(LookOf(g, w.value), wd, sector, names)
  {
    hide LookOf, HeapOk, InRange, RemoveIn, LiveDistinct, DirSlots, SafeDir, WaySafe, Find, Canonical;
    var x := ItemChain(g, v, last, e);
    TreeWaySafe(g, v, names);
    WayOutside(LookOf(g, v), v.table, names, last, e);
    RemoveThenAgreesIff(g, v, wd, sector, names, last, e, x);
    NotDropped(g, v, names, last);
  }

  /** No other way leads to the item's cluster. */
  lemma WayOutside(look: Look, t: Table, names: seq<Text>, last: Text, e: DirEntry)
    requires Owned(look, t) && HeapOk(t) && Apart(look) && look(0, last) == Some(e)
    requires Reaches(look, names).Some? && (names != [] ==> names[0] != last)
    ensures WayApart(look, names, StartSector(e))
  {
    hide HeapOk, Reaches, InTree, Owned, Apart;
    forall k | 0 <= k < |names| ensures Reaches(look, names[..k]) != Some(StartSector(e)) {
      if k > 0 {
        CameFrom(look, t, names, k - 1);
        SameEntry(look, Step(look, names, k - 1), names[k - 1], last, e);
      }
      if k == 0 {
        RootStart(look, t, last, e);
        assert names[..0] == [];
      }
    }
  }

  lemma RootStart(look: Look, t: Table, last: Text, e: DirEntry)
    requires Owned(look, t) && look(0, last) == Some(e)
    ensures StartSector(e) != 0 && Reaches(look, []) == Some(0)
  {
    RootInTree(look);
    assert Head(t, StartSector(e));
  }

  /** Where the way stands after one more component. */
  lemma CameFrom(look: Look, t: Table, names: seq<Text>, k: nat)
    requires Owned(look, t) && HeapOk(t) && Reaches(look, names).Some? && k < |names|
    ensures var s := Step(look, names, k);
            && InTree(look, s) && (s == 0 ==> k == 0)
            && Reaches(look, names[..k + 1]) == Some(StartSector(look(s, names[k]).value))
  {
    hide HeapOk, Owned;
    ReachesPrefix(look, names, k + 1);
    assert names[..k + 1][..k] == names[..k];
    InTreeSafe(look, t, names[..k]);
  }

  lemma SameEntry(look: Look, s: Entry, n: Text, last: Text, e: DirEntry)
    requires Apart(look) && look(0, last) == Some(e) && InTree(look, s) && look(s, n).Some?
    ensures StartSector(look(s, n).value) == StartSector(e) ==> s == 0 && n == last
  {
    hide InTree;
    RootInTree(look);
  }

  lemma NotDropped(g: Geometry, v: VolumeState, names: seq<Text>, last: Text)
    requires TreeOk(g, v) && Reaches(LookOf(g, v), names).Some? && (names != [] ==> names[0] != last)
    requires Find(DirSlots(g, v, 0, []), last) < SLOTS
    ensures !WayDropped(g, v, names, last)
  {
    hide LookOf, HeapOk, InRange, LiveDistinct, DirSlots, Find, Reaches, SafeDir;
    forall k | 0 <= k < |names| && Reaches(LookOf(g, v), names[..k]) == Some(0) ensures names[k] != last {
      InTreeSafe(LookOf(g, v), v.table, names[..k]);
    }
  }

  lemma CallKeepsSession(g: Geometry, s: State, call: Call)
    requires SessionOk(g, s) && Fits(g, s, call)
    ensures Plain(s.wd)
    ensures var s' := Called(g, s, call);
            s'.Some? && SessionOk(g, s'.value)
  {
    hide LookOf, TreeOk, Agrees, Reaches, Parse, IsName, ParentOf, FitsMake, FitsDrop, Removable, CreateItem, RemoveItem, Accepted;
    match call
    case MoveTo(path) => MoveStep(g, s, path);
    case MakeItem(path, item) =>
      var names, d :| PathNames(LookOf(g, s.v), s.wd, s.sector, names, path, d)
                      && (LookOf(g, s.v)(d, LastOf(path)) == None && Accepted(StoredFor(path)) ==>
                            FitsMake(g, s.v, names, d, item.(name := StoredFor(path))));
      MakeStep(g, s.v, s.wd, s.sector, names, path, item, d);
    case DropItem(path) =>
      var names, d :| PathNames(LookOf(g, s.v), s.wd, s.sector, names, path, d)
                      && (Removable(g, s.v, LookOf(g, s.v)(d, LastOf(path))) ==>
                            FitsDrop(g, s.v, names, path, LastOf(path)));
      DropStep(g, s.v, s.wd, s.sector, names, path, d);
  }

  /** A session of calls that fit. The invariant only makes the call well formed; CallKeepsSession supplies it. */
  ghost predicate IsSession(g: Geometry, s: State, calls: seq<Call>, s': State)
    decreases |calls|
  {
    if calls == [] then s == s'
    else
      SessionOk(g, s) && Fits(g, s, calls[0]) && Plain(s.wd)
      && Called(g, s, calls[0]).Some? && IsSession(g, Called(g, s, calls[0]).value, calls[1..], s')
  }

  /** Over every session of moving, creating and removing, on a tree that changes: no call follows a null pointer, the
      directories stay a tree of clusters of their own, and the working directory agrees with its sector. */
  lemma {:induction false} SessionKeepsTree(g: Geometry, s: State, calls: seq<Call>, s': State)
    requires SessionOk(g, s) && IsSession(g, s, calls, s')
    ensures SessionOk(g, s')
    decreases |calls|
  {
    hide LookOf, TreeOk, PathNames, Called;
    if calls != [] {
      CallKeepsSession(g, s, calls[0]);
      SessionKeepsTree(g, Called(g, s, calls[0]).value, calls[1..], s');
    }
  }

  /** A volume without entries is such a tree, with the caller in the root. */
  lemma EmptyVolumeStarts(g: Geometry, v: VolumeState)
    requires v.Valid(g) && HeapOk(v.table) && InRange(v.table) && NoneLiveFrom(DirSlots(g, v, 0, []), 0)
    ensures SessionOk(g, State(v, [SLASH], 0))
  {
    hide LookOf, HeapOk, DirSlots, Resolve;
    var look := LookOf(g, v);
    forall n: Text ensures look(0, n) == None {
      LookAt(g, v, 0, [], n);
      NothingLive(DirSlots(g, v, 0, []), n);
    }
    forall names | Reaches(look, names).Some? ensures Reaches(look, names) == Some(0) {
      OnlyRoot(look, names);
    }
    assert Agrees(look, [SLASH], 0, []);
  }

  lemma {:induction false} OnlyRoot(look: Look, names: seq<Text>)
    requires (forall n: Text :: look(0, n) == None) && Reaches(look, names).Some?
    ensures names == []
    decreases |names|
  {
    if names != [] {
      ReachesPrefix(look, names, |names| - 1);
      OnlyRoot(look, names[..|names| - 1]);
    }
  }
}
