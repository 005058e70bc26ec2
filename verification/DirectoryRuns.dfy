/** Whole sessions in one directory, the root or a subdirectory of one sector: creating, storing short contents and
    removing, in any order, make the directory a map from names to contents, as far as Remove_Item gets. */
module DirectoryRuns {
  import opened Fat12Types
  import opened Chains
  import opened FatHeap
  import opened ItemData
  import opened Volumes
  import opened Names
  import opened Directories
  import opened DirectoryItems
  import opened CreateLimits
  import opened DirectoryCode
  import opened FileData
  import opened FileHandles
  import opened FileWrite
  import opened FirstSector
  import opened PathTexts
  import Paths
  import PathMeaning
  import VolumeTree

  // ----- what every state of a session satisfies -----

  /** The item owns a chain that nothing else links into, long enough for its length, and on the disk. */
  ghost predicate FileOk(g: Geometry, v: VolumeState, dir: Entry, e: DirEntry)
    requires v.Valid(g)
  {
    var s := StartSector(e);
    && 2 <= s < TABLE_SIZE && s != dir && v.table[s] != 0 && !HasPredecessor(v.table, s) && HasChain(v.table, s)
    && OnDisk(g, v.disk, ChainOf(v.table, s)) && |ChainOf(v.table, s)| * SECTOR_SIZE >= FileLength(e)
  }

  /** What reading the item from its beginning in pieces of 512 bytes yields. */
  ghost function FileBytes(g: Geometry, v: VolumeState, dir: Entry, e: DirEntry): seq<Byte>
    requires v.Valid(g) && FileOk(g, v, dir, e)
  {
    var c := ChainOf(v.table, StartSector(e));
    PiecesOnChain(g, v, c, FileLength(e), 0);
    Bytes(Contents(g, v.disk, c))[..Total(FileLength(e), |c|)]
  }

  ghost predicate FilesApart(g: Geometry, v: VolumeState, dir: Entry, es: seq<DirEntry>)
    requires v.Valid(g)
  {
    && (forall i | 0 <= i < |es| && Live(es[i]) :: FileOk(g, v, dir, es[i]))
    && (forall i, j | 0 <= i < j < |es| && Live(es[i]) && Live(es[j]) :: StartSector(es[i]) != StartSector(es[j]))
  }

  ghost predicate SessionInv(g: Geometry, v: VolumeState, dir: Entry) {
    && v.Valid(g) && HeapOk(v.table) && InRange(v.table)
    && DirReady(g, v, dir) && (dir != 0 ==> !HasPredecessor(v.table, dir))
    && LiveDistinct(HomeSlots(g, v, dir)) && FilesApart(g, v, dir, HomeSlots(g, v, dir))
  }

  /** The names and contents in the directory are those of m. */
  ghost predicate Holding(g: Geometry, v: VolumeState, dir: Entry, m: map<Text, seq<Byte>>)
    requires SessionInv(g, v, dir)
  {
    forall n: Text ::
      && (n in m <==> Resolve(HomeSlots(g, v, dir), n).Some?)
      && (n in m ==> m[n] == FileBytes(g, v, dir, Resolve(HomeSlots(g, v, dir), n).value))
  }

  // ----- the requests -----

  /** The working directory a request is made from, and its sector. */
  datatype Caller = Caller(dir: Text, sector: Entry)

  datatype Request = Create(item: NewItem) | Store(name: Text, data: seq<Byte>) | Remove(name: Text, from: Caller)

  /** Where the directory of a session is: its first sector, and its components from the root. */
  datatype Place = Place(dir: Entry, at: seq<Text>) {
    predicate Valid() { GoodNames(at) && (dir == 0 <==> at == []) }
  }

  /** Remove_Item refuses directories that are not empty. */
  ghost predicate Removable(g: Geometry, v: VolumeState, e: DirEntry)
    requires v.Valid(g)
  {
    IsDirectory(e) ==> HasChain(v.table, StartSector(e))
                       && NoneLiveFrom(DirSlots(g, v, StartSector(e), ChainOf(v.table, StartSector(e))), 0)
  }

  /** Create needs an unused well-padded name, a dead slot and a free cluster on the disk; Store keeps to contents of
      less than a sector; Remove takes files and empty directories. In the root all slots are in the first sector. */
  ghost predicate Allowed(g: Geometry, v: VolumeState, dir: Entry, r: Request)
    requires v.Valid(g)
  {
    var es := HomeSlots(g, v, dir);
    match r
    case Create(item) =>
      && Accepted(item.name) && Printable(item.name) && WellPadded(item.name) && item.name[0] != DELETED
      && Resolve(es, item.name) == None && FirstDead(es) < SLOTS
      && ItemCluster(g, v) != 0 && g.Lba(ItemCluster(g, v)) < |v.disk|
    case Store(name, data) => Resolve(es, name).Some? && Find(es, name) < SLOTS && |data| < SECTOR_SIZE
    case Remove(name, from) =>
      && Resolve(es, name).Some? && Find(es, name) < SLOTS && Removable(g, v, Resolve(es, name).value)
      && GoodName(name) && Paths.Plain(from.dir)
  }

  /** The request, given the directory: for Remove, the rest of Remove_Item behind its two lookups. */
  ghost function Intended(g: Geometry, v: VolumeState, dir: Entry, r: Request): Option<VolumeState>
    requires SessionInv(g, v, dir) && Allowed(g, v, dir, r)
  {
    var es := HomeSlots(g, v, dir);
    match r
    case Create(item) => CreateIn(g, v, dir, Home(dir), item)
    case Store(name, data) => FileWritten(g, v, dir, Home(dir), Resolve(es, name).value, data)
    case Remove(name, _) => RemoveIn(g, v, dir, Home(dir), Resolve(es, name).value)
  }

  /** The request on a map from names to contents. */
  function Meant(m: map<Text, seq<Byte>>, r: Request): map<Text, seq<Byte>> {
    match r
    case Create(item) => m[item.name := []]
    case Store(name, data) => m[name := data]
    case Remove(name, _) => m - {name}
  }

  // ----- one slot changes, every other file stays -----

  lemma SparedFile(g: Geometry, v: VolumeState, w: VolumeState, dir: Entry, e: DirEntry)
    requires v.Valid(g) && w.Valid(g) && |w.disk| == |v.disk| && NoNewLinks(v.table, w.table)
    requires FileOk(g, v, dir, e) && Spared(g, v, w, ChainOf(v.table, StartSector(e)))
    ensures FileOk(g, w, dir, e) && FileBytes(g, w, dir, e) == FileBytes(g, v, dir, e)
  {
    var x := ChainOf(v.table, StartSector(e));
    assert w.table[x[0]] == v.table[x[0]];
    assert Chain(w.table, x);
    ChainOfIs(w.table, x);
  }

  /** Every live item but the one in slot k is spared. */
  ghost predicate OthersSpared(g: Geometry, v: VolumeState, w: VolumeState, dir: Entry, k: nat)
    requires SessionInv(g, v, dir) && w.Valid(g)
  {
    var es := HomeSlots(g, v, dir);
    forall i | 0 <= i < |es| && i != k && Live(es[i]) :: Spared(g, v, w, ChainOf(v.table, StartSector(es[i])))
  }

  /** What a request does to the volume when it changes slot k to e. */
  ghost predicate SlotServed(g: Geometry, v: VolumeState, w: VolumeState, dir: Entry, k: nat, e: DirEntry)
    requires SessionInv(g, v, dir)
  {
    var es := HomeSlots(g, v, dir);
    && w.Valid(g) && |w.disk| == |v.disk| && HeapOk(w.table) && InRange(w.table) && NoNewLinks(v.table, w.table)
    && DirReady(g, w, dir) && k < |es| && HomeSlots(g, w, dir) == es[k := e] && LiveDistinct(es[k := e])
    && OthersSpared(g, v, w, dir, k)
    && (Live(e) ==> FileOk(g, w, dir, e)
                    && forall i | 0 <= i < |es| && i != k && Live(es[i]) :: StartSector(es[i]) != StartSector(e))
  }

  lemma OthersStay(g: Geometry, v: VolumeState, w: VolumeState, dir: Entry, k: nat, e: DirEntry)
    requires SessionInv(g, v, dir) && SlotServed(g, v, w, dir, k, e)
    ensures SessionInv(g, w, dir)
    ensures var es := HomeSlots(g, v, dir);
            forall i | 0 <= i < |es| && i != k && Live(es[i]) ::
              FileOk(g, v, dir, es[i]) && FileOk(g, w, dir, es[i])
              && FileBytes(g, w, dir, es[i]) == FileBytes(g, v, dir, es[i])
  {
    var es := HomeSlots(g, v, dir);
    forall i | 0 <= i < |es| && i != k && Live(es[i])
      ensures FileOk(g, v, dir, es[i]) && FileOk(g, w, dir, es[i])
      ensures FileBytes(g, w, dir, es[i]) == FileBytes(g, v, dir, es[i])
    {
      SparedFile(g, v, w, dir, es[i]);
    }
  }

  /** The map after a step: only name's binding changes, to what slot k now holds. */
  ghost predicate Rebound(g: Geometry, w: VolumeState, dir: Entry, e: DirEntry, name: Text,
                          m: map<Text, seq<Byte>>, m': map<Text, seq<Byte>>)
    requires w.Valid(g) && (Live(e) ==> FileOk(g, w, dir, e))
  {
    && (Live(e) ==> Display(e) == name)
    && m' == if Live(e) then m[name := FileBytes(g, w, dir, e)] else m - {name}
  }

  lemma ResolvedOk(g: Geometry, v: VolumeState, dir: Entry)
    requires SessionInv(g, v, dir)
    ensures forall n: Text | Resolve(HomeSlots(g, v, dir), n).Some? ::
              FileOk(g, v, dir, Resolve(HomeSlots(g, v, dir), n).value)
  {
    hide FileOk, HomeSlots, HeapOk, InRange, DirReady;
  }

  /** A name that resolves as before belongs to a file that is as before. */
  lemma OtherBinding(g: Geometry, v: VolumeState, w: VolumeState, dir: Entry, k: nat, e: DirEntry, name: Text, n: Text)
    requires SessionInv(g, v, dir) && SlotServed(g, v, w, dir, k, e) && n != name && (Live(e) ==> Display(e) == name)
    requires Resolve(HomeSlots(g, v, dir), n).Some?
    requires Resolve(HomeSlots(g, w, dir), n) == Resolve(HomeSlots(g, v, dir), n)
    ensures var f := Resolve(HomeSlots(g, v, dir), n).value;
            FileOk(g, v, dir, f) && FileOk(g, w, dir, f) && FileBytes(g, w, dir, f) == FileBytes(g, v, dir, f)
  {
    hide Display, Live, HomeSlots, FileBytes, FileOk, HeapOk, InRange, DirReady;
    OthersStay(g, v, w, dir, k, e);
    var es, es' := HomeSlots(g, v, dir), HomeSlots(g, w, dir);
    var i := Find(es', n);
    assert Shows(es'[i], n);
    assert i != k;
    assert es'[i] == es[i];
  }

  lemma HoldingAfter(g: Geometry, v: VolumeState, w: VolumeState, dir: Entry, k: nat, e: DirEntry, name: Text,
                     m: map<Text, seq<Byte>>, m': map<Text, seq<Byte>>)
    requires SessionInv(g, v, dir) && SlotServed(g, v, w, dir, k, e) && Holding(g, v, dir, m)
    requires Rebound(g, w, dir, e, name, m, m')
    requires forall n :: Resolve(HomeSlots(g, w, dir), n) ==
                         if n == name then (if Live(e) then Some(e) else None) else Resolve(HomeSlots(g, v, dir), n)
    ensures SessionInv(g, w, dir) && Holding(g, w, dir, m')
  {
    hide Display, Live, HomeSlots, FileBytes, FileOk, SlotServed, HeapOk, InRange, LiveDistinct, FilesApart, DirReady,
         Resolve;
    OthersStay(g, v, w, dir, k, e);
    ResolvedOk(g, w, dir);
    forall n: Text
      ensures n in m' <==> Resolve(HomeSlots(g, w, dir), n).Some?
      ensures n in m' ==> m'[n] == FileBytes(g, w, dir, Resolve(HomeSlots(g, w, dir), n).value)
    {
      if n != name && n in m {
        OtherBinding(g, v, w, dir, k, e, name, n);
      }
    }
  }

  /** The chain of the file in slot i. */
  lemma FileChain(g: Geometry, v: VolumeState, dir: Entry, i: nat) returns (x: seq<nat>)
    requires SessionInv(g, v, dir) && i < |HomeSlots(g, v, dir)| && Live(HomeSlots(g, v, dir)[i])
    ensures Chain(v.table, x) && x[0] == StartSector(HomeSlots(g, v, dir)[i]) && x == ChainOf(v.table, x[0])
    ensures dir !in x && OnDisk(g, v.disk, x) && forall h | 0 <= h < |x| :: v.table[x[h]] != 0
    ensures !HasPredecessor(v.table, x[0])
  {
    var e := HomeSlots(g, v, dir)[i];
    assert FileOk(g, v, dir, e);
    x := ChainOf(v.table, StartSector(e));
    ChainInUse(v.table, x);
    if dir != 0 {
      HeadsAreDisjoint(v.table, [dir], x);
      assert forall h | 0 <= h < |x| :: [dir][0] != x[h];
    }
  }

  /** The chain of the file in slot i shares no cluster with that of the file in slot k. */
  lemma FilesDisjoint(g: Geometry, v: VolumeState, dir: Entry, i: nat, k: nat)
    requires SessionInv(g, v, dir) && i < |HomeSlots(g, v, dir)| && k < |HomeSlots(g, v, dir)| && i != k
    requires Live(HomeSlots(g, v, dir)[i]) && Live(HomeSlots(g, v, dir)[k])
    ensures var es := HomeSlots(g, v, dir);
            && HasChain(v.table, StartSector(es[i])) && HasChain(v.table, StartSector(es[k]))
            && Disjoint(ChainOf(v.table, StartSector(es[i])), ChainOf(v.table, StartSector(es[k])))
  {
    hide Live, HomeSlots, HasPredecessor;
    var x := FileChain(g, v, dir, i);
    var y := FileChain(g, v, dir, k);
    HeadsAreDisjoint(v.table, x, y);
  }

  /** Where a resolved name is, and that its slot is live. */
  lemma Located(es: seq<DirEntry>, name: Text)
    requires Resolve(es, name).Some?
    ensures var k := Find(es, name);
            k < |es| && Live(es[k]) && Display(es[k]) == name && Resolve(es, name) == Some(es[k])
  {
  }

  // ----- Create -----

  lemma NewFileOk(g: Geometry, w: VolumeState, dir: Entry, e: DirEntry)
    requires w.Valid(g) && 2 <= StartSector(e) < TABLE_SIZE && StartSector(e) != dir && FileLength(e) == 0
    requires w.table[StartSector(e)] == LAST_SECTOR && !HasPredecessor(w.table, StartSector(e))
    requires g.Lba(StartSector(e)) < |w.disk|
    ensures FileOk(g, w, dir, e) && FileBytes(g, w, dir, e) == []
  {
    var one: seq<nat> := [StartSector(e)];
    assert Chain(w.table, one);
    ChainOfIs(w.table, one);
  }

  /** The table, the slots and the disk after Create. */
  lemma CreatePlaces(g: Geometry, v: VolumeState, dir: Entry, item: NewItem)
    requires SessionInv(g, v, dir) && Allowed(g, v, dir, Create(item))
    ensures var w := CreateIn(g, v, dir, Home(dir), item);
            var es := HomeSlots(g, v, dir);
            var start := ItemCluster(g, v);
            && w.Some? && w.value.Valid(g) && |w.value.disk| == |v.disk| && DirReady(g, w.value, dir)
            && HeapOk(w.value.table) && InRange(w.value.table) && NoNewLinks(v.table, w.value.table)
            && (forall i | 2 <= i < TABLE_SIZE ::
                  w.value.table[i] == if i == dir || i == start then LAST_SECTOR else v.table[i])
            && FirstDead(es) < |es| && HomeSlots(g, w.value, dir) == es[FirstDead(es) := item.At(start)]
  {
    hide Display, Live, CreateIn, StoreSlot, BuildEntry, HasPredecessor, HeapOk, FirstDead, Accepted;
    CreateIsStore(g, v, dir, item);
    var a := Allocated(g, v).value;
    var k, e := FirstDead(HomeSlots(g, v, dir)), item.At(ItemCluster(g, v));
    StoreFirst(g, a, dir, k, e);
    SealKeepsHeap(v.table, ItemCluster(g, v));
    OnlyEndsKeepsHeap(a.table, CreateIn(g, v, dir, Home(dir), item).value.table, dir);
  }

  /** Creating spares every file there is. */
  lemma CreateSpares(g: Geometry, v: VolumeState, dir: Entry, item: NewItem, x: seq<nat>)
    requires v.Valid(g) && DirReady(g, v, dir) && Allowed(g, v, dir, Create(item))
    requires Chain(v.table, x) && (forall h | 0 <= h < |x| :: v.table[x[h]] != 0) && dir !in x
    ensures var w := CreateIn(g, v, dir, Home(dir), item);
            w.Some? && w.value.Valid(g) && Spared(g, v, w.value, x)
  {
    hide Display, Live, CreateIn, StoreSlot, BuildEntry, FirstDead, Accepted, HomeSlots;
    CreateIsStore(g, v, dir, item);
    AllocatedKeeps(g, v, x);
    var a := Allocated(g, v).value;
    StoreFirstSpares(g, a, dir, FirstDead(HomeSlots(g, v, dir)), item.At(ItemCluster(g, v)), x);
  }

  /** The new file is in order, and apart from the others. */
  lemma CreateOwns(g: Geometry, v: VolumeState, w: VolumeState, dir: Entry, item: NewItem)
    requires SessionInv(g, v, dir) && Allowed(g, v, dir, Create(item)) && w.Valid(g) && |w.disk| == |v.disk|
    requires NoNewLinks(v.table, w.table) && w.table[ItemCluster(g, v)] == LAST_SECTOR
    ensures var e := item.At(ItemCluster(g, v));
            && FileOk(g, w, dir, e) && FileBytes(g, w, dir, e) == []
            && forall i | 0 <= i < |HomeSlots(g, v, dir)| && Live(HomeSlots(g, v, dir)[i]) ::
                 StartSector(HomeSlots(g, v, dir)[i]) != StartSector(e)
  {
    hide Display, Live, BuildEntry, HasPredecessor, FirstDead, HomeSlots;
    var start := ItemCluster(g, v);
    BuiltFields(item.name, item.garbage, item.attribute, item.time, item.date, start);
    FreeHasNone(v.table, start);
    FewerPredecessors(v.table, w.table, start);
    NewFileOk(g, w, dir, item.At(start));
    var es := HomeSlots(g, v, dir);
    forall i | 0 <= i < |es| && Live(es[i]) ensures StartSector(es[i]) != start {
      assert FileOk(g, v, dir, es[i]);
    }
  }

  lemma CreateSparesOthers(g: Geometry, v: VolumeState, dir: Entry, item: NewItem, k: nat)
    requires SessionInv(g, v, dir) && Allowed(g, v, dir, Create(item))
    requires CreateIn(g, v, dir, Home(dir), item).Some? && CreateIn(g, v, dir, Home(dir), item).value.Valid(g)
    ensures OthersSpared(g, v, CreateIn(g, v, dir, Home(dir), item).value, dir, k)
  {
    hide Display, Live, CreateIn, BuildEntry, HasPredecessor, FirstDead, HomeSlots, Accepted, Resolve, LiveDistinct,
         HeapOk, InRange, WellPadded, Printable;
    var es := HomeSlots(g, v, dir);
    forall i | 0 <= i < |es| && i != k && Live(es[i])
      ensures Spared(g, v, CreateIn(g, v, dir, Home(dir), item).value, ChainOf(v.table, StartSector(es[i])))
    {
      var x := FileChain(g, v, dir, i);
      CreateSpares(g, v, dir, item, x);
    }
  }

  lemma CreateServes(g: Geometry, v: VolumeState, dir: Entry, item: NewItem)
    requires SessionInv(g, v, dir) && Allowed(g, v, dir, Create(item))
    ensures var w := CreateIn(g, v, dir, Home(dir), item);
            var es := HomeSlots(g, v, dir);
            var e := item.At(ItemCluster(g, v));
            && w.Some? && SlotServed(g, v, w.value, dir, FirstDead(es), e) && Shows(e, item.name)
            && FileBytes(g, w.value, dir, e) == [] && ActsAsInsert(es, HomeSlots(g, w.value, dir), item.name, e)
  {
    hide Display, CreateIn, BuildEntry, HasPredecessor, FileOk, FileBytes, Resolve, HomeSlots, LiveDistinct, HeapOk,
         InRange, NoNewLinks, Seal, Accepted, OthersSpared, FirstDead, Live;
    CreatePlaces(g, v, dir, item);
    var w := CreateIn(g, v, dir, Home(dir), item).value;
    CreateOwns(g, v, w, dir, item);
    var es := HomeSlots(g, v, dir);
    CreateSparesOthers(g, v, dir, item, FirstDead(es));
    NewItemShows(item, v.table, g.RootSectors());
    InsertResolves(es, FirstDead(es), item.At(ItemCluster(g, v)));
  }

  // ----- Remove -----

  /** Slot k is the one its live name is found in, and x is its file's chain. */
  ghost predicate FileAt(g: Geometry, v: VolumeState, dir: Entry, k: nat, x: seq<nat>)
    requires v.Valid(g)
  {
    var es := HomeSlots(g, v, dir);
    && k < SLOTS && Live(es[k]) && Find(es, Display(es[k])) == k
    && Chain(v.table, x) && x[0] == StartSector(es[k]) && dir !in x
  }

  /** The volume after Remove: the slot is stored, then the chain is freed and the table saved. */
  lemma RemovePlaces(g: Geometry, v: VolumeState, dir: Entry, k: nat, x: seq<nat>) returns (u: VolumeState)
    requires SessionInv(g, v, dir) && FileAt(g, v, dir, k, x)
    ensures var e := HomeSlots(g, v, dir)[k];
            && StoreSlot(g, v, dir, DirSectors(g, v, dir, Home(dir)), k, Marked(e)) == Some(u)
            && Stored(g, v, u, dir, k, Marked(e)) && Chain(u.table, x) && InRange(u.table)
            && RemoveIn(g, v, dir, Home(dir), e) == Some(Saved(u.(table := Freed(u.table, x[0]))))
  {
    hide Display, Live, FirstEqual, FatImage, HeapOk, HasPredecessor, StoreSlot, Find;
    var es := HomeSlots(g, v, dir);
    ChangeIsStore(g, v, dir, Display(es[k]), Delete);
    StoreFirst(g, v, dir, k, Marked(es[k]));
    u := StoreSlot(g, v, dir, DirSectors(g, v, dir, Home(dir)), k, Marked(es[k])).value;
  }

  lemma RemoveFrame(g: Geometry, v: VolumeState, dir: Entry, k: nat, x: seq<nat>, y: seq<nat>)
    requires SessionInv(g, v, dir) && FileAt(g, v, dir, k, x)
    requires Chain(v.table, y) && dir !in y && Disjoint(y, x)
    ensures var w := RemoveIn(g, v, dir, Home(dir), HomeSlots(g, v, dir)[k]);
            w.Some? && w.value.Valid(g) && Spared(g, v, w.value, y)
  {
    hide Display, Live, FatImage, HeapOk, HasPredecessor, RemoveIn, StoreSlot, HomeSlots;
    var u := RemovePlaces(g, v, dir, k, x);
    StoreFirstSpares(g, v, dir, k, Marked(HomeSlots(g, v, dir)[k]), y);
    FreedChain(u.table, x);
    var w := u.(table := Freed(u.table, x[0]));
    SavedContents(g, w, y);
    SavedPlaces(g, w);
    forall h | 0 <= h < |y| ensures w.table[y[h]] == v.table[y[h]] {
      assert y[h] !in x;
    }
  }

  /** The slots and the table after Remove. */
  lemma RemoveEnds(g: Geometry, v: VolumeState, dir: Entry, k: nat, x: seq<nat>)
    requires SessionInv(g, v, dir) && FileAt(g, v, dir, k, x) && v.table[x[0]] != 0 && !HasPredecessor(v.table, x[0])
    ensures var es := HomeSlots(g, v, dir);
            var w := RemoveIn(g, v, dir, Home(dir), es[k]);
            && w.Some? && w.value.Valid(g) && |w.value.disk| == |v.disk| && DirReady(g, w.value, dir)
            && HeapOk(w.value.table) && InRange(w.value.table) && NoNewLinks(v.table, w.value.table)
            && HomeSlots(g, w.value, dir) == es[k := Marked(es[k])]
  {
    hide Display, Live, FatImage, HeapOk, HasPredecessor, RemoveIn, StoreSlot, Find, SlotsOf;
    var u := RemovePlaces(g, v, dir, k, x);
    var t' := Freed(u.table, x[0]);
    OnlyEndsKeepsHeap(v.table, u.table, dir);
    FewerPredecessors(v.table, u.table, x[0]);
    FreeKeepsHeapIffHead(u.table, x);
    FreedChain(u.table, x);
    var w := u.(table := t');
    SavedPlaces(g, w);
    SavedHome(g, u, t', dir);
  }

  /** Another table on disk leaves the directory. */
  lemma SavedHome(g: Geometry, u: VolumeState, t: Table, dir: Entry)
    requires u.Valid(g) && DirReady(g, u, dir)
    ensures var w := Saved(u.(table := t));
            w.Valid(g) && |w.disk| == |u.disk| && HomeSlots(g, w, dir) == HomeSlots(g, u, dir)
  {
    hide FatImage, SlotsOf;
    var w := u.(table := t);
    SavedPlaces(g, w);
    SavedContents(g, w, Home(dir));
    assert RootArea(g, Saved(w)) == RootArea(g, u) by {
      assert g.DirStart() > FAT_SECTORS;
    }
  }

  lemma RemoveSparesOthers(g: Geometry, v: VolumeState, dir: Entry, k: nat, x: seq<nat>)
    requires SessionInv(g, v, dir) && FileAt(g, v, dir, k, x)
    requires RemoveIn(g, v, dir, Home(dir), HomeSlots(g, v, dir)[k]).Some?
    requires RemoveIn(g, v, dir, Home(dir), HomeSlots(g, v, dir)[k]).value.Valid(g)
    ensures OthersSpared(g, v, RemoveIn(g, v, dir, Home(dir), HomeSlots(g, v, dir)[k]).value, dir, k)
  {
    hide Display, Live, FatImage, HeapOk, HasPredecessor, RemoveIn, HomeSlots, Resolve, LiveDistinct;
    var es := HomeSlots(g, v, dir);
    var w := RemoveIn(g, v, dir, Home(dir), es[k]).value;
    ChainOfIs(v.table, x);
    forall i | 0 <= i < |es| && i != k && Live(es[i]) ensures Spared(g, v, w, ChainOf(v.table, StartSector(es[i]))) {
      var y := FileChain(g, v, dir, i);
      FilesDisjoint(g, v, dir, i, k);
      RemoveFrame(g, v, dir, k, x, y);
    }
  }

  lemma RemoveServes(g: Geometry, v: VolumeState, dir: Entry, name: Text)
    requires SessionInv(g, v, dir) && Resolve(HomeSlots(g, v, dir), name).Some? && Find(HomeSlots(g, v, dir), name) < SLOTS
    ensures var es := HomeSlots(g, v, dir);
            var k := Find(es, name);
            var w := RemoveIn(g, v, dir, Home(dir), es[k]);
            && w.Some? && SlotServed(g, v, w.value, dir, k, Marked(es[k]))
            && ActsAsRemove(es, HomeSlots(g, w.value, dir), name)
  {
    hide Display, Live, FatImage, HeapOk, HasPredecessor, RemoveIn, HomeSlots, Resolve, FileOk, OthersSpared, Find,
         LiveDistinct, InRange, NoNewLinks;
    var es := HomeSlots(g, v, dir);
    Located(es, name);
    var k := Find(es, name);
    var x := FileChain(g, v, dir, k);
    RemoveEnds(g, v, dir, k, x);
    RemoveSparesOthers(g, v, dir, k, x);
    RemoveResolves(es, k);
    MarkedIsDead(es[k]);
  }

  // ----- Store -----

  /** Changing the length of a live slot rebinds its name and no other. */
  lemma ResizeRebinds(es: seq<DirEntry>, k: nat, n: nat)
    requires LiveDistinct(es) && k < |es| && Live(es[k]) && n < 0x1_0000_0000
    ensures var e := WithLength(es[k], n);
            && Live(e) && Display(e) == Display(es[k]) && LiveDistinct(es[k := e])
            && ActsAsInsert(es, es[k := e], Display(es[k]), e)
  {
    var e := WithLength(es[k], n);
    var es' := es[k := e];
    assert Display(e) == Display(es[k]);
    hide Display;
    ResolveIs(es', k);
    forall m | m != Display(e) ensures Resolve(es', m) == Resolve(es, m) {
      UpdateKeepsOthers(es, k, e, m);
    }
  }

  /** The volume after Store: the data is written, then the slot with the new length is stored. */
  lemma StorePlaces(g: Geometry, v: VolumeState, dir: Entry, k: nat, x: seq<nat>, b: seq<Byte>) returns (d: VolumeState)
    requires SessionInv(g, v, dir) && FileAt(g, v, dir, k, x) && OnDisk(g, v.disk, x) && |b| < SECTOR_SIZE
    ensures var e := HomeSlots(g, v, dir)[k];
            var e' := WithLength(e, |b|);
            var w := FileWritten(g, v, dir, Home(dir), e, b);
            && Rewritten(g, v, x[0], b) == Some(d)
            && d.Valid(g) && |d.disk| == |v.disk| && InRange(d.table) && d.table == Seal(Freed(v.table, x[0]), x[0])
            && DirReady(g, d, dir) && HomeSlots(g, d, dir) == HomeSlots(g, v, dir)
            && Chain(d.table, [x[0]]) && Bytes(Contents(g, d.disk, [x[0]]))[..Total(|b|, 1)] == b
            && w == StoreSlot(g, d, dir, DirSectors(g, d, dir, Home(dir)), k, e') && w.Some?
            && Stored(g, d, w.value, dir, k, e')
  {
    hide Display, Live, FirstEqual, FatImage, HeapOk, HasPredecessor, StoreSlot, Find, Rewritten, SlotsOf, ChangeIn;
    var es := HomeSlots(g, v, dir);
    RewriteStays(g, v, dir, x, b);
    d := Rewritten(g, v, x[0], b).value;
    ChangeIsStore(g, d, dir, Display(es[k]), Resize(|b|));
    StoreFirst(g, d, dir, k, WithLength(es[k], |b|));
  }

  /** The table after Store. */
  lemma StoreEnds(g: Geometry, v: VolumeState, dir: Entry, k: nat, x: seq<nat>, b: seq<Byte>)
    requires SessionInv(g, v, dir) && FileAt(g, v, dir, k, x) && OnDisk(g, v.disk, x) && |b| < SECTOR_SIZE
    requires v.table[x[0]] != 0 && !HasPredecessor(v.table, x[0])
    ensures var e := HomeSlots(g, v, dir)[k];
            var w := FileWritten(g, v, dir, Home(dir), e, b);
            && w.Some? && w.value.Valid(g) && |w.value.disk| == |v.disk| && DirReady(g, w.value, dir)
            && HeapOk(w.value.table) && InRange(w.value.table) && NoNewLinks(v.table, w.value.table)
            && HomeSlots(g, w.value, dir) == HomeSlots(g, v, dir)[k := WithLength(e, |b|)]
  {
    hide Display, Live, FatImage, HeapOk, HasPredecessor, StoreSlot, Find, Rewritten, HomeSlots, FileWritten;
    var d := StorePlaces(g, v, dir, k, x, b);
    RewriteKeepsHeap(g, v, x, b);
    OnlyEndsKeepsHeap(d.table, FileWritten(g, v, dir, Home(dir), HomeSlots(g, v, dir)[k], b).value.table, dir);
    FreedChain(v.table, x);
  }

  lemma StoreFrameOf(g: Geometry, v: VolumeState, dir: Entry, k: nat, x: seq<nat>, b: seq<Byte>, y: seq<nat>)
    requires SessionInv(g, v, dir) && FileAt(g, v, dir, k, x) && OnDisk(g, v.disk, x) && |b| < SECTOR_SIZE
    requires Chain(v.table, y) && dir !in y && Disjoint(y, x)
    ensures var w := FileWritten(g, v, dir, Home(dir), HomeSlots(g, v, dir)[k], b);
            w.Some? && w.value.Valid(g) && Spared(g, v, w.value, y)
  {
    hide Display, Live, FatImage, HeapOk, HasPredecessor, StoreSlot, Find, Rewritten, HomeSlots, FileWritten;
    var d := StorePlaces(g, v, dir, k, x, b);
    RewriteFrame(g, v, x, b, y);
    assert Chain(d.table, y);
    StoreFirstSpares(g, d, dir, k, WithLength(HomeSlots(g, v, dir)[k], |b|), y);
  }

  /** The file that was written is in order and holds the data. */
  lemma StoreOwns(g: Geometry, v: VolumeState, dir: Entry, k: nat, x: seq<nat>, b: seq<Byte>)
    requires SessionInv(g, v, dir) && FileAt(g, v, dir, k, x) && OnDisk(g, v.disk, x) && |b| < SECTOR_SIZE
    requires v.table[x[0]] != 0 && !HasPredecessor(v.table, x[0])
    ensures var item := HomeSlots(g, v, dir)[k];
            var w := FileWritten(g, v, dir, Home(dir), item, b);
            && w.Some? && w.value.Valid(g)
            && FileOk(g, w.value, dir, WithLength(item, |b|)) && FileBytes(g, w.value, dir, WithLength(item, |b|)) == b
  {
    hide Display, Live, FatImage, HeapOk, HasPredecessor, StoreSlot, Find, Rewritten, HomeSlots, FileWritten;
    StoreEnds(g, v, dir, k, x, b);
    var d := StorePlaces(g, v, dir, k, x, b);
    var e := WithLength(HomeSlots(g, v, dir)[k], |b|);
    var one := [x[0]];
    StoreFirstSpares(g, d, dir, k, e, one);
    var w := FileWritten(g, v, dir, Home(dir), HomeSlots(g, v, dir)[k], b).value;
    assert w.table[one[0]] == d.table[one[0]];
    ChainOfIs(w.table, one);
    FewerPredecessors(v.table, w.table, x[0]);
  }

  lemma StoreSparesOthers(g: Geometry, v: VolumeState, dir: Entry, k: nat, x: seq<nat>, b: seq<Byte>)
    requires SessionInv(g, v, dir) && FileAt(g, v, dir, k, x) && OnDisk(g, v.disk, x) && |b| < SECTOR_SIZE
    requires var w := FileWritten(g, v, dir, Home(dir), HomeSlots(g, v, dir)[k], b);
             w.Some? && w.value.Valid(g)
    ensures OthersSpared(g, v, FileWritten(g, v, dir, Home(dir), HomeSlots(g, v, dir)[k], b).value, dir, k)
  {
    hide Display, Live, FatImage, HeapOk, HasPredecessor, FileWritten, HomeSlots, Resolve, LiveDistinct;
    var es := HomeSlots(g, v, dir);
    var w := FileWritten(g, v, dir, Home(dir), es[k], b).value;
    ChainOfIs(v.table, x);
    forall i | 0 <= i < |es| && i != k && Live(es[i]) ensures Spared(g, v, w, ChainOf(v.table, StartSector(es[i]))) {
      var y := FileChain(g, v, dir, i);
      FilesDisjoint(g, v, dir, i, k);
      StoreFrameOf(g, v, dir, k, x, b, y);
    }
  }

  lemma StoreServes(g: Geometry, v: VolumeState, dir: Entry, name: Text, b: seq<Byte>)
    requires SessionInv(g, v, dir) && Allowed(g, v, dir, Store(name, b))
    ensures var es := HomeSlots(g, v, dir);
            var k := Find(es, name);
            var e := WithLength(es[k], |b|);
            var w := FileWritten(g, v, dir, Home(dir), es[k], b);
            && w.Some? && SlotServed(g, v, w.value, dir, k, e) && Shows(e, name) && FileBytes(g, w.value, dir, e) == b
            && ActsAsInsert(es, HomeSlots(g, w.value, dir), name, e)
  {
    hide Display, Live, FatImage, HeapOk, HasPredecessor, FileWritten, HomeSlots, Resolve, FileBytes, OthersSpared, Find,
         LiveDistinct, InRange, NoNewLinks, FileOk;
    var es := HomeSlots(g, v, dir);
    Located(es, name);
    var k := Find(es, name);
    var x := FileChain(g, v, dir, k);
    StoreEnds(g, v, dir, k, x, b);
    StoreOwns(g, v, dir, k, x, b);
    ResizeRebinds(es, k, |b|);
    StoreSparesOthers(g, v, dir, k, x, b);
  }

  // ----- one request, with the directory given -----

  lemma CreateIsMapStep(g: Geometry, v: VolumeState, dir: Entry, item: NewItem, m: map<Text, seq<Byte>>)
    requires SessionInv(g, v, dir) && Holding(g, v, dir, m) && Allowed(g, v, dir, Create(item))
    ensures var w := Intended(g, v, dir, Create(item));
            w.Some? && SessionInv(g, w.value, dir) && Holding(g, w.value, dir, m[item.name := []])
  {
    hide SessionInv, Holding, FileOk, FileBytes, CreateIn, Display, Live, FirstDead, BuildEntry, HomeSlots;
    CreateServes(g, v, dir, item);
    var k, e := FirstDead(HomeSlots(g, v, dir)), item.At(ItemCluster(g, v));
    HoldingAfter(g, v, CreateIn(g, v, dir, Home(dir), item).value, dir, k, e, item.name, m, m[item.name := []]);
  }

  lemma StoreIsMapStep(g: Geometry, v: VolumeState, dir: Entry, name: Text, data: seq<Byte>, m: map<Text, seq<Byte>>)
    requires SessionInv(g, v, dir) && Holding(g, v, dir, m) && Allowed(g, v, dir, Store(name, data))
    ensures var w := Intended(g, v, dir, Store(name, data));
            w.Some? && SessionInv(g, w.value, dir) && Holding(g, w.value, dir, m[name := data])
  {
    hide Holding, FileBytes, FileWritten, Display, Live, HomeSlots, HeapOk, LiveDistinct, HasPredecessor, DirReady;
    var es := HomeSlots(g, v, dir);
    Located(es, name);
    StoreServes(g, v, dir, name, data);
    var k := Find(es, name);
    assert FileOk(g, v, dir, es[k]);
    var w := FileWritten(g, v, dir, Home(dir), es[k], data).value;
    HoldingAfter(g, v, w, dir, k, WithLength(es[k], |data|), name, m, m[name := data]);
  }

  lemma RemoveIsMapStep(g: Geometry, v: VolumeState, dir: Entry, name: Text, from: Caller, m: map<Text, seq<Byte>>)
    requires SessionInv(g, v, dir) && Holding(g, v, dir, m) && Allowed(g, v, dir, Remove(name, from))
    ensures var w := Intended(g, v, dir, Remove(name, from));
            w.Some? && SessionInv(g, w.value, dir) && Holding(g, w.value, dir, m - {name})
  {
    hide Holding, FileBytes, RemoveIn, Display, Live, HomeSlots, HeapOk, LiveDistinct, HasPredecessor, DirReady,
         FilesApart;
    var es := HomeSlots(g, v, dir);
    Located(es, name);
    RemoveServes(g, v, dir, name);
    var k := Find(es, name);
    MarkedIsDead(es[k]);
    HoldingAfter(g, v, RemoveIn(g, v, dir, Home(dir), es[k]).value, dir, k, Marked(es[k]), name, m, m - {name});
  }

  /** Given its directory, every allowed request succeeds, and does to names and contents what it means on the map. */
  lemma IntendedIsMapStep(g: Geometry, v: VolumeState, dir: Entry, r: Request, m: map<Text, seq<Byte>>)
    requires SessionInv(g, v, dir) && Holding(g, v, dir, m) && Allowed(g, v, dir, r)
    ensures var w := Intended(g, v, dir, r);
            w.Some? && SessionInv(g, w.value, dir) && Holding(g, w.value, dir, Meant(m, r))
  {
    hide SessionInv, Holding, Intended, Allowed;
    match r
    case Create(item) => CreateIsMapStep(g, v, dir, item, m);
    case Store(name, data) => StoreIsMapStep(g, v, dir, name, data, m);
    case Remove(name, from) => RemoveIsMapStep(g, v, dir, name, from, m);
  }

  // ----- one request, as the code serves it -----

  /** The second lookup of Remove_Item, for the parent of an item that was found. */
  ghost function ParentFound(g: Geometry, v: VolumeState, at: seq<Text>, name: Text, from: Caller): Paths.Outcome
    requires GoodNames(at) && GoodName(name) && Paths.Plain(from.dir)
  {
    var item := at + [name];
    var path := PathMeaning.UpToSlash(Joined(item), |item|);
    var look := VolumeTree.LookOf(g, v);
    PathMeaning.ParentPath(item);
    PathMeaning.RemoveFindsParentIff(look, from.dir, from.sector, item, path, Joined(item));
    Paths.GetItem(look, from.dir, from.sector, path, Joined(item), |item|, true)
  }

  /** The code run for the request: Remove goes on from the parent it looks up; None when that is a null pointer. */
  ghost function Served(g: Geometry, v: VolumeState, place: Place, r: Request): Option<VolumeState>
    requires place.Valid() && SessionInv(g, v, place.dir) && Allowed(g, v, place.dir, r)
  {
    match r
    case Remove(name, from) =>
      var parent := ParentFound(g, v, place.at, name, from).item;
      if parent == None then None
      else
        var dir := StartSector(parent.value);
        RemoveIn(g, v, dir, Home(dir), Resolve(HomeSlots(g, v, place.dir), name).value)
    case _ => Intended(g, v, place.dir, r)
  }

  /** A request is served as intended, except that Remove in a subdirectory is not served at all. */
  lemma ServedIff(g: Geometry, v: VolumeState, place: Place, r: Request)
    requires place.Valid() && SessionInv(g, v, place.dir) && Allowed(g, v, place.dir, r)
    ensures Served(g, v, place, r) == if r.Remove? && place.dir != 0 then None else Intended(g, v, place.dir, r)
  {
    hide SessionInv, HomeSlots;
    if r.Remove? {
      var item := place.at + [r.name];
      var path := PathMeaning.UpToSlash(Joined(item), |item|);
      var look := VolumeTree.LookOf(g, v);
      PathMeaning.RemoveFindsParentIff(look, r.from.dir, r.from.sector, item, path, Joined(item));
      if place.dir == 0 {
        PathMeaning.ParentPath(item);
        assert item[..0] == [];
        PathMeaning.RootIsFound(look, r.from.dir, r.from.sector, Joined(item), |item|, true);
      }
    }
  }

  // ----- sessions -----

  function AllMeant(m: map<Text, seq<Byte>>, run: seq<Request>): map<Text, seq<Byte>>
    decreases |run|
  {
    if run == [] then m else AllMeant(Meant(m, run[0]), run[1..])
  }

  predicate NoRemove(run: seq<Request>) { forall i | 0 <= i < |run| :: !run[i].Remove? }

  /** Each request of the run is allowed where it comes to be made. SessionInv only makes the step well formed: it is
      supplied for every state by IntendedIsMapStep. */
  ghost predicate AllAllowed(g: Geometry, v: VolumeState, place: Place, run: seq<Request>)
    requires place.Valid()
    decreases |run|
  {
    run == [] || (SessionInv(g, v, place.dir) && Allowed(g, v, place.dir, run[0])
                  && var w := Served(g, v, place, run[0]);
                     w.Some? ==> AllAllowed(g, w.value, place, run[1..]))
  }

  /** Serving the requests in order; None from the first that is not served. */
  ghost function Outcome(g: Geometry, v: VolumeState, place: Place, run: seq<Request>): Option<VolumeState>
    requires place.Valid() && AllAllowed(g, v, place, run)
    decreases |run|
  {
    if run == [] then Some(v)
    else
      var w := Served(g, v, place, run[0]);
      if w == None then None else Outcome(g, w.value, place, run[1..])
  }

  /** Over every session, of any length and in any order: it is served to its end exactly in the root, or in a
      subdirectory when nothing is removed. Then the directory's names and contents are those of a plain map to which
      the same requests were made, and the heap, the ownership of clusters and the distinctness of names are kept. */
  lemma {:induction false} SessionIsMapIff(g: Geometry, v: VolumeState, place: Place, run: seq<Request>,
                                           m: map<Text, seq<Byte>>)
    requires SessionInv(g, v, place.dir) && Holding(g, v, place.dir, m) && place.Valid()
    requires AllAllowed(g, v, place, run)
    ensures var o := Outcome(g, v, place, run);
            && (o.Some? <==> place.dir == 0 || NoRemove(run))
            && (o.Some? ==> SessionInv(g, o.value, place.dir) && Holding(g, o.value, place.dir, AllMeant(m, run)))
    decreases |run|
  {
    hide SessionInv, Holding, Served, Intended, Allowed, Meant;
    if run != [] {
      var r := run[0];
      ServedIff(g, v, place, r);
      IntendedIsMapStep(g, v, place.dir, r, m);
      assert NoRemove(run) <==> !r.Remove? && NoRemove(run[1..]) by {
        assert run == [r] + run[1..];
      }
      if Served(g, v, place, r).Some? {
        SessionIsMapIff(g, Served(g, v, place, r).value, place, run[1..], Meant(m, r));
      }
    }
  }

  /** v' is reached from v by the requests in order, Remove being given its directory. SessionInv as in AllAllowed. */
  ghost predicate IsIntendedSession(g: Geometry, v: VolumeState, dir: Entry, run: seq<Request>, v': VolumeState)
    decreases |run|
  {
    if run == [] then v == v'
    else
      SessionInv(g, v, dir) && Allowed(g, v, dir, run[0]) && Intended(g, v, dir, run[0]).Some?
      && IsIntendedSession(g, Intended(g, v, dir, run[0]).value, dir, run[1..], v')
  }

  /** With the intended Remove a subdirectory is a map as well, over every session. */
  lemma {:induction false} IntendedSessionIsMap(g: Geometry, v: VolumeState, dir: Entry, run: seq<Request>,
                                                v': VolumeState, m: map<Text, seq<Byte>>)
    requires SessionInv(g, v, dir) && Holding(g, v, dir, m) && IsIntendedSession(g, v, dir, run, v')
    ensures SessionInv(g, v', dir) && Holding(g, v', dir, AllMeant(m, run))
    decreases |run|
  {
    hide SessionInv, Holding, Intended, Allowed, Meant;
    if run != [] {
      IntendedIsMapStep(g, v, dir, run[0], m);
      IntendedSessionIsMap(g, Intended(g, v, dir, run[0]).value, dir, run[1..], v', Meant(m, run[0]));
    }
  }

  // ----- where sessions start -----

  /** An empty directory that nothing links into is the empty map. */
  lemma EmptyDirectoryStarts(g: Geometry, v: VolumeState, dir: Entry)
    requires v.Valid(g) && HeapOk(v.table) && InRange(v.table) && DirReady(g, v, dir)
    requires (dir != 0 ==> !HasPredecessor(v.table, dir)) && NoneLiveFrom(HomeSlots(g, v, dir), 0)
    ensures SessionInv(g, v, dir) && Holding(g, v, dir, map[])
  {
    hide HomeSlots, HeapOk, HasPredecessor, Display, Live;
    var es := HomeSlots(g, v, dir);
    forall n: Text ensures Resolve(es, n) == None {
      FindIs(es, n, |es|);
    }
  }

  lemma ZeroSectorsAreEmpty(s: seq<Sector>)
    requires forall i | 0 <= i < |s| :: s[i] == ZeroSector()
    ensures NoneLiveFrom(SlotsOf(s), 0)
  {
    var es := SlotsOf(s);
    forall i | 0 <= i < |es| ensures !Live(es[i]) {
      assert es[i] == Slot(s[i / SLOTS], i % SLOTS);
      assert es[i][0] == ZeroSector()[32 * (i % SLOTS)];
    }
  }

  /** The cluster given to a new item is wiped, and its entry in the parent is stored elsewhere. */
  lemma NewItemIsWiped(g: Geometry, v: VolumeState, dir: Entry, item: NewItem)
    requires v.Valid(g) && DirReady(g, v, dir) && Allowed(g, v, dir, Create(item))
    ensures var w := CreateIn(g, v, dir, Home(dir), item);
            w.Some? && Contents(g, w.value.disk, [ItemCluster(g, v)]) == [ZeroSector()]
  {
    hide Display, Live, CreateIn, StoreSlot, BuildEntry, Accepted, FirstDead, HomeSlots, FatImage;
    var start := ItemCluster(g, v);
    CreateIsStore(g, v, dir, item);
    WipedCluster(g, v);
    var a := Allocated(g, v).value;
    var one := [start];
    assert Chain(a.table, one);
    if dir != 0 {
      assert v.table[dir] != 0;
    }
    StoreFirstSpares(g, a, dir, FirstDead(HomeSlots(g, v, dir)), item.At(start), one);
  }

  /** A directory just created in a directory is a new session, with the empty map. */
  lemma NewDirectoryStarts(g: Geometry, v: VolumeState, dir: Entry, item: NewItem)
    requires SessionInv(g, v, dir) && Allowed(g, v, dir, Create(item))
    ensures var w := CreateIn(g, v, dir, Home(dir), item);
            var start := ItemCluster(g, v);
            w.Some? && SessionInv(g, w.value, start) && Holding(g, w.value, start, map[])
  {
    hide Display, Live, CreateIn, BuildEntry, HasPredecessor, FirstDead, HeapOk, LiveDistinct, Resolve, Holding,
         Accepted, InRange, FilesApart;
    var start := ItemCluster(g, v);
    CreatePlaces(g, v, dir, item);
    NewItemIsWiped(g, v, dir, item);
    ZeroSectorsAreEmpty([ZeroSector()]);
    var w := CreateIn(g, v, dir, Home(dir), item).value;
    FreeHasNone(v.table, start);
    FewerPredecessors(v.table, w.table, start);
    var one: seq<nat> := [start];
    assert Chain(w.table, one);
    EmptyDirectoryStarts(g, w, start);
  }

  /** A blank 1.44 MB disk on which the first cluster behind the root is an empty directory. */
  lemma BlankDiskStarts() returns (g: Geometry, v: VolumeState, dir: Entry)
    ensures g.Valid() && |v.disk| == 2880 && SessionInv(g, v, dir) && Holding(g, v, dir, map[])
    ensures dir != 0 && SessionInv(g, v, 0) && Holding(g, v, 0, map[])
  {
    g, dir := Geometry(2, FAT_SECTORS, 224), 14;
    var t: Table := seq(TABLE_SIZE, i => if i == 14 then LAST_SECTOR else 0);
    v := VolumeState(t, seq(2880, _ => ZeroSector()));
    assert forall i | 0 <= i < TABLE_SIZE :: EndOfChain(t[i]);
    var one: seq<nat> := [14];
    assert Chain(t, one) && one[0] == 14;
    assert Contents(g, v.disk, one) == [ZeroSector()];
    ZeroSectorsAreEmpty([ZeroSector()]);
    EmptyDirectoryStarts(g, v, dir);
    ZeroSectorsAreEmpty(RootArea(g, v));
    EmptyDirectoryStarts(g, v, 0);
  }

  // ----- reading a file by name -----

  /** A name the map holds belongs to a file whose pieces are what the map says. */
  lemma NamedFile(g: Geometry, v: VolumeState, dir: Entry, name: Text, m: map<Text, seq<Byte>>) returns (c: seq<nat>)
    requires SessionInv(g, v, dir) && Holding(g, v, dir, m) && name in m
    ensures Resolve(HomeSlots(g, v, dir), name).Some?
    ensures var e := Resolve(HomeSlots(g, v, dir), name).value;
            && Chain(v.table, c) && c[0] == StartSector(e)
            && Pieces(g, v, c[0], FileLength(e), SECTOR_SIZE, 0) == Some(m[name])
  {
    hide Live, Display, HomeSlots, HeapOk, HasPredecessor, Total, Bytes;
    var es := HomeSlots(g, v, dir);
    Located(es, name);
    var e := es[Find(es, name)];
    assert FileOk(g, v, dir, e);
    c := ChainOf(v.table, StartSector(e));
    PiecesOnChain(g, v, c, FileLength(e), 0);
  }

  /** Looking a name up and reading the file through a new handle yields what the map holds. */
  method ReadNamed(vol: Volume, dir: Entry, name: Text, ghost m: map<Text, seq<Byte>>)
    returns (bytes: Option<seq<Byte>>)
    requires vol.Valid() && SessionInv(vol.geometry, vol.State(), dir) && Holding(vol.geometry, vol.State(), dir, m)
    ensures bytes == if name in m then Some(m[name]) else None
  {
    hide HeapOk, HasPredecessor, FileBytes, FileOk, Live, LiveDistinct, Pieces;
    var found := LookupIn(vol, dir, name, Home(dir));
    if found.None? {
      return None;
    }
    ghost var c := NamedFile(vol.geometry, vol.State(), dir, name, m);
    var handle := new FileHandle(found.value);
    bytes := handle.ReadAll(vol, SECTOR_SIZE, c);
  }
}
