/** Files that Create_Item left without a cluster, because none was free: they start at sector 0, the root. */
module RootFiles {
  import opened Fat12Types
  import opened Chains
  import opened FatHeap
  import opened ItemData
  import opened Names
  import opened Directories
  import opened DirectoryItems
  import opened CreateLimits
  import opened FileData
  import opened FileWrite

  /** Create_Item without a free cluster leaves an item that starts at sector 0, and marks entry 0 as the end. */
  lemma NoClusterItem(g: Geometry, v: VolumeState, dir: Entry, c: seq<nat>, item: NewItem)
    requires v.Valid(g) && (dir != 0 ==> DirChain(g, v, dir, c)) && Accepted(item.name) && ItemCluster(g, v) == 0
    ensures var w := CreateIn(g, v, dir, c, item);
            w.Some? && w.value.table[0] == LAST_SECTOR && StartSector(item.At(ItemCluster(g, v))) == 0
  {
    hide Display, Live, FatImage, BuildEntry, Accepted, FirstDead, WriteItem, StoreSlot, AppendSector, Allocated;
    BuiltFields(item.name, item.garbage, item.attribute, item.time, item.date, 0);
    AllocatedAlways(g, v);
    EntryZeroEnds(g, v);
    if dir == 0 {
      PlaceInRoot(g, Allocated(g, v).value, c, item.At(0));
    } else if Full(DirSlots(g, v, dir, c)) {
      AllocatedKeeps(g, v, c);
      AppendEndsEntry(g, Allocated(g, v).value, dir, item.At(0));
    } else {
      CreateIsSlot(g, v, dir, c, item);
      StoreSlotOnChain(g, Allocated(g, v).value, dir, c, FirstDead(DirSlots(g, v, dir, c)), item.At(0));
    }
  }

  lemma EntryZeroEnds(g: Geometry, v: VolumeState)
    requires v.Valid(g) && ItemCluster(g, v) == 0 && Allocated(g, v).Some?
    ensures Allocated(g, v).value.table[0] == LAST_SECTOR
  {
  }

  lemma PlaceInRoot(g: Geometry, v: VolumeState, c: seq<nat>, e: DirEntry)
    requires v.Valid(g) && v.table[0] == LAST_SECTOR && FindFree(v.table, g.RootSectors()) == 0
    ensures var w := PlaceIn(g, v, 0, c, e);
            w.Some? && w.value.table[0] == LAST_SECTOR
  {
    hide Display, Live, FatImage, FirstDead, SlotsOf, AppendSector;
    AppendEndsEntry(g, v, 0, e);
  }

  lemma AppendEndsEntry(g: Geometry, v: VolumeState, dir: Entry, e: DirEntry)
    requires v.Valid(g) && dir < TABLE_SIZE && FindFree(v.table, g.RootSectors()) == 0
    ensures var w := AppendSector(g, v, dir, e);
            w.Some? && w.value.table[0] == LAST_SECTOR
  {
    AppendWithoutRoom(g, v, dir, e);
  }

  // ----- reading -----

  /** Every read finds the first root sector, up to the end of that sector; behind it the walk leaves the table. */
  lemma NoClusterReadAt(g: Geometry, v: VolumeState, length: nat, index: nat)
    requires v.Valid(g) && v.table[0] == LAST_SECTOR && index < length && index < 2 * SECTOR_SIZE
    ensures ReadAt(g, v, 0, length, index + 1, SECTOR_SIZE) ==
            if index >= SECTOR_SIZE then None
            else Some(RootArea(g, v)[0][..if length < SECTOR_SIZE then length else length % SECTOR_SIZE])
  {
    assert Walk(v.table, 0, 0) == Some(0) && Walk(v.table, 0, 1) == Some(LAST_SECTOR);
    var none: seq<Byte> := [];
    var x := RootArea(g, v)[0];
    var n := if length < SECTOR_SIZE then length else length % SECTOR_SIZE;
    assert index < SECTOR_SIZE ==> Block(g, v, 0) == x && none + x[..n] == x[..n];
  }

  lemma {:induction false} NoClusterLeavesTable(g: Geometry, v: VolumeState, length: nat, index: nat)
    requires v.Valid(g) && v.table[0] == LAST_SECTOR
    requires index < length && index < 2 * SECTOR_SIZE && length > SECTOR_SIZE && length % SECTOR_SIZE != 0
    ensures Pieces(g, v, 0, length, SECTOR_SIZE, index) == None
    decreases length - index
  {
    NoClusterReadAt(g, v, length, index);
    if index < SECTOR_SIZE {
      NoClusterLeavesTable(g, v, length, index + length % SECTOR_SIZE);
    }
  }

  /** Reading to the end a file without a cluster, entry 0 being the end: the beginning of the root for less than a
      sector, nothing for whole sectors, and otherwise an access outside the table. */
  lemma NoClusterReads(g: Geometry, v: VolumeState, length: nat)
    requires v.Valid(g) && v.table[0] == LAST_SECTOR
    ensures Pieces(g, v, 0, length, SECTOR_SIZE, 0) ==
            if length < SECTOR_SIZE then Some(RootArea(g, v)[0][..length])
            else if length % SECTOR_SIZE == 0 then Some([])
            else None
  {
    if length > SECTOR_SIZE && length % SECTOR_SIZE != 0 {
      NoClusterLeavesTable(g, v, length, 0);
    } else if length > 0 {
      NoClusterReadAt(g, v, length, 0);
      assert RootArea(g, v)[0][..0] == [];
      var r := RootArea(g, v)[0][..length % SECTOR_SIZE];
      assert length < SECTOR_SIZE ==> r + [] == r;
    } else {
      assert RootArea(g, v)[0][..0] == [];
    }
  }

  // ----- writing -----

  /** The free entries below n are linked to their successors, and entry n ends the chain. */
  ghost predicate LinkedUpTo(t: Table, t': Table, n: nat) {
    n < TABLE_SIZE
    && forall i | 0 <= i < TABLE_SIZE :: t'[i] == if i == n then LAST_SECTOR else if i < n && t[i] == 0 then i + 1 else t[i]
  }

  /** The data goes over the root, and on over the clusters behind it, if the disk has room for all of it. */
  ghost predicate OverRoot(g: Geometry, d: seq<Sector>, d': seq<Sector>, xs: seq<Sector>)
    requires g.Valid()
  {
    && |d'| == |d|
    && forall l | FAT_SECTORS < l < |d| ::
         var i := l - g.DirStart();
         d'[l] == if 0 <= i < |xs| && g.DirStart() + |xs| <= |d| then xs[i] else d[l]
  }

  /** File_Handle::Write on such a file: what is linked from entry 0 is freed, and then the data is written over the
      root. It stays inside the table exactly for less than 3072 sectors. */
  lemma NoClusterWriteIff(g: Geometry, v: VolumeState, b: seq<Byte>)
    requires v.Valid(g) && InRange(v.table)
    ensures var w := Rewritten(g, v, 0, b);
            && (w.Some? <==> |Sectors(b)| < TABLE_SIZE)
            && (w.Some? ==> && w.value.Valid(g) && LinkedUpTo(Freed(v.table, 0), w.value.table, |Sectors(b)|)
                            && OverRoot(g, v.disk, w.value.disk, Sectors(b)))
  {
    hide FatImage, Freed;
    var xs, t := Sectors(b), Freed(v.table, 0);
    if |xs| < TABLE_SIZE {
      var u := VolumeState(Seal(RootLinks(t, |xs|), |xs|), PutRun(v.disk, g.DirStart(), xs[..|xs|]));
      assert Rewritten(g, v, 0, b) == Some(Saved(u));
      SavedPlaces(g, u);
      assert g.DirStart() > FAT_SECTORS && xs[..|xs|] == xs;
    }
  }

  lemma NoStep(t: Table, n: nat)
    requires InRange(t) && EndOfChain(t[0]) && LinksFor(t, 0, n)
    ensures n == 0
  {
    assert WalkIn(t, 0, 0);
  }

  /** When entry 0 ends, nothing but it is freed. */
  lemma NothingFreed(t: Table)
    requires InRange(t) && EndOfChain(t[0])
    ensures Freed(t, 0) == t[0 := 0]
  {
    assert Walk(t, 0, 0) == Some(0) && LinksFor(t, 0, 0);
    forall x: nat | Reachable(t, 0, x) ensures x == 0 {
      var n: nat :| LinksFor(t, 0, n) && Walk(t, 0, n) == Some(x);
      NoStep(t, n);
    }
  }

  /** In the root, every name of the sectors written over is lost: their slots are read from the file's data. */
  lemma NoClusterWriteSlots(g: Geometry, v: VolumeState, b: seq<Byte>)
    requires v.Valid(g) && InRange(v.table) && |Sectors(b)| <= g.RootSectors() && |Sectors(b)| < TABLE_SIZE
    ensures var w := Rewritten(g, v, 0, b);
            w.Some? && w.value.Valid(g) && SLOTS * |Sectors(b)| <= |DirSlots(g, v, 0, [])|
            && DirSlots(g, w.value, 0, []) == SlotsOf(Sectors(b)) + DirSlots(g, v, 0, [])[SLOTS * |Sectors(b)|..]
  {
    hide FatImage, Rewritten;
    NoClusterWriteIff(g, v, b);
    var w := Rewritten(g, v, 0, b).value;
    var xs, root := Sectors(b), RootArea(g, v);
    assert RootArea(g, w) == xs + root[|xs|..];
    SlotsOfAppend(xs, root[|xs|..]);
    SlotsOfAppend(root[..|xs|], root[|xs|..]);
    assert root == root[..|xs|] + root[|xs|..];
  }

  /** Less than a sector of contents is read back as written. */
  lemma NoClusterReadsBack(g: Geometry, v: VolumeState, b: seq<Byte>)
    requires v.Valid(g) && InRange(v.table) && |b| < SECTOR_SIZE
    ensures var w := Rewritten(g, v, 0, b);
            w.Some? && w.value.Valid(g) && Pieces(g, w.value, 0, |b|, SECTOR_SIZE, 0) == Some(b)
  {
    hide FatImage, Rewritten;
    NoClusterWriteIff(g, v, b);
    var w := Rewritten(g, v, 0, b).value;
    assert RootArea(g, w)[0] == Sectors(b)[0];
    assert Sectors(b)[0][..|b|] == b;
    if b != [] {
      OnePiece(g, w, |b|);
    }
  }

  lemma OnePiece(g: Geometry, v: VolumeState, length: nat)
    requires v.Valid(g) && 0 < length < SECTOR_SIZE
    ensures Pieces(g, v, 0, length, SECTOR_SIZE, 0) == Some(RootArea(g, v)[0][..length])
  {
    var x := RootArea(g, v)[0];
    var none: seq<Byte> := [];
    assert Walk(v.table, 0, 0) == Some(0) && none + x[..length] == x[..length] == x[..length] + none;
    assert ReadAt(g, v, 0, length, 1, SECTOR_SIZE) == Some(x[..length]);
  }

  /** The chain of the directory that lists the file, afterwards: it is cut behind cluster n. */
  function CutBehind(c: seq<nat>, n: nat): (r: seq<nat>)
    ensures |r| <= |c| && r == c[..|r|] && forall i | 0 <= i < |r| - 1 :: r[i] != n
    ensures |r| < |c| ==> r != [] && r[|r| - 1] == n
  {
    if c == [] then [] else if c[0] == n then [n] else [c[0]] + CutBehind(c[1..], n)
  }

  /** File_Handle::Write comes to its end: a subdirectory that lists the file can be read afterwards, as far as the
      first cluster behind the data if that is one of its own. */
  lemma NoClusterWriteFinishes(g: Geometry, v: VolumeState, dir: Entry, c: seq<nat>, item: DirEntry, b: seq<Byte>)
    requires v.Valid(g) && InRange(v.table) && EndOfChain(v.table[0]) && StartSector(item) == 0
    requires dir != 0 ==> DirChain(g, v, dir, c)
    ensures Finishes(g, v, dir, CutBehind(c, |Sectors(b)|), item, b)
  {
    hide FatImage, Rewritten, Sectors;
    NoClusterWriteIff(g, v, b);
    NothingFreed(v.table);
    var n, r := |Sectors(b)|, CutBehind(c, |Sectors(b)|);
    if dir != 0 && Rewritten(g, v, 0, b).Some? {
      NonZeroOn(v.table, c);
      var t' := Rewritten(g, v, 0, b).value.table;
      forall i | 0 <= i < |r| ensures t'[r[i]] == if r[i] == n then LAST_SECTOR else v.table[r[i]] {
        assert r[i] == c[i];
      }
      assert Chain(t', r);
    }
  }

  /** Less than two sectors of contents keep the heap; more can link free clusters to used ones. */
  lemma NoClusterWriteKeepsHeap(g: Geometry, v: VolumeState, b: seq<Byte>)
    requires v.Valid(g) && InRange(v.table) && HeapOk(v.table) && EndOfChain(v.table[0]) && |b| < 2 * SECTOR_SIZE
    ensures var w := Rewritten(g, v, 0, b);
            w.Some? && HeapOk(w.value.table)
  {
    hide FatImage, Rewritten, Sectors, HeapOk;
    NoClusterWriteIff(g, v, b);
    NothingFreed(v.table);
    var t' := Rewritten(g, v, 0, b).value.table;
    if |Sectors(b)| == 1 {
      HeapIgnoresReserved(v.table, t');
    } else {
      SealKeepsHeap(v.table, 2);
      HeapIgnoresReserved(Seal(v.table, 2), t');
    }
  }
}
