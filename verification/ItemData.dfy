/** What Read_Item, Write_Item and Remove_Item_Data do to a volume, as functions on its value. */
module ItemData {
  import opened Fat12Types
  import opened TablePacking
  import opened Chains
  import opened FatHeap

  /** The in-memory table and the blocks of the disk. */
  datatype VolumeState = VolumeState(table: Table, disk: seq<Sector>) {
    /** The first copy of the table and the root directory lie on the disk. */
    predicate Valid(g: Geometry) {
      g.Valid() && |disk| >= g.DirStart() + g.RootSectors()
    }

    /** The first table copy on the disk is the packed in-memory table. */
    predicate Synced() {
      |disk| > FAT_SECTORS && disk[1..1 + FAT_SECTORS] == FatImage(table)
    }
  }

  // ----- the disk -----

  /** A request past the end of the disk is refused: a write is lost, a read leaves the buffer alone. */
  function Put(d: seq<Sector>, lba: nat, x: Sector): (r: seq<Sector>)
    ensures |r| == |d|
  {
    if lba < |d| then d[lba := x] else d
  }

  function Get(d: seq<Sector>, lba: nat, was: Sector): Sector {
    if lba < |d| then d[lba] else was
  }

  function PutRun(d: seq<Sector>, lba: nat, xs: seq<Sector>): (r: seq<Sector>)
    ensures |r| == |d|
  {
    if lba + |xs| <= |d| then d[..lba] + xs + d[lba + |xs|..] else d
  }

  /** The sectors laid end to end. */
  function Bytes(s: seq<Sector>): (b: seq<Byte>)
    ensures |b| == |s| * SECTOR_SIZE
  {
    if s == [] then [] else Bytes(s[..|s| - 1]) + s[|s| - 1]
  }

  function FatImage(t: Table): seq<Sector> {
    var b := Pack(t);
    seq(FAT_SECTORS, k requires 0 <= k < FAT_SECTORS => b[k * SECTOR_SIZE..k * SECTOR_SIZE + SECTOR_SIZE])
  }

  /** Save_FAT12_Table: every copy is written at the first copy's place. */
  function Saved(v: VolumeState): VolumeState {
    v.(disk := PutRun(v.disk, 1, FatImage(v.table)))
  }

  // ----- the regions of the disk -----

  predicate InTables(g: Geometry, lba: nat) {
    exists j :: 0 <= j < g.fatsCount && 1 + FAT_SECTORS * j <= lba < 1 + FAT_SECTORS * (j + 1)
  }

  predicate InRoot(g: Geometry, lba: nat) { g.DirStart() <= lba < g.DirStart() + g.RootSectors() }

  ghost predicate InData(g: Geometry, lba: nat)
    requires g.Valid()
  {
    exists c: nat :: c >= 2 && g.Lba(c) == lba
  }

  function One(b: bool): nat { if b then 1 else 0 }

  /** Every block behind the boot sector belongs to a copy of the table, to the root or to a cluster, and to one of them
      only; no two clusters share a block; and the root holds its entries, as far as they fill sectors. */
  lemma RegionsPartition(g: Geometry, lba: nat)
    requires g.Valid()
    ensures One(lba == 0) + One(InTables(g, lba)) + One(InRoot(g, lba)) + One(InData(g, lba)) == 1
    ensures forall c: nat, e: nat | g.Lba(c) == g.Lba(e) :: c == e
    ensures g.RootSectors() * SECTOR_SIZE <= g.rootEntries * 32 < (g.RootSectors() + 1) * SECTOR_SIZE
  {
    if 1 <= lba < g.DirStart() {
      var j := (lba - 1) / FAT_SECTORS;
      assert 0 <= j < g.fatsCount && 1 + FAT_SECTORS * j <= lba < 1 + FAT_SECTORS * (j + 1);
    }
    if lba >= g.DirStart() + g.RootSectors() {
      assert g.Lba(lba - g.DirStart() - g.RootSectors() + 2) == lba;
    }
  }

  // ----- Write_Item -----

  /** The loop over the sectors after the first, at being the cluster last written. A missing next
      sector is replaced by a free one, which is linked from the terminator that was read. */
  function WriteRest(g: Geometry, v: VolumeState, file: seq<Sector>, i: nat, count: nat, at: Entry)
    : (r: Option<(VolumeState, Entry)>)
    requires g.Valid() && count <= |file|
    ensures r.Some? ==> |r.value.0.disk| == |v.disk|
    decreases count - i
  {
    if i >= count then Some((v, at))
    else if at >= TABLE_SIZE then None
    else
      var next := v.table[at];
      if !EndOfChain(next) then
        WriteRest(g, v.(disk := Put(v.disk, g.Lba(next), file[i])), file, i + 1, count, next)
      else if next >= TABLE_SIZE then None
      else
        var free := FindFree(v.table, g.RootSectors());
        WriteRest(g, VolumeState(v.table[next := free], Put(v.disk, g.Lba(free), file[i])), file, i + 1, count, free)
  }

  /** The same loop when a new chain is being built: every sector is a free one. */
  function WriteFresh(g: Geometry, v: VolumeState, file: seq<Sector>, i: nat, count: nat, at: Entry)
    : (r: Option<(VolumeState, Entry)>)
    requires g.Valid() && count <= |file|
    ensures r.Some? ==> |r.value.0.disk| == |v.disk|
    decreases count - i
  {
    if i >= count then Some((v, at))
    else if at >= TABLE_SIZE then None
    else
      var free := FindFree(v.table, g.RootSectors());
      WriteFresh(g, VolumeState(v.table[at := free], Put(v.disk, g.Lba(free), file[i])), file, i + 1, count, free)
  }

  function Finished(r: Option<(VolumeState, Entry)>): Option<VolumeState> {
    match r
    case None => None
    case Some((v, at)) => if at < TABLE_SIZE then Some(Saved(v.(table := Seal(v.table, at)))) else None
  }

  function RootLinks(t: Table, count: nat): Table {
    seq(TABLE_SIZE, i requires 0 <= i < TABLE_SIZE => if i < count && t[i] == 0 then i + 1 else t[i])
  }

  /** None stands for an access outside the table. num is None for the "append" position. */
  function WriteItem(g: Geometry, v: VolumeState, file: seq<Sector>, start: Entry, num: Option<nat>, count: nat)
    : (r: Option<VolumeState>)
    requires g.Valid() && 1 <= |file| && count <= |file|
    ensures r.Some? ==> |r.value.disk| == |v.disk|
  {
    if start == 0 then
      if count < TABLE_SIZE then
        Some(Saved(VolumeState(Seal(RootLinks(v.table, count), count), PutRun(v.disk, g.DirStart(), file[..count]))))
      else None
    else if num.Some? then
      match Walk(v.table, start, num.value)
      case None => None
      case Some(at) =>
        Finished(WriteRest(g, v.(disk := Put(v.disk, g.Lba(at), file[0])), file, 1, count, at))
    else
      Finished(WriteFresh(g, v.(disk := Put(v.disk, g.Lba(start), file[0])), file, 1, count, start))
  }

  // ----- Read_Item -----

  function ReadRest(g: Geometry, v: VolumeState, buffer: seq<Sector>, i: nat, count: nat, at: Entry)
    : (r: Option<seq<Sector>>)
    requires g.Valid() && count <= |buffer|
    decreases count - i
  {
    if i >= count then Some(buffer)
    else if at >= TABLE_SIZE then None
    else
      var next := v.table[at];
      if EndOfChain(next) then Some(buffer)
      else ReadRest(g, v, buffer[i := Get(v.disk, g.Lba(next), buffer[i])], i + 1, count, next)
  }

  function ReadItem(g: Geometry, v: VolumeState, buffer: seq<Sector>, start: Entry, num: nat, count: nat)
    : (r: Option<seq<Sector>>)
    requires g.Valid() && 1 <= |buffer| && count <= |buffer|
  {
    if start == 0 then
      if g.DirStart() + count <= |v.disk| then
        Some(v.disk[g.DirStart()..g.DirStart() + count] + buffer[count..])
      else Some(buffer)
    else
      match Walk(v.table, start, num)
      case None => None
      case Some(at) => ReadRest(g, v, buffer[0 := Get(v.disk, g.Lba(at), buffer[0])], 1, count, at)
  }

  // ----- what they mean on a chain -----

  function AtLeastOne(count: nat): nat {
    if count == 0 then 1 else count
  }

  /** The blocks of the clusters cs overwritten, in order, by xs. */
  function PutAll(g: Geometry, d: seq<Sector>, cs: seq<nat>, xs: seq<Sector>): (r: seq<Sector>)
    requires g.Valid() && |cs| <= |xs|
    ensures |r| == |d|
    decreases |cs|
  {
    if cs == [] then d else PutAll(g, Put(d, g.Lba(cs[0]), xs[0]), cs[1..], xs[1..])
  }

  function Contents(g: Geometry, d: seq<Sector>, cs: seq<nat>): (r: seq<Sector>)
    requires g.Valid()
  {
    seq(|cs|, i requires 0 <= i < |cs| => Get(d, g.Lba(cs[i]), ZeroSector()))
  }

  predicate OnDisk(g: Geometry, d: seq<Sector>, cs: seq<nat>)
    requires g.Valid()
  {
    forall i | 0 <= i < |cs| :: g.Lba(cs[i]) < |d|
  }

  lemma {:induction false} WriteRestOnChain(g: Geometry, v: VolumeState, file: seq<Sector>, i: nat, count: nat,
                                            c: seq<nat>, k: nat)
    requires g.Valid() && Chain(v.table, c) && k < |c| && i <= count <= |file|
    ensures k + count - i < |c| ==>
              WriteRest(g, v, file, i, count, c[k]) ==
              Some((v.(disk := PutAll(g, v.disk, c[k + 1..k + 1 + count - i], file[i..])), c[k + count - i]))
    ensures k + count - i >= |c| && v.table[c[|c| - 1]] != 0 ==> WriteRest(g, v, file, i, count, c[k]) == None
    decreases count - i
  {
    if i < count {
      if k + 1 < |c| {
        assert v.table[c[k]] == c[k + 1];
        var v1 := v.(disk := Put(v.disk, g.Lba(c[k + 1]), file[i]));
        WriteRestOnChain(g, v1, file, i + 1, count, c, k + 1);
        if k + count - i < |c| {
          var cs := c[k + 1..k + 1 + count - i];
          assert cs[1..] == c[k + 2..k + 1 + count - i];
          assert file[i..][1..] == file[i + 1..];
        }
      }
    } else {
      assert c[k + 1..k + 1] == [];
    }
  }

  /** The volume after count sectors of file were written over the clusters of c from number num on: the
      last one written ends the chain. */
  function Written(g: Geometry, v: VolumeState, file: seq<Sector>, c: seq<nat>, num: nat, count: nat): VolumeState
    requires g.Valid() && 1 <= count <= |file| && num + count <= |c|
    requires forall i | 0 <= i < |c| :: c[i] < TABLE_SIZE
  {
    Saved(VolumeState(Seal(v.table, c[num + count - 1]), PutAll(g, v.disk, c[num..num + count], file)))
  }

  lemma WriteWithinChain(g: Geometry, v: VolumeState, file: seq<Sector>, c: seq<nat>, num: nat, count: nat)
    requires g.Valid() && Chain(v.table, c) && 1 <= count <= |file| && num + count <= |c|
    ensures WriteItem(g, v, file, c[0], Some(num), count) == Some(Written(g, v, file, c, num, count))
  {
    hide FatImage, Walk, PutRun;
    WalkOnChain(v.table, c, num);
    var v1 := v.(disk := Put(v.disk, g.Lba(c[num]), file[0]));
    WriteRestOnChain(g, v1, file, 1, count, c, num);
    assert c[num..num + count][1..] == c[num + 1..num + count];
  }

  lemma WritePastChain(g: Geometry, v: VolumeState, file: seq<Sector>, c: seq<nat>, num: nat, count: nat)
    requires g.Valid() && Chain(v.table, c) && 1 <= |file| && count <= |file|
    requires v.table[c[|c| - 1]] != 0 && num + AtLeastOne(count) > |c|
    ensures WriteItem(g, v, file, c[0], Some(num), count) == None
  {
    WalkOnChain(v.table, c, num);
    if num < |c| {
      var v1 := v.(disk := Put(v.disk, g.Lba(c[num]), file[0]));
      WriteRestOnChain(g, v1, file, 1, count, c, num);
    } else if num == |c| {
      var at := v.table[c[|c| - 1]];
      assert at >= TABLE_SIZE;
    }
  }

  /** On a properly ended chain Write_Item stays inside the table exactly when the chain already has the
      clusters to be written: growing past its end never works. */
  lemma WriteStaysInTableIff(g: Geometry, v: VolumeState, file: seq<Sector>, c: seq<nat>, num: nat, count: nat)
    requires g.Valid() && Chain(v.table, c) && 1 <= |file| && count <= |file|
    requires v.table[c[|c| - 1]] != 0
    ensures WriteItem(g, v, file, c[0], Some(num), count).Some? <==> num + AtLeastOne(count) <= |c|
  {
    if num + AtLeastOne(count) > |c| {
      WritePastChain(g, v, file, c, num, count);
    } else {
      WriteWithinChain(g, v, file, c, num, AtLeastOne(count));
      WalkOnChain(v.table, c, num);
    }
  }

  lemma {:induction false} ReadRestOnChain(g: Geometry, v: VolumeState, buffer: seq<Sector>, i: nat, count: nat,
                                           c: seq<nat>, k: nat)
    requires g.Valid() && Chain(v.table, c) && k < |c| && i <= count <= |buffer|
    requires OnDisk(g, v.disk, c)
    requires k + count - i < |c|
    ensures ReadRest(g, v, buffer, i, count, c[k]) ==
            Some(buffer[..i] + Contents(g, v.disk, c[k + 1..k + 1 + count - i]) + buffer[count..])
    decreases count - i
  {
    if i < count {
      assert v.table[c[k]] == c[k + 1];
      var b1 := buffer[i := Get(v.disk, g.Lba(c[k + 1]), buffer[i])];
      ReadRestOnChain(g, v, b1, i + 1, count, c, k + 1);
      var x := v.disk[g.Lba(c[k + 1])];
      var rest := Contents(g, v.disk, c[k + 2..k + 1 + count - i]);
      assert Contents(g, v.disk, c[k + 1..k + 1 + count - i]) == [x] + rest;
      assert b1[..i + 1] + rest + b1[count..] == buffer[..i] + ([x] + rest) + buffer[count..];
    } else {
      assert buffer == buffer[..i] + [] + buffer[count..];
      assert Contents(g, v.disk, c[k + 1..k + 1]) == [];
    }
  }

  /** Reading count clusters of a chain from number num on yields their contents. */
  lemma ReadOnChain(g: Geometry, v: VolumeState, buffer: seq<Sector>, c: seq<nat>, num: nat, count: nat)
    requires g.Valid() && Chain(v.table, c) && 1 <= count <= |buffer| && num + count <= |c|
    requires OnDisk(g, v.disk, c)
    ensures ReadItem(g, v, buffer, c[0], num, count) ==
            Some(Contents(g, v.disk, c[num..num + count]) + buffer[count..])
  {
    WalkOnChain(v.table, c, num);
    var b1 := buffer[0 := Get(v.disk, g.Lba(c[num]), buffer[0])];
    ReadRestOnChain(g, v, b1, 1, count, c, num);
    var cs := c[num..num + count];
    assert Contents(g, v.disk, cs) == [v.disk[g.Lba(c[num])]] + Contents(g, v.disk, c[num + 1..num + count]);
    assert b1[..1] == [v.disk[g.Lba(c[num])]];
    assert b1[count..] == buffer[count..];
  }

  /** Read_Item asked for more than the chain has: the clusters there are, and the rest of the buffer as it was. */
  lemma ReadPastChain(g: Geometry, v: VolumeState, buffer: seq<Sector>, c: seq<nat>, num: nat, count: nat)
    requires g.Valid() && Chain(v.table, c) && OnDisk(g, v.disk, c)
    requires num < |c| && 1 <= |buffer| && count <= |buffer| && num + count > |c|
    ensures ReadItem(g, v, buffer, c[0], num, count) == Some(Contents(g, v.disk, c[num..]) + buffer[|c| - num..])
  {
    var got := |c| - num;
    WalkOnChain(v.table, c, num);
    ReadRestPast(g, v, buffer[0 := v.disk[g.Lba(c[num])]], 1, count, c, num);
    assert [v.disk[g.Lba(c[num])]] + Contents(g, v.disk, c[num + 1..]) == Contents(g, v.disk, c[num..]);
    assert buffer[0 := v.disk[g.Lba(c[num])]][..1] == [v.disk[g.Lba(c[num])]];
  }

  lemma {:induction false} ReadRestPast(g: Geometry, v: VolumeState, buffer: seq<Sector>, i: nat, count: nat,
                                        c: seq<nat>, k: nat)
    requires g.Valid() && Chain(v.table, c) && OnDisk(g, v.disk, c)
    requires k < |c| && i <= count <= |buffer| && k + count - i >= |c|
    ensures ReadRest(g, v, buffer, i, count, c[k]) ==
            Some(buffer[..i] + Contents(g, v.disk, c[k + 1..]) + buffer[i + |c| - 1 - k..])
    decreases count - i
  {
    if k + 1 < |c| {
      assert v.table[c[k]] == c[k + 1];
      var x := v.disk[g.Lba(c[k + 1])];
      ReadRestPast(g, v, buffer[i := x], i + 1, count, c, k + 1);
      assert buffer[i := x][..i + 1] == buffer[..i] + [x];
      var more, rest := Contents(g, v.disk, c[k + 2..]), buffer[i + |c| - 1 - k..];
      assert [x] + more == Contents(g, v.disk, c[k + 1..]);
      assert buffer[i := x][i + |c| - 1 - k..] == rest;
      assert buffer[..i] + [x] + more + rest == buffer[..i] + ([x] + more) + rest;
    } else {
      assert Contents(g, v.disk, c[k + 1..]) == [];
      assert buffer[..i] + [] + buffer[i..] == buffer;
    }
  }


  /** Overwriting clusters touches no other block. */
  lemma {:induction false} PutAllFrame(g: Geometry, d: seq<Sector>, cs: seq<nat>, xs: seq<Sector>, l: nat)
    requires g.Valid() && |cs| <= |xs| && l < |d|
    requires forall i | 0 <= i < |cs| :: l != g.Lba(cs[i])
    ensures PutAll(g, d, cs, xs)[l] == d[l]
    decreases |cs|
  {
    if cs != [] {
      assert l != g.Lba(cs[0]);
      assert forall i | 0 <= i < |cs[1..]| :: cs[1..][i] == cs[i + 1];
      PutAllFrame(g, Put(d, g.Lba(cs[0]), xs[0]), cs[1..], xs[1..], l);
    }
  }

  /** Overwriting distinct clusters puts each sector in its place. */
  lemma {:induction false} PutAllPlaces(g: Geometry, d: seq<Sector>, cs: seq<nat>, xs: seq<Sector>, i: nat)
    requires g.Valid() && |cs| <= |xs| && OnDisk(g, d, cs) && i < |cs|
    requires forall i, j | 0 <= i < j < |cs| :: cs[i] != cs[j]
    ensures PutAll(g, d, cs, xs)[g.Lba(cs[i])] == xs[i]
    decreases |cs|
  {
    var d1 := Put(d, g.Lba(cs[0]), xs[0]);
    assert forall j | 0 <= j < |cs[1..]| :: cs[1..][j] == cs[j + 1];
    if i == 0 {
      PutAllFrame(g, d1, cs[1..], xs[1..], g.Lba(cs[0]));
    } else {
      PutAllPlaces(g, d1, cs[1..], xs[1..], i - 1);
    }
  }

  /** Saving changes only the blocks of the first table copy, and leaves it equal to the table. */
  lemma SavedPlaces(g: Geometry, v: VolumeState)
    requires v.Valid(g)
    ensures Saved(v).Synced() && Saved(v).Valid(g) && Saved(v).table == v.table
    ensures forall l | 0 <= l < |v.disk| && (l == 0 || l > FAT_SECTORS) :: Saved(v).disk[l] == v.disk[l]
  {
  }

  /** Copy j of the table, as it is on the disk. */
  function FatCopy(g: Geometry, d: seq<Sector>, j: nat): seq<Sector>
    requires g.Valid() && j < g.fatsCount && |d| >= g.DirStart()
  {
    d[1 + FAT_SECTORS * j..1 + FAT_SECTORS * (j + 1)]
  }

  predicate CopiesAgree(g: Geometry, d: seq<Sector>)
    requires g.Valid() && |d| >= g.DirStart()
  {
    forall j | 0 <= j < g.fatsCount :: FatCopy(g, d, j) == FatCopy(g, d, 0)
  }

  /** After saving, the copies agree exactly when every copy but the first was right before; so, from copies that
      agree, exactly when there is one copy or the table on the disk was up to date. */
  lemma SaveKeepsCopiesIff(g: Geometry, v: VolumeState)
    requires v.Valid(g)
    ensures CopiesAgree(g, Saved(v).disk) <==>
            forall j | 1 <= j < g.fatsCount :: FatCopy(g, v.disk, j) == FatImage(v.table)
    ensures CopiesAgree(g, v.disk) ==> (CopiesAgree(g, Saved(v).disk) <==> g.fatsCount == 1 || v.Synced())
  {
    hide FatImage;
    SavedPlaces(g, v);
    var d, d' := v.disk, Saved(v).disk;
    assert FatCopy(g, d', 0) == FatImage(v.table);
    forall j | 1 <= j < g.fatsCount ensures FatCopy(g, d', j) == FatCopy(g, d, j) {
    }
    if CopiesAgree(g, d) && g.fatsCount > 1 {
      assert FatCopy(g, d, 1) == FatCopy(g, d, 0);
    }
  }

  lemma TruncatedChain(t: Table, c: seq<nat>, n: nat)
    requires Chain(t, c) && 1 <= n <= |c|
    ensures Chain(Seal(t, c[n - 1]), c[..n])
  {
    ChainDistinct(t, c);
  }

  /** Blocks a write leaves alone: all outside the first table copy and the clusters written. */
  ghost predicate Untouched(g: Geometry, v: VolumeState, w: VolumeState, c: seq<nat>, num: nat, count: nat)
    requires g.Valid() && num + count <= |c|
  {
    && |w.disk| == |v.disk|
    && forall l | FAT_SECTORS < l < |v.disk| && (forall i | num <= i < num + count :: l != g.Lba(c[i])) ::
         w.disk[l] == v.disk[l]
  }

  lemma WrittenUntouched(g: Geometry, v: VolumeState, file: seq<Sector>, c: seq<nat>, num: nat, count: nat)
    requires v.Valid(g) && 1 <= count <= |file| && num + count <= |c|
    requires forall i | 0 <= i < |c| :: c[i] < TABLE_SIZE
    ensures var w := Written(g, v, file, c, num, count);
            w.Valid(g) && w.Synced() && Untouched(g, v, w, c, num, count)
  {
    hide FatImage, PutAll;
    var cs := c[num..num + count];
    var d := PutAll(g, v.disk, cs, file);
    assert forall i | 0 <= i < count :: cs[i] == c[num + i];
    SavedPlaces(g, VolumeState(Seal(v.table, c[num + count - 1]), d));
    forall l | FAT_SECTORS < l < |v.disk| && (forall i | num <= i < num + count :: l != g.Lba(c[i]))
      ensures d[l] == v.disk[l]
    {
      PutAllFrame(g, v.disk, cs, file, l);
    }
  }

  lemma WrittenPlaces(g: Geometry, v: VolumeState, file: seq<Sector>, c: seq<nat>, num: nat, count: nat)
    requires v.Valid(g) && Chain(v.table, c) && OnDisk(g, v.disk, c)
    requires 1 <= count <= |file| && num + count <= |c|
    ensures var w := Written(g, v, file, c, num, count);
            |w.disk| == |v.disk| && forall i | 0 <= i < count :: w.disk[g.Lba(c[num + i])] == file[i]
  {
    var cs := c[num..num + count];
    ChainDistinct(v.table, c);
    assert forall i | 0 <= i < count :: cs[i] == c[num + i];
    SavedPlaces(g, VolumeState(Seal(v.table, c[num + count - 1]), PutAll(g, v.disk, cs, file)));
    assert g.DirStart() > FAT_SECTORS;
    forall i | 0 <= i < count ensures PutAll(g, v.disk, cs, file)[g.Lba(c[num + i])] == file[i] {
      PutAllPlaces(g, v.disk, cs, file, i);
    }
  }

  /** Reading a chain whose clusters hold the sectors of file yields file. */
  lemma ReadBack(g: Geometry, w: VolumeState, file: seq<Sector>, c: seq<nat>, num: nat, buffer: seq<Sector>)
    requires g.Valid() && Chain(w.table, c) && OnDisk(g, w.disk, c)
    requires 1 <= |file| == |buffer| && num + |file| <= |c|
    requires forall i | 0 <= i < |file| :: w.disk[g.Lba(c[num + i])] == file[i]
    ensures ReadItem(g, w, buffer, c[0], num, |file|) == Some(file)
  {
    ReadOnChain(g, w, buffer, c, num, |file|);
    var cs := c[num..num + |file|];
    assert forall i | 0 <= i < |file| :: cs[i] == c[num + i];
    assert Contents(g, w.disk, cs) + buffer[|file|..] == file;
  }

  /** Write_Item followed by Read_Item is the identity, and the chain is now its first num + |file| clusters. */
  lemma WriteThenRead(g: Geometry, v: VolumeState, file: seq<Sector>, c: seq<nat>, num: nat, buffer: seq<Sector>)
    requires v.Valid(g) && Chain(v.table, c) && OnDisk(g, v.disk, c)
    requires 1 <= |file| == |buffer| && num + |file| <= |c|
    ensures var w := WriteItem(g, v, file, c[0], Some(num), |file|);
            && w.Some? && w.value.Valid(g) && w.value.Synced() && Chain(w.value.table, c[..num + |file|])
            && ReadItem(g, w.value, buffer, c[0], num, |file|) == Some(file)
  {
    WriteWithinChain(g, v, file, c, num, |file|);
    WrittenPlaces(g, v, file, c, num, |file|);
    WrittenUntouched(g, v, file, c, num, |file|);
    TruncatedChain(v.table, c, num + |file|);
    var w := Written(g, v, file, c, num, |file|);
    var kept := c[..num + |file|];
    assert OnDisk(g, w.disk, kept);
    assert w.table == Seal(v.table, c[num + |file| - 1]);
    ReadBack(g, w, file, kept, num, buffer);
  }

  lemma UntouchedContents(g: Geometry, v: VolumeState, w: VolumeState, c: seq<nat>, num: nat, count: nat, e: seq<nat>)
    requires g.Valid() && num + count <= |c| && Untouched(g, v, w, c, num, count)
    requires forall i, j | 0 <= i < |e| && num <= j < num + count :: e[i] != c[j]
    ensures Contents(g, w.disk, e) == Contents(g, v.disk, e)
  {
  }

  /** The frame of a write: earlier sectors of the chain, the root directory, and the links and contents of
      every chain that shares no cluster. */
  lemma WriteFrame(g: Geometry, v: VolumeState, file: seq<Sector>, c: seq<nat>, num: nat, e: seq<nat>)
    requires v.Valid(g) && Chain(v.table, c)
    requires 1 <= |file| && num + |file| <= |c|
    requires Chain(v.table, e) && Disjoint(c, e)
    ensures var w := Written(g, v, file, c, num, |file|);
            && Chain(w.table, e) && Contents(g, w.disk, e) == Contents(g, v.disk, e)
            && Contents(g, w.disk, c[..num]) == Contents(g, v.disk, c[..num])
            && RootArea(g, w) == RootArea(g, v)
  {
    var w := Written(g, v, file, c, num, |file|);
    WrittenUntouched(g, v, file, c, num, |file|);
    ChainDistinct(v.table, c);
    UntouchedContents(g, v, w, c, num, |file|, e);
    UntouchedContents(g, v, w, c, num, |file|, c[..num]);
    UntouchedRoot(g, v, w, c, num, |file|);
    assert w.table == Seal(v.table, c[num + |file| - 1]);
  }

  function RootArea(g: Geometry, v: VolumeState): seq<Sector>
    requires v.Valid(g)
  {
    v.disk[g.DirStart()..g.DirStart() + g.RootSectors()]
  }

  lemma UntouchedRoot(g: Geometry, v: VolumeState, w: VolumeState, c: seq<nat>, num: nat, count: nat)
    requires v.Valid(g) && w.Valid(g) && num + count <= |c| && Untouched(g, v, w, c, num, count)
    requires forall i | 0 <= i < |c| :: c[i] >= 2
    ensures RootArea(g, w) == RootArea(g, v)
  {
  }
}
