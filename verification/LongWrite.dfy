/** Write_Item's loop with its 16-bit counter: the bound on what File_Handle::Write can write. */
module LongWrites {
  import opened Fat12Types
  import opened Chains
  import opened FatHeap
  import opened ItemData
  import opened Names
  import opened DirectoryItems
  import opened CreateLimits
  import opened FileData
  import opened FileWrite

  /** The variables of the loop over the sectors after the first. */
  datatype Loop = Loop(v: VolumeState, at: Entry, i: nat)

  const COUNTER: nat := 0x1_0000

  /** One round of the loop. None: the table is left. */
  function Round(g: Geometry, s: Loop, file: seq<Sector>): Option<Loop>
    requires g.Valid() && s.i < |file|
  {
    if s.at >= TABLE_SIZE then None
    else
      var next := s.v.table[s.at];
      var i := (s.i + 1) % COUNTER;
      if !EndOfChain(next) then Some(Loop(s.v.(disk := Put(s.v.disk, g.Lba(next), file[s.i])), next, i))
      else if next >= TABLE_SIZE then None
      else
        var free := FindFree(s.v.table, g.RootSectors());
        Some(Loop(VolumeState(s.v.table[next := free], Put(s.v.disk, g.Lba(free), file[s.i])), free, i))
  }

  /** The loop after n rounds, or where it ended before. */
  function Rounds(g: Geometry, s: Loop, file: seq<Sector>, count: nat, n: nat): Option<Loop>
    requires g.Valid() && count <= |file|
    decreases n
  {
    if n == 0 || s.i >= count then Some(s)
    else
      match Round(g, s, file)
      case None => None
      case Some(u) => Rounds(g, u, file, count, n - 1)
  }

  ghost predicate Ends(g: Geometry, s: Loop, file: seq<Sector>, count: nat)
    requires g.Valid() && count <= |file|
  {
    exists n: nat :: Rounds(g, s, file, count, n).Some? && Rounds(g, s, file, count, n).value.i >= count
  }

  /** As far as the counter reaches, the loop computes WriteRest. */
  lemma {:induction false} CountedLoop(g: Geometry, s: Loop, file: seq<Sector>, count: nat)
    requires g.Valid() && s.i <= count <= |file| && count < COUNTER
    ensures Rounds(g, s, file, count, count - s.i) ==
            match WriteRest(g, s.v, file, s.i, count, s.at)
            case None => None
            case Some((w, at)) => Some(Loop(w, at, count))
    decreases count - s.i
  {
    if s.i < count {
      var r := Round(g, s, file);
      if r.Some? {
        CountedLoop(g, r.value, file, count);
      }
    }
  }

  /** From a freed cluster on, every round ends at a free cluster or at entry 0. */
  lemma {:induction false} StaysInTable(g: Geometry, s: Loop, file: seq<Sector>, count: nat, n: nat)
    requires g.Valid() && count <= |file| && s.at < TABLE_SIZE && s.v.table[s.at] == 0 && s.i < COUNTER
    ensures var r := Rounds(g, s, file, count, n);
            r.Some? && r.value.i < COUNTER && (count < COUNTER && s.i <= count && n >= count - s.i ==> r.value.i >= count)
    decreases n
  {
    if n > 0 && s.i < count {
      var u := Round(g, s, file).value;
      StaysInTable(g, u, file, count, n - 1);
    }
  }

  /** The loop of File_Handle::Write on a file with chain x: where it starts, after the first sector. */
  ghost function Started(g: Geometry, v: VolumeState, x: seq<nat>, b: seq<Byte>): Loop
    requires g.Valid() && InRange(v.table) && Chain(v.table, x)
  {
    Loop(VolumeState(Freed(v.table, x[0]), Put(v.disk, g.Lba(x[0]), Sectors(b)[0])), x[0], 1)
  }

  /** The write ends exactly for less than 65535 sectors of 512 bytes. A longer one goes on for ever: it never leaves
      the table, and its counter never reaches the sector count. */
  lemma WriteEndsIff(g: Geometry, v: VolumeState, x: seq<nat>, b: seq<Byte>)
    requires v.Valid(g) && InRange(v.table) && Chain(v.table, x)
    ensures Ends(g, Started(g, v, x, b), Sectors(b), |Sectors(b)|) <==> |b| < MAX_WRITE
    ensures forall n: nat :: Rounds(g, Started(g, v, x, b), Sectors(b), |Sectors(b)|, n).Some?
  {
    hide Rounds;
    FreedChain(v.table, x);
    var s, file := Started(g, v, x, b), Sectors(b);
    assert s.v.table[s.at] == 0;
    forall n: nat
      ensures var r := Rounds(g, s, file, |file|, n);
              r.Some? && r.value.i < COUNTER && (|file| < COUNTER && n >= |file| - 1 ==> r.value.i >= |file|)
    {
      StaysInTable(g, s, file, |file|, n);
    }
    if |file| < COUNTER {
      assert Rounds(g, s, file, |file|, |file| - 1).value.i >= |file|;
    }
  }

  // ----- contents that lose their chain -----

  /** The lowest free cluster once the file's chain x is freed: all further sectors of the data go there. */
  ghost function Spill(g: Geometry, v: VolumeState, x: seq<nat>): nat
    requires g.Valid() && InRange(v.table) && Chain(v.table, x)
  {
    FindFree(Freed(v.table, x[0]), g.RootSectors())
  }

  /** After a write of a sector or more the file's entry still names its first cluster, which is free; unless that is
      the lowest free one, where the data went. */
  lemma LongWriteTable(g: Geometry, v: VolumeState, x: seq<nat>, b: seq<Byte>)
    requires v.Valid(g) && InRange(v.table) && Chain(v.table, x) && |b| >= SECTOR_SIZE
    ensures var w := Rewritten(g, v, x[0], b);
            && w.Some? && w.value.Valid(g)
            && (forall i | 2 <= i < TABLE_SIZE ::
                  w.value.table[i] == 0 <==> (v.table[i] == 0 || i in x) && i != Spill(g, v, x))
            && (w.value.table[x[0]] == 0 <==> Spill(g, v, x) != x[0])
  {
    RewrittenTable(g, v, x, b);
    FreedChain(v.table, x);
  }

  lemma LowestFreeIs(t: Table, lo: nat, s: nat)
    requires 0 < lo <= s < TABLE_SIZE && t[s] == 0
    ensures FindFree(t, lo) == s <==> forall i | lo <= i < s :: t[i] != 0
  {
    var f := FindFree(t, lo);
    if 0 < f < s {
      assert t[f] == 0;
    }
  }

  /** So the next item created is given the file's first cluster exactly when all lower ones but the one the data went to
      are in use by others. */
  lemma LongWriteSharesIff(g: Geometry, v: VolumeState, x: seq<nat>, b: seq<Byte>)
    requires v.Valid(g) && InRange(v.table) && Chain(v.table, x) && |b| >= SECTOR_SIZE
    ensures var w := Rewritten(g, v, x[0], b);
            && w.Some? && w.value.Valid(g)
            && (ItemCluster(g, w.value) == x[0] <==>
                x[0] >= g.RootSectors() && Spill(g, v, x) != x[0]
                && forall i | g.RootSectors() <= i < x[0] && i != Spill(g, v, x) :: v.table[i] != 0 && i !in x)
  {
    LongWriteTable(g, v, x, b);
    var t := Rewritten(g, v, x[0], b).value.table;
    if x[0] >= g.RootSectors() && t[x[0]] == 0 {
      LowestFreeIs(t, g.RootSectors(), x[0]);
    }
  }

  /** Then the new item starts where the file does, and the cluster is wiped for it: what was the file's data. */
  lemma SharedStart(g: Geometry, v: VolumeState, x: seq<nat>, b: seq<Byte>, made: NewItem)
    requires v.Valid(g) && InRange(v.table) && Chain(v.table, x) && |b| >= SECTOR_SIZE && Accepted(made.name)
    requires Rewritten(g, v, x[0], b).Some? && Rewritten(g, v, x[0], b).value.Valid(g) && g.Lba(x[0]) < |v.disk|
    requires ItemCluster(g, Rewritten(g, v, x[0], b).value) == x[0]
    ensures var w := Rewritten(g, v, x[0], b).value;
            var a := Allocated(g, w);
            && StartSector(made.At(ItemCluster(g, w))) == x[0]
            && a.Some? && Chain(a.value.table, [x[0]]) && Contents(g, a.value.disk, [x[0]]) == [ZeroSector()]
  {
    hide FatImage, Rewritten, Allocated, BuildEntry;
    var w := Rewritten(g, v, x[0], b).value;
    RewrittenSize(g, v, x, b);
    BuiltFields(made.name, made.garbage, made.attribute, made.time, made.date, x[0]);
    WipedCluster(g, w);
    AllocatedIs(g, w);
  }

  lemma RewrittenSize(g: Geometry, v: VolumeState, x: seq<nat>, b: seq<Byte>)
    requires g.Valid() && InRange(v.table) && Chain(v.table, x) && Rewritten(g, v, x[0], b).Some?
    ensures |Rewritten(g, v, x[0], b).value.disk| == |v.disk|
  {
  }
}
