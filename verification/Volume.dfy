/** The mounted volume: the table and the disk, changed in place. */
module Volumes {
  import opened Fat12Types
  import opened TablePacking
  import opened Chains
  import opened FatHeap
  import opened ItemData

  class Volume {
    const geometry: Geometry
    const disk: array<Sector>
    const table: array<Entry>
    const phys: array<Byte>

    ghost predicate Valid()
      reads this, disk, table
    {
      && table.Length == TABLE_SIZE && phys.Length == FAT_BYTES
      && phys as object != table as object && disk as object != table as object && disk as object != phys as object
      && State().Valid(geometry)
    }

    ghost function State(): VolumeState
      reads this, disk, table
      requires table.Length == TABLE_SIZE
    {
      VolumeState(table[..], disk[..])
    }

    /** Mounting: the table is read from the first copy on the disk. */
    constructor (g: Geometry, d: array<Sector>)
      requires g.Valid() && d.Length >= g.DirStart() + g.RootSectors()
      ensures Valid() && geometry == g && disk == d && fresh(table) && fresh(phys)
      ensures d[1..1 + FAT_SECTORS] == old(d[1..1 + FAT_SECTORS])
      ensures table[..] == Unpack(Bytes(d[1..1 + FAT_SECTORS]))
    {
      geometry := g;
      disk := d;
      table := new Entry[TABLE_SIZE](_ => 0);
      var bytes := Bytes(d[1..1 + FAT_SECTORS]);
      phys := new Byte[FAT_BYTES](i requires 0 <= i < |bytes| => bytes[i]);
      new;
      assert phys[..] == bytes;
      LoadTable(phys, table);
    }

    /** The value found at actual, and whether it is a link. */
    method NextSector(actual: nat) returns (more: bool, next: Entry)
      requires Valid() && actual < TABLE_SIZE
      ensures next == table[actual] && more == !EndOfChain(next)
    {
      next := table[actual];
      more := !(next == LAST_SECTOR || next == 0 || next >= 0xFF0);
    }

    method FindSector(num: nat, start: Entry) returns (r: Option<Entry>)
      requires Valid()
      ensures r == Walk(table[..], start, num)
    {
      var sector := start;
      for i := 0 to num
        invariant Walk(table[..], start, i) == Some(sector)
      {
        if sector >= TABLE_SIZE {
          WalkStaysOut(table[..], start, i + 1, num);
          return None;
        }
        var _, next := NextSector(sector);
        sector := next;
      }
      return Some(sector);
    }

    method GetSectorsCount(start: Entry, ghost c: seq<nat>) returns (count: nat)
      requires Valid()
      requires start != 0 ==> Chain(table[..], c) && c[0] == start
      ensures count == if start == 0 then geometry.RootSectors() else |c|
    {
      if start == 0 {
        return geometry.RootSectors();
      }
      count := 1;
      var sector: Entry := start;
      var more, next := NextSector(sector);
      ChainLink(table[..], c, 0);
      while more
        invariant 1 <= count <= |c| && sector == c[count - 1]
        invariant next == table[sector] && more == !EndOfChain(next)
        invariant more <==> count < |c|
        invariant more ==> next == c[count]
        decreases |c| - count
      {
        sector := next;
        count := count + 1;
        more, next := NextSector(sector);
        ChainLink(table[..], c, count - 1);
      }
    }

    method FindFreeSector() returns (s: nat)
      requires Valid()
      ensures s == FindFree(table[..], geometry.RootSectors())
    {
      var i := geometry.RootSectors();
      while i < TABLE_SIZE
        invariant FindFree(table[..], geometry.RootSectors()) == FindFree(table[..], i)
        decreases TABLE_SIZE - i
      {
        if table[i] == 0 {
          return i;
        }
        i := i + 1;
      }
      return 0;
    }

    /** Stops on every table whose links stay inside it, cyclic ones included, and frees exactly the
        clusters reachable from start. */
    method RemoveItemData(start: Entry)
      requires Valid() && InRange(table[..]) && start < TABLE_SIZE
      modifies table
      ensures Valid() && table[..] == Freed(old(table[..]), start)
    {
      ghost var t: Table := table[..];
      var actual := start;
      ghost var n: nat := 0;
      var more, next := NextSector(actual);
      while more
        invariant Valid() && Walk(t, start, n) == Some(actual) && LinksFor(t, start, n) && Erased(t, table[..], start, n)
        invariant actual < TABLE_SIZE && next == table[actual] && more == !EndOfChain(next)
        decreases |Occupied(table[..])|
      {
        OneFewer(table[..], actual);
        ErasedStep(t, table[..], start, n, actual);
        table[actual] := 0;
        actual := next;
        n := n + 1;
        more, next := NextSector(actual);
      }
      ErasedAll(t, table[..], start, n, actual);
      table[actual] := 0;
    }

    /** Writes one table copy per copy on the disk, all at the place of the first. */
    method SaveTableToDisk()
      requires Valid()
      modifies phys, disk
      ensures Valid() && State() == Saved(old(State()))
    {
      ghost var t: Table := table[..];
      ghost var d := disk[..];
      SaveTable(table, phys);
      ghost var image := FatImage(t);
      for j := 0 to geometry.fatsCount
        invariant Valid() && table[..] == t && phys[..] == Pack(t)
        invariant disk[..] == if j == 0 then d else PutRun(d, 1, image)
      {
        WriteFatSectors();
        assert PutRun(PutRun(d, 1, image), 1, image) == PutRun(d, 1, image);
      }
    }

    method WriteFatSectors()
      requires Valid() && phys[..] == Pack(table[..])
      modifies disk
      ensures Valid() && disk[..] == PutRun(old(disk[..]), 1, FatImage(table[..]))
    {
      ghost var d := disk[..];
      ghost var image := FatImage(table[..]);
      for k := 0 to FAT_SECTORS
        invariant Valid()
        invariant forall l | 0 <= l < disk.Length :: disk[l] == if 1 <= l < 1 + k then image[l - 1] else d[l]
      {
        disk[1 + k] := phys[k * SECTOR_SIZE..k * SECTOR_SIZE + SECTOR_SIZE];
      }
      assert disk[..] == PutRun(d, 1, image);
    }

    method WriteSector(lba: nat, x: Sector)
      requires Valid()
      modifies disk
      ensures Valid() && disk[..] == Put(old(disk[..]), lba, x)
    {
      if lba < disk.Length {
        disk[lba] := x;
      }
    }

    method ReadItem(buffer: array<Sector>, start: Entry, num: nat, count: nat) returns (ok: bool)
      requires Valid() && 1 <= buffer.Length && count <= buffer.Length
      requires buffer != disk && buffer as object != table as object
      modifies buffer
      ensures Valid()
      ensures var r := ItemData.ReadItem(geometry, State(), old(buffer[..]), start, num, count);
              ok == r.Some? && (ok ==> buffer[..] == r.value)
    {
      hide Walk, FatImage, EndOfChain;
      ghost var b := buffer[..];
      if start == 0 {
        if geometry.DirStart() + count <= disk.Length {
          for k := 0 to count
            invariant forall i | 0 <= i < buffer.Length :: buffer[i] == if i < k then disk[geometry.DirStart() + i] else b[i]
          {
            buffer[k] := disk[geometry.DirStart() + k];
          }
          assert buffer[..] == disk[..][geometry.DirStart()..geometry.DirStart() + count] + b[count..];
        }
        return true;
      }
      var at := FindSector(num, start);
      if at == None {
        return false;
      }
      var temp: Entry := at.value;
      ReadInto(buffer, 0, temp);
      var i := 1;
      while i < count
        invariant 1 <= i <= AtLeastOne(count)
        invariant ReadRest(geometry, State(), buffer[..], i, count, temp) ==
                  ItemData.ReadItem(geometry, State(), b, start, num, count)
        decreases count - i
      {
        if temp >= TABLE_SIZE {
          return false;
        }
        var more, next := NextSector(temp);
        if !more {
          break;
        }
        temp := next;
        ReadInto(buffer, i, temp);
        i := i + 1;
      }
      return true;
    }

    method ReadInto(buffer: array<Sector>, i: nat, cluster: Entry)
      requires Valid() && i < buffer.Length && buffer != disk
      modifies buffer
      ensures buffer[..] == old(buffer[..])[i := Get(disk[..], geometry.Lba(cluster), old(buffer[i]))]
    {
      if geometry.Lba(cluster) < disk.Length {
        buffer[i] := disk[geometry.Lba(cluster)];
      }
    }

    /** num is None for the append position. The result is false when the table would be indexed past its
        end, and then nothing is promised about the state. */
    method WriteItem(file: seq<Sector>, start: Entry, num: Option<nat>, count: nat) returns (ok: bool)
      requires Valid() && 1 <= |file| && count <= |file|
      modifies table, phys, disk
      ensures Valid()
      ensures var r := ItemData.WriteItem(geometry, old(State()), file, start, num, count);
              ok == r.Some? && (ok ==> State() == r.value)
    {
      ghost var v := State();
      var temp: Entry := start;
      if start == 0 {
        ok := WriteRoot(file, count);
        return;
      } else if num.Some? {
        var at := FindSector(num.value, start);
        if at == None {
          return false;
        }
        temp := at.value;
        WriteSector(geometry.Lba(temp), file[0]);
        ok, temp := WriteFollowing(file, count, temp);
      } else {
        WriteSector(geometry.Lba(temp), file[0]);
        ok, temp := WriteNewChain(file, count, temp);
      }
      if !ok || temp >= TABLE_SIZE {
        return false;
      }
      table[temp] := LAST_SECTOR;
      SaveTableToDisk();
    }

    method WriteRoot(file: seq<Sector>, count: nat) returns (ok: bool)
      requires Valid() && 1 <= |file| && count <= |file|
      modifies table, phys, disk
      ensures Valid()
      ensures var r := ItemData.WriteItem(geometry, old(State()), file, 0, None, count);
              ok == r.Some? && (ok ==> State() == r.value)
    {
      ghost var v := State();
      if count >= TABLE_SIZE {
        return false;
      }
      for i := 0 to count
        invariant Valid() && disk[..] == v.disk
        invariant forall x | 0 <= x < TABLE_SIZE :: table[x] == if x < i && v.table[x] == 0 then x + 1 else v.table[x]
      {
        if table[i] == 0 {
          table[i] := i + 1;
        }
      }
      table[count] := LAST_SECTOR;
      assert table[..] == Seal(RootLinks(v.table, count), count);
      var first := geometry.DirStart();
      if first + count <= disk.Length {
        for k := 0 to count
          invariant Valid() && table[..] == Seal(RootLinks(v.table, count), count)
          invariant forall l | 0 <= l < disk.Length :: disk[l] == if first <= l < first + k then file[l - first] else v.disk[l]
        {
          disk[first + k] := file[k];
        }
      }
      assert disk[..] == PutRun(v.disk, first, file[..count]);
      SaveTableToDisk();
      ok := true;
    }

    method WriteFollowing(file: seq<Sector>, count: nat, at: Entry) returns (ok: bool, last: Entry)
      requires Valid() && count <= |file|
      modifies table, disk
      ensures Valid()
      ensures var r := WriteRest(geometry, old(State()), file, 1, count, at);
              ok == r.Some? && (ok ==> (State(), last) == r.value)
    {
      last := at;
      var i := 1;
      while i < count
        invariant Valid()
        invariant WriteRest(geometry, State(), file, i, count, last) ==
                  WriteRest(geometry, old(State()), file, 1, count, at)
        decreases count - i
      {
        if last >= TABLE_SIZE {
          return false, last;
        }
        var more, next := NextSector(last);
        last := next;
        if !more {
          if last >= TABLE_SIZE {
            return false, last;
          }
          var free := FindFreeSector();
          table[last] := free;
          last := free;
        }
        WriteSector(geometry.Lba(last), file[i]);
        i := i + 1;
      }
      ok := true;
    }

    method WriteNewChain(file: seq<Sector>, count: nat, at: Entry) returns (ok: bool, last: Entry)
      requires Valid() && count <= |file|
      modifies table, disk
      ensures Valid()
      ensures var r := WriteFresh(geometry, old(State()), file, 1, count, at);
              ok == r.Some? && (ok ==> (State(), last) == r.value)
    {
      last := at;
      var i := 1;
      while i < count
        invariant Valid()
        invariant WriteFresh(geometry, State(), file, i, count, last) ==
                  WriteFresh(geometry, old(State()), file, 1, count, at)
        decreases count - i
      {
        if last >= TABLE_SIZE {
          return false, last;
        }
        var free := FindFreeSector();
        table[last] := free;
        last := free;
        WriteSector(geometry.Lba(last), file[i]);
        i := i + 1;
      }
      ok := true;
    }
  }

  // ----- helpers -----

  lemma {:induction false} WalkStaysOut(t: Table, s: Entry, k: nat, n: nat)
    requires k <= n && Walk(t, s, k) == None
    ensures Walk(t, s, n) == None
    decreases n
  {
    if k < n {
      WalkStaysOut(t, s, k, n - 1);
    }
  }

  function Occupied(t: Table): set<nat> {
    set x: nat | x < TABLE_SIZE && t[x] != 0
  }

  lemma OneFewer(t: Table, x: nat)
    requires x < TABLE_SIZE && t[x] != 0
    ensures |Occupied(t[x := 0])| < |Occupied(t)|
  {
    assert Occupied(t[x := 0]) == Occupied(t) - {x};
  }

  lemma ChainLink(t: Table, c: seq<nat>, k: nat)
    requires Chain(t, c) && k < |c|
    ensures if k < |c| - 1 then !EndOfChain(t[c[k]]) && t[c[k]] == c[k + 1] else EndOfChain(t[c[k]])
  {
  }

  /** x is one of the first n clusters met when walking from s. */
  ghost predicate MetBefore(t: Table, s: Entry, n: nat, x: nat) {
    exists k: nat :: k < n && Walk(t, s, k) == Some(x)
  }

  lemma MetStep(t: Table, s: Entry, n: nat)
    requires WalkIn(t, s, n)
    ensures forall x: nat :: MetBefore(t, s, n + 1, x) <==> MetBefore(t, s, n, x) || Walk(t, s, n) == Some(x)
  {
  }

  /** The first n clusters met are erased, all others are as they were. */
  ghost predicate Erased(t: Table, cur: Table, s: Entry, n: nat) {
    forall x: nat | x < TABLE_SIZE :: cur[x] == if MetBefore(t, s, n, x) then 0 else t[x]
  }

  lemma ErasedStep(t: Table, cur: Table, s: Entry, n: nat, x: nat)
    requires InRange(t) && s < TABLE_SIZE && LinksFor(t, s, n)
    requires Erased(t, cur, s, n) && x < TABLE_SIZE && Walk(t, s, n) == Some(x) && !EndOfChain(cur[x])
    ensures Erased(t, cur[x := 0], s, n + 1) && LinksFor(t, s, n + 1)
    ensures cur[x] < TABLE_SIZE && Walk(t, s, n + 1) == Some(cur[x])
  {
  }

  lemma ErasedAll(t: Table, cur: Table, s: Entry, n: nat, x: nat)
    requires InRange(t) && s < TABLE_SIZE && LinksFor(t, s, n)
    requires Erased(t, cur, s, n) && x < TABLE_SIZE && Walk(t, s, n) == Some(x) && EndOfChain(cur[x])
    ensures cur[x := 0] == Freed(t, s)
  {
    MetStep(t, s, n);
    MetIsReachable(t, s, n);
  }

  /** When the walk meets a terminator, or a cluster it met before, everything reachable has been met. */
  lemma MetIsReachable(t: Table, s: Entry, n: nat)
    requires InRange(t) && s < TABLE_SIZE && LinksFor(t, s, n) && WalkIn(t, s, n)
    requires EndOfChain(t[Walk(t, s, n).value]) || MetBefore(t, s, n, Walk(t, s, n).value)
    ensures forall x: nat | x < TABLE_SIZE :: Reachable(t, s, x) <==> MetBefore(t, s, n + 1, x)
  {
    forall x: nat | x < TABLE_SIZE ensures Reachable(t, s, x) <==> MetBefore(t, s, n + 1, x) {
      if k: nat :| k < n + 1 && Walk(t, s, k) == Some(x) {
        assert LinksFor(t, s, k);
      }
      if Reachable(t, s, x) {
        var k: nat :| LinksFor(t, s, k) && Walk(t, s, k) == Some(x);
        AllMet(t, s, n, k);
      }
    }
  }

  lemma {:induction false} AllMet(t: Table, s: Entry, n: nat, k: nat)
    requires InRange(t) && s < TABLE_SIZE && LinksFor(t, s, n) && WalkIn(t, s, n)
    requires EndOfChain(t[Walk(t, s, n).value]) || MetBefore(t, s, n, Walk(t, s, n).value)
    requires LinksFor(t, s, k) && WalkIn(t, s, k)
    ensures MetBefore(t, s, n + 1, Walk(t, s, k).value)
    decreases k
  {
    if k > n {
      assert WalkIn(t, s, n);
      assert WalkIn(t, s, k - 1);
      AllMet(t, s, n, k - 1);
      var j: nat :| j < n + 1 && Walk(t, s, j) == Some(Walk(t, s, k - 1).value);
      assert Walk(t, s, j + 1) == Walk(t, s, k);
      if j == n {
        var h: nat :| h < n && Walk(t, s, h) == Some(Walk(t, s, n).value);
        assert Walk(t, s, h + 1) == Walk(t, s, k);
      }
    }
  }
}
