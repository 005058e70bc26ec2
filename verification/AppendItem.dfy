/** Write_Item at the append position: a new chain is built from the cluster given. A free cluster is linked in before
    it is marked used, so the next search finds it again. */
module Appending {
  import opened Fat12Types
  import opened Chains
  import opened FatHeap
  import opened ItemData

  type Cluster = x: int | 0 <= x < TABLE_SIZE

  /** The free clusters from lo on, lowest first. */
  function FreeFrom(t: Table, lo: nat): (r: seq<Cluster>)
    ensures forall i | 0 <= i < |r| :: lo <= r[i] < TABLE_SIZE && t[r[i]] == 0
    ensures forall i, j | 0 <= i < j < |r| :: r[i] < r[j]
    decreases TABLE_SIZE - lo
  {
    if lo >= TABLE_SIZE then []
    else if t[lo] == 0 then [lo] + FreeFrom(t, lo + 1)
    else FreeFrom(t, lo + 1)
  }

  /** Of every two sectors only the second one stays. */
  function EverySecond(xs: seq<Sector>): (r: seq<Sector>)
    ensures |r| == (|xs| + 1) / 2
    ensures forall j | 0 <= j < |r| :: r[j] == xs[if 2 * j + 1 < |xs| then 2 * j + 1 else 2 * j]
  {
    if |xs| < 2 then xs else [xs[1]] + EverySecond(xs[2..])
  }

  /** The clusters fs linked, in order, behind at. */
  function LinkedBehind(t: Table, at: Cluster, fs: seq<Cluster>): Table
    decreases |fs|
  {
    if fs == [] then t else LinkedBehind(t[at := fs[0]], fs[0], fs[1..])
  }

  function LastOf(at: Cluster, fs: seq<Cluster>): Cluster { if fs == [] then at else fs[|fs| - 1] }

  lemma {:induction false} FirstFree(t: Table, lo: nat)
    requires lo >= 2 && FreeFrom(t, lo) != []
    ensures FindFree(t, lo) == FreeFrom(t, lo)[0]
    decreases TABLE_SIZE - lo
  {
    if lo < TABLE_SIZE && t[lo] != 0 {
      FirstFree(t, lo + 1);
    }
  }

  /** An entry that is in use stays so. */
  lemma {:induction false} FreeIgnoresUsed(t: Table, lo: nat, x: nat, e: Entry)
    requires x < TABLE_SIZE && t[x] != 0 && e != 0
    ensures FreeFrom(t[x := e], lo) == FreeFrom(t, lo)
    decreases TABLE_SIZE - lo
  {
    if lo < TABLE_SIZE {
      FreeIgnoresUsed(t, lo + 1, x, e);
    }
  }

  lemma {:induction false} FreeIgnoresBelow(t: Table, lo: nat, x: nat, e: Entry)
    requires x < lo && x < TABLE_SIZE
    ensures FreeFrom(t[x := e], lo) == FreeFrom(t, lo)
    decreases TABLE_SIZE - lo
  {
    if lo < TABLE_SIZE {
      FreeIgnoresBelow(t, lo + 1, x, e);
    }
  }

  /** The first free cluster taken. */
  lemma {:induction false} FreeAfterFirst(t: Table, lo: nat, e: Entry)
    requires FreeFrom(t, lo) != [] && e != 0
    ensures var f := FreeFrom(t, lo)[0]; FreeFrom(t[f := e], lo) == FreeFrom(t, lo)[1..]
    decreases TABLE_SIZE - lo
  {
    if t[lo] == 0 {
      FreeIgnoresBelow(t, lo + 1, lo, e);
    } else {
      FreeAfterFirst(t, lo + 1, e);
    }
  }

  /** The links of a table differ in the entry at only: sealing it, or linking on from it, makes them the same. */
  lemma {:induction false} LinkedIgnoresLast(t: Table, t': Table, at: Cluster, fs: seq<Cluster>)
    requires forall i | 0 <= i < TABLE_SIZE && i != at :: t'[i] == t[i]
    ensures Seal(LinkedBehind(t', at, fs), LastOf(at, fs)) == Seal(LinkedBehind(t, at, fs), LastOf(at, fs))
  {
    if fs != [] {
      assert t'[at := fs[0]] == t[at := fs[0]];
    } else {
      assert Seal(t', at) == Seal(t, at);
    }
  }

  /** Two rounds of the loop go to the same free cluster. */
  lemma FreshTwice(g: Geometry, v: VolumeState, file: seq<Sector>, i: nat, at: Cluster)
    requires g.Valid() && i + 1 < |file| && v.table[at] != 0 && FreeFrom(v.table, g.RootSectors()) != []
    ensures var free := FreeFrom(v.table, g.RootSectors());
            var v2 := VolumeState(v.table[at := free[0]][free[0] := free[0]], Put(v.disk, g.Lba(free[0]), file[i + 1]));
            && WriteFresh(g, v, file, i, |file|, at) == WriteFresh(g, v2, file, i + 2, |file|, free[0])
            && FreeFrom(v2.table, g.RootSectors()) == free[1..]
  {
    var lo, f := g.RootSectors(), FreeFrom(v.table, g.RootSectors())[0];
    var t1 := v.table[at := f];
    FirstFree(v.table, lo);
    FreeIgnoresUsed(v.table, lo, at, f);
    FirstFree(t1, lo);
    FreeAfterFirst(t1, lo, f);
    assert Put(Put(v.disk, g.Lba(f), file[i]), g.Lba(f), file[i + 1]) == Put(v.disk, g.Lba(f), file[i + 1]);
  }

  lemma BehindStep(t: Table, t2: Table, at: Cluster, f: Cluster, fs: seq<Cluster>)
    requires forall i | 0 <= i < TABLE_SIZE && i != f :: t2[i] == t[at := f][i]
    ensures LastOf(at, [f] + fs) == LastOf(f, fs)
    ensures Seal(LinkedBehind(t2, f, fs), LastOf(f, fs)) == Seal(LinkedBehind(t, at, [f] + fs), LastOf(f, fs))
  {
    assert ([f] + fs)[1..] == fs;
    LinkedIgnoresLast(t[at := f], t2, f, fs);
  }

  lemma SecondsSize(xs: seq<Sector>)
    ensures |EverySecond(xs)| == (|xs| + 1) / 2
  {
  }

  lemma SecondsStep(file: seq<Sector>, i: nat)
    requires i + 1 < |file|
    ensures EverySecond(file[i..]) == [file[i + 1]] + EverySecond(file[i + 2..])
  {
    assert file[i..][2..] == file[i + 2..];
  }

  /** The loop from sector i on, at being in use: two sectors go to each free cluster. */
  lemma {:induction false} FreshFrom(g: Geometry, v: VolumeState, file: seq<Sector>, i: nat, at: Cluster, m: nat)
    requires g.Valid() && i <= |file| && v.table[at] != 0 && m == (|file| - i + 1) / 2
    requires m <= |FreeFrom(v.table, g.RootSectors())|
    ensures var fs := FreeFrom(v.table, g.RootSectors())[..m];
            var w := WriteFresh(g, v, file, i, |file|, at);
            && w.Some? && w.value.1 == LastOf(at, fs)
            && Seal(w.value.0.table, LastOf(at, fs)) == Seal(LinkedBehind(v.table, at, fs), LastOf(at, fs))
            && w.value.0.disk == PutAll(g, v.disk, fs, EverySecond(file[i..]))
    decreases |file| - i
  {
    hide Put, WriteFresh, LinkedBehind, LastOf, PutAll, Seal;
    var free := FreeFrom(v.table, g.RootSectors());
    if i + 1 < |file| {
      hide FreeFrom, EverySecond;
      var f, fs := free[0], free[1..][..m - 1];
      var t1 := v.table[at := f];
      FreshTwice(g, v, file, i, at);
      var v2 := VolumeState(t1[f := f], Put(v.disk, g.Lba(f), file[i + 1]));
      assert m - 1 == (|file| - (i + 2) + 1) / 2 <= |free[1..]|;
      FreshFrom(g, v2, file, i + 2, f, m - 1);
      assert free[..m] == [f] + fs;
      BehindStep(v.table, v2.table, at, f, fs);
      SecondsStep(file, i);
      SecondsSize(file[i + 2..]);
      PutAllFirst(g, v.disk, f, fs, file[i + 1], EverySecond(file[i + 2..]));
    } else {
      FreshLast(g, v, file, i, at);
    }
  }

  /** At most one sector is left. */
  lemma FreshLast(g: Geometry, v: VolumeState, file: seq<Sector>, i: nat, at: Cluster)
    requires g.Valid() && |file| - 1 <= i <= |file| && |file| - i <= |FreeFrom(v.table, g.RootSectors())|
    ensures var fs := FreeFrom(v.table, g.RootSectors())[..|file| - i];
            var w := WriteFresh(g, v, file, i, |file|, at);
            && w.Some? && w.value.1 == LastOf(at, fs) && w.value.0.table == LinkedBehind(v.table, at, fs)
            && w.value.0.disk == PutAll(g, v.disk, fs, EverySecond(file[i..]))
  {
    hide Put;
    var free := FreeFrom(v.table, g.RootSectors());
    if i < |file| {
      FirstFree(v.table, g.RootSectors());
      assert free[..1] == [free[0]] && [free[0]][1..] == [];
      assert file[i..] == [file[i]];
    } else {
      assert file[i..] == [] && free[..0] == [];
    }
  }

  // ----- the chain that is built -----

  predicate Apart(at: Cluster, fs: seq<Cluster>) {
    at !in fs && forall i, j | 0 <= i < j < |fs| :: fs[i] != fs[j]
  }

  lemma {:induction false} LinksOf(t: Table, at: Cluster, fs: seq<Cluster>, c: seq<Cluster>)
    requires Apart(at, fs) && c == [at] + fs
    ensures forall i | 0 <= i < |fs| :: LinkedBehind(t, at, fs)[c[i]] == c[i + 1]
    ensures forall x | 0 <= x < TABLE_SIZE && x !in c :: LinkedBehind(t, at, fs)[x] == t[x]
    decreases |fs|
  {
    if fs != [] {
      LinksOf(t[at := fs[0]], fs[0], fs[1..], c[1..]);
      NotBehind(t[at := fs[0]], fs[0], fs[1..], at);
      assert forall i | 1 <= i < |fs| :: c[i] == c[1..][i - 1];
    }
  }

  lemma {:induction false} NotBehind(t: Table, at: Cluster, fs: seq<Cluster>, x: Cluster)
    requires x != at && x !in fs
    ensures LinkedBehind(t, at, fs)[x] == t[x]
    decreases |fs|
  {
    if fs != [] {
      NotBehind(t[at := fs[0]], fs[0], fs[1..], x);
    }
  }

  lemma LinkedIsChain(t: Table, at: Cluster, fs: seq<Cluster>)
    requires Apart(at, fs) && 2 <= at && forall i | 0 <= i < |fs| :: fs[i] >= 2
    ensures Chain(Seal(LinkedBehind(t, at, fs), LastOf(at, fs)), [at] + fs)
  {
    LinksOf(t, at, fs, [at] + fs);
  }

  /** What a finished append comes to: the chain c from the cluster given on, holding xs. */
  ghost predicate Appended(g: Geometry, v: VolumeState, w: Option<VolumeState>, c: seq<nat>, xs: seq<Sector>)
    requires v.Valid(g)
  {
    && w.Some? && w.value.Valid(g) && w.value.Synced() && |w.value.disk| == |v.disk| && Chain(w.value.table, c)
    && (OnDisk(g, v.disk, c) ==> Contents(g, w.value.disk, c) == xs)
    && (forall x | 0 <= x < TABLE_SIZE && x !in c :: w.value.table[x] == v.table[x])
    && (forall l | FAT_SECTORS < l < |v.disk| && (forall i | 0 <= i < |c| :: l != g.Lba(c[i])) ::
          w.value.disk[l] == v.disk[l])
  }

  lemma AppendedTable(t: Table, at: Cluster, fs: seq<Cluster>)
    requires Apart(at, fs) && 2 <= at && forall i | 0 <= i < |fs| :: fs[i] >= 2
    ensures var t' := Seal(LinkedBehind(t, at, fs), LastOf(at, fs));
            Chain(t', [at] + fs) && forall x | 0 <= x < TABLE_SIZE && x !in [at] + fs :: t'[x] == t[x]
  {
    LinkedIsChain(t, at, fs);
    LinksOf(t, at, fs, [at] + fs);
  }

  lemma AppendedDisk(g: Geometry, d: seq<Sector>, c: seq<nat>, xs: seq<Sector>)
    requires g.Valid() && |c| == |xs| && forall i, j | 0 <= i < j < |c| :: c[i] != c[j]
    ensures OnDisk(g, d, c) ==> Contents(g, PutAll(g, d, c, xs), c) == xs
    ensures forall l | 0 <= l < |d| && (forall i | 0 <= i < |c| :: l != g.Lba(c[i])) :: PutAll(g, d, c, xs)[l] == d[l]
  {
    hide PutAll;
    if OnDisk(g, d, c) {
      forall i | 0 <= i < |c| ensures PutAll(g, d, c, xs)[g.Lba(c[i])] == xs[i] {
        PutAllPlaces(g, d, c, xs, i);
      }
    }
    forall l | 0 <= l < |d| && (forall i | 0 <= i < |c| :: l != g.Lba(c[i])) ensures PutAll(g, d, c, xs)[l] == d[l] {
      PutAllFrame(g, d, c, xs, l);
    }
  }

  lemma SavedAppend(g: Geometry, v: VolumeState, u: VolumeState, c: seq<nat>, xs: seq<Sector>)
    requires v.Valid(g) && |u.disk| == |v.disk| && Chain(u.table, c)
    requires OnDisk(g, v.disk, c) ==> Contents(g, u.disk, c) == xs
    requires forall x | 0 <= x < TABLE_SIZE && x !in c :: u.table[x] == v.table[x]
    requires forall l | 0 <= l < |v.disk| && (forall i | 0 <= i < |c| :: l != g.Lba(c[i])) :: u.disk[l] == v.disk[l]
    ensures Appended(g, v, Some(Saved(u)), c, xs)
  {
    hide FatImage;
    assert g.DirStart() > FAT_SECTORS;
    SavedPlaces(g, u);
    SavedContents(g, u, c);
  }

  lemma FinishedAppend(g: Geometry, v: VolumeState, r: Option<(VolumeState, Entry)>, at: Cluster, fs: seq<Cluster>,
                       xs: seq<Sector>)
    requires v.Valid(g) && Apart(at, fs) && 2 <= at && (forall i | 0 <= i < |fs| :: fs[i] >= 2) && |xs| == |fs| + 1
    requires r.Some? && r.value.1 == LastOf(at, fs)
    requires Seal(r.value.0.table, LastOf(at, fs)) == Seal(LinkedBehind(v.table, at, fs), LastOf(at, fs))
    requires r.value.0.disk == PutAll(g, v.disk, [at] + fs, xs)
    ensures Appended(g, v, Finished(r), [at] + fs, xs)
  {
    hide Saved, PutAll, LinkedBehind, Chain, Apart, Appended, OnDisk, Contents, Seal, LastOf;
    var c: seq<nat> := [at] + fs;
    var u := VolumeState(Seal(LinkedBehind(v.table, at, fs), LastOf(at, fs)), r.value.0.disk);
    assert Finished(r) == Some(Saved(u));
    AppendedTable(v.table, at, fs);
    ApartAll(at, fs);
    AppendedDisk(g, v.disk, c, xs);
    SavedAppend(g, v, u, c, xs);
    assert Appended(g, v, Finished(r), c, xs);
  }

  lemma ApartAll(at: Cluster, fs: seq<Cluster>)
    requires Apart(at, fs)
    ensures forall i, j | 0 <= i < j < |[at] + fs| :: ([at] + fs)[i] != ([at] + fs)[j]
  {
  }

  lemma SavedContents(g: Geometry, u: VolumeState, c: seq<nat>)
    requires u.Valid(g) && forall i | 0 <= i < |c| :: c[i] >= 2
    ensures Contents(g, Saved(u).disk, c) == Contents(g, u.disk, c)
  {
    SavedPlaces(g, u);
  }

  lemma FreeApart(t: Table, lo: nat, at: Cluster, m: nat)
    requires lo >= 2 && t[at] != 0 && m <= |FreeFrom(t, lo)|
    ensures Apart(at, FreeFrom(t, lo)[..m]) && forall i | 0 <= i < m :: FreeFrom(t, lo)[..m][i] >= 2
  {
  }

  lemma PutAllFirst(g: Geometry, d: seq<Sector>, at: nat, fs: seq<nat>, x: Sector, xs: seq<Sector>)
    requires g.Valid() && |fs| <= |xs|
    ensures PutAll(g, d, [at] + fs, [x] + xs) == PutAll(g, Put(d, g.Lba(at), x), fs, xs)
  {
    assert ([at] + fs)[1..] == fs && ([x] + xs)[1..] == xs;
  }

  /** A cluster in use: its sector is overwritten by the first one, and then of every two further sectors the second
      one is kept, in the lowest free clusters. */
  lemma AppendFromUsed(g: Geometry, v: VolumeState, file: seq<Sector>, start: Cluster)
    requires v.Valid(g) && 2 <= start && v.table[start] != 0 && file != []
    requires |file| / 2 <= |FreeFrom(v.table, g.RootSectors())|
    ensures Appended(g, v, WriteItem(g, v, file, start, None, |file|),
                     [start] + FreeFrom(v.table, g.RootSectors())[..|file| / 2], [file[0]] + EverySecond(file[1..]))
  {
    hide WriteFresh, PutAll;
    var m := |file| / 2;
    var fs := FreeFrom(v.table, g.RootSectors())[..m];
    var v1 := v.(disk := Put(v.disk, g.Lba(start), file[0]));
    FreshFrom(g, v1, file, 1, start, m);
    FreeApart(v.table, g.RootSectors(), start, m);
    PutAllFirst(g, v.disk, start, fs, file[0], EverySecond(file[1..]));
    FinishedAppend(g, v, WriteFresh(g, v1, file, 1, |file|, start), start, fs, [file[0]] + EverySecond(file[1..]));
  }

  /** The lowest free cluster, as a search just before would give: it is found once more, so that even the first
      sector is lost to the second one. */
  lemma AppendFromFree(g: Geometry, v: VolumeState, file: seq<Sector>, start: Cluster)
    requires v.Valid(g) && FreeFrom(v.table, g.RootSectors()) != [] && start == FreeFrom(v.table, g.RootSectors())[0]
    requires file != [] && (|file| + 1) / 2 <= |FreeFrom(v.table, g.RootSectors())|
    ensures Appended(g, v, WriteItem(g, v, file, start, None, |file|),
                     FreeFrom(v.table, g.RootSectors())[..(|file| + 1) / 2], EverySecond(file))
  {
    hide PutAll, WriteFresh, WriteRest, LinkedBehind, EverySecond, Apart, FatImage, Appended, Finished, FreeFrom;
    var m := (|file| + 1) / 2 - 1;
    var fs := FreeFrom(v.table, g.RootSectors())[1..][..m];
    FreeSplits(v.table, g.RootSectors(), m);
    FromFree(g, v, file, start, m);
    var d := Put(v.disk, g.Lba(start), file[0]);
    FinishedAppend(g, v, WriteFresh(g, v.(disk := d), file, 1, |file|, start), start, fs, EverySecond(file));
  }

  lemma FreeSplits(t: Table, lo: nat, m: nat)
    requires lo >= 2 && m < |FreeFrom(t, lo)|
    ensures var free := FreeFrom(t, lo);
            var fs := free[1..][..m];
            free[0] >= 2 && free[..m + 1] == [free[0]] + fs && Apart(free[0], fs) && forall i | 0 <= i < |fs| :: fs[i] >= 2
  {
  }

  lemma FromFree(g: Geometry, v: VolumeState, file: seq<Sector>, start: Cluster, m: nat)
    requires v.Valid(g) && FreeFrom(v.table, g.RootSectors()) != [] && start == FreeFrom(v.table, g.RootSectors())[0]
    requires file != [] && m + 1 == (|file| + 1) / 2 <= |FreeFrom(v.table, g.RootSectors())|
    ensures var fs := FreeFrom(v.table, g.RootSectors())[1..][..m];
            var r := WriteFresh(g, v.(disk := Put(v.disk, g.Lba(start), file[0])), file, 1, |file|, start);
            && r.Some? && r.value.1 == LastOf(start, fs)
            && Seal(r.value.0.table, LastOf(start, fs)) == Seal(LinkedBehind(v.table, start, fs), LastOf(start, fs))
            && r.value.0.disk == PutAll(g, v.disk, [start] + fs, EverySecond(file))
  {
    hide PutAll, LinkedBehind;
    var lo := g.RootSectors();
    var fs := FreeFrom(v.table, lo)[1..][..m];
    var d := Put(v.disk, g.Lba(start), file[0]);
    if |file| == 1 {
      assert fs == [];
      PutAllFirst(g, v.disk, start, fs, file[0], []);
      PutAllNone(g, d);
      assert [file[0]] + [] == EverySecond(file);
      NoneBehind(v.table, start);
    } else {
      FreeAgain(g, v, file, start);
      hide WriteFresh, LastOf, Seal, Put, EverySecond;
      var v2 := VolumeState(v.table[start := start], Put(v.disk, g.Lba(start), file[1]));
      assert m == (|file| - 2 + 1) / 2 <= |FreeFrom(v2.table, lo)|;
      FreshFrom(g, v2, file, 2, start, m);
      LinkedIgnoresLast(v.table, v2.table, start, fs);
      SecondsStep(file, 0);
      assert file[0..] == file;
      SecondsSize(file[2..]);
      PutAllFirst(g, v.disk, start, fs, file[1], EverySecond(file[2..]));
    }
  }

  /** The second sector goes where the first one went. */
  lemma FreeAgain(g: Geometry, v: VolumeState, file: seq<Sector>, start: Cluster)
    requires v.Valid(g) && |file| >= 2
    requires FreeFrom(v.table, g.RootSectors()) != [] && start == FreeFrom(v.table, g.RootSectors())[0]
    ensures var v2 := VolumeState(v.table[start := start], Put(v.disk, g.Lba(start), file[1]));
            && WriteFresh(g, v.(disk := Put(v.disk, g.Lba(start), file[0])), file, 1, |file|, start) ==
               WriteFresh(g, v2, file, 2, |file|, start)
            && FreeFrom(v2.table, g.RootSectors()) == FreeFrom(v.table, g.RootSectors())[1..] && start >= 2
  {
    var d := Put(v.disk, g.Lba(start), file[0]);
    FirstFree(v.table, g.RootSectors());
    FreeAfterFirst(v.table, g.RootSectors(), start);
    assert Put(d, g.Lba(start), file[1]) == Put(v.disk, g.Lba(start), file[1]);
  }

  lemma NoneBehind(t: Table, at: Cluster)
    ensures LinkedBehind(t, at, []) == t
  {
  }

  lemma PutAllNone(g: Geometry, d: seq<Sector>)
    requires g.Valid()
    ensures PutAll(g, d, [], []) == d
  {
  }

  /** So all sectors are kept exactly when there are at most two of them, or one if the cluster was free. */
  lemma AppendKeepsIff(file: seq<Sector>)
    ensures file != [] ==> ([file[0]] + EverySecond(file[1..]) == file <==> |file| <= 2)
    ensures EverySecond(file) == file <==> |file| <= 1
  {
    SecondsShort();
    hide EverySecond;
    SecondsSize(file);
    if file != [] {
      var kept := [file[0]] + EverySecond(file[1..]);
      SecondsSize(file[1..]);
      assert |kept| == 1 + |file| / 2;
      if |file| == 1 {
        assert file[1..] == [] && file == [file[0]];
      } else if |file| == 2 {
        assert file[1..] == [file[1]] && file == [file[0]] + file[1..];
      }
    }
  }

  lemma SecondsShort()
    ensures EverySecond([]) == [] && forall x: Sector :: EverySecond([x]) == [x]
  {
  }
}
