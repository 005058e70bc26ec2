/** Reading a file in pieces and overwriting a file, as functions on the volume's value. */
module FileData {
  import opened Fat12Types
  import opened Chains
  import opened FatHeap
  import opened ItemData

  // ----- bytes and sectors -----

  lemma {:induction false} BytesPrefix(s: seq<Sector>, k: nat)
    requires k <= |s|
    ensures Bytes(s)[..k * SECTOR_SIZE] == Bytes(s[..k])
    decreases |s|
  {
    if k < |s| {
      BytesPrefix(s[..|s| - 1], k);
      assert s[..|s| - 1][..k] == s[..k];
    } else {
      assert s[..k] == s;
    }
  }

  lemma BytesStep(s: seq<Sector>, k: nat, n: nat)
    requires k < |s| && n <= SECTOR_SIZE
    ensures k * SECTOR_SIZE + n <= |Bytes(s)|
    ensures Bytes(s)[..k * SECTOR_SIZE + n] == Bytes(s)[..k * SECTOR_SIZE] + s[k][..n]
  {
  }

  // ----- File_Handle::Read -----

  function Block(g: Geometry, v: VolumeState, cluster: Entry): Sector
    requires v.Valid(g)
  {
    if cluster == 0 then RootArea(g, v)[0] else Get(v.disk, g.Lba(cluster), ZeroSector())
  }

  /** The loop, out being what has been copied to the buffer. None: a copy leaves the sector or the buffer, or
      the table is indexed past its end. */
  function ReadLoop(g: Geometry, v: VolumeState, length: nat, room: nat, out: seq<Byte>, at: Entry)
    : (r: Option<seq<Byte>>)
    requires v.Valid(g)
    decreases if |out| < room then room - |out| else 0
  {
    if |out| >= room then Some(out)
    else if at >= TABLE_SIZE then None
    else
      var x := Block(g, v, at);
      if length < room then
        if length <= SECTOR_SIZE && |out| + length <= room then Some(out + x[..length]) else None
      else if |out| + SECTOR_SIZE > room then
        var n := |out| + SECTOR_SIZE - room;
        if |out| + n <= room then Some(out + x[..n]) else None
      else if !EndOfChain(v.table[at]) then ReadLoop(g, v, length, room, out + x, v.table[at])
      else Some(out + x[..length % SECTOR_SIZE])
  }

  function ReadAt(g: Geometry, v: VolumeState, start: Entry, length: nat, seek: nat, room: nat): Option<seq<Byte>>
    requires v.Valid(g) && seek >= 1
  {
    if seek - 1 >= length then Some([])
    else
      match Walk(v.table, start, (seek - 1) / SECTOR_SIZE)
      case None => None
      case Some(at) => ReadLoop(g, v, length, room, [], at)
  }

  /** How many bytes of sector k a read with a one-sector buffer delivers, in a chain of n. */
  function Delivered(length: nat, n: nat, k: nat): nat {
    if k * SECTOR_SIZE >= length then 0
    else if length < SECTOR_SIZE then length
    else if k + 1 < n then SECTOR_SIZE
    else length % SECTOR_SIZE
  }

  /** A read at any position inside sector k starts at the beginning of that sector. */
  lemma ReadSectorOnChain(g: Geometry, v: VolumeState, c: seq<nat>, length: nat, index: nat)
    requires v.Valid(g) && Chain(v.table, c) && index / SECTOR_SIZE < |c|
    ensures var k := index / SECTOR_SIZE;
            var n := if index >= length then 0 else Delivered(length, |c|, k);
            n <= SECTOR_SIZE && ReadAt(g, v, c[0], length, index + 1, SECTOR_SIZE) ==
                                Some(Contents(g, v.disk, c)[k][..n])
  {
    var k := index / SECTOR_SIZE;
    if index < length {
      WalkOnChain(v.table, c, k);
      var x := Block(g, v, c[k]);
      assert x == Contents(g, v.disk, c)[k];
      var none: seq<Byte> := [];
      assert forall n | 0 <= n <= SECTOR_SIZE :: none + x[..n] == x[..n];
      assert none + x == x == x[..SECTOR_SIZE];
      if k + 1 < |c| {
        assert v.table[c[k]] == c[k + 1];
        assert length >= SECTOR_SIZE ==> ReadLoop(g, v, length, SECTOR_SIZE, none + x, c[k + 1]) == Some(x);
      } else {
        assert EndOfChain(v.table[c[k]]);
      }
    } else {
      assert Contents(g, v.disk, c)[k][..0] == [];
    }
  }

  /** What reading to the end delivers in all, for a chain of n sectors. */
  function Total(length: nat, n: nat): nat {
    if length < SECTOR_SIZE then length
    else if n <= length / SECTOR_SIZE then (if n == 0 then 0 else n - 1) * SECTOR_SIZE + length % SECTOR_SIZE
    else if n == length / SECTOR_SIZE + 1 then length
    else (length + SECTOR_SIZE - 1) / SECTOR_SIZE * SECTOR_SIZE
  }

  /** Reading in one-sector pieces yields exactly the file when it is shorter than a sector, or when its chain
      is longer than length/512 sectors and, unless the length is a whole number of sectors, by one only. */
  predicate ReadsWhole(length: nat, n: nat) {
    length < SECTOR_SIZE
    || (n > length / SECTOR_SIZE && (length % SECTOR_SIZE == 0 || n == length / SECTOR_SIZE + 1))
  }

  lemma TotalIsLengthIff(length: nat, n: nat)
    requires n >= 1
    ensures Total(length, n) == length <==> ReadsWhole(length, n)
    ensures Total(length, n) <= n * SECTOR_SIZE || length < SECTOR_SIZE
  {
  }

  // ----- reading to the end, piece by piece -----

  /** From position index on: seek, read into a buffer of this room, and go on behind what was read, until a read returns
      nothing. */
  function Pieces(g: Geometry, v: VolumeState, start: Entry, length: nat, room: nat, index: nat): Option<seq<Byte>>
    requires v.Valid(g)
    decreases if index < length then length - index else 0
  {
    match ReadAt(g, v, start, length, index + 1, room)
    case None => None
    case Some(b) =>
      if b == [] then Some([])
      else
        match Pieces(g, v, start, length, room, index + |b|)
        case None => None
        case Some(r) => Some(b + r)
  }

  /** The chain is long enough for the length, or the length is a whole number of sectors. */
  predicate EndsInChain(length: nat, n: nat) { n * SECTOR_SIZE >= length || length % SECTOR_SIZE == 0 }

  lemma PieceBy(g: Geometry, v: VolumeState, c: seq<nat>, length: nat, k: nat)
    requires v.Valid(g) && Chain(v.table, c) && k < |c|
    ensures var n := Delivered(length, |c|, k);
            var start := k * SECTOR_SIZE;
            n <= SECTOR_SIZE &&
            Pieces(g, v, c[0], length, SECTOR_SIZE, start) ==
            if n == 0 then Some([])
            else match Pieces(g, v, c[0], length, SECTOR_SIZE, start + n)
              case None => None
              case Some(r) => Some(Contents(g, v.disk, c)[k][..n] + r)
  {
    assert k * SECTOR_SIZE / SECTOR_SIZE == k;
    ReadSectorOnChain(g, v, c, length, k * SECTOR_SIZE);
    if Delivered(length, |c|, k) == 0 {
      assert Contents(g, v.disk, c)[k][..0] == [];
    }
  }

  lemma SliceStep(b: seq<Byte>, at: nat, x: seq<Byte>, end: nat)
    requires at + |x| <= end <= |b| && b[..at + |x|] == b[..at] + x
    ensures b[at..end] == x + b[at + |x|..end]
  {
    assert b[at..at + |x|] == b[..at + |x|][at..] == x;
  }

  lemma BytesPiece(s: seq<Sector>, k: nat, n: nat, end: nat)
    requires k < |s| && n <= SECTOR_SIZE && k * SECTOR_SIZE + n <= end <= |s| * SECTOR_SIZE
    ensures Bytes(s)[k * SECTOR_SIZE..end] == s[k][..n] + Bytes(s)[k * SECTOR_SIZE + n..end]
  {
    hide Bytes;
    BytesStep(s, k, n);
    SliceStep(Bytes(s), k * SECTOR_SIZE, s[k][..n], end);
  }

  lemma PieceSizes(length: nat, n: nat, k: nat)
    requires k < n && EndsInChain(length, n)
    ensures Total(length, n) <= n * SECTOR_SIZE
    ensures var d, start := Delivered(length, n, k), k * SECTOR_SIZE;
            if d == 0 then start >= Total(length, n)
            else start + d <= Total(length, n)
                 && if k + 1 < n && length >= SECTOR_SIZE then d == SECTOR_SIZE
                    else start + d >= length && Total(length, n) == start + d
  {
  }

  /** On a chain that is long enough the pieces are the first bytes of its contents. */
  lemma {:induction false} PiecesOnChain(g: Geometry, v: VolumeState, c: seq<nat>, length: nat, k: nat)
    requires v.Valid(g) && Chain(v.table, c) && k < |c| && EndsInChain(length, |c|)
    ensures Total(length, |c|) <= |c| * SECTOR_SIZE == |Bytes(Contents(g, v.disk, c))|
    ensures Pieces(g, v, c[0], length, SECTOR_SIZE, k * SECTOR_SIZE) ==
            Some(if k * SECTOR_SIZE <= Total(length, |c|)
                 then Bytes(Contents(g, v.disk, c))[k * SECTOR_SIZE..Total(length, |c|)] else [])
    decreases |c| - k
  {
    hide Total, Delivered, Pieces, Bytes, EndsInChain;
    var n, total := Delivered(length, |c|, k), Total(length, |c|);
    PieceSizes(length, |c|, k);
    PieceBy(g, v, c, length, k);
    var b := Bytes(Contents(g, v.disk, c));
    assert |b| == |c| * SECTOR_SIZE && b[total..total] == [];
    if n > 0 {
      BytesPiece(Contents(g, v.disk, c), k, n, total);
      if k + 1 < |c| && length >= SECTOR_SIZE {
        PiecesOnChain(g, v, c, length, k + 1);
      } else {
        NothingBehind(g, v, c[0], length, total);
      }
    }
  }

  lemma NothingBehind(g: Geometry, v: VolumeState, start: Entry, length: nat, index: nat)
    requires v.Valid(g) && index >= length
    ensures Pieces(g, v, start, length, SECTOR_SIZE, index) == Some([])
  {
  }

  /** On a chain that is too short, reading leaves the table: the last sector is read again and again, and then the
      walk goes past it. */
  lemma {:induction false} PiecesLeaveTable(g: Geometry, v: VolumeState, c: seq<nat>, length: nat, index: nat)
    requires v.Valid(g) && Chain(v.table, c) && v.table[c[|c| - 1]] != 0 && !EndsInChain(length, |c|)
    requires index / SECTOR_SIZE <= |c| && index < length
    requires index / SECTOR_SIZE < |c| - 1 ==> index % SECTOR_SIZE == 0
    requires index / SECTOR_SIZE == |c| ==> index < |c| * SECTOR_SIZE + length % SECTOR_SIZE
    ensures Pieces(g, v, c[0], length, SECTOR_SIZE, index) == None
    decreases length - index
  {
    var j := index / SECTOR_SIZE;
    if j == |c| {
      WalkOnChain(v.table, c, j);
    } else {
      ReadSectorOnChain(g, v, c, length, index);
      var n := Delivered(length, |c|, j);
      assert |Contents(g, v.disk, c)[j][..n]| == n > 0;
      assert (index + n) / SECTOR_SIZE <= |c| && index + n < length;
      PiecesLeaveTable(g, v, c, length, index + n);
    }
  }

  // ----- File_Handle::Write -----

  /** The bytes, zero-padded, in length/512 + 1 sectors. */
  function Sectors(b: seq<Byte>): (s: seq<Sector>)
    ensures |s| == |b| / SECTOR_SIZE + 1
    decreases |b|
  {
    if |b| < SECTOR_SIZE then [b + seq(SECTOR_SIZE - |b|, _ => 0)]
    else [b[..SECTOR_SIZE]] + Sectors(b[SECTOR_SIZE..])
  }

  /** The sectors hold the bytes, and zeros behind them. */
  lemma {:induction false} SectorsHold(b: seq<Byte>)
    ensures Bytes(Sectors(b)) == b + seq(|Sectors(b)| * SECTOR_SIZE - |b|, _ => 0)
    decreases |b|
  {
    var s := Sectors(b);
    if |b| < SECTOR_SIZE {
      assert s[..0] == [] && [] + s[0] == s[0];
    } else {
      SectorsHold(b[SECTOR_SIZE..]);
      BytesBehind(b[..SECTOR_SIZE], Sectors(b[SECTOR_SIZE..]));
      assert b == b[..SECTOR_SIZE] + b[SECTOR_SIZE..];
    }
  }

  lemma {:induction false} BytesBehind(x: Sector, s: seq<Sector>)
    ensures Bytes([x] + s) == x + Bytes(s)
    decreases |s|
  {
    if s == [] {
      assert [x] + s == [x] && [x][..0] == [];
    } else {
      BytesBehind(x, s[..|s| - 1]);
      assert ([x] + s)[..|s|] == [x] + s[..|s| - 1];
    }
  }

  /** The old clusters are freed, then the data is written from the start cluster on. */
  ghost function Rewritten(g: Geometry, v: VolumeState, start: Entry, b: seq<Byte>): Option<VolumeState>
    requires g.Valid() && InRange(v.table) && start < TABLE_SIZE
  {
    WriteItem(g, v.(table := Freed(v.table, start)), Sectors(b), start, Some(0), |Sectors(b)|)
  }

  /** Writing on from a freed cluster: every further sector goes to the same free cluster, linked from entry 0. */
  lemma {:induction false} WriteRestFromFree(g: Geometry, v: VolumeState, file: seq<Sector>, i: nat, count: nat, at: nat)
    requires g.Valid() && i < count <= |file| && at < TABLE_SIZE && v.table[at] == 0
    ensures var free := FindFree(v.table, g.RootSectors());
            var r := WriteRest(g, v, file, i, count, at);
            r.Some? && r.value.1 == free && r.value.0.table == v.table[0 := free]
            && forall l | 0 <= l < |v.disk| && l != g.Lba(free) :: r.value.0.disk[l] == v.disk[l]
    decreases count - i
  {
    var lo := g.RootSectors();
    var free := FindFree(v.table, lo);
    var v1 := VolumeState(v.table[0 := free], Put(v.disk, g.Lba(free), file[i]));
    FindFreeIgnores(v.table, lo, 0, free);
    if i + 1 < count {
      WriteRestFromFree(g, v1, file, i + 1, count, free);
    }
  }

  lemma {:induction false} FindFreeIgnores(t: Table, lo: nat, x: nat, e: Entry)
    requires x < lo && x < TABLE_SIZE
    ensures FindFree(t[x := e], lo) == FindFree(t, lo)
    decreases TABLE_SIZE - lo
  {
    if lo < TABLE_SIZE && t[lo] != 0 {
      FindFreeIgnores(t, lo + 1, x, e);
    }
  }

  /** The table after rewriting a file whose old chain was c. */
  lemma RewrittenTable(g: Geometry, v: VolumeState, c: seq<nat>, b: seq<Byte>)
    requires v.Valid(g) && InRange(v.table) && Chain(v.table, c)
    ensures var r := Rewritten(g, v, c[0], b);
            var t := Freed(v.table, c[0]);
            r.Some? && r.value.table ==
            if |b| < SECTOR_SIZE then Seal(t, c[0])
            else Seal(t[0 := FindFree(t, g.RootSectors())], FindFree(t, g.RootSectors()))
  {
    FreedChain(v.table, c);
    var t := Freed(v.table, c[0]);
    var v1 := v.(table := t);
    var file := Sectors(b);
    assert Walk(t, c[0], 0) == Some(c[0]);
    if |b| >= SECTOR_SIZE {
      WriteRestFromFree(g, v1.(disk := Put(v1.disk, g.Lba(c[0]), file[0])), file, 1, |file|, c[0]);
    }
  }

  /** After File_Handle::Write the file has the length/512 + 1 sectors it was written with exactly when that is
      one sector; longer contents lose their chain. */
  lemma WriteKeepsChainIff(g: Geometry, v: VolumeState, c: seq<nat>, b: seq<Byte>)
    requires v.Valid(g) && InRange(v.table) && Chain(v.table, c)
    ensures var r := Rewritten(g, v, c[0], b);
            r.Some?
            && Chain(r.value.table, [c[0]])
            && ((exists e :: Chain(r.value.table, e) && e[0] == c[0] && |e| == |Sectors(b)|) <==> |b| < SECTOR_SIZE)
  {
    RewrittenTable(g, v, c, b);
    FreedChain(v.table, c);
    var t := Rewritten(g, v, c[0], b).value.table;
    assert t[c[0]] == 0 || t[c[0]] == LAST_SECTOR;
    var one := [c[0]];
    assert Chain(t, one);
    if |b| < SECTOR_SIZE {
      assert one[0] == c[0] && |one| == |Sectors(b)|;
    } else {
      forall e | Chain(t, e) && e[0] == c[0] ensures |e| != |Sectors(b)| {
        ChainUnique(t, e, one);
      }
    }
  }

  /** Contents of less than a sector survive: reading them back in pieces yields the bytes written. */
  lemma ShortWriteReadsBack(g: Geometry, v: VolumeState, c: seq<nat>, b: seq<Byte>)
    requires v.Valid(g) && InRange(v.table) && Chain(v.table, c) && OnDisk(g, v.disk, c) && |b| < SECTOR_SIZE
    ensures var r := Rewritten(g, v, c[0], b);
            r.Some? && r.value.Valid(g) && Chain(r.value.table, [c[0]])
            && Bytes(Contents(g, r.value.disk, [c[0]]))[..Total(|b|, 1)] == b
  {
  }
}
