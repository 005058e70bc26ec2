/** File handles: seeking, reading in pieces and rewriting a file. */
module FileHandles {
  import opened Fat12Types
  import opened Chains
  import opened ItemData
  import opened Volumes
  import opened Names
  import opened FileData

  const WORD: nat := 0x1_0000_0000_0000_0000

  datatype Origin = Beginning | Current | End

  /** Positions are kept one too high, so that 0 can stand for "before the start"; 64-bit arithmetic wraps. */
  function Sought(seek: nat, origin: Origin, position: nat, size: nat): (r: nat)
    requires seek < WORD && position < WORD && size < WORD
    ensures 1 <= r < WORD
    ensures origin == Beginning && position < WORD - 1 ==> r - 1 == position
    ensures origin == Current && 1 <= seek && seek + position < WORD - 1 ==> r - 1 == (seek - 1) + position + 1
    ensures origin == End && position < size ==> r - 1 == size - position - 1
    ensures origin == End && position >= size ==> r - 1 == if position == size then 0 else WORD - (position - size) - 1
  {
    var s := match origin
      case Beginning => (position + 1) % WORD
      case Current => (seek + position + 1) % WORD
      case End => (size - position) % WORD;
    if s < 1 then 1 else s
  }

  /** The byte to go to, counted from the start, from where the handle is, or back from the end. */
  function Meant(at: nat, origin: Origin, position: nat, size: nat): int {
    match origin
    case Beginning => position
    case Current => at + position
    case End => size - position
  }

  /** Of all positions that fit, a seek from the current one is always one byte too far, and one from the end one byte
      too low unless it goes to the very start: the offset of one is added once too often, or forgotten. */
  lemma SeekIsMeantIff(seek: nat, origin: Origin, position: nat, size: nat)
    requires 1 <= seek < WORD && position < WORD && size < WORD
    requires 0 <= Meant(seek - 1, origin, position, size) < WORD - 1
    ensures Sought(seek, origin, position, size) - 1 == Meant(seek - 1, origin, position, size) <==>
            origin == Beginning || (origin == End && position == size)
    ensures origin == Current && seek + position < WORD - 1 ==>
            Sought(seek, origin, position, size) - 1 == Meant(seek - 1, origin, position, size) + 1
    ensures origin == End && position < size ==>
            Sought(seek, origin, position, size) - 1 == Meant(seek - 1, origin, position, size) - 1
  {
  }

  class FileHandle {
    var seek: nat
    const item: DirEntry
    var length: nat

    ghost predicate Valid()
      reads this
    {
      1 <= seek < WORD && length < 0x1_0000_0000
    }

    constructor (e: DirEntry)
      ensures Valid() && seek == 1 && item == e && length == FileLength(e)
    {
      seek, item, length := 1, e, FileLength(e);
    }

    method Seek(origin: Origin, position: nat, size: nat) returns (r: nat)
      requires Valid() && position < WORD && size < WORD
      modifies this`seek
      ensures Valid() && r == seek == Sought(old(seek), origin, position, size)
    {
      match origin {
        case Beginning => seek := (position + 1) % WORD;
        case Current => seek := (seek + position + 1) % WORD;
        case End => seek := (size - position) % WORD;
      }
      if seek < 1 {
        seek := 1;
      }
      r := seek;
    }

    /** c is the file's chain; a file without a cluster has none, and starts at sector 0. */
    ghost predicate HasClusters(vol: Volume, c: seq<nat>)
      requires vol.Valid()
      reads vol, vol.table, vol.disk
    {
      StartSector(item) != 0 ==> Chain(vol.table[..], c) && c[0] == StartSector(item)
    }

    /** Fills the buffer from its start. None: memory outside the buffer, a sector or the table is touched. */
    method Read(vol: Volume, buffer: array<Byte>, ghost c: seq<nat>) returns (r: Option<nat>)
      requires Valid() && vol.Valid() && HasClusters(vol, c)
      requires buffer as object != vol.table as object && buffer as object != vol.disk as object
      modifies buffer
      ensures vol.Valid()
      ensures Filled(ReadAt(vol.geometry, vol.State(), StartSector(item), length, seek, buffer.Length), r, buffer[..])
    {
      if seek - 1 >= length {
        return Some(0);
      }
      var _ := vol.GetSectorsCount(StartSector(item), c);
      var at := vol.FindSector((seek - 1) / SECTOR_SIZE, StartSector(item));
      if at == None {
        return None;
      }
      r := FillBuffer(vol, buffer, length, at.value);
    }

    /** One round of the find and type commands: seek to the running position, then read a buffer's worth. */
    method ReadNext(vol: Volume, buffer: array<Byte>, index: nat, ghost c: seq<nat>) returns (r: Option<nat>)
      requires Valid() && vol.Valid() && HasClusters(vol, c)
      requires index < WORD - 1
      requires buffer as object != vol.table as object && buffer as object != vol.disk as object
      modifies this`seek, buffer
      ensures Valid() && vol.Valid()
      ensures Filled(ReadAt(vol.geometry, vol.State(), StartSector(item), length, index + 1, buffer.Length), r, buffer[..])
    {
      var _ := Seek(Beginning, index, length);
      r := Read(vol, buffer, c);
    }

    /** The reading loop of the find and type commands, until a read returns nothing; room is the size of their buffer.
        None: a read leaves the table, or a sector, or the buffer. */
    method ReadAll(vol: Volume, room: nat, ghost c: seq<nat>) returns (r: Option<seq<Byte>>)
      requires Valid() && vol.Valid() && HasClusters(vol, c) && room < 0x1_0000_0000
      modifies this`seek
      ensures Valid()
      ensures r == Pieces(vol.geometry, vol.State(), StartSector(item), length, room, 0)
    {
      ghost var g, v, start := vol.geometry, vol.State(), StartSector(item);
      var buffer := new Byte[room](_ => 0);
      var bytes: seq<Byte> := [];
      var n := ReadNext(vol, buffer, 0, c);
      AfterNothing(Pieces(g, v, start, length, room, 0));
      while n.Some? && n.value > 0
        invariant Valid() && vol.Valid() && fresh(buffer) && buffer.Length == room && vol.State() == v
        invariant |bytes| < length + room || bytes == []
        invariant Filled(ReadAt(g, v, start, length, |bytes| + 1, room), n, buffer[..])
        invariant Pieces(g, v, start, length, room, 0) == After(bytes, Pieces(g, v, start, length, room, |bytes|))
        decreases if |bytes| < length then length - |bytes| else 0, if n.Some? then n.value else 0
      {
        PiecesStep(g, v, start, length, room, bytes, buffer[..n.value]);
        bytes := bytes + buffer[..n.value];
        n := ReadNext(vol, buffer, |bytes|, c);
      }
      PiecesEnd(g, v, start, length, room, bytes);
      r := if n.None? then None else Some(bytes);
    }
  }

  function After(b: seq<Byte>, r: Option<seq<Byte>>): Option<seq<Byte>> {
    match r
    case None => None
    case Some(more) => Some(b + more)
  }

  lemma AfterNothing(r: Option<seq<Byte>>)
    ensures After([], r) == r
  {
    if r.Some? {
      assert [] + r.value == r.value;
    }
  }

  lemma PiecesEnd(g: Geometry, v: VolumeState, start: Entry, length: nat, room: nat, bytes: seq<Byte>)
    requires v.Valid(g)
    ensures var b := ReadAt(g, v, start, length, |bytes| + 1, room);
            && (b == Some([]) ==> After(bytes, Pieces(g, v, start, length, room, |bytes|)) == Some(bytes))
            && (b == None ==> After(bytes, Pieces(g, v, start, length, room, |bytes|)) == None)
  {
    assert bytes + [] == bytes;
  }

  lemma PiecesStep(g: Geometry, v: VolumeState, start: Entry, length: nat, room: nat, bytes: seq<Byte>, b: seq<Byte>)
    requires v.Valid(g) && ReadAt(g, v, start, length, |bytes| + 1, room) == Some(b) && b != []
    ensures |bytes| < length && After(bytes, Pieces(g, v, start, length, room, |bytes|)) ==
            After(bytes + b, Pieces(g, v, start, length, room, |bytes + b|))
  {
    match Pieces(g, v, start, length, room, |bytes + b|)
    case None =>
    case Some(r) => assert bytes + (b + r) == (bytes + b) + r;
  }

  /** What reading a file to its end returns, for every chain that ends in a terminator: the first bytes of the chain,
      which are the file exactly under ReadsWhole; or, when the chain is too short for a length that is no whole number
      of sectors, an access outside the table. */
  lemma ReadAllIff(g: Geometry, v: VolumeState, c: seq<nat>, length: nat)
    requires v.Valid(g) && Chain(v.table, c) && v.table[c[|c| - 1]] != 0
    ensures var r := Pieces(g, v, c[0], length, SECTOR_SIZE, 0);
            var data := Bytes(Contents(g, v.disk, c));
            && (r.Some? <==> EndsInChain(length, |c|))
            && (r.Some? ==> Total(length, |c|) <= |data| && r.value == data[..Total(length, |c|)])
            && (r.Some? && |r.value| == length <==> ReadsWhole(length, |c|))
  {
    if EndsInChain(length, |c|) {
      PiecesOnChain(g, v, c, length, 0);
    } else {
      PiecesLeaveTable(g, v, c, length, 0);
    }
    TotalIsLengthIff(length, |c|);
  }

  method ReadBlock(vol: Volume, cluster: Entry) returns (x: Sector)
    requires vol.Valid() && cluster < TABLE_SIZE
    ensures x == Block(vol.geometry, vol.State(), cluster)
  {
    var one := new Sector[1](_ => ZeroSector());
    assert Walk(vol.table[..], cluster, 0) == Some(cluster);
    var _ := vol.ReadItem(one, cluster, 0, 1);
    x := one[0];
  }

  /** The copying loop of File_Handle::Read. */
  method FillBuffer(vol: Volume, buffer: array<Byte>, length: nat, at: Entry) returns (r: Option<nat>)
    requires vol.Valid()
    requires buffer as object != vol.table as object && buffer as object != vol.disk as object
    modifies buffer
    ensures vol.Valid()
    ensures Filled(ReadLoop(vol.geometry, vol.State(), length, buffer.Length, [], at), r, buffer[..])
  {
    var room := buffer.Length;
    var sector: Entry := at;
    var position := 0;
    ghost var v := vol.State();
    ghost var want := ReadLoop(vol.geometry, v, length, room, [], at);
    while position < room
      invariant vol.Valid() && vol.State() == v && position <= room
      invariant ReadLoop(vol.geometry, v, length, room, buffer[..position], sector) == want
      decreases room - position
    {
      if sector >= TABLE_SIZE {
        return None;
      }
      var x := ReadBlock(vol, sector);
      var more, next := vol.NextSector(sector);
      var n := if length < room then length
               else if position + SECTOR_SIZE > room then position + SECTOR_SIZE - room
               else if more then SECTOR_SIZE
               else length % SECTOR_SIZE;
      if n > SECTOR_SIZE || position + n > room {
        return None;
      }
      assert more && n == SECTOR_SIZE ==> x[..n] == x;
      Copy(buffer, position, x[..n]);
      position := position + n;
      if length < room || position - n + SECTOR_SIZE > room || !more {
        return Some(position);
      }
      sector := next;
    }
    r := Some(position);
  }

  /** r says how much of the buffer holds the bytes wanted, or that there is no answer. */
  ghost predicate Filled(want: Option<seq<Byte>>, r: Option<nat>, buffer: seq<Byte>) {
    match want
    case None => r == None
    case Some(bytes) => r == Some(|bytes|) && |bytes| <= |buffer| && buffer[..|bytes|] == bytes
  }

  method Copy(buffer: array<Byte>, at: nat, bytes: seq<Byte>)
    requires at + |bytes| <= buffer.Length
    modifies buffer
    ensures buffer[..at + |bytes|] == old(buffer[..at]) + bytes
  {
    ghost var before := buffer[..at];
    for i := 0 to |bytes|
      invariant buffer[..at] == before
      invariant buffer[at..at + i] == bytes[..i]
    {
      buffer[at + i] := bytes[i];
    }
    assert buffer[..at + |bytes|] == buffer[..at] + buffer[at..at + |bytes|];
  }
}
