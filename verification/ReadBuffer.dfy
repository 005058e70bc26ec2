/** File_Handle::Read with a buffer of any length, and reading a file in pieces of whole sectors. */
module ReadBuffers {
  import opened Fat12Types
  import opened Chains
  import opened ItemData
  import opened FileData

  // ----- one read -----

  /** What one read at sector k of a chain with contents s comes to. A buffer longer than the file gets the first length
      bytes of the sector, so that the file has to fit in it. Otherwise whole sectors are copied as long as another one
      follows; behind the last one come length % 512 bytes of it. Where the buffer ends inside a sector, the copy is as
      long as the sector is beyond the buffer, and that has to fit in. */
  function ReadGives(s: seq<Sector>, length: nat, k: nat, room: nat): Option<seq<Byte>>
    requires k < |s|
  {
    var whole, odd, after := room / SECTOR_SIZE, room % SECTOR_SIZE, |s| - 1 - k;
    if room > length then
      if length <= SECTOR_SIZE then Some(s[k][..length]) else None
    else if whole <= after then
      if odd == 0 then Some(Bytes(s[k..k + whole]))
      else if SECTOR_SIZE - odd <= odd then Some(Bytes(s[k..k + whole]) + s[k + whole][..SECTOR_SIZE - odd])
      else None
    else Some(Bytes(s[k..|s| - 1]) + s[|s| - 1][..length % SECTOR_SIZE])
  }

  lemma BytesOfNext(s: seq<Sector>, k: nat, j: nat)
    requires k + j < |s|
    ensures Bytes(s[k..k + j + 1]) == Bytes(s[k..k + j]) + s[k + j]
  {
    assert s[k..k + j + 1][..j] == s[k..k + j];
  }

  /** The loop once j sectors are in the buffer. */
  lemma {:induction false} LoopOnChain(g: Geometry, v: VolumeState, c: seq<nat>, length: nat, k: nat, room: nat, j: nat)
    requires v.Valid(g) && Chain(v.table, c) && room <= length && k + j < |c| && j <= room / SECTOR_SIZE
    ensures ReadLoop(g, v, length, room, Bytes(Contents(g, v.disk, c)[k..k + j]), c[k + j]) ==
            ReadGives(Contents(g, v.disk, c), length, k, room)
    decreases |c| - k - j
  {
    hide Bytes, Contents, Chain;
    ContentsSize(g, v.disk, c);
    var s := Contents(g, v.disk, c);
    var out := Bytes(s[k..k + j]);
    assert |out| == j * SECTOR_SIZE;
    if j < room / SECTOR_SIZE {
      assert |out| + SECTOR_SIZE <= room;
      LinkOrEnd(g, v, c, k + j);
      if k + j + 1 < |c| {
        BytesOfNext(s, k, j);
        LoopOnChain(g, v, c, length, k, room, j + 1);
      }
    } else {
      LinkOrEnd(g, v, c, k + j);
    }
  }

  lemma ContentsSize(g: Geometry, d: seq<Sector>, c: seq<nat>)
    requires g.Valid()
    ensures |Contents(g, d, c)| == |c|
  {
  }

  lemma LinkOrEnd(g: Geometry, v: VolumeState, c: seq<nat>, i: nat)
    requires v.Valid(g) && Chain(v.table, c) && i < |c|
    ensures c[i] < TABLE_SIZE && Block(g, v, c[i]) == Contents(g, v.disk, c)[i]
    ensures if i + 1 < |c| then !EndOfChain(v.table[c[i]]) && v.table[c[i]] == c[i + 1] else EndOfChain(v.table[c[i]])
  {
    if i + 1 < |c| {
      assert v.table[c[i]] == c[i + 1] && 2 <= c[i + 1] < TABLE_SIZE;
    }
  }

  /** A read at any position, with a buffer of any length. */
  lemma ReadAtOnChain(g: Geometry, v: VolumeState, c: seq<nat>, length: nat, index: nat, room: nat)
    requires v.Valid(g) && Chain(v.table, c) && index < length && index / SECTOR_SIZE < |c|
    ensures |Contents(g, v.disk, c)| == |c|
    ensures ReadAt(g, v, c[0], length, index + 1, room) ==
            ReadGives(Contents(g, v.disk, c), length, index / SECTOR_SIZE, room)
  {
    hide Contents;
    var k := index / SECTOR_SIZE;
    ContentsSize(g, v.disk, c);
    WalkOnChain(v.table, c, k);
    var s := Contents(g, v.disk, c);
    if room <= length {
      assert s[k..k] == [] && Bytes(s[k..k]) == [];
      LoopOnChain(g, v, c, length, k, room, 0);
    } else {
      LinkOrEnd(g, v, c, k);
      if length <= SECTOR_SIZE {
        assert [] + s[k][..length] == s[k][..length];
      }
    }
  }

  // ----- reading to the end in pieces of whole sectors -----

  /** How many bytes a read of m sectors delivers from sector k on, in a chain of n. */
  function DeliveredBy(length: nat, n: nat, k: nat, m: nat): nat
    requires k < n
  {
    if k + m < n then m * SECTOR_SIZE else (n - 1 - k) * SECTOR_SIZE + length % SECTOR_SIZE
  }

  lemma {:induction false} BytesSlice(s: seq<Sector>, k: nat, j: nat)
    requires k <= j <= |s|
    ensures k * SECTOR_SIZE <= j * SECTOR_SIZE <= |Bytes(s)|
    ensures Bytes(s[k..j]) == Bytes(s)[k * SECTOR_SIZE..j * SECTOR_SIZE]
    decreases j
  {
    hide Bytes;
    if k < j {
      BytesSlice(s, k, j - 1);
      BytesOfNext(s, k, j - 1 - k);
      BytesStep(s, j - 1, SECTOR_SIZE);
      assert s[j - 1][..SECTOR_SIZE] == s[j - 1];
      SliceAppend(Bytes(s), k * SECTOR_SIZE, (j - 1) * SECTOR_SIZE, s[j - 1]);
    } else {
      BytesNone(s, k);
    }
  }

  lemma BytesNone(s: seq<Sector>, k: nat)
    requires k <= |s|
    ensures Bytes(s[k..k]) == []
  {
    assert s[k..k] == [];
  }

  lemma SliceAppend(b: seq<Byte>, from: nat, at: nat, x: seq<Byte>)
    requires from <= at <= at + |x| <= |b| && b[..at + |x|] == b[..at] + x
    ensures b[from..at + |x|] == b[from..at] + x
  {
    assert b[from..at + |x|] == b[..at + |x|][from..];
    assert b[from..at] == b[..at][from..];
  }

  /** A read of m sectors delivers a stretch of the contents. */
  lemma ReadStretch(g: Geometry, v: VolumeState, c: seq<nat>, length: nat, index: nat, m: nat)
    requires v.Valid(g) && Chain(v.table, c) && 0 < m * SECTOR_SIZE <= length
    requires index < length && index / SECTOR_SIZE < |c|
    ensures var k := index / SECTOR_SIZE;
            var n := DeliveredBy(length, |c|, k, m);
            k * SECTOR_SIZE + n <= |c| * SECTOR_SIZE == |Bytes(Contents(g, v.disk, c))|
            && ReadAt(g, v, c[0], length, index + 1, m * SECTOR_SIZE) ==
               Some(Bytes(Contents(g, v.disk, c))[k * SECTOR_SIZE..k * SECTOR_SIZE + n])
  {
    hide Bytes, Contents, Chain, ReadAt;
    ContentsSize(g, v.disk, c);
    var k, s := index / SECTOR_SIZE, Contents(g, v.disk, c);
    ReadAtOnChain(g, v, c, length, index, m * SECTOR_SIZE);
    assert m * SECTOR_SIZE / SECTOR_SIZE == m && m * SECTOR_SIZE % SECTOR_SIZE == 0;
    if k + m < |c| {
      BytesSlice(s, k, k + m);
    } else {
      var r := length % SECTOR_SIZE;
      BytesSlice(s, k, |s| - 1);
      BytesStep(s, |s| - 1, r);
      SliceAppend(Bytes(s), k * SECTOR_SIZE, (|s| - 1) * SECTOR_SIZE, s[|s| - 1][..r]);
    }
  }

  /** What reading to the end delivers in all with a buffer of m sectors, for a chain of n and a file no shorter than
      the buffer: the length rounded up to whole pieces, or what the chain gives before its end. */
  function TotalBy(length: nat, n: nat, m: nat): nat
    requires 0 < m * SECTOR_SIZE <= length && n > 0
  {
    var pieces := (length + m * SECTOR_SIZE - 1) / (m * SECTOR_SIZE);
    if pieces * m < n then pieces * m * SECTOR_SIZE else (n - 1) * SECTOR_SIZE + length % SECTOR_SIZE
  }

  /** The same, read by read from sector k on. */
  function Stretches(length: nat, n: nat, k: nat, m: nat): nat
    requires k < n && m > 0
    decreases n - k
  {
    if k * SECTOR_SIZE >= length then 0
    else if k + m < n then m * SECTOR_SIZE + Stretches(length, n, k + m, m)
    else DeliveredBy(length, n, k, m)
  }

  lemma {:induction false} StretchesTotal(length: nat, n: nat, p: nat, m: nat)
    requires 0 < m * SECTOR_SIZE <= length && p * m < n
    requires p <= (length + m * SECTOR_SIZE - 1) / (m * SECTOR_SIZE)
    ensures p * m * SECTOR_SIZE + Stretches(length, n, p * m, m) == TotalBy(length, n, m)
    decreases n - p * m
  {
    var room := m * SECTOR_SIZE;
    var pieces := (length + room - 1) / room;
    CeilIff(length, room, p);
    assert p * m * SECTOR_SIZE == p * room;
    assert (p + 1) * m == p * m + m;
    if p < pieces {
      if p * m + m < n {
        StretchesTotal(length, n, p + 1, m);
      } else {
        TimesMonotone(p + 1, pieces, m);
      }
    }
  }

  lemma CeilIff(length: nat, room: nat, p: nat)
    requires room > 0
    ensures p * room >= length <==> p >= (length + room - 1) / room
  {
    var pieces := (length + room - 1) / room;
    assert length <= pieces * room < length + room;
    if p >= pieces {
      TimesMonotone(pieces, p, room);
    } else {
      TimesMonotone(p, pieces - 1, room);
      assert (pieces - 1) * room == pieces * room - room;
    }
  }

  lemma TimesMonotone(a: nat, b: nat, m: nat)
    requires a <= b
    ensures a * m <= b * m
  {
  }

  /** On a chain that is long enough the pieces are a stretch of its contents. */
  lemma {:induction false} PiecesFrom(g: Geometry, v: VolumeState, c: seq<nat>, length: nat, k: nat, m: nat)
    requires v.Valid(g) && Chain(v.table, c) && k < |c| && 0 < m * SECTOR_SIZE <= length && EndsInChain(length, |c|)
    ensures var at, end := k * SECTOR_SIZE, k * SECTOR_SIZE + Stretches(length, |c|, k, m);
            end <= |Bytes(Contents(g, v.disk, c))|
            && Pieces(g, v, c[0], length, m * SECTOR_SIZE, at) == Some(Bytes(Contents(g, v.disk, c))[at..end])
    decreases |c| - k
  {
    hide Bytes, Contents, ReadAt, EndsInChain;
    var room, at, b := m * SECTOR_SIZE, k * SECTOR_SIZE, Bytes(Contents(g, v.disk, c));
    ContentsSize(g, v.disk, c);
    assert |b| == |c| * SECTOR_SIZE && b[at..at] == [];
    if at >= length {
      PastEnd(g, v, c[0], length, at, room);
    } else {
      assert at / SECTOR_SIZE == k;
      ReadStretch(g, v, c, length, at, m);
      var n := DeliveredBy(length, |c|, k, m);
      if n > 0 {
        if k + m < |c| {
          PiecesFrom(g, v, c, length, k + m, m);
          var end := at + n + Stretches(length, |c|, k + m, m);
          assert b[at..at + n] + b[at + n..end] == b[at..end];
        } else {
          PiecesBehind(g, v, c, length, m);
          assert at + n == (|c| - 1) * SECTOR_SIZE + length % SECTOR_SIZE;
          assert b[at..at + n] + [] == b[at..at + n];
        }
      }
    }
  }

  lemma PastEnd(g: Geometry, v: VolumeState, start: Entry, length: nat, index: nat, room: nat)
    requires v.Valid(g) && index >= length
    ensures Pieces(g, v, start, length, room, index) == Some([])
  {
  }

  /** Behind what the last cluster gave there is nothing more. */
  lemma PiecesBehind(g: Geometry, v: VolumeState, c: seq<nat>, length: nat, m: nat)
    requires v.Valid(g) && Chain(v.table, c) && 0 < m * SECTOR_SIZE <= length && EndsInChain(length, |c|)
    ensures Pieces(g, v, c[0], length, m * SECTOR_SIZE, (|c| - 1) * SECTOR_SIZE + length % SECTOR_SIZE) == Some([])
  {
    hide Bytes, Contents, ReadAt;
    var index := (|c| - 1) * SECTOR_SIZE + length % SECTOR_SIZE;
    if index >= length {
      PastEnd(g, v, c[0], length, index, m * SECTOR_SIZE);
    } else {
      assert length % SECTOR_SIZE == 0 && index / SECTOR_SIZE == |c| - 1;
      ReadStretch(g, v, c, length, index, m);
      assert Bytes(Contents(g, v.disk, c))[index..index] == [];
    }
  }

  /** On a chain that is too short the last cluster is read again and again, and then the walk goes past it. */
  lemma {:induction false} PiecesLeave(g: Geometry, v: VolumeState, c: seq<nat>, length: nat, index: nat, m: nat)
    requires v.Valid(g) && Chain(v.table, c) && v.table[c[|c| - 1]] != 0 && !EndsInChain(length, |c|)
    requires 0 < m * SECTOR_SIZE <= length && index / SECTOR_SIZE <= |c|
    requires index / SECTOR_SIZE < |c| - 1 ==> index % SECTOR_SIZE == 0
    requires index / SECTOR_SIZE == |c| ==> index < |c| * SECTOR_SIZE + length % SECTOR_SIZE
    ensures index < length && Pieces(g, v, c[0], length, m * SECTOR_SIZE, index) == None
    decreases (|c| + 1) * SECTOR_SIZE - index
  {
    hide Bytes, Contents;
    var j := index / SECTOR_SIZE;
    if j == |c| {
      WalkOnChain(v.table, c, j);
      LinkOrEnd(g, v, c, |c| - 1);
    } else {
      ReadStretch(g, v, c, length, index, m);
      var n := DeliveredBy(length, |c|, j, m);
      assert n > 0;
      PiecesLeave(g, v, c, length, index + n, m);
    }
  }

  /** Reading in pieces of m sectors yields exactly the file when it is shorter than a piece and fits in a sector, or
      when its chain has the length/512 + 1 sectors it is written with, or is longer and the file a whole number of
      pieces. */
  predicate ReadsWholeBy(length: nat, n: nat, m: nat)
    requires m > 0
  {
    if length < m * SECTOR_SIZE then length <= SECTOR_SIZE
    else n == length / SECTOR_SIZE + 1 || (length % (m * SECTOR_SIZE) == 0 && length / SECTOR_SIZE < n)
  }

  lemma TotalByIsLengthIff(length: nat, n: nat, m: nat)
    requires 0 < m * SECTOR_SIZE <= length && n > 0
    ensures TotalBy(length, n, m) == length && EndsInChain(length, n) <==> ReadsWholeBy(length, n, m)
  {
    var room := m * SECTOR_SIZE;
    var pieces := (length + room - 1) / room;
    WholePieces(length, room);
    assert pieces * m * SECTOR_SIZE == pieces * room;
    WholeOrEnd(length, n, pieces * m);
  }

  lemma WholeOrEnd(length: nat, n: nat, sectors: nat)
    requires sectors * SECTOR_SIZE >= length && n > 0
    ensures (if sectors < n then sectors * SECTOR_SIZE else (n - 1) * SECTOR_SIZE + length % SECTOR_SIZE) == length
            && EndsInChain(length, n)
            <==> n == length / SECTOR_SIZE + 1 || (sectors * SECTOR_SIZE == length && length / SECTOR_SIZE < n)
  {
  }

  lemma WholePieces(length: nat, room: nat)
    requires room > 0
    ensures var all := (length + room - 1) / room * room;
            all >= length && (all == length <==> length % room == 0)
  {
    var pieces := (length + room - 1) / room;
    CeilIff(length, room, pieces);
    if length % room == 0 {
      assert length == length / room * room;
      CeilIff(length, room, length / room);
      TimesMonotone(pieces, length / room, room);
    } else if pieces * room == length {
      MultipleRemainder(pieces, room);
    }
  }

  lemma MultipleRemainder(a: nat, m: nat)
    requires m > 0
    ensures a * m % m == 0
  {
    var q, r := a * m / m, a * m % m;
    assert (a - q) * m == r;
    if a > q {
      TimesMonotone(1, a - q, m);
    } else if a < q {
      TimesMonotone(1, q - a, m);
    }
  }

  /** A file shorter than the buffer is read in one piece from its first sector. */
  lemma PiecesShort(g: Geometry, v: VolumeState, c: seq<nat>, length: nat, room: nat)
    requires v.Valid(g) && Chain(v.table, c) && length < room && |Contents(g, v.disk, c)| == |c|
    ensures Pieces(g, v, c[0], length, room, 0) ==
            if length <= SECTOR_SIZE then Some(Contents(g, v.disk, c)[0][..length]) else None
  {
    hide Contents, ReadAt;
    var s := Contents(g, v.disk, c);
    PastEnd(g, v, c[0], length, length, room);
    if length == 0 {
      PastEnd(g, v, c[0], length, 0, room);
      assert s[0][..0] == [];
    } else {
      ReadAtOnChain(g, v, c, length, 0, room);
      if length <= SECTOR_SIZE {
        assert s[0][..length] + [] == s[0][..length];
      }
    }
  }

  /** Any other file is read as far as its chain goes. */
  lemma PiecesLong(g: Geometry, v: VolumeState, c: seq<nat>, length: nat, m: nat)
    requires v.Valid(g) && Chain(v.table, c) && v.table[c[|c| - 1]] != 0 && 0 < m * SECTOR_SIZE <= length
    ensures var r := Pieces(g, v, c[0], length, m * SECTOR_SIZE, 0);
            var data := Bytes(Contents(g, v.disk, c));
            if EndsInChain(length, |c|) then
              TotalBy(length, |c|, m) <= |data| && r == Some(data[..TotalBy(length, |c|, m)])
            else r == None
  {
    hide Bytes, Contents, Stretches, ReadAt;
    if EndsInChain(length, |c|) {
      PiecesFrom(g, v, c, length, 0, m);
      StretchesTotal(length, |c|, 0, m);
    } else {
      PiecesLeave(g, v, c, length, 0, m);
    }
  }

  /** What reading a file to its end with a buffer of m sectors returns, for every chain that ends in a terminator. A
      file shorter than the buffer is copied from its first sector, which it may not be longer than; of any other file
      the result is the first bytes of the chain, if the chain is long enough or the length a whole number of sectors,
      and otherwise an access outside the table. */
  lemma ReadAllByIff(g: Geometry, v: VolumeState, c: seq<nat>, length: nat, m: nat)
    requires v.Valid(g) && Chain(v.table, c) && v.table[c[|c| - 1]] != 0 && m > 0
    ensures |Contents(g, v.disk, c)| == |c|
    ensures var r := Pieces(g, v, c[0], length, m * SECTOR_SIZE, 0);
            var data := Bytes(Contents(g, v.disk, c));
            && (length < m * SECTOR_SIZE ==>
                  r == if length <= SECTOR_SIZE then Some(Contents(g, v.disk, c)[0][..length]) else None)
            && (length >= m * SECTOR_SIZE ==>
                  && (r.Some? <==> EndsInChain(length, |c|))
                  && (r.Some? ==> TotalBy(length, |c|, m) <= |data| && r.value == data[..TotalBy(length, |c|, m)]))
            && (r.Some? && |r.value| == length <==> ReadsWholeBy(length, |c|, m))
  {
    hide Bytes, Contents, Pieces, TotalBy, EndsInChain;
    ContentsSize(g, v.disk, c);
    if length < m * SECTOR_SIZE {
      PiecesShort(g, v, c, length, m * SECTOR_SIZE);
    } else {
      TotalByIsLengthIff(length, |c|, m);
      PiecesLong(g, v, c, length, m);
    }
  }
}
