/** The 12-bit packed table: two entries in three bytes. */
module TablePacking {
  import opened Fat12Types

  // ----- the three bytes of a pair, and the pair in three bytes -----
  // Masks and shifts are written as remainders and quotients by powers of two.

  function LowByte(e0: Entry): Byte { e0 % 0x100 }

  function MidByte(e0: Entry, e1: Entry): Byte { e0 / 0x100 % 0x10 + e1 % 0x10 * 0x10 }

  function HighByte(e1: Entry): Byte { e1 / 0x10 % 0x100 }

  function EvenEntry(b0: Byte, b1: Byte): Entry { (b0 + b1 * 0x100) % 0x1000 }

  function OddEntry(b1: Byte, b2: Byte): Entry { (b1 + b2 * 0x100) / 0x10 }

  function PackedByte(t: Table, i: nat): Byte
    requires i < FAT_BYTES
  {
    var k := i / 3 * 2;
    if i % 3 == 0 then LowByte(t[k])
    else if i % 3 == 1 then MidByte(t[k], t[k + 1])
    else HighByte(t[k + 1])
  }

  function Pack(t: Table): (b: seq<Byte>)
  {
    seq(FAT_BYTES, i requires 0 <= i < FAT_BYTES => PackedByte(t, i))
  }

  function UnpackedEntry(b: seq<Byte>, n: nat): Entry
    requires |b| == FAT_BYTES && n < TABLE_SIZE
  {
    var k := n / 2 * 3;
    if n % 2 == 0 then EvenEntry(b[k], b[k + 1]) else OddEntry(b[k + 1], b[k + 2])
  }

  function Unpack(b: seq<Byte>): (t: Table)
    requires |b| == FAT_BYTES
  {
    seq(TABLE_SIZE, n requires 0 <= n < TABLE_SIZE => UnpackedEntry(b, n))
  }

  // ----- round trips -----

  lemma Split12(q: nat, r: nat)
    requires r < 0x1000
    ensures (q * 0x1000 + r) % 0x1000 == r
  {
  }

  lemma Split4(q: nat, r: nat)
    requires r < 0x10
    ensures (q * 0x10 + r) / 0x10 == q && (q * 0x10 + r) % 0x10 == r
  {
  }

  lemma Split8(q: nat, r: nat)
    requires r < 0x100
    ensures (q * 0x100 + r) / 0x100 == q && (q * 0x100 + r) % 0x100 == r
  {
  }

  lemma PairRoundTrip(e0: Entry, e1: Entry)
    ensures EvenEntry(LowByte(e0), MidByte(e0, e1)) == e0 % 0x1000
    ensures OddEntry(MidByte(e0, e1), HighByte(e1)) == e1 % 0x1000
  {
    var a, n0, h0 := e0 % 0x100, e0 / 0x100 % 0x10, e0 / 0x100 / 0x10;
    var n1, b, h1 := e1 % 0x10, e1 / 0x10 % 0x100, e1 / 0x10 / 0x100;
    Split12(h0, a + n0 * 0x100);
    Split12(h1, n1 + b * 0x10);
    Split12(n1, a + n0 * 0x100);
    Split4(n1 + b * 0x10, n0);
  }

  lemma BytesRoundTrip(b0: Byte, b1: Byte, b2: Byte)
    ensures LowByte(EvenEntry(b0, b1)) == b0
    ensures MidByte(EvenEntry(b0, b1), OddEntry(b1, b2)) == b1
    ensures HighByte(OddEntry(b1, b2)) == b2
  {
    var n0, n1 := b1 % 0x10, b1 / 0x10;
    Split12(n1, b0 + n0 * 0x100);
    Split4(n1 + b2 * 0x10, n0);
    Split8(n0, b0);
    Split4(b2, n1);
  }

  /** Loading a saved table gives back every entry, reduced to the twelve bits that are stored. */
  lemma LoadAfterSave(t: Table, n: nat)
    requires n < TABLE_SIZE
    ensures Unpack(Pack(t))[n] == t[n] % 0x1000
  {
    hide EvenEntry, OddEntry, LowByte, MidByte, HighByte;
    var k, m := n / 2 * 3, n / 2 * 2;
    assert k / 3 * 2 == m && (k + 1) / 3 * 2 == m && (k + 2) / 3 * 2 == m;
    assert k % 3 == 0 && (k + 1) % 3 == 1 && (k + 2) % 3 == 2;
    PairRoundTrip(t[m], t[m + 1]);
  }

  lemma LoadAfterSaveExact(t: Table)
    requires forall n | 0 <= n < TABLE_SIZE :: t[n] < 0x1000
    ensures Unpack(Pack(t)) == t
  {
    hide PackedByte, UnpackedEntry, Unpack;
    var u := Unpack(Pack(t));
    forall n | 0 <= n < TABLE_SIZE ensures u[n] == t[n] {
      LoadAfterSave(t, n);
      assert t[n] % 0x1000 == t[n];
    }
  }

  lemma UnpackedPair(b: seq<Byte>, k: nat)
    requires |b| == FAT_BYTES && k % 3 == 0 && k < FAT_BYTES
    ensures Unpack(b)[k / 3 * 2] == EvenEntry(b[k], b[k + 1])
    ensures Unpack(b)[k / 3 * 2 + 1] == OddEntry(b[k + 1], b[k + 2])
  {
    var m := k / 3 * 2;
    assert m / 2 * 3 == k && (m + 1) / 2 * 3 == k && m % 2 == 0 && (m + 1) % 2 == 1;
  }

  lemma PackedByteBack(b: seq<Byte>, i: nat)
    requires |b| == FAT_BYTES && i < FAT_BYTES
    ensures PackedByte(Unpack(b), i) == b[i]
  {
    hide Unpack, EvenEntry, OddEntry, LowByte, MidByte, HighByte;
    var k := i / 3 * 3;
    UnpackedPair(b, k);
    BytesRoundTrip(b[k], b[k + 1], b[k + 2]);
  }

  /** Saving a loaded table gives back every byte. */
  lemma SaveAfterLoad(b: seq<Byte>)
    requires |b| == FAT_BYTES
    ensures Pack(Unpack(b)) == b
  {
    var p := Pack(Unpack(b));
    forall i | 0 <= i < FAT_BYTES ensures p[i] == b[i] {
      PackedByteBack(b, i);
    }
  }

  // ----- the layout of section 4.1 of the Microsoft FAT Specification -----

  /** Entry n is the low (n even) or high (n odd) twelve bits of the little-endian word at byte n + n/2. */
  function StandardEntry(b: seq<Byte>, n: nat): Entry
    requires |b| == FAT_BYTES && n < TABLE_SIZE
  {
    var word := b[n + n / 2] as int + b[n + n / 2 + 1] as int * 0x100;
    if n % 2 == 0 then word % 0x1000 else word / 0x10
  }

  lemma LayoutIsStandard(b: seq<Byte>, n: nat)
    requires |b| == FAT_BYTES && n < TABLE_SIZE
    ensures Unpack(b)[n] == StandardEntry(b, n)
  {
  }

  // ----- the two loops -----

  method LoadTable(phys: array<Byte>, table: array<Entry>)
    requires phys.Length == FAT_BYTES && table.Length == TABLE_SIZE
    requires phys as object != table as object
    modifies table
    ensures table[..] == Unpack(phys[..])
  {
    var i, j := 0, 0;
    while i < FAT_BYTES
      invariant 0 <= i <= FAT_BYTES && i % 3 == 0 && j == i / 3 * 2
      invariant forall n | 0 <= n < j :: table[n] == UnpackedEntry(phys[..], n)
    {
      table[j] := EvenEntry(phys[i], phys[i + 1]);
      table[j + 1] := OddEntry(phys[i + 1], phys[i + 2]);
      i, j := i + 3, j + 2;
    }
  }

  method SaveTable(table: array<Entry>, phys: array<Byte>)
    requires phys.Length == FAT_BYTES && table.Length == TABLE_SIZE
    requires phys as object != table as object
    modifies phys
    ensures phys[..] == Pack(table[..])
  {
    var i, j := 0, 0;
    while j < TABLE_SIZE
      invariant 0 <= j <= TABLE_SIZE && j % 2 == 0 && i == j / 2 * 3
      invariant forall n | 0 <= n < i :: phys[n] == PackedByte(table[..], n)
    {
      phys[i] := LowByte(table[j]);
      phys[i + 1] := MidByte(table[j], table[j + 1]);
      phys[i + 2] := HighByte(table[j + 1]);
      i, j := i + 3, j + 2;
    }
  }
}
