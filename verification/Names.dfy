/** Directory entries as they lie in a sector, and the 8.3 names in them. */
module Names {
  import opened Fat12Types

  /** A File_Entry is a 32-byte window of a sector. */
  type DirEntry = e: seq<Byte> | |e| == 32 witness seq(32, _ => 0)

  /** C strings of bytes, without the terminating zero. */
  type Text = seq<Byte>

  const SPACE: Byte := 0x20
  const DOT: Byte := 0x2E
  const SLASH: Byte := 0x2F
  const NEVER_USED: Byte := 0x00
  const DELETED: Byte := 0xE5

  function Word(e: DirEntry, at: nat): Entry
    requires at < 31
  {
    e[at] as int + e[at + 1] as int * 0x100
  }

  function Name(e: DirEntry): Text { e[..8] }
  function Extension(e: DirEntry): Text { e[8..11] }
  function Attribute(e: DirEntry): Byte { e[11] }
  function StartSector(e: DirEntry): Entry { Word(e, 26) }
  function FileLength(e: DirEntry): nat { Word(e, 28) + Word(e, 30) * 0x1_0000 }

  predicate IsDirectory(e: DirEntry) { Attribute(e) / 0x10 % 2 == 1 }

  predicate Live(e: DirEntry) { e[0] != NEVER_USED && e[0] != DELETED }

  /** A name as typed: no byte is a space or a control character. */
  predicate Printable(s: Text) {
    forall i | 0 <= i < |s| :: s[i] > SPACE
  }

  // ----- the name an entry shows -----

  /** The leading bytes above the space character. */
  function Shown(s: Text): (r: Text)
    ensures |r| <= |s| && r == s[..|r|] && Printable(r)
    ensures |r| < |s| ==> s[|r|] <= SPACE
  {
    if s != [] && s[0] > SPACE then [s[0]] + Shown(s[1..]) else []
  }

  /** The string Compare_Filename compares with: name, then a dot and the extension if there is one. */
  function Display(e: DirEntry): Text {
    Shown(Name(e)) + Dotted(Shown(Extension(e)))
  }

  function Dotted(x: Text): Text {
    if x == [] then [] else [DOT] + x
  }

  /** Compare_Filename(item, name) == 0, computed as the code does: byte by byte into a zeroed buffer. */
  method SameFilename(e: DirEntry, name: Text) returns (same: bool)
    ensures same <==> Display(e) == name
  {
    hide Shown, Dotted, FirstDot;
    ghost var first := Shown(Name(e));
    var built: Text := [];
    var i := 0;
    while i < 8 && e[i] > SPACE
      invariant 0 <= i <= 8 && built == e[..i] && forall k | 0 <= k < i :: e[k] > SPACE
    {
      built := built + [e[i]];
      i := i + 1;
    }
    ShownIs(Name(e), i);
    assert built == first;
    i := 0;
    var x: Text := Extension(e);
    while i < 3 && x[i] > SPACE
      invariant 0 <= i <= 3 && forall k | 0 <= k < i :: x[k] > SPACE
      invariant built == first + if i == 0 then [] else [DOT] + x[..i]
    {
      if i == 0 {
        built := built + [DOT];
      }
      built := built + [x[i]];
      i := i + 1;
    }
    ShownIs(x, i);
    DottedIs(x[..i]);
    same := built == name;
  }

  lemma DottedIs(x: Text)
    ensures Dotted(x) == if |x| == 0 then [] else [DOT] + x
  {
  }

  lemma {:induction false} ShownIs(s: Text, k: nat)
    requires k <= |s| && Printable(s[..k]) && (k < |s| ==> s[k] <= SPACE)
    ensures Shown(s) == s[..k]
  {
  }

  // ----- ordering of entries -----

  /** strncmp: the difference at the first place, within n bytes, where the strings differ before either ends. */
  function CompareBytes(a: Text, b: Text): (r: int)
    requires |a| == |b|
  {
    if a == [] then 0
    else if a[0] != b[0] then a[0] as int - b[0] as int
    else if a[0] == 0 then 0
    else CompareBytes(a[1..], b[1..])
  }

  /** Compare_Filename(item1, item2). */
  function CompareEntries(a: DirEntry, b: DirEntry): int {
    var x := CompareBytes(Name(a), Name(b));
    if x != 0 then x else CompareBytes(Extension(a), Extension(b))
  }

  lemma {:induction false} CompareBytesLaws(a: Text, b: Text, c: Text)
    requires |a| == |b| == |c|
    ensures CompareBytes(a, a) == 0
    ensures CompareBytes(a, b) < 0 <==> CompareBytes(b, a) > 0
    ensures CompareBytes(a, b) <= 0 && CompareBytes(b, c) <= 0 ==> CompareBytes(a, c) <= 0
    ensures CompareBytes(a, b) == 0 && CompareBytes(b, c) == 0 ==> CompareBytes(a, c) == 0
    decreases |a|
  {
    if a != [] {
      CompareBytesLaws(a[1..], b[1..], c[1..]);
    }
  }

  lemma {:induction false} CompareBytesStrict(a: Text, b: Text, c: Text)
    requires |a| == |b| == |c|
    ensures CompareBytes(a, b) < 0 && CompareBytes(b, c) <= 0 ==> CompareBytes(a, c) < 0
    ensures CompareBytes(a, b) <= 0 && CompareBytes(b, c) < 0 ==> CompareBytes(a, c) < 0
  {
    if a != [] {
      CompareBytesStrict(a[1..], b[1..], c[1..]);
    }
  }

  /** Compare_Filename on entries is a total preorder. */
  lemma EntriesPreordered(a: DirEntry, b: DirEntry, c: DirEntry)
    ensures CompareEntries(a, a) == 0
    ensures CompareEntries(a, b) < 0 <==> CompareEntries(b, a) > 0
    ensures CompareEntries(a, b) <= 0 && CompareEntries(b, c) <= 0 ==> CompareEntries(a, c) <= 0
  {
    CompareBytesLaws(Name(a), Name(b), Name(c));
    CompareBytesLaws(Name(b), Name(a), Name(c));
    CompareBytesStrict(Name(a), Name(b), Name(c));
    CompareBytesLaws(Extension(a), Extension(b), Extension(c));
    CompareBytesLaws(Extension(b), Extension(a), Extension(c));
  }

  lemma {:induction false} EqualBytesShowAlike(a: Text, b: Text)
    requires |a| == |b| && CompareBytes(a, b) == 0
    ensures Shown(a) == Shown(b)
  {
    if a != [] && a[0] != 0 {
      EqualBytesShowAlike(a[1..], b[1..]);
    }
  }

  /** The C string in a field comes before the one in another: at the first place where they differ, neither having
      ended, its byte is the smaller one. */
  ghost predicate Before(a: Text, b: Text)
    requires |a| == |b|
  {
    exists k :: 0 <= k < |a| && a[..k] == b[..k] && 0 !in a[..k] && a[k] < b[k]
  }

  /** Neither comes before the other: the fields are the same up to the end of the string in them. */
  ghost predicate SameString(a: Text, b: Text)
    requires |a| == |b|
  {
    a == b || exists k :: 0 <= k < |a| && a[..k + 1] == b[..k + 1] && a[k] == 0
  }

  lemma {:induction false} CompareBytesIff(a: Text, b: Text)
    requires |a| == |b|
    ensures CompareBytes(a, b) < 0 <==> Before(a, b)
    ensures CompareBytes(a, b) == 0 <==> SameString(a, b)
    decreases |a|
  {
    if a != [] {
      CompareBytesIff(a[1..], b[1..]);
      BeforeStep(a, b);
      SameStringStep(a, b);
    }
  }

  lemma BeforeStep(a: Text, b: Text)
    requires |a| == |b| > 0
    ensures Before(a, b) <==> a[0] < b[0] || (a[0] == b[0] != 0 && Before(a[1..], b[1..]))
  {
    if a[0] < b[0] {
      assert a[..0] == b[..0] && 0 !in a[..0];
    }
    if a[0] == b[0] != 0 && Before(a[1..], b[1..]) {
      var k :| 0 <= k < |a[1..]| && a[1..][..k] == b[1..][..k] && 0 !in a[1..][..k] && a[1..][k] < b[1..][k];
      assert a[..k + 1] == [a[0]] + a[1..][..k] && b[..k + 1] == [b[0]] + b[1..][..k];
      assert a[k + 1] < b[k + 1];
    }
    if Before(a, b) && a[0] >= b[0] {
      var k :| 0 <= k < |a| && a[..k] == b[..k] && 0 !in a[..k] && a[k] < b[k];
      assert k > 0 && a[..k][0] == a[0] && b[..k][0] == b[0];
      assert a[1..][..k - 1] == a[..k][1..] && b[1..][..k - 1] == b[..k][1..];
      assert a[1..][k - 1] < b[1..][k - 1];
    }
  }

  lemma SameStringStep(a: Text, b: Text)
    requires |a| == |b| > 0
    ensures SameString(a, b) <==> a[0] == b[0] && (a[0] == 0 || SameString(a[1..], b[1..]))
  {
    if a[0] == b[0] == 0 {
      assert a[..1] == [a[0]] && b[..1] == [b[0]];
    }
    if a[0] == b[0] && SameString(a[1..], b[1..]) {
      if a[1..] == b[1..] {
        assert a == [a[0]] + a[1..] && b == [b[0]] + b[1..];
      } else {
        var k :| 0 <= k < |a[1..]| && a[1..][..k + 1] == b[1..][..k + 1] && a[1..][k] == 0;
        assert a[..k + 2] == [a[0]] + a[1..][..k + 1] && b[..k + 2] == [b[0]] + b[1..][..k + 1];
        assert a[k + 1] == 0;
      }
    }
    if SameString(a, b) && a != b {
      var k :| 0 <= k < |a| && a[..k + 1] == b[..k + 1] && a[k] == 0;
      assert a[..k + 1][0] == a[0] && b[..k + 1][0] == b[0];
      if k > 0 {
        assert a[1..][..k] == a[..k + 1][1..] && b[1..][..k] == b[..k + 1][1..];
        assert a[1..][k - 1] == 0;
      }
    }
  }

  /** Entry a is listed before b, or may be: by name, and by extension when the names are the same. */
  ghost predicate ListedFirst(a: DirEntry, b: DirEntry) {
    Before(Name(a), Name(b)) || (SameString(Name(a), Name(b)) && Before(Extension(a), Extension(b)))
  }

  /** Compare_Filename on entries is the order of the bytes of the name, then of the extension. */
  lemma CompareEntriesIff(a: DirEntry, b: DirEntry)
    ensures CompareEntries(a, b) < 0 <==> ListedFirst(a, b)
    ensures CompareEntries(a, b) == 0 <==>
            SameString(Name(a), Name(b)) && SameString(Extension(a), Extension(b))
  {
    hide Before, SameString;
    CompareBytesIff(Name(a), Name(b));
    CompareBytesIff(Extension(a), Extension(b));
  }

  /** Entries that compare equal show the same name, and are both live or both dead. */
  lemma EqualEntriesShowAlike(a: DirEntry, b: DirEntry)
    requires CompareEntries(a, b) == 0
    ensures Display(a) == Display(b) && (Live(a) <==> Live(b))
  {
    EqualBytesShowAlike(Name(a), Name(b));
    EqualBytesShowAlike(Extension(a), Extension(b));
  }

  // ----- building an entry from a typed name -----

  function Zeros(n: nat): (r: seq<Byte>)
    ensures |r| == n
  {
    seq(n, _ => 0)
  }

  function Spaces(n: nat): (r: Text)
    ensures |r| == n
  {
    seq(n, _ => SPACE)
  }

  /** The place of the first dot, |s| when there is none. */
  function FirstDot(s: Text): (i: nat)
    ensures i <= |s| && DOT !in s[..i] && (i < |s| ==> s[i] == DOT)
  {
    if s == [] || s[0] == DOT then 0
    else
      assert forall k | 0 < k <= |s| :: s[..k] == [s[0]] + s[1..][..k - 1];
      1 + FirstDot(s[1..])
  }

  predicate HasDot(s: Text) { FirstDot(s) < |s| }

  function Base(s: Text): Text { s[..FirstDot(s)] }

  function Suffix(s: Text): Text { if HasDot(s) then s[FirstDot(s) + 1..] else [] }

  /** The names Create_Item refuses outright. */
  const RESERVED: set<Text> := {
    [0x2E], [0x2E, 0x2E], [0x5C], [0x22], [0x3C], [0x3E], [0x3F], [0x2A], [0x3A], [0x7C] }

  predicate Accepted(s: Text) {
    s != [] && s !in RESERVED && |Base(s)| <= 8 && |Suffix(s)| <= 3
  }

  /** Accepted names have no dot and at most eight bytes, or at most eight bytes before their first dot and three behind
      it. */
  lemma AcceptedIff(s: Text)
    ensures Accepted(s) <==>
            && s != [] && s !in RESERVED
            && ((DOT !in s && |s| <= 8)
                || exists k :: 0 <= k <= 8 && k < |s| && s[k] == DOT && DOT !in s[..k] && |s| - k - 1 <= 3)
  {
    PartsFitIff(s);
    hide FirstDot;
  }

  lemma PartsFitIff(s: Text)
    ensures |Base(s)| <= 8 && |Suffix(s)| <= 3 <==>
            (DOT !in s && |s| <= 8)
            || exists k :: 0 <= k <= 8 && k < |s| && s[k] == DOT && DOT !in s[..k] && |s| - k - 1 <= 3
  {
    var f := FirstDot(s);
    if HasDot(s) {
      if k: nat :| k < |s| && s[k] == DOT && DOT !in s[..k] {
        FirstDotIs(s, k);
      }
    } else {
      assert s[..f] == s;
    }
  }

  lemma {:induction false} FirstDotIs(s: Text, k: nat)
    requires k < |s| && s[k] == DOT && DOT !in s[..k]
    ensures FirstDot(s) == k
  {
    if k > 0 {
      assert s[..k] == [s[0]] + s[1..][..k - 1];
      FirstDotIs(s[1..], k - 1);
    }
  }

  /** The two name fields as Create_Item fills them. The entry starts as whatever the stack held: a short
      extension is padded in the name field, and the rest of the extension field stays as it was. */
  function NameField(s: Text): (r: Text)
    requires Accepted(s)
    ensures |r| == 8
  {
    var padded := Base(s) + Spaces(8 - |Base(s)|);
    if HasDot(s) && |Suffix(s)| < 3 then
      padded[..|Suffix(s)|] + Spaces(3 - |Suffix(s)|) + padded[3..]
    else padded
  }

  function ExtensionField(s: Text, garbage: DirEntry): (r: Text)
    requires Accepted(s)
    ensures |r| == 3
  {
    if HasDot(s) then Suffix(s) + Extension(garbage)[|Suffix(s)|..] else Spaces(3)
  }

  function Bytes2(x: Entry): seq<Byte> { [x % 0x100, x / 0x100] }

  function Bytes4(x: nat): seq<Byte>
    requires x < 0x1_0000_0000
  {
    Bytes2(x % 0x1_0000) + Bytes2(x / 0x1_0000)
  }

  function WithLength(e: DirEntry, n: nat): (r: DirEntry)
    requires n < 0x1_0000_0000
    ensures FileLength(r) == n && StartSector(r) == StartSector(e)
    ensures Name(r) == Name(e) && Extension(r) == Extension(e) && Attribute(r) == Attribute(e) && r[0] == e[0]
  {
    e[..28] + Bytes4(n)
  }

  /** Everything behind the two name fields. */
  function EntryTail(attribute: Byte, time: Entry, date: Entry, start: Entry): (r: seq<Byte>)
    ensures |r| == 21
  {
    [attribute] + Zeros(10) + Bytes2(time) + Bytes2(date) + Bytes2(start) + Zeros(4)
  }

  function BuildEntry(s: Text, garbage: DirEntry, attribute: Byte, time: Entry, date: Entry, start: Entry): (e: DirEntry)
    requires Accepted(s)
  {
    NameField(s) + ExtensionField(s, garbage) + EntryTail(attribute, time, date, start)
  }

  /** The fields of a new entry. */
  lemma BuiltFields(s: Text, garbage: DirEntry, attribute: Byte, time: Entry, date: Entry, start: Entry)
    requires Accepted(s)
    ensures var e := BuildEntry(s, garbage, attribute, time, date, start);
            && Name(e) == NameField(s) && Extension(e) == ExtensionField(s, garbage)
            && Attribute(e) == attribute && StartSector(e) == start && FileLength(e) == 0
  {
  }

  lemma {:induction false} ShownPadded(s: Text, n: nat)
    requires Printable(s)
    ensures Shown(s + Spaces(n)) == s
    ensures Shown(s) == s
  {
    if s == [] {
      assert s + Spaces(n) == Spaces(n);
    } else {
      ShownPadded(s[1..], n);
      assert (s + Spaces(n))[1..] == s[1..] + Spaces(n);
    }
  }

  lemma SplitAtDot(s: Text)
    ensures s == if HasDot(s) then Base(s) + [DOT] + Suffix(s) else Base(s)
  {
  }

  /** The names whose entry shows the name whatever the stack held. */
  predicate WellPadded(s: Text) { !HasDot(s) || |Suffix(s)| == 3 }

  lemma FieldsShow(s: Text, garbage: DirEntry)
    requires Accepted(s) && Printable(s) && WellPadded(s)
    ensures Shown(NameField(s)) == Base(s)
    ensures Shown(ExtensionField(s, garbage)) == Suffix(s)
  {
    hide Shown, FirstDot, Base, Suffix;
    PartsPrintable(s);
    assert |Base(s)| <= 8;
    assert NameField(s) == Base(s) + Spaces(8 - |Base(s)|);
    ShownPadded(Base(s), 8 - |Base(s)|);
    if HasDot(s) {
      assert ExtensionField(s, garbage) == Suffix(s);
      ShownPadded(Suffix(s), 0);
    } else {
      NoSuffix(s);
      ShownPadded([], 3);
      assert [] + Spaces(3) == Spaces(3);
    }
  }

  lemma PartsPrintable(s: Text)
    requires Printable(s)
    ensures Printable(Base(s)) && Printable(Suffix(s))
  {
  }

  lemma NoSuffix(s: Text)
    requires !HasDot(s)
    ensures Suffix(s) == []
  {
  }

  lemma BuiltShows(s: Text, garbage: DirEntry, attribute: Byte, time: Entry, date: Entry, start: Entry)
    requires Accepted(s) && Printable(s) && WellPadded(s)
    ensures Display(BuildEntry(s, garbage, attribute, time, date, start)) == s
  {
    FieldsShow(s, garbage);
    BuiltFields(s, garbage, attribute, time, date, start);
    SplitAtDot(s);
    var e := BuildEntry(s, garbage, attribute, time, date, start);
    assert Display(e) == Base(s) + Dotted(Suffix(s));
  }

  /** With a short extension, some stack contents make the entry show a longer name. */
  lemma ShortExtensionMayDiffer(s: Text, attribute: Byte, time: Entry, date: Entry, start: Entry)
    returns (garbage: DirEntry)
    requires Accepted(s) && Printable(s) && !WellPadded(s)
    ensures Display(BuildEntry(s, garbage, attribute, time, date, start)) != s
  {
    garbage := seq(32, _ => 0x58);
    BuiltFields(s, garbage, attribute, time, date, start);
    var e := BuildEntry(s, garbage, attribute, time, date, start);
    var x := Suffix(s) + garbage[8..11][|Suffix(s)|..];
    assert Printable(x) && |x| == 3;
    ShownPadded(x, 0);
    assert Shown(Extension(e)) == x;
    SplitAtDot(s);
    if |Display(e)| == |s| {
      var k := |Shown(Name(e))|;
      assert Display(e)[k] == DOT;
      assert k < FirstDot(s);
      assert s[..FirstDot(s)][k] == s[k];
    }
  }

  function Min(a: nat, b: nat): nat { if a < b then a else b }

  /** A name with a short extension shows its base only as far as the extension is long, for the padding went there; and
      the extension goes on with what the stack held. */
  lemma ShortExtensionShows(s: Text, garbage: DirEntry, attribute: Byte, time: Entry, date: Entry, start: Entry)
    requires Accepted(s) && Printable(s) && !WellPadded(s)
    ensures var k := |Suffix(s)|;
            k < 3 && Display(BuildEntry(s, garbage, attribute, time, date, start)) ==
                     Base(s)[..Min(k, |Base(s)|)] + Dotted(Suffix(s) + Shown(Extension(garbage)[k..]))
  {
    hide FirstDot;
    BuiltFields(s, garbage, attribute, time, date, start);
    var k, m := |Suffix(s)|, Min(|Suffix(s)|, |Base(s)|);
    var n := NameField(s);
    assert n[..m] == Base(s)[..m] && Printable(n[..m]);
    assert n[m] == SPACE;
    ShownPrefix(n, m);
    ShownAppend(Suffix(s), Extension(garbage)[k..]);
  }

  lemma ShownPrefix(s: Text, m: nat)
    requires m < |s| && Printable(s[..m]) && s[m] <= SPACE
    ensures Shown(s) == s[..m]
  {
    ShownIs(s, m);
  }

  lemma {:induction false} ShownAppend(s: Text, rest: Text)
    requires Printable(s)
    ensures Shown(s + rest) == s + Shown(rest)
  {
    if s == [] {
      assert s + rest == rest;
    } else {
      ShownAppend(s[1..], rest);
      assert (s + rest)[1..] == s[1..] + rest;
    }
  }

  /** The number that bytes stand for, the lowest one first. */
  function LowFirst(b: seq<Byte>): nat {
    if b == [] then 0 else b[0] as int + 256 * LowFirst(b[1..])
  }

  lemma LowFirstOf(b: seq<Byte>)
    ensures |b| == 2 ==> LowFirst(b) == b[0] as int + b[1] as int * 256
    ensures |b| == 4 ==> LowFirst(b) == LowFirst(b[..2]) + LowFirst(b[2..]) * 65536
  {
    if |b| == 2 {
      assert LowFirst(b[1..]) == b[1] as int + 256 * LowFirst(b[1..][1..]);
    } else if |b| == 4 {
      LowFirstOf(b[..2]);
      LowFirstOf(b[2..]);
      assert LowFirst(b) == b[0] as int + 256 * LowFirst(b[1..]);
      assert LowFirst(b[1..]) == b[1] as int + 256 * LowFirst(b[1..][1..]);
      assert b[1..][1..] == b[2..];
    }
  }

  /** The bytes of a new entry behind its name fields, at the places the FAT12 entry has them: attribute, time, date,
      first cluster and length, low bytes first. */
  lemma EntryLayout(s: Text, garbage: DirEntry, attribute: Byte, time: Entry, date: Entry, start: Entry, n: nat)
    requires Accepted(s) && n < 0x1_0000_0000
    ensures var e := WithLength(BuildEntry(s, garbage, attribute, time, date, start), n);
            && e[11] == attribute && (forall i | 12 <= i < 22 :: e[i] == 0)
            && LowFirst(e[22..24]) == time && LowFirst(e[24..26]) == date && LowFirst(e[26..28]) == start
            && LowFirst(e[28..32]) == n
  {
    hide LowFirst, Accepted, NameField, ExtensionField;
    var e := WithLength(BuildEntry(s, garbage, attribute, time, date, start), n);
    var tail := EntryTail(attribute, time, date, start);
    assert e[11..28] == tail[..17];
    assert forall i | 11 <= i < 22 :: e[i] == tail[i - 11];
    assert e[22..24] == Bytes2(time) && e[24..26] == Bytes2(date) && e[26..28] == Bytes2(start) && e[28..32] == Bytes4(n);
    TwoBytes(time);
    TwoBytes(date);
    TwoBytes(start);
    FourBytes(n);
  }

  lemma TwoBytes(x: Entry)
    ensures LowFirst(Bytes2(x)) == x
  {
    LowFirstOf(Bytes2(x));
  }

  lemma FourBytes(n: nat)
    requires n < 0x1_0000_0000
    ensures LowFirst(Bytes4(n)) == n
  {
    hide LowFirst;
    TwoBytes(n % 0x1_0000);
    TwoBytes(n / 0x1_0000);
    LowFirstOf(Bytes4(n));
    assert Bytes4(n)[..2] == Bytes2(n % 0x1_0000) && Bytes4(n)[2..] == Bytes2(n / 0x1_0000);
  }

  /** The directory flag is bit 4 of the attribute. */
  lemma DirectoryBit(e: DirEntry, high: nat, bit: nat, low: nat)
    requires high < 8 && bit < 2 && low < 16 && Attribute(e) == high * 32 + bit * 16 + low
    ensures IsDirectory(e) <==> bit == 1
  {
  }

  /** Create_Item's entry shows the typed name, whatever the stack held, exactly for names with no dot or
      with three characters after the first dot. */
  lemma NameRoundTripIff(s: Text, attribute: Byte, time: Entry, date: Entry, start: Entry)
    requires Accepted(s) && Printable(s)
    ensures (forall garbage: DirEntry :: Display(BuildEntry(s, garbage, attribute, time, date, start)) == s) <==> WellPadded(s)
  {
    if WellPadded(s) {
      forall garbage: DirEntry ensures Display(BuildEntry(s, garbage, attribute, time, date, start)) == s {
        BuiltShows(s, garbage, attribute, time, date, start);
      }
    } else {
      var garbage := ShortExtensionMayDiffer(s, attribute, time, date, start);
    }
  }
}
