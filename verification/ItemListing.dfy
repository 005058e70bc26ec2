/** Get_Items: the live entries of a directory, in order of Compare_Filename. */
module ItemListing {
  import opened Fat12Types
  import opened Names
  import opened Directories
  import opened Volumes
  import opened DirectoryCode

  function LiveOnly(es: seq<DirEntry>): (r: seq<DirEntry>)
    ensures forall i | 0 <= i < |r| :: Live(r[i]) && r[i] in es
  {
    if es == [] then []
    else if Live(es[|es| - 1]) then LiveOnly(es[..|es| - 1]) + [es[|es| - 1]]
    else LiveOnly(es[..|es| - 1])
  }

  ghost predicate Sorted(s: seq<DirEntry>) {
    forall i, j | 0 <= i < j < |s| :: CompareEntries(s[i], s[j]) <= 0
  }

  /** x is at least as large as every item. */
  ghost predicate Greatest(s: seq<DirEntry>, x: DirEntry) {
    forall i | 0 <= i < |s| :: CompareEntries(s[i], x) <= 0
  }

  function Exchanged(s: seq<DirEntry>, i: nat, j: nat): (r: seq<DirEntry>)
    requires i < |s| && j < |s|
    ensures multiset(r) == multiset(s)
  {
    s[i := s[j]][j := s[i]]
  }

  /** In round i, before column j: the first i items are sorted; those before j are at most item i; and from
      round 1 on the greatest item is the last of the sorted ones, or item i once column i - 1 is past. In round
      0 item 0 is the greatest of the items seen. */
  ghost predicate RoundInvariant(s: seq<DirEntry>, i: nat, j: nat)
    requires i < |s| && j <= |s|
  {
    && Sorted(s[..i])
    && (forall h | 0 <= h < j && h < i :: CompareEntries(s[h], s[i]) <= 0)
    && (i == 0 ==> Greatest(s[..j], s[0]))
    && (i > 0 ==> Greatest(s, if j < i then s[i - 1] else s[i]))
  }

  lemma NoExchange(s: seq<DirEntry>, i: nat, j: nat)
    requires i < |s| && j < |s| && RoundInvariant(s, i, j) && CompareEntries(s[i], s[j]) >= 0
    ensures RoundInvariant(s, i, j + 1)
  {
    EntriesPreordered(s[i], s[j], s[j]);
    EntriesPreordered(s[j], s[i], s[i]);
    if i > 0 && j == i - 1 {
      forall h | 0 <= h < |s| ensures CompareEntries(s[h], s[i]) <= 0 {
        EntriesPreordered(s[h], s[j], s[i]);
      }
    }
  }

  lemma ExchangeInFirstRound(s: seq<DirEntry>, j: nat)
    requires j < |s| && Greatest(s[..j], s[0]) && CompareEntries(s[0], s[j]) < 0
    ensures Greatest(Exchanged(s, 0, j)[..j + 1], s[j])
  {
    var r := Exchanged(s, 0, j);
    forall h | 0 <= h < j + 1 ensures CompareEntries(r[h], s[j]) <= 0 {
      EntriesPreordered(s[0], s[j], s[j]);
      EntriesPreordered(s[j], s[j], s[j]);
      if 0 < h < j {
        assert s[..j][h] == s[h];
        EntriesPreordered(s[h], s[0], s[j]);
      }
    }
  }

  lemma GreatestAfterExchange(s: seq<DirEntry>, i: nat, j: nat, x: DirEntry)
    requires i < |s| && j < |s| && Greatest(s, x)
    ensures Greatest(Exchanged(s, i, j), x)
  {
  }

  lemma ExchangeInLaterRound(s: seq<DirEntry>, i: nat, j: nat)
    requires 0 < i < |s| && j < |s| && RoundInvariant(s, i, j) && CompareEntries(s[i], s[j]) < 0
    ensures RoundInvariant(Exchanged(s, i, j), i, j + 1)
  {
    EntriesPreordered(s[i], s[j], s[j]);
    assert j < i;
    var r := Exchanged(s, i, j);
    SortedInsert(s, i, j);
    GreatestAfterExchange(s, i, j, s[i - 1]);
    forall h | 0 <= h < j + 1 ensures CompareEntries(r[h], r[i]) <= 0 {
      if h < j {
        assert s[..i][h] == s[h] && s[..i][j] == s[j];
      }
    }
  }

  /** One column of one round. */
  lemma ColumnKeepsInvariant(s: seq<DirEntry>, i: nat, j: nat)
    requires i < |s| && j < |s| && RoundInvariant(s, i, j)
    ensures RoundInvariant(if CompareEntries(s[i], s[j]) < 0 then Exchanged(s, i, j) else s, i, j + 1)
  {
    if CompareEntries(s[i], s[j]) >= 0 {
      NoExchange(s, i, j);
    } else if i == 0 {
      ExchangeInFirstRound(s, j);
      EntriesPreordered(s[0], s[0], s[0]);
    } else {
      ExchangeInLaterRound(s, i, j);
    }
  }

  /** Putting item i in place of the first sorted item that exceeds it keeps the first i items sorted. */
  lemma SortedInsert(s: seq<DirEntry>, i: nat, j: nat)
    requires j < i < |s| && Sorted(s[..i]) && CompareEntries(s[i], s[j]) < 0
    requires forall h | 0 <= h < j :: CompareEntries(s[h], s[i]) <= 0
    ensures Sorted(Exchanged(s, i, j)[..i])
  {
    var r := Exchanged(s, i, j)[..i];
    var p := s[..i];
    forall a, b | 0 <= a < b < i ensures CompareEntries(r[a], r[b]) <= 0 {
      assert CompareEntries(p[a], p[b]) <= 0;
      if a == j {
        EntriesPreordered(s[i], p[j], p[b]);
      }
    }
  }

  /** The exchange loop over all pairs. */
  method ExchangeSort(items: seq<DirEntry>) returns (s: seq<DirEntry>)
    ensures Sorted(s) && multiset(s) == multiset(items)
  {
    s := items;
    for i := 0 to |items|
      invariant |s| == |items| && multiset(s) == multiset(items)
      invariant Sorted(s[..i]) && (i > 0 ==> Greatest(s, s[i - 1]))
    {
      assert RoundInvariant(s, i, 0);
      for j := 0 to |items|
        invariant |s| == |items| && multiset(s) == multiset(items)
        invariant RoundInvariant(s, i, j)
      {
        ColumnKeepsInvariant(s, i, j);
        if CompareEntries(s[i], s[j]) < 0 {
          s := Exchanged(s, i, j);
        }
      }
      RoundEnds(s, i);
    }
    assert s[..|items|] == s;
  }

  lemma RoundEnds(s: seq<DirEntry>, i: nat)
    requires i < |s| && RoundInvariant(s, i, |s|)
    ensures Sorted(s[..i + 1]) && Greatest(s, s[i])
  {
  }

  lemma LiveOnlyNone()
    ensures LiveOnly([]) == []
  {
  }

  lemma LiveOnlyStep(es: seq<DirEntry>, k: nat)
    requires k < |es|
    ensures LiveOnly(es[..k + 1]) == if Live(es[k]) then LiveOnly(es[..k]) + [es[k]] else LiveOnly(es[..k])
  {
    assert es[..k + 1][..k] == es[..k];
  }

  /** Get_Items of one directory. */
  method GetItems(vol: Volume, dir: Entry, ghost c: seq<nat>) returns (items: seq<DirEntry>)
    requires vol.Valid() && IsDir(vol, dir, c)
    ensures multiset(items) == multiset(LiveOnly(Slots(vol, dir, c)))
    ensures forall i, j | 0 <= i < j < |items| :: !ListedFirst(items[j], items[i])
  {
    hide LiveOnly, Slot, Sorted, ListedFirst;
    var sectors := ReadDirectory(vol, dir, c);
    LiveOnlyNone();
    ghost var es := SlotsOf(sectors);
    var found: seq<DirEntry> := [];
    for i := 0 to |sectors|
      invariant found == LiveOnly(es[..SLOTS * i])
    {
      for j := 0 to SLOTS
        invariant SLOTS * i + j <= |es| && found == LiveOnly(es[..SLOTS * i + j])
      {
        SlotAt(sectors, i, j);
        var e := Slot(sectors[i], j);
        LiveOnlyStep(es, SLOTS * i + j);
        if e[0] != NEVER_USED && e[0] != DELETED {
          found := found + [e];
        }
      }
    }
    assert es[..|es|] == es;
    items := ExchangeSort(found);
    SortedIff(items);
  }

  /** The listing is sorted exactly when no entry is listed behind one that it comes before. */
  lemma SortedIff(s: seq<DirEntry>)
    ensures Sorted(s) <==> forall i, j | 0 <= i < j < |s| :: !ListedFirst(s[j], s[i])
  {
    hide ListedFirst;
    forall i, j | 0 <= i < j < |s| ensures CompareEntries(s[i], s[j]) <= 0 <==> !ListedFirst(s[j], s[i]) {
      EntriesPreordered(s[j], s[i], s[i]);
      CompareEntriesIff(s[j], s[i]);
    }
  }

  /** Every live entry is listed as often as it occurs, and nothing else is. */
  lemma {:induction false} LiveOnlyCounts(es: seq<DirEntry>, e: DirEntry)
    ensures multiset(LiveOnly(es))[e] == if Live(e) then multiset(es)[e] else 0
  {
    if es != [] {
      var r := es[..|es| - 1];
      LiveOnlyCounts(r, e);
      assert es == r + [es[|es| - 1]];
    }
  }
}
