/** A directory as the list of its slots, and what inserting, removing and truncating do to name resolution. */
module Directories {
  import opened Fat12Types
  import opened Names

  const SLOTS: nat := 16

  function Slot(s: Sector, j: nat): DirEntry
    requires j < SLOTS
  {
    s[32 * j..32 * j + 32]
  }

  function WithSlot(s: Sector, j: nat, e: DirEntry): Sector
    requires j < SLOTS
  {
    s[..32 * j] + e + s[32 * j + 32..]
  }

  function SlotsOf(dir: seq<Sector>): (es: seq<DirEntry>)
    ensures |es| == SLOTS * |dir|
  {
    seq(SLOTS * |dir|, k requires 0 <= k < SLOTS * |dir| => Slot(dir[k / SLOTS], k % SLOTS))
  }

  // ----- searching -----

  predicate Shows(e: DirEntry, name: Text) {
    Live(e) && Display(e) == name
  }

  /** The first live slot with this name, |es| when there is none. */
  function Find(es: seq<DirEntry>, name: Text): (k: nat)
    ensures k <= |es| && (k < |es| ==> Shows(es[k], name))
    ensures forall i | 0 <= i < k :: !Shows(es[i], name)
  {
    if es == [] || Shows(es[0], name) then 0
    else
      var r := Find(es[1..], name);
      assert forall i | 1 <= i < r + 1 :: es[i] == es[1..][i - 1];
      1 + r
  }

  function FirstDead(es: seq<DirEntry>): (k: nat)
    ensures k <= |es| && (k < |es| ==> !Live(es[k]))
    ensures forall i | 0 <= i < k :: Live(es[i])
  {
    if es == [] || !Live(es[0]) then 0
    else
      var r := FirstDead(es[1..]);
      assert forall i | 1 <= i < r + 1 :: es[i] == es[1..][i - 1];
      1 + r
  }

  /** The first slot, live or not, that compares equal to item. */
  function FirstEqual(es: seq<DirEntry>, item: DirEntry): (k: nat)
    ensures k <= |es| && (k < |es| ==> CompareEntries(es[k], item) == 0)
    ensures forall i | 0 <= i < k :: CompareEntries(es[i], item) != 0
  {
    if es == [] || CompareEntries(es[0], item) == 0 then 0
    else
      var r := FirstEqual(es[1..], item);
      assert forall i | 1 <= i < r + 1 :: es[i] == es[1..][i - 1];
      1 + r
  }

  /** The directory as a finite map from names. */
  function Resolve(es: seq<DirEntry>, name: Text): Option<DirEntry> {
    if Find(es, name) < |es| then Some(es[Find(es, name)]) else None
  }

  /** Live names are pairwise distinct. */
  ghost predicate LiveDistinct(es: seq<DirEntry>) {
    forall i, j | 0 <= i < j < |es| && Live(es[i]) && Live(es[j]) :: Display(es[i]) != Display(es[j])
  }

  ghost predicate NoneLiveFrom(es: seq<DirEntry>, m: nat) {
    forall i | m <= i < |es| :: !Live(es[i])
  }

  lemma FindIs(es: seq<DirEntry>, name: Text, k: nat)
    requires k <= |es| && (k < |es| ==> Shows(es[k], name))
    requires forall i | 0 <= i < k :: !Shows(es[i], name)
    ensures Find(es, name) == k
  {
  }

  /** Among distinct live names, resolution finds the one slot that shows the name. */
  lemma ResolveIs(es: seq<DirEntry>, k: nat)
    requires LiveDistinct(es) && k < |es| && Live(es[k])
    ensures Find(es, Display(es[k])) == k
  {
  }

  /** The map es' is the map es with name bound to e. */
  ghost predicate ActsAsInsert(es: seq<DirEntry>, es': seq<DirEntry>, name: Text, e: DirEntry) {
    forall n :: Resolve(es', n) == if n == name then Some(e) else Resolve(es, n)
  }

  /** The map es' is the map es without name. */
  ghost predicate ActsAsRemove(es: seq<DirEntry>, es': seq<DirEntry>, name: Text) {
    forall n :: Resolve(es', n) == if n == name then None else Resolve(es, n)
  }

  /** The maps are the same. */
  ghost predicate SameNames(es: seq<DirEntry>, es': seq<DirEntry>) {
    forall n :: Resolve(es', n) == Resolve(es, n)
  }

  /** A slot from the given one on shows the name. */
  ghost predicate ShownFrom(es: seq<DirEntry>, name: Text, from: nat) {
    exists h :: from <= h < |es| && Shows(es[h], name)
  }

  lemma ShownIsResolved(es: seq<DirEntry>, name: Text)
    ensures ShownFrom(es, name, 0) <==> Resolve(es, name).Some?
  {
    assert Resolve(es, name).Some? ==> Shows(es[Find(es, name)], name);
  }

  /** The sector of slot k has another live slot. */
  ghost predicate OthersInSector(es: seq<DirEntry>, k: nat) {
    exists h :: SLOTS * (k / SLOTS) <= h < |es| && h < SLOTS * (k / SLOTS) + SLOTS && h != k && Live(es[h])
  }

  // ----- updating one slot -----

  /** Overwriting a slot that does not show name by one that does not either keeps the resolution of name. */
  lemma UpdateKeepsOthers(es: seq<DirEntry>, k: nat, e: DirEntry, name: Text)
    requires k < |es| && !Shows(es[k], name) && !Shows(e, name)
    ensures Resolve(es[k := e], name) == Resolve(es, name)
  {
    FindIs(es[k := e], name, Find(es, name));
  }

  /** Filling a dead slot with a live entry of a new name adds that name and changes no other. */
  lemma InsertResolves(es: seq<DirEntry>, k: nat, e: DirEntry)
    requires LiveDistinct(es) && k < |es| && !Live(es[k]) && Live(e) && Resolve(es, Display(e)) == None
    ensures LiveDistinct(es[k := e])
    ensures ActsAsInsert(es, es[k := e], Display(e), e)
  {
    var es' := es[k := e];
    assert forall i | 0 <= i < |es| :: !Shows(es[i], Display(e));
    ResolveIs(es', k);
    forall n | n != Display(e) ensures Resolve(es', n) == Resolve(es, n) {
      UpdateKeepsOthers(es, k, e, n);
    }
  }

  function Marked(e: DirEntry): DirEntry { e[0 := DELETED] }

  lemma MarkedIsDead(e: DirEntry)
    ensures !Live(Marked(e))
  {
  }

  /** Marking a live slot deleted removes its name and changes no other. */
  lemma RemoveResolves(es: seq<DirEntry>, k: nat)
    requires LiveDistinct(es) && k < |es| && Live(es[k])
    ensures LiveDistinct(es[k := Marked(es[k])])
    ensures ActsAsRemove(es, es[k := Marked(es[k])], Display(es[k]))
  {
    var es' := es[k := Marked(es[k])];
    FindIs(es', Display(es[k]), |es|);
    forall n ensures Resolve(es', n) == if n == Display(es[k]) then None else Resolve(es, n) {
      if n != Display(es[k]) {
        UpdateKeepsOthers(es, k, Marked(es[k]), n);
      }
    }
  }

  /** Marking the slot a name is found at: the name is gone unless it is shown again behind it, and no other changes. */
  lemma MarkedResolves(es: seq<DirEntry>, name: Text)
    requires Find(es, name) < |es|
    ensures var k := Find(es, name);
            var es' := es[k := Marked(es[k])];
            && (forall n | n != name :: Resolve(es', n) == Resolve(es, n))
            && (Resolve(es', name).Some? <==> ShownFrom(es, name, k + 1))
  {
    hide Display;
    var k := Find(es, name);
    var es' := es[k := Marked(es[k])];
    forall n | n != name ensures Resolve(es', n) == Resolve(es, n) {
      UpdateKeepsOthers(es, k, Marked(es[k]), n);
    }
    if ShownFrom(es, name, k + 1) {
      var h :| k + 1 <= h < |es| && Shows(es[h], name);
      assert Shows(es'[h], name);
    } else {
      FindIs(es', name, |es'|);
    }
  }

  /** Cutting the list at m leaves every name resolving as before exactly when nothing live is cut off. */
  lemma CutKeepsNamesIff(es: seq<DirEntry>, m: nat)
    requires LiveDistinct(es) && m <= |es|
    ensures LiveDistinct(es[..m])
    ensures SameNames(es, es[..m]) <==> NoneLiveFrom(es, m)
  {
    if NoneLiveFrom(es, m) {
      forall n ensures Resolve(es[..m], n) == Resolve(es, n) {
        var f := Find(es, n);
        FindIs(es[..m], n, if f < |es| then f else m);
      }
    } else {
      var i :| m <= i < |es| && Live(es[i]);
      var n := Display(es[i]);
      ResolveIs(es, i);
      FindIs(es[..m], n, m);
      assert Resolve(es[..m], n) != Resolve(es, n);
    }
  }

  /** The slot Remove_Item picks, comparing whole entries and looking at dead slots too, is the one that
      lookup by name found. */
  lemma EqualFindsItself(es: seq<DirEntry>, name: Text)
    requires Find(es, name) < |es|
    ensures FirstEqual(es, es[Find(es, name)]) == Find(es, name)
  {
    var f := Find(es, name);
    var item := es[f];
    var r := FirstEqual(es, item);
    EntriesPreordered(item, item, item);
    assert r <= f;
    EqualEntriesShowAlike(es[r], item);
  }

  // ----- slots and sectors -----

  lemma WholeSectors(dir: seq<Sector>)
    ensures |SlotsOf(dir)| % SLOTS == 0
  {
  }

  lemma SlotsOfAppend(a: seq<Sector>, b: seq<Sector>)
    ensures SlotsOf(a + b) == SlotsOf(a) + SlotsOf(b)
  {
  }

  /** Changing a slot of a sector and dropping the sectors behind it. */
  lemma SlotsOfUpdate(dir: seq<Sector>, k: nat, e: DirEntry)
    requires k < SLOTS * |dir|
    ensures var i := k / SLOTS;
            i < |dir| && SLOTS * (i + 1) <= |SlotsOf(dir)|
            && SlotsOf(dir[..i] + [WithSlot(dir[i], k % SLOTS, e)]) == SlotsOf(dir)[k := e][..SLOTS * (i + 1)]
  {
    var i := k / SLOTS;
    var dir' := dir[..i] + [WithSlot(dir[i], k % SLOTS, e)];
    assert |dir'| == i + 1;
    forall h | 0 <= h < SLOTS * (i + 1) ensures SlotsOf(dir')[h] == SlotsOf(dir)[k := e][h] {
      if h / SLOTS == i {
        SlotOfWithSlot(dir[i], k % SLOTS, e, h % SLOTS);
        assert h == k <==> h % SLOTS == k % SLOTS;
      }
    }
  }

  lemma SlotOfWithSlot(s: Sector, j: nat, e: DirEntry, h: nat)
    requires j < SLOTS && h < SLOTS
    ensures Slot(WithSlot(s, j, e), h) == if h == j then e else Slot(s, h)
  {
  }
}
