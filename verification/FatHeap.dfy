/** The allocation table as a heap of linked cells: its invariant, the changes the file system makes to it,
    and every run of such changes. */
module FatHeap {
  import opened Fat12Types
  import opened Chains

  /** A link leads to a cluster in use. */
  ghost predicate LinksInUse(t: Table) {
    forall i | 2 <= i < TABLE_SIZE && !EndOfChain(t[i]) :: 2 <= t[i] < TABLE_SIZE && t[t[i]] != 0
  }

  /** No cluster has two predecessors. */
  ghost predicate OnePredecessor(t: Table) {
    forall i, j | 2 <= i < j < TABLE_SIZE && !EndOfChain(t[i]) && !EndOfChain(t[j]) :: t[i] != t[j]
  }

  /** Every cluster in use heads a chain that ends, so there is no cycle. */
  ghost predicate AllEnd(t: Table) {
    forall i | 2 <= i < TABLE_SIZE && t[i] != 0 :: HasChain(t, i)
  }

  ghost predicate HeapOk(t: Table) {
    LinksInUse(t) && OnePredecessor(t) && AllEnd(t)
  }

  ghost predicate HasPredecessor(t: Table, x: nat) {
    exists p :: 2 <= p < TABLE_SIZE && !EndOfChain(t[p]) && t[p] == x
  }

  // ----- the changes -----

  /** Find_Free_Sector(1): the first free entry from lo on, 0 when there is none. */
  function FindFree(t: Table, lo: nat): (s: nat)
    ensures s < TABLE_SIZE
    ensures s != 0 ==> lo <= s && t[s] == 0 && forall x | lo <= x < s :: t[x] != 0
    ensures s == 0 ==> lo == 0 || forall x | lo <= x < TABLE_SIZE :: t[x] != 0
    decreases TABLE_SIZE - lo
  {
    if lo >= TABLE_SIZE then 0 else if t[lo] == 0 then lo else FindFree(t, lo + 1)
  }

  /** Mark x as the last cluster of its chain, whatever it was before. */
  function Seal(t: Table, x: nat): Table
    requires x < TABLE_SIZE
  {
    t[x := LAST_SECTOR]
  }

  /** Link x, which is then the last cluster, behind dir. */
  function Extend(t: Table, dir: nat, x: nat): Table
    requires dir < TABLE_SIZE && x < TABLE_SIZE
  {
    t[dir := x][x := LAST_SECTOR]
  }

  /** x is met when following links from s. */
  ghost predicate Reachable(t: Table, s: Entry, x: nat)
    requires InRange(t) && s < TABLE_SIZE
  {
    exists n: nat :: LinksFor(t, s, n) && Walk(t, s, n) == Some(x)
  }

  /** What Remove_Item_Data leaves: the reachable entries are free, all others as before. */
  ghost function Freed(t: Table, s: Entry): Table
    requires InRange(t) && s < TABLE_SIZE
  {
    seq(TABLE_SIZE, x requires 0 <= x < TABLE_SIZE => if Reachable(t, s, x) then 0 else t[x])
  }

  function FreeClusters(t: Table): set<nat> {
    set x: nat | x < TABLE_SIZE && t[x] == 0
  }

  // ----- facts about one heap -----

  lemma HeapInRange(t: Table)
    requires HeapOk(t) && (EndOfChain(t[0]) || t[0] < TABLE_SIZE) && (EndOfChain(t[1]) || t[1] < TABLE_SIZE)
    ensures InRange(t)
  {
  }

  lemma {:induction false} ChainInUse(t: Table, c: seq<nat>)
    requires HeapOk(t) && Chain(t, c) && t[c[0]] != 0
    ensures forall i | 0 <= i < |c| :: t[c[i]] != 0
    decreases |c|
  {
    if |c| > 1 {
      assert t[c[0]] == c[1];
      ChainInUse(t, c[1..]);
      assert c == [c[0]] + c[1..];
    }
  }

  /** Every cluster of a chain but its head is linked to from the chain. */
  lemma LinkedFrom(t: Table, c: seq<nat>, x: nat) returns (p: nat)
    requires Chain(t, c) && x in c && x != c[0]
    ensures 2 <= p < TABLE_SIZE && p in c && !EndOfChain(t[p]) && t[p] == x
  {
    var k :| 0 <= k < |c| && c[k] == x;
    p := c[k - 1];
    assert t[p] == c[k];
  }

  /** A chain headed by a cluster outside e cannot run into e, unless at e's own head. */
  lemma {:induction false} NotIntoChain(t: Table, c: seq<nat>, e: seq<nat>, j: nat)
    requires HeapOk(t) && Chain(t, c) && Chain(t, e) && !HasPredecessor(t, c[0])
    requires j < |e| && e[0] !in c
    ensures e[j] !in c
    decreases j
  {
    if j > 0 {
      NotIntoChain(t, c, e, j - 1);
      assert t[e[j - 1]] == e[j];
      if e[j] in c {
        var p := LinkedFrom(t, c, e[j]);
        assert false;
      }
    }
  }

  /** Chains from different heads share nothing. */
  lemma HeadsAreDisjoint(t: Table, c: seq<nat>, e: seq<nat>)
    requires HeapOk(t) && Chain(t, c) && Chain(t, e)
    requires !HasPredecessor(t, c[0]) && !HasPredecessor(t, e[0]) && c[0] != e[0]
    ensures Disjoint(c, e)
  {
    if e[0] in c {
      var p := LinkedFrom(t, c, e[0]);
      assert false;
    }
    forall j | 0 <= j < |e| ensures e[j] !in c {
      NotIntoChain(t, c, e, j);
    }
  }

  lemma ChainReachable(t: Table, c: seq<nat>, x: nat)
    requires InRange(t) && Chain(t, c)
    ensures Reachable(t, c[0], x) <==> x in c
  {
    forall k | 0 <= k < |c| ensures Walk(t, c[0], k) == Some(c[k]) {
      WalkOnChain(t, c, k);
    }
    forall h | 0 <= h < |c| - 1 ensures !EndOfChain(t[c[h]]) {
      assert t[c[h]] == c[h + 1];
    }
    assert WalkIn(t, c[0], |c| - 1);
    if Reachable(t, c[0], x) {
      var n: nat :| LinksFor(t, c[0], n) && Walk(t, c[0], n) == Some(x);
    }
    if k :| 0 <= k < |c| && c[k] == x {
      assert LinksFor(t, c[0], k) && Walk(t, c[0], k) == Some(x);
    }
  }

  /** On a chain, freeing what is reachable from the head frees the chain and nothing else. */
  lemma FreedChain(t: Table, c: seq<nat>)
    requires InRange(t) && Chain(t, c)
    ensures forall x | 0 <= x < TABLE_SIZE :: Freed(t, c[0])[x] == if x in c then 0 else t[x]
  {
    forall x | 0 <= x < TABLE_SIZE ensures Freed(t, c[0])[x] == if x in c then 0 else t[x] {
      ChainReachable(t, c, x);
    }
  }

  // ----- each change keeps the heap -----

  /** Cut at a cluster that is now sealed, or untouched by the change, a chain is still one. */
  lemma SealedChain(t: Table, t': Table, x: nat, c: seq<nat>)
    requires Chain(t, c) && x < TABLE_SIZE && EndOfChain(t'[x])
    requires forall y | y in c && y != x :: t'[y] == t[y]
    ensures HasChain(t', c[0])
  {
    if x in c {
      var k :| 0 <= k < |c| && c[k] == x;
      ChainDistinct(t, c);
      assert Chain(t', c[..k + 1]) && c[..k + 1][0] == c[0];
    } else {
      assert Chain(t', c);
    }
  }

  /** Sealing any cluster, in use or free, keeps the heap. */
  lemma SealKeepsHeap(t: Table, x: nat)
    requires HeapOk(t) && 2 <= x < TABLE_SIZE
    ensures HeapOk(Seal(t, x))
  {
    var t' := Seal(t, x);
    forall i | 2 <= i < TABLE_SIZE && t'[i] != 0 ensures HasChain(t', i) {
      if i == x {
        assert Chain(t', [x]) && [x][0] == i;
      } else {
        var c :| Chain(t, c) && c[0] == i;
        SealedChain(t, t', x, c);
      }
    }
  }

  lemma CutAndLink(t: Table, c: seq<nat>, k: nat, x: nat)
    requires Chain(t, c) && k < |c| && 2 <= x < TABLE_SIZE && x !in c
    requires forall i | 0 <= i < k :: c[i] != c[k]
    ensures HasChain(Extend(t, c[k], x), c[0])
  {
    var t' := Extend(t, c[k], x);
    var e := c[..k + 1] + [x];
    forall i | 0 <= i < |e| - 1 ensures t'[e[i]] == e[i + 1] {
      if i < k {
        assert t[c[i]] == c[i + 1];
      }
    }
    assert Chain(t', e) && e[0] == c[0];
  }

  lemma ExtendedChain(t: Table, dir: nat, x: nat, c: seq<nat>)
    requires HeapOk(t) && Chain(t, c) && t[c[0]] != 0 && 2 <= x < TABLE_SIZE && t[x] == 0
    requires 2 <= dir < TABLE_SIZE && t[dir] != 0
    ensures HasChain(Extend(t, dir, x), c[0])
  {
    var t' := Extend(t, dir, x);
    ChainInUse(t, c);
    if dir in c {
      var k :| 0 <= k < |c| && c[k] == dir;
      ChainDistinct(t, c);
      CutAndLink(t, c, k, x);
    } else {
      assert Chain(t', c);
    }
  }

  lemma ExtendKeepsHeap(t: Table, dir: nat, x: nat)
    requires HeapOk(t) && 2 <= dir < TABLE_SIZE && 2 <= x < TABLE_SIZE
    requires t[dir] != 0 && t[x] == 0
    ensures HeapOk(Extend(t, dir, x))
  {
    var t' := Extend(t, dir, x);
    assert AllEnd(t') by {
      forall i | 2 <= i < TABLE_SIZE && t'[i] != 0 ensures HasChain(t', i) {
        if i == x {
          assert Chain(t', [x]) && [x][0] == i;
        } else {
          var c :| Chain(t, c) && c[0] == i;
          ExtendedChain(t, dir, x, c);
        }
      }
    }
    assert forall i | 2 <= i < TABLE_SIZE && i != dir && i != x :: t'[i] == t[i] && t[i] != x;
    assert t'[dir] == x && EndOfChain(t'[x]);
  }

  /** Entries 0 and 1 are no part of the heap. */
  lemma HeapIgnoresReserved(t: Table, t': Table)
    requires HeapOk(t) && forall i | 2 <= i < TABLE_SIZE :: t'[i] == t[i]
    ensures HeapOk(t')
  {
  }

  /** Zeroing a single entry in use keeps the heap exactly when nothing links to it. */
  lemma DropKeepsHeapIff(t: Table, x: nat)
    requires HeapOk(t) && 2 <= x < TABLE_SIZE && t[x] != 0
    ensures HeapOk(t[x := 0]) <==> !HasPredecessor(t, x)
  {
    hide HeapOk, HasPredecessor;
    if HasPredecessor(t, x) {
      DropLinked(t, x);
    } else {
      DropUnlinked(t, x);
    }
  }

  lemma NoSelfLink(t: Table, x: nat)
    requires x < TABLE_SIZE && HasChain(t, x)
    ensures EndOfChain(t[x]) || t[x] != x
  {
    if !EndOfChain(t[x]) {
      var c :| Chain(t, c) && c[0] == x;
      ChainDistinct(t, c);
      assert t[c[0]] == c[1] != c[0];
    }
  }

  lemma DropLinked(t: Table, x: nat)
    requires HeapOk(t) && 2 <= x < TABLE_SIZE && t[x] != 0 && HasPredecessor(t, x)
    ensures !HeapOk(t[x := 0])
  {
    var p :| 2 <= p < TABLE_SIZE && !EndOfChain(t[p]) && t[p] == x;
    NoSelfLink(t, x);
    var t' := t[x := 0];
    assert t'[p] == x && t'[x] == 0;
  }

  lemma DropUnlinked(t: Table, x: nat)
    requires HeapOk(t) && 2 <= x < TABLE_SIZE && t[x] != 0 && !HasPredecessor(t, x)
    ensures HeapOk(t[x := 0])
  {
    var t' := t[x := 0];
    assert AllEnd(t') by {
      forall i | 2 <= i < TABLE_SIZE && t'[i] != 0 ensures HasChain(t', i) {
        var c :| Chain(t, c) && c[0] == i;
        if x in c {
          var p := LinkedFrom(t, c, x);
          assert false;
        }
        assert Chain(t', c);
      }
    }
    forall i | 2 <= i < TABLE_SIZE && !EndOfChain(t'[i]) ensures 2 <= t'[i] < TABLE_SIZE && t'[t'[i]] != 0 {
      assert t'[i] == t[i] != x;
    }
  }

  /** Freeing a chain keeps the heap exactly when nothing links to its head. */
  lemma FreeKeepsHeapIffHead(t: Table, c: seq<nat>)
    requires HeapOk(t) && InRange(t) && Chain(t, c) && t[c[0]] != 0
    ensures HeapOk(Freed(t, c[0])) <==> !HasPredecessor(t, c[0])
  {
    FreedChain(t, c);
    var t' := Freed(t, c[0]);
    if HasPredecessor(t, c[0]) {
      var p :| 2 <= p < TABLE_SIZE && !EndOfChain(t[p]) && t[p] == c[0];
      PredecessorOutside(t, c, p);
      assert !EndOfChain(t'[p]) && t'[t'[p]] == 0;
    } else {
      FreeHeadKeepsHeap(t, c, t');
    }
  }

  lemma PredecessorOutside(t: Table, c: seq<nat>, p: nat)
    requires Chain(t, c) && p < TABLE_SIZE && t[p] == c[0]
    ensures p !in c
  {
    ChainDistinct(t, c);
    forall k | 0 <= k < |c| ensures c[k] != p {
      if k < |c| - 1 {
        assert t[c[k]] == c[k + 1];
      }
    }
  }

  lemma FreeHeadKeepsHeap(t: Table, c: seq<nat>, t': Table)
    requires HeapOk(t) && Chain(t, c) && !HasPredecessor(t, c[0])
    requires forall x | 0 <= x < TABLE_SIZE :: t'[x] == if x in c then 0 else t[x]
    ensures HeapOk(t')
  {
    FreeHeadKeepsLinks(t, c, t');
    assert OnePredecessor(t');
    forall i | 2 <= i < TABLE_SIZE && t'[i] != 0 ensures HasChain(t', i) {
      var e :| Chain(t, e) && e[0] == i;
      forall j | 0 <= j < |e| ensures e[j] !in c {
        NotIntoChain(t, c, e, j);
      }
      assert Chain(t', e);
    }
  }

  lemma FreeHeadKeepsLinks(t: Table, c: seq<nat>, t': Table)
    requires HeapOk(t) && Chain(t, c) && !HasPredecessor(t, c[0])
    requires forall x | 0 <= x < TABLE_SIZE :: t'[x] == if x in c then 0 else t[x]
    ensures LinksInUse(t')
  {
    forall i | 2 <= i < TABLE_SIZE && !EndOfChain(t'[i]) ensures 2 <= t'[i] < TABLE_SIZE && t'[t'[i]] != 0 {
      assert t'[i] == t[i];
      if t[i] in c {
        var p := LinkedFrom(t, c, t[i]);
        assert false;
      }
    }
  }

  // ----- conservation -----

  function Elements(c: seq<nat>): set<nat> {
    set x | x in c
  }

  lemma {:induction false} DistinctCount(c: seq<nat>)
    requires forall i, j | 0 <= i < j < |c| :: c[i] != c[j]
    ensures |Elements(c)| == |c|
  {
    if |c| > 0 {
      var r := c[1..];
      DistinctCount(r);
      assert c == [c[0]] + r;
      assert Elements(c) == Elements(r) + {c[0]};
    }
  }

  /** Freeing a properly ended chain frees as many clusters as the chain is long. */
  lemma FreedCount(t: Table, c: seq<nat>)
    requires InRange(t) && Chain(t, c)
    requires forall i | 0 <= i < |c| :: t[c[i]] != 0
    ensures |FreeClusters(Freed(t, c[0]))| == |FreeClusters(t)| + |c|
  {
    FreedChain(t, c);
    var t' := Freed(t, c[0]);
    var s := Elements(c);
    ChainDistinct(t, c);
    DistinctCount(c);
    assert FreeClusters(t') == FreeClusters(t) + s;
    assert FreeClusters(t) !! s;
  }

  lemma SealCount(t: Table, x: nat)
    requires x < TABLE_SIZE
    ensures |FreeClusters(Seal(t, x))| == |FreeClusters(t)| - if t[x] == 0 then 1 else 0
  {
    assert FreeClusters(Seal(t, x)) == FreeClusters(t) - {x};
  }

  lemma ExtendCount(t: Table, dir: nat, x: nat)
    requires 2 <= dir < TABLE_SIZE && 2 <= x < TABLE_SIZE && t[dir] != 0 && t[x] == 0
    ensures |FreeClusters(Extend(t, dir, x))| == |FreeClusters(t)| - 1
  {
    assert FreeClusters(Extend(t, dir, x)) == FreeClusters(t) - {x};
  }

  // ----- runs -----

  /** Create_Item allocates and, in a full directory, extends; Write_Item truncates in place; Remove_Item frees. */
  datatype Change =
    | Allocate
    | ExtendDir(dir: nat)
    | Truncate(c: seq<nat>, keep: nat)
    | Release(c: seq<nat>)

  ghost predicate Enabled(t: Table, a: Change, lo: nat) {
    match a
    case Allocate => FindFree(t, lo) != 0
    case ExtendDir(dir) => 2 <= dir < TABLE_SIZE && t[dir] != 0 && FindFree(t, lo) != 0
    case Truncate(c, keep) => Chain(t, c) && t[c[0]] != 0 && 1 <= keep <= |c|
    case Release(c) => Chain(t, c) && t[c[0]] != 0 && !HasPredecessor(t, c[0])
  }

  ghost function Apply(t: Table, a: Change, lo: nat): Table
    requires Enabled(t, a, lo) && InRange(t)
  {
    match a
    case Allocate => Seal(t, FindFree(t, lo))
    case ExtendDir(dir) => Extend(t, dir, FindFree(t, lo))
    case Truncate(c, keep) => Seal(t, c[keep - 1])
    case Release(c) => Freed(t, c[0])
  }

  /** How many clusters a change takes from (positive) or returns to (negative) the free ones. */
  function Taken(a: Change): int {
    match a
    case Allocate => 1
    case ExtendDir(_) => 1
    case Truncate(_, _) => 0
    case Release(c) => -|c|
  }

  function TotalTaken(run: seq<Change>): int {
    if run == [] then 0 else Taken(run[0]) + TotalTaken(run[1..])
  }

  ghost predicate IsRun(t: Table, run: seq<Change>, lo: nat, t': Table)
    decreases |run|
  {
    if run == [] then t == t'
    else InRange(t) && Enabled(t, run[0], lo) && IsRun(Apply(t, run[0], lo), run[1..], lo, t')
  }

  lemma ChangeKeepsHeap(t: Table, a: Change, lo: nat)
    requires HeapOk(t) && InRange(t) && 2 <= lo && Enabled(t, a, lo)
    ensures HeapOk(Apply(t, a, lo))
  {
    match a
    case Allocate => SealKeepsHeap(t, FindFree(t, lo));
    case ExtendDir(dir) => ExtendKeepsHeap(t, dir, FindFree(t, lo));
    case Truncate(c, keep) => SealKeepsHeap(t, c[keep - 1]);
    case Release(c) => FreeKeepsHeapIffHead(t, c);
  }

  lemma ChangeStaysInRange(t: Table, a: Change, lo: nat)
    requires InRange(t) && 2 <= lo && Enabled(t, a, lo)
    ensures InRange(Apply(t, a, lo))
  {
  }

  lemma ChangeCount(t: Table, a: Change, lo: nat)
    requires HeapOk(t) && InRange(t) && 2 <= lo && Enabled(t, a, lo)
    ensures |FreeClusters(Apply(t, a, lo))| == |FreeClusters(t)| - Taken(a)
  {
    match a
    case Allocate => SealCount(t, FindFree(t, lo));
    case ExtendDir(dir) => ExtendCount(t, dir, FindFree(t, lo));
    case Truncate(c, keep) =>
      ChainInUse(t, c);
      SealCount(t, c[keep - 1]);
    case Release(c) =>
      ChainInUse(t, c);
      FreedCount(t, c);
  }

  /** Every run of file-system changes keeps the heap and accounts for every cluster. */
  lemma {:induction false} RunKeepsHeap(t: Table, run: seq<Change>, lo: nat, t': Table)
    requires HeapOk(t) && InRange(t) && 2 <= lo && IsRun(t, run, lo, t')
    ensures HeapOk(t') && InRange(t')
    ensures |FreeClusters(t')| == |FreeClusters(t)| - TotalTaken(run)
    decreases |run|
  {
    if run != [] {
      ChangeKeepsHeap(t, run[0], lo);
      ChangeStaysInRange(t, run[0], lo);
      ChangeCount(t, run[0], lo);
      RunKeepsHeap(Apply(t, run[0], lo), run[1..], lo, t');
    }
  }
}
