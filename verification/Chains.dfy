/** Cluster chains in the allocation table: what walking them yields. */
module Chains {
  import opened Fat12Types

  /** The values at which Next_Sector answers "no next sector": free, bad or reserved, and end of chain. */
  predicate EndOfChain(v: Entry) {
    v == LAST_SECTOR || v == 0 || v >= 0xFF0
  }

  /** Every link stays inside the table. */
  ghost predicate InRange(t: Table) {
    forall i | 0 <= i < TABLE_SIZE :: EndOfChain(t[i]) || t[i] < TABLE_SIZE
  }

  /** c lists the clusters of a chain in order, up to the one whose entry is a terminator. */
  ghost predicate Chain(t: Table, c: seq<nat>) {
    && |c| > 0
    && (forall i | 0 <= i < |c| :: 2 <= c[i] < TABLE_SIZE)
    && (forall i | 0 <= i < |c| - 1 :: t[c[i]] == c[i + 1])
    && EndOfChain(t[c[|c| - 1]])
  }

  ghost predicate HasChain(t: Table, start: nat) {
    exists c :: Chain(t, c) && c[0] == start
  }

  ghost predicate Disjoint(c: seq<nat>, e: seq<nat>) {
    forall i, j | 0 <= i < |c| && 0 <= j < |e| :: c[i] != e[j]
  }

  /** Find_Sector as a function: k applications of the table, or None when it would index past the table. */
  function Walk(t: Table, start: Entry, k: nat): (r: Option<Entry>)
  {
    if k == 0 then Some(start)
    else match Walk(t, start, k - 1)
      case None => None
      case Some(x) => if x < TABLE_SIZE then Some(t[x]) else None
  }

  // ----- chains are determined by their head, repeat nothing and fit the table -----

  lemma OneLongIffEnds(t: Table, c: seq<nat>)
    requires Chain(t, c)
    ensures |c| == 1 <==> EndOfChain(t[c[0]])
  {
    if |c| > 1 {
      assert t[c[0]] == c[1];
    }
  }

  lemma {:induction false} ChainUnique(t: Table, c: seq<nat>, e: seq<nat>)
    requires Chain(t, c) && Chain(t, e) && c[0] == e[0]
    ensures c == e
    decreases |c|
  {
    OneLongIffEnds(t, c);
    OneLongIffEnds(t, e);
    if |c| > 1 {
      assert t[c[0]] == c[1] && t[e[0]] == e[1];
      ChainUnique(t, c[1..], e[1..]);
      assert c == [c[0]] + c[1..] && e == [e[0]] + e[1..];
    }
  }

  /** The chain that starts at s; there is only one. */
  ghost function ChainOf(t: Table, s: nat): (c: seq<nat>)
    requires HasChain(t, s)
    ensures Chain(t, c) && c[0] == s
  {
    var c :| Chain(t, c) && c[0] == s;
    c
  }

  lemma ChainOfIs(t: Table, c: seq<nat>)
    requires Chain(t, c)
    ensures HasChain(t, c[0]) && ChainOf(t, c[0]) == c
  {
    assert HasChain(t, c[0]);
    ChainUnique(t, ChainOf(t, c[0]), c);
  }

  lemma ChainDistinct(t: Table, c: seq<nat>)
    requires Chain(t, c)
    ensures forall i, j | 0 <= i < j < |c| :: c[i] != c[j]
  {
    forall i, j | 0 <= i < j < |c| ensures c[i] != c[j] {
      if c[i] == c[j] {
        ChainUnique(t, c[i..], c[j..]);
        assert false;
      }
    }
  }

  lemma {:induction false} DistinctFits(c: seq<nat>, n: nat)
    requires forall i | 0 <= i < |c| :: c[i] < n
    requires forall i, j | 0 <= i < j < |c| :: c[i] != c[j]
    ensures |c| <= n
    decreases n
  {
    if |c| > 0 {
      assert c[0] < n;
      if exists k :: 0 <= k < |c| && c[k] == n - 1 {
        var k :| 0 <= k < |c| && c[k] == n - 1;
        DistinctFits(c[..k] + c[k + 1..], n - 1);
      } else {
        DistinctFits(c, n - 1);
      }
    }
  }

  lemma ChainFits(t: Table, c: seq<nat>)
    requires Chain(t, c)
    ensures |c| <= TABLE_SIZE
  {
    ChainDistinct(t, c);
    DistinctFits(c, TABLE_SIZE);
  }

  // ----- walking -----

  /** Walking a chain enumerates it; one more step yields the terminator, and two more leave the table
      unless the chain ends in the free mark. */
  lemma {:induction false} WalkOnChain(t: Table, c: seq<nat>, k: nat)
    requires Chain(t, c)
    ensures k < |c| ==> Walk(t, c[0], k) == Some(c[k])
    ensures k == |c| ==> Walk(t, c[0], k) == Some(t[c[|c| - 1]])
    ensures k > |c| && t[c[|c| - 1]] != 0 ==> Walk(t, c[0], k) == None
  {
    if k > 0 {
      WalkOnChain(t, c, k - 1);
      if k < |c| {
        assert t[c[k - 1]] == c[k];
      }
    }
  }

  /** Find_Sector(a + b, s) is Find_Sector(b, Find_Sector(a, s)). */
  lemma {:induction false} WalkCompose(t: Table, s: Entry, a: nat, b: nat)
    ensures Walk(t, s, a + b) ==
            match Walk(t, s, a) { case None => None case Some(x) => Walk(t, x, b) }
  {
    if b > 0 {
      WalkCompose(t, s, a, b - 1);
    }
  }

  /** The clusters met in the first n steps, while each is followed by a link. */
  ghost predicate LinksFor(t: Table, s: Entry, n: nat)
    requires InRange(t) && s < TABLE_SIZE
  {
    forall k | 0 <= k < n :: WalkIn(t, s, k) && !EndOfChain(t[Walk(t, s, k).value])
  }

  ghost predicate WalkIn(t: Table, s: Entry, k: nat) {
    Walk(t, s, k).Some? && Walk(t, s, k).value < TABLE_SIZE
  }

  /** Get_Sectors_Count stops on start exactly when the walk meets a terminator, that is, when there is a chain. */
  lemma CountStopsIffChain(t: Table, s: Entry)
    requires 2 <= s < TABLE_SIZE
    requires forall i | 0 <= i < TABLE_SIZE :: EndOfChain(t[i]) || 2 <= t[i] < TABLE_SIZE
    ensures HasChain(t, s) <==>
            exists n: nat :: LinksFor(t, s, n) && WalkIn(t, s, n) && EndOfChain(t[Walk(t, s, n).value])
  {
    if HasChain(t, s) {
      var c :| Chain(t, c) && c[0] == s;
      forall k | 0 <= k < |c| ensures WalkIn(t, s, k) && Walk(t, s, k).value == c[k] {
        WalkOnChain(t, c, k);
      }
      forall k | 0 <= k < |c| - 1 ensures !EndOfChain(t[c[k]]) {
        assert t[c[k]] == c[k + 1];
      }
      assert LinksFor(t, s, |c| - 1);
    }
    if n: nat :| LinksFor(t, s, n) && WalkIn(t, s, n) && EndOfChain(t[Walk(t, s, n).value]) {
      WalkedChain(t, s, n);
    }
  }

  lemma {:induction false} WalkedChain(t: Table, s: Entry, n: nat)
    requires 2 <= s < TABLE_SIZE
    requires forall i | 0 <= i < TABLE_SIZE :: EndOfChain(t[i]) || 2 <= t[i] < TABLE_SIZE
    requires LinksFor(t, s, n) && WalkIn(t, s, n) && EndOfChain(t[Walk(t, s, n).value])
    ensures HasChain(t, s)
    decreases n
  {
    if n == 0 {
      assert Chain(t, [s]) && [s][0] == s;
    } else {
      assert Walk(t, s, 0) == Some(s);
      assert WalkIn(t, s, 0);
      var s1 := t[s];
      assert Walk(t, s, 1) == Some(s1);
      forall k | 0 <= k <= n - 1 ensures Walk(t, s1, k) == Walk(t, s, k + 1) {
        WalkCompose(t, s, 1, k);
        assert Walk(t, s, 1 + k) == Walk(t, s, k + 1);
      }
      assert LinksFor(t, s1, n - 1);
      WalkedChain(t, s1, n - 1);
      var c :| Chain(t, c) && c[0] == s1;
      assert Chain(t, [s] + c) && ([s] + c)[0] == s;
    }
  }
}
