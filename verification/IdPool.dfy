/** The pools of process and thread identifiers: a table of used marks and a cursor that scans it in a circle. */
module IdPools {
  const COUNT: nat := 1024
  const FAILED: nat := 0xFFFF
  const MIN_PID: nat := 0
  const MIN_TID: nat := 1024

  /** used[k] is the mark of identifier base + k. */
  datatype Pool = Pool(base: nat, used: seq<bool>, cursor: int) {
    predicate Valid() { |used| == COUNT && base + COUNT < FAILED }

    /** The scan indexes the table at the cursor without checking it. */
    predicate CursorOk() { base <= cursor < base + COUNT }

    predicate InPool(id: int) { base <= id < base + COUNT }

    predicate Uses(id: int)
      requires Valid() && InPool(id)
    {
      used[id - base]
    }

    predicate Full()
      requires Valid()
    {
      forall k | 0 <= k < COUNT :: used[k]
    }

    /** The identifier k places after the cursor, in a circle. */
    function Ahead(k: nat): (id: int)
      requires CursorOk()
      ensures InPool(id)
    {
      base + (cursor - base + k) % COUNT
    }

    /** The scan from k places ahead: how far the first free identifier is, COUNT when none is left. */
    function Scan(k: nat): (n: nat)
      requires Valid() && CursorOk() && k <= COUNT
      ensures k <= n <= COUNT
      ensures n < COUNT ==> !Uses(Ahead(n))
      ensures forall j | k <= j < n :: Uses(Ahead(j))
      decreases COUNT - k
    {
      if k == COUNT || !Uses(Ahead(k)) then k else Scan(k + 1)
    }

    /** Get_Free_PID and Get_Free_TID: the pool and the identifier, or FAILED. On failure the cursor is set to 0. */
    function Get(): (Pool, nat)
      requires Valid() && CursorOk()
    {
      var n := Scan(0);
      if n == COUNT then (Pool(base, used, 0), FAILED)
      else
        var id := Ahead(n);
        (Pool(base, used[id - base := true], base + (id - base + 1) % COUNT), id)
    }

    /** Set_Free_PID and Set_Free_TID. */
    function Put(id: int): Pool
      requires Valid() && InPool(id)
    {
      Pool(base, used[id - base := false], if id < cursor then id else cursor)
    }
  }

  function Empty(base: nat): Pool { Pool(base, seq(COUNT, _ => false), base) }

  // ----- one call -----

  /** A circle from the cursor passes every identifier. */
  lemma EveryIdAhead(p: Pool, id: int)
    requires p.CursorOk() && p.InPool(id)
    ensures exists k: nat :: k < COUNT && p.Ahead(k) == id
  {
    var k := if id >= p.cursor then id - p.cursor else id - p.cursor + COUNT;
    if id >= p.cursor {
      assert (p.cursor - p.base + k) % COUNT == id - p.base;
    } else {
      assert p.cursor - p.base + k == id - p.base + COUNT;
      assert (p.cursor - p.base + k) % COUNT == id - p.base;
    }
    assert p.Ahead(k) == id;
  }

  /** Get fails exactly when every identifier is in use; otherwise it returns one that was not, marks only it,
      and has passed over used ones only. */
  lemma GetIff(p: Pool)
    requires p.Valid() && p.CursorOk()
    ensures var (q, id) := p.Get();
            && (id == FAILED <==> p.Full())
            && (id != FAILED ==>
                  && p.InPool(id) && !p.Uses(id) && q == Pool(p.base, p.used[id - p.base := true], q.cursor) && q.CursorOk()
                  && exists n: nat :: n < COUNT && id == p.Ahead(n) && forall j: nat | j < n :: p.Uses(p.Ahead(j)))
            && (id == FAILED ==> q.used == p.used)
  {
    var n := p.Scan(0);
    if n == COUNT {
      forall k | 0 <= k < COUNT ensures p.used[k] {
        EveryIdAhead(p, p.base + k);
        var j: nat :| j < COUNT && p.Ahead(j) == p.base + k;
        assert p.Uses(p.Ahead(j));
      }
    } else {
      assert !p.Uses(p.Ahead(n));
      assert !p.used[p.Ahead(n) - p.base];
      assert p.Get().1 == p.Ahead(n);
    }
  }

  /** After Get the cursor is in range, unless the pool was full and does not start at 0. */
  lemma CursorAfterGetIff(p: Pool)
    requires p.Valid() && p.CursorOk()
    ensures p.Get().0.CursorOk() <==> p.base == 0 || !p.Full()
  {
    GetIff(p);
  }

  /** A cursor in range stays there when an identifier is given back; one that fell to 0 is never repaired. */
  lemma CursorAfterPutIff(p: Pool, id: int)
    requires p.Valid() && p.InPool(id) && (p.CursorOk() || p.cursor == 0)
    ensures p.Put(id).CursorOk() <==> p.CursorOk()
  {
  }

  /** An identifier given back is the next one handed out exactly when it lies before the cursor, or nothing between the
      cursor and it is free. */
  lemma PutThenGetIff(p: Pool, id: nat)
    requires p.Valid() && p.CursorOk() && p.InPool(id)
    ensures p.Put(id).Valid() && p.Put(id).CursorOk()
    ensures p.Put(id).Get().1 == id <==> id < p.cursor || forall i: nat | p.cursor <= i < id :: p.Uses(i)
  {
    hide Pool.Get;
    var q := p.Put(id);
    var got := q.Get().1;
    GetIff(q);
    assert !q.Uses(id);
    assert !q.Full();
    var n: nat :| n < COUNT && got == q.Ahead(n) && forall j: nat | j < n :: q.Uses(q.Ahead(j));
    var k: nat := if id < p.cursor then 0 else id - p.cursor;
    assert q.Ahead(k) == id;
    if n < k {
      assert got == p.cursor + n && !p.Uses(got);
    } else {
      forall i: nat | p.cursor <= i < id ensures p.Uses(i) {
        assert q.Ahead(i - p.cursor) == i;
      }
    }
  }

  // ----- runs -----

  datatype PoolOp = GetOp | PutOp(id: int)

  /** Every step indexes inside the table. */
  predicate Defined(p: Pool, op: PoolOp)
    requires p.Valid()
  {
    if op.GetOp? then p.CursorOk() else p.InPool(op.id)
  }

  function After(p: Pool, op: PoolOp): (q: Pool)
    requires p.Valid() && Defined(p, op)
    ensures q.Valid() && q.base == p.base
  {
    if op.GetOp? then p.Get().0 else p.Put(op.id)
  }

  /** No call of the run indexes outside the table. */
  predicate RunDefined(p: Pool, run: seq<PoolOp>)
    requires p.Valid()
    decreases |run|
  {
    run == [] || (Defined(p, run[0]) && RunDefined(After(p, run[0]), run[1..]))
  }

  function Ran(p: Pool, run: seq<PoolOp>): Pool
    requires p.Valid() && RunDefined(p, run)
    decreases |run|
  {
    if run == [] then p else Ran(After(p, run[0]), run[1..])
  }

  /** Some Get of the run meets a full pool. */
  predicate Exhausts(p: Pool, run: seq<PoolOp>)
    requires p.Valid()
    decreases |run|
  {
    run != [] && Defined(p, run[0])
    && ((run[0].GetOp? && p.Full()) || Exhausts(After(p, run[0]), run[1..]))
  }

  predicate PutsInPool(p: Pool, run: seq<PoolOp>) {
    forall i | 0 <= i < |run| && run[i].PutOp? :: p.InPool(run[i].id)
  }

  /** Over any run of gets and puts the cursor ends in range, with every access inside the table, exactly when no
      Get met a full pool, or the pool starts at 0, as the one of process identifiers does. */
  lemma {:induction false} RunStaysDefinedIff(p: Pool, run: seq<PoolOp>)
    requires p.Valid() && p.CursorOk() && PutsInPool(p, run)
    ensures (RunDefined(p, run) && Ran(p, run).CursorOk()) <==> p.base == 0 || !Exhausts(p, run)
    decreases |run|
  {
    if run != [] {
      var q := After(p, run[0]);
      assert PutsInPool(q, run[1..]) by {
        forall i | 0 <= i < |run[1..]| && run[1..][i].PutOp? ensures q.InPool(run[1..][i].id) {
          assert run[1..][i] == run[i + 1];
        }
      }
      if run[0].GetOp? {
        CursorAfterGetIff(p);
        GetIff(p);
      }
      if q.CursorOk() {
        RunStaysDefinedIff(q, run[1..]);
      } else {
        LostCursor(q, run[1..]);
      }
    }
  }

  lemma {:induction false} LostCursor(p: Pool, run: seq<PoolOp>)
    requires p.Valid() && p.base > 0 && p.cursor == 0
    ensures RunDefined(p, run) ==> !Ran(p, run).CursorOk()
    decreases |run|
  {
    if run != [] && Defined(p, run[0]) {
      LostCursor(After(p, run[0]), run[1..]);
    }
  }

  // ----- the code -----

  class IdPool {
    const base: nat
    const used: array<bool>
    var cursor: int

    ghost predicate Valid()
      reads this, used
    {
      used.Length == COUNT && base + COUNT < FAILED
    }

    ghost function State(): Pool
      reads this, used
    {
      Pool(base, used[..], cursor)
    }

    constructor (b: nat)
      requires b + COUNT < FAILED
      ensures Valid() && State() == Empty(b) && fresh(used)
    {
      base := b;
      used := new bool[COUNT](_ => false);
      cursor := b;
      new;
      assert used[..] == seq(COUNT, _ => false);
    }

    method Get() returns (id: nat)
      requires Valid() && State().CursorOk()
      modifies this, used
      ensures Valid() && (State(), id) == old(State()).Get()
    {
      hide Pool.Scan;
      ghost var p := State();
      var at := cursor;
      var counter := 0;
      while used[at - base]
        invariant counter <= COUNT && Valid() && State() == p && p.InPool(at)
        invariant counter < COUNT ==> at == p.Ahead(counter)
        invariant p.Scan(0) == p.Scan(counter)
        decreases COUNT - counter
      {
        if counter >= COUNT {
          cursor := 0;
          return FAILED;
        }
        StepAhead(p, counter);
        ScanStep(p, counter);
        at := (at - base + 1) % COUNT + base;
        counter := counter + 1;
      }
      assert !p.Uses(at);
      if counter == COUNT {
        AllUsed(p);
        assert false;
      }
      ScanStop(p, counter);
      cursor := (at - base + 1) % COUNT + base;
      used[at - base] := true;
      id := at;
    }

    method Put(id: int)
      requires Valid() && State().InPool(id)
      modifies this, used
      ensures Valid() && State() == old(State()).Put(id)
    {
      used[id - base] := false;
      if id < cursor {
        cursor := id;
      }
    }
  }

  lemma StepAhead(p: Pool, k: nat)
    requires p.CursorOk()
    ensures p.Ahead(k + 1) == (p.Ahead(k) - p.base + 1) % COUNT + p.base
  {
  }

  lemma ScanStep(p: Pool, k: nat)
    requires p.Valid() && p.CursorOk() && k < COUNT && p.Uses(p.Ahead(k))
    ensures p.Scan(k) == p.Scan(k + 1)
  {
  }

  lemma ScanStop(p: Pool, k: nat)
    requires p.Valid() && p.CursorOk() && k < COUNT && !p.Uses(p.Ahead(k))
    ensures p.Scan(k) == k
  {
  }

  lemma AllUsed(p: Pool)
    requires p.Valid() && p.CursorOk() && p.Scan(0) == COUNT
    ensures p.Full()
  {
    GetIff(p);
  }

  // ----- identifiers in ascending order -----

  predicate Least(ids: set<nat>, u: nat) { u in ids && forall x | x in ids :: u <= x }

  lemma {:induction false} LeastOf(ids: set<nat>) returns (u: nat)
    requires ids != {}
    ensures Least(ids, u)
    decreases |ids|
  {
    u :| u in ids;
    if ids != {u} {
      assert ids - {u} != {} by {
        assert ids == (ids - {u}) + {u};
      }
      var x := LeastOf(ids - {u});
      u := if x < u then x else u;
    }
  }
}
