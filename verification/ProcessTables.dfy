/** The three tables of the process controller and the two identifier pools, as a value, and what creating and
    reaping processes and threads does to them. */
module ProcessTables {
  import opened IdPools

  /** A thread object: the native thread it runs on, and its exit code. */
  datatype Thread = Thread(stdTid: nat, exitCode: nat)

  datatype Process = Process(processTid: nat, threads: map<nat, Thread>)

  /** process_table, tid_to_pid, stdtid_to_tid and the pools. */
  datatype Tables = Tables(processes: map<nat, Process>, tidToPid: map<nat, nat>, stdToTid: map<nat, nat>,
                           pids: Pool, tids: Pool)

  const NO_EXIT_CODE: nat := 0xFFFF

  // ----- agreement -----

  /** tid_to_pid sends t to p exactly when p is in the process table and t among its threads. */
  ghost predicate ThreadsAgree(s: Tables) {
    forall t, p :: (t in s.tidToPid && s.tidToPid[t] == p) <==> (p in s.processes && t in s.processes[p].threads)
  }

  /** The main thread of a process is one of its threads. */
  ghost predicate MainsAgree(s: Tables) {
    forall p | p in s.processes :: s.processes[p].processTid in s.processes[p].threads
  }

  /** stdtid_to_tid is a bijection onto the live threads, and agrees with the thread objects. */
  ghost predicate NativesAgree(s: Tables) {
    && (forall n | n in s.stdToTid :: s.stdToTid[n] in s.tidToPid && StdOf(s, s.stdToTid[n]) == n)
    && (forall t | t in s.tidToPid :: StdOf(s, t) in s.stdToTid && s.stdToTid[StdOf(s, t)] == t)
  }

  function StdOf(s: Tables, t: nat): nat {
    if t in s.tidToPid && s.tidToPid[t] in s.processes && t in s.processes[s.tidToPid[t]].threads
    then s.processes[s.tidToPid[t]].threads[t].stdTid else 0
  }

  /** The pools mark exactly the live identifiers. */
  ghost predicate PoolsAgree(s: Tables) {
    && s.pids.Valid() && s.pids.base == MIN_PID && s.pids.CursorOk()
    && s.tids.Valid() && s.tids.base == MIN_TID && s.tids.CursorOk()
    && (forall p | p in s.processes :: s.pids.InPool(p)) && (forall t | t in s.tidToPid :: s.tids.InPool(t))
    && (forall p: nat | s.pids.InPool(p) :: s.pids.Uses(p) <==> p in s.processes)
    && (forall t: nat | s.tids.InPool(t) :: s.tids.Uses(t) <==> t in s.tidToPid)
  }

  ghost predicate Agree(s: Tables) {
    ThreadsAgree(s) && MainsAgree(s) && NativesAgree(s) && PoolsAgree(s)
  }

  // ----- operations -----

  /** std::map::insert: a key that is there keeps its value. */
  function Insert<V>(m: map<nat, V>, k: nat, v: V): map<nat, V> {
    if k in m then m else m[k := v]
  }

  /** Create_Process, with n the native identifier of the new thread. A used-up pool gives the identifier FAILED. */
  function CreateProcess(s: Tables, n: nat): Tables
    requires s.pids.Valid() && s.pids.CursorOk() && s.tids.Valid() && s.tids.CursorOk()
  {
    var (pids, p) := s.pids.Get();
    var (tids, t) := s.tids.Get();
    Registered(s.(pids := pids, tids := tids), n, p, t)
  }

  /** The three insertions for a new process p with main thread t. */
  function Registered(s: Tables, n: nat, p: nat, t: nat): Tables {
    Tables(Insert(s.processes, p, Process(t, map[t := Thread(n, NO_EXIT_CODE)])), Insert(s.tidToPid, t, p),
           Insert(s.stdToTid, n, t), s.pids, s.tids)
  }

  /** Create_Thread in process p. */
  function CreateThread(s: Tables, p: nat, n: nat): Tables
    requires s.tids.Valid() && s.tids.CursorOk() && p in s.processes
  {
    var (tids, t) := s.tids.Get();
    var q := s.processes[p];
    Tables(s.processes[p := q.(threads := Insert(q.threads, t, Thread(n, NO_EXIT_CODE)))], Insert(s.tidToPid, t, p),
           Insert(s.stdToTid, n, t), s.pids, tids)
  }

  /** Get_TID of a native thread: one that is not known gets the entry 0. */
  function Asked(s: Tables, caller: nat): Tables {
    s.(stdToTid := Insert(s.stdToTid, caller, 0))
  }

  /** The native thread has a process, after Get_TID has looked it up. */
  predicate HasProcess(s: Tables, caller: nat) {
    var s1 := Asked(s, caller);
    var t := s1.stdToTid[caller];
    t in s1.tidToPid && s1.tidToPid[t] in s1.processes
  }

  /** Create_Thread called on native thread caller: the new tables, and the identifier if a thread was created. The
      identifier is taken before the process is looked up. */
  function CreateThreadFrom(s: Tables, caller: nat, n: nat): (Tables, bool, nat)
    requires s.tids.Valid() && s.tids.CursorOk()
  {
    var s1 := Asked(s, caller);
    var t0 := s1.stdToTid[caller];
    if t0 !in s1.tidToPid then (s1, false, 0)
    else
      var (tids, t) := s1.tids.Get();
      var p := s1.tidToPid[t0];
      if p !in s1.processes then (s1.(tids := tids), false, 0) else (CreateThread(s1, p, n), true, t)
  }

  /** All identifiers of ids given back; the order does not matter. */
  ghost function PutAll(p: Pool, ids: set<nat>): Pool
    requires p.Valid() && forall i | i in ids :: p.InPool(i)
  {
    Pool(p.base, seq(COUNT, k requires 0 <= k < COUNT => p.used[k] && p.base + k !in ids), Lowest(ids, p.cursor))
  }

  /** The least of ids and c. */
  ghost function Lowest(ids: set<nat>, c: int): (m: int)
    ensures m <= c && (m == c || m in ids) && forall i | i in ids :: m <= i
  {
    if ids == {} then c
    else
      var x :| x in ids;
      var r := Lowest(ids - {x}, c);
      assert forall i | i in ids :: i == x || i in ids - {x};
      if x < r then x else r
  }

  function StdsOf(q: Process): set<nat> { set t | t in q.threads :: q.threads[t].stdTid }

  /** Read_Exit_Code of a main thread: the process goes, with all its threads. */
  ghost function ReapProcess(s: Tables, p: nat): Tables
    requires s.pids.Valid() && s.tids.Valid() && p in s.processes && s.pids.InPool(p)
    requires forall t | t in s.processes[p].threads :: s.tids.InPool(t)
  {
    var q := s.processes[p];
    Tables(s.processes - {p}, s.tidToPid - q.threads.Keys, s.stdToTid - StdsOf(q), s.pids.Put(p),
           PutAll(s.tids, q.threads.Keys))
  }

  /** Read_Exit_Code of any other thread. */
  function ReapThread(s: Tables, t: nat): Tables
    requires s.tids.Valid() && s.tids.InPool(t)
    requires t in s.tidToPid && s.tidToPid[t] in s.processes && t in s.processes[s.tidToPid[t]].threads
  {
    var p := s.tidToPid[t];
    var q := s.processes[p];
    Tables(s.processes[p := q.(threads := q.threads - {t})], s.tidToPid - {t}, s.stdToTid - {StdOf(s, t)}, s.pids,
           s.tids.Put(t))
  }

  /** Create_Kernel_Process: process 0 with thread 1024 on native thread n. */
  function Boot(n: nat): Tables {
    CreateProcess(Tables(map[], map[], map[], Empty(MIN_PID), Empty(MIN_TID)), n)
  }

  // ----- every operation keeps the agreement -----

  lemma FreshTid(s: Tables)
    requires Agree(s) && !s.tids.Full()
    ensures var t := s.tids.Get().1;
            t != FAILED && t !in s.tidToPid && s.tids.InPool(t) && forall p | p in s.processes :: t !in s.processes[p].threads
  {
    GetIff(s.tids);
    var t := s.tids.Get().1;
    assert !s.tids.Uses(t);
    forall p | p in s.processes ensures t !in s.processes[p].threads {
      assert t in s.processes[p].threads ==> t in s.tidToPid;
    }
  }

  lemma FreshPid(s: Tables)
    requires Agree(s) && !s.pids.Full()
    ensures var p := s.pids.Get().1;
            p != FAILED && p !in s.processes && s.pids.InPool(p)
  {
    GetIff(s.pids);
    assert !s.pids.Uses(s.pids.Get().1);
  }

  /** Marking one more identifier. */
  lemma MarkedPool(p: Pool, ids: set<nat>)
    requires p.Valid() && p.CursorOk() && !p.Full()
    requires forall i: nat | p.InPool(i) :: p.Uses(i) <==> i in ids
    ensures var (q, id) := p.Get();
            q.Valid() && q.CursorOk() && q.base == p.base
            && forall i: nat | q.InPool(i) :: q.Uses(i) <==> i in ids + {id}
  {
    GetIff(p);
  }

  /** The thread tables after thread t was added to process p, which is new or an old one. */
  lemma ThreadsAfterCreate(s: Tables, s': Tables, p: nat, t: nat, q: Process)
    requires ThreadsAgree(s) && MainsAgree(s) && t !in s.tidToPid
    requires s'.tidToPid == s.tidToPid[t := p] && s'.processes == s.processes[p := q]
    requires t in q.threads && q.processTid in q.threads
    requires forall u | u in q.threads && u != t :: p in s.processes && u in s.processes[p].threads
    requires p in s.processes ==> forall u | u in s.processes[p].threads :: u in q.threads
    ensures ThreadsAgree(s') && MainsAgree(s')
  {
  }

  lemma OthersKeepNative(s: Tables, s': Tables, p: nat, t: nat, q: Process)
    requires ThreadsAgree(s) && t !in s.tidToPid
    requires s'.tidToPid == s.tidToPid[t := p] && s'.processes == s.processes[p := q]
    requires t in q.threads
    requires p in s.processes ==> forall u | u in s.processes[p].threads :: u in q.threads && q.threads[u] == s.processes[p].threads[u]
    ensures StdOf(s', t) == q.threads[t].stdTid
    ensures forall u | u in s.tidToPid :: StdOf(s', u) == StdOf(s, u)
  {
  }

  lemma CreateProcessKeepsAgreement(s: Tables, n: nat)
    requires Agree(s) && !s.pids.Full() && !s.tids.Full() && n !in s.stdToTid
    ensures Agree(CreateProcess(s, n))
  {
    FreshTid(s);
    FreshPid(s);
    var s' := CreateProcess(s, n);
    var p, t := s.pids.Get().1, s.tids.Get().1;
    var q := Process(t, map[t := Thread(n, NO_EXIT_CODE)]);
    CreatedAgrees(s, s', p, t, q, n);
  }

  /** The tables after thread t was added on native thread n to process p, which is new or an old one. */
  lemma CreatedAgrees(s: Tables, s': Tables, p: nat, t: nat, q: Process, n: nat)
    requires Agree(s) && t !in s.tidToPid && n !in s.stdToTid && !s.tids.Full()
    requires s'.tidToPid == s.tidToPid[t := p] && s'.processes == s.processes[p := q] && s'.stdToTid == s.stdToTid[n := t]
    requires t in q.threads && q.processTid in q.threads && q.threads[t].stdTid == n
    requires forall u | u in q.threads && u != t :: p in s.processes && u in s.processes[p].threads
    requires p in s.processes ==>
               forall u | u in s.processes[p].threads :: u in q.threads && q.threads[u] == s.processes[p].threads[u]
    requires s'.tids == s.tids.Get().0 && t == s.tids.Get().1
    requires (p in s.processes && s'.pids == s.pids)
             || (!s.pids.Full() && s'.pids == s.pids.Get().0 && p == s.pids.Get().1)
    ensures Agree(s')
  {
    hide ThreadsAgree, MainsAgree, NativesAgree, StdOf;
    assert ThreadsAgree(s') && MainsAgree(s') by {
      hide PoolsAgree;
      ThreadsAfterCreate(s, s', p, t, q);
    }
    assert NativesAgree(s') by {
      hide PoolsAgree;
      OthersKeepNative(s, s', p, t, q);
      NativesAfterCreate(s, s', t, n);
    }
    assert PoolsAgree(s') by {
      PoolsAfterCreate(s, s', p, t);
    }
  }

  lemma PoolsAfterCreate(s: Tables, s': Tables, p: nat, t: nat)
    requires PoolsAgree(s) && !s.tids.Full()
    requires s'.tids == s.tids.Get().0 && t == s.tids.Get().1 && s'.tidToPid.Keys == s.tidToPid.Keys + {t}
    requires s'.processes.Keys == s.processes.Keys + {p}
    requires (p in s.processes && s'.pids == s.pids)
             || (!s.pids.Full() && s'.pids == s.pids.Get().0 && p == s.pids.Get().1)
    ensures PoolsAgree(s')
  {
    GetIff(s.tids);
    MarkedPool(s.tids, s.tidToPid.Keys);
    if !s.pids.Full() {
      GetIff(s.pids);
      MarkedPool(s.pids, s.processes.Keys);
    }
    assert p in s.processes ==> s'.processes.Keys == s.processes.Keys;
  }

  lemma CreateThreadKeepsAgreement(s: Tables, p: nat, n: nat)
    requires Agree(s) && !s.tids.Full() && n !in s.stdToTid && p in s.processes
    ensures Agree(CreateThread(s, p, n))
  {
    FreshTid(s);
    var s' := CreateThread(s, p, n);
    var t := s.tids.Get().1;
    CreatedAgrees(s, s', p, t, s'.processes[p], n);
  }

  /** Create_Thread keeps the agreement exactly when its caller is a known native thread. */
  lemma CreateThreadKeepsAgreementIff(s: Tables, caller: nat, n: nat)
    requires Agree(s) && !s.tids.Full() && n !in s.stdToTid
    ensures Agree(CreateThreadFrom(s, caller, n).0) <==> caller in s.stdToTid
    ensures CreateThreadFrom(s, caller, n).1 <==> caller in s.stdToTid
  {
    if caller in s.stdToTid {
      var t0 := s.stdToTid[caller];
      assert t0 in s.tidToPid && s.tidToPid[t0] in s.processes;
      CreateThreadKeepsAgreement(s, s.tidToPid[t0], n);
      assert Asked(s, caller) == s;
    } else {
      assert !s.tids.InPool(0);
      assert Asked(s, caller).stdToTid[caller] == 0;
    }
  }

  /** Create_Process is defined exactly for known native threads, and then keeps the agreement. */
  lemma CreateProcessDefinedIff(s: Tables, caller: nat, n: nat)
    requires Agree(s) && !s.pids.Full() && !s.tids.Full() && n !in s.stdToTid
    ensures HasProcess(s, caller) <==> caller in s.stdToTid
    ensures HasProcess(s, caller) ==> Asked(s, caller) == s && Agree(CreateProcess(Asked(s, caller), n))
  {
    if caller in s.stdToTid {
      assert s.stdToTid[caller] in s.tidToPid;
      CreateProcessKeepsAgreement(s, n);
    } else {
      assert !s.tids.InPool(0);
      assert Asked(s, caller).stdToTid[caller] == 0;
    }
  }

  lemma NativesAfterCreate(s: Tables, s': Tables, t: nat, n: nat)
    requires NativesAgree(s) && n !in s.stdToTid && t !in s.tidToPid
    requires s'.stdToTid == s.stdToTid[n := t] && s'.tidToPid.Keys == s.tidToPid.Keys + {t}
    requires StdOf(s', t) == n && forall u | u in s.tidToPid :: StdOf(s', u) == StdOf(s, u)
    ensures NativesAgree(s')
  {
  }

  // ----- reaping -----

  lemma PutAllMarks(p: Pool, ids: set<nat>)
    requires p.Valid() && forall i | i in ids :: p.InPool(i)
    ensures var q := PutAll(p, ids);
            && q.Valid() && q.base == p.base && (p.CursorOk() ==> q.CursorOk())
            && forall i: nat | q.InPool(i) :: q.Uses(i) <==> p.Uses(i) && i !in ids
  {
  }

  /** Giving back one identifier is giving back a set of one. */
  lemma PutIsPutAll(p: Pool, t: nat)
    requires p.Valid() && p.InPool(t)
    ensures p.Put(t) == PutAll(p, {t})
  {
  }

  /** s' is s without the threads gone, all of process p, and without p itself if they are all its threads. */
  ghost predicate ThreadsRemoved(s: Tables, s': Tables, p: nat, gone: set<nat>) {
    && p in s.processes && gone <= s.processes[p].threads.Keys
    && s'.tidToPid == s.tidToPid - gone
    && s'.stdToTid == s.stdToTid - (set t | t in gone :: StdOf(s, t))
    && (if gone == s.processes[p].threads.Keys then s'.processes == s.processes - {p}
        else s.processes[p].processTid !in gone
             && s'.processes == s.processes[p := s.processes[p].(threads := s.processes[p].threads - gone)])
  }

  lemma RemovalKeepsThreads(s: Tables, s': Tables, p: nat, gone: set<nat>)
    requires ThreadsAgree(s) && MainsAgree(s) && ThreadsRemoved(s, s', p, gone)
    ensures ThreadsAgree(s') && MainsAgree(s')
  {
    forall u, r ensures (u in s'.tidToPid && s'.tidToPid[u] == r) <==> (r in s'.processes && u in s'.processes[r].threads) {
      assert (u in s.tidToPid && s.tidToPid[u] == r) <==> (r in s.processes && u in s.processes[r].threads);
      assert u in gone ==> u in s.tidToPid && s.tidToPid[u] == p;
    }
  }

  lemma RemovalKeepsNatives(s: Tables, s': Tables, p: nat, gone: set<nat>)
    requires ThreadsAgree(s) && NativesAgree(s) && ThreadsRemoved(s, s', p, gone)
    ensures NativesAgree(s')
  {
    forall u | u in s'.tidToPid ensures StdOf(s', u) == StdOf(s, u) {
      assert s.tidToPid[u] in s.processes && u in s.processes[s.tidToPid[u]].threads;
    }
    assert forall t | t in gone :: t in s.tidToPid && s.tidToPid[t] == p;
    forall u | u in s'.tidToPid ensures StdOf(s', u) in s'.stdToTid && s'.stdToTid[StdOf(s', u)] == u {
      forall t | t in gone ensures StdOf(s, t) != StdOf(s, u) {
        assert s.stdToTid[StdOf(s, t)] == t;
        assert s.stdToTid[StdOf(s, u)] == u;
      }
    }
    forall n | n in s'.stdToTid ensures s'.stdToTid[n] in s'.tidToPid && StdOf(s', s'.stdToTid[n]) == n {
      var t := s.stdToTid[n];
      assert StdOf(s, t) == n;
      assert t in gone ==> n in (set u | u in gone :: StdOf(s, u));
    }
  }

  lemma RemovalKeepsPools(s: Tables, s': Tables, p: nat, gone: set<nat>)
    requires ThreadsAgree(s) && PoolsAgree(s) && ThreadsRemoved(s, s', p, gone)
    requires s'.pids == if gone == s.processes[p].threads.Keys then s.pids.Put(p) else s.pids
    requires s'.tids == PutAll(s.tids, gone)
    ensures PoolsAgree(s')
  {
    assert forall t | t in gone :: t in s.tidToPid && s.tidToPid[t] == p;
    PutAllMarks(s.tids, gone);
    PutAllMarks(s.pids, {p});
    PutIsPutAll(s.pids, p);
  }

  lemma ReapProcessKeepsAgreement(s: Tables, p: nat)
    requires Agree(s) && p in s.processes
    ensures forall t | t in s.processes[p].threads :: s.tids.InPool(t)
    ensures Agree(ReapProcess(s, p))
  {
    var gone := s.processes[p].threads.Keys;
    forall t | t in gone ensures t in s.tidToPid && s.tidToPid[t] == p && StdOf(s, t) == s.processes[p].threads[t].stdTid {
    }
    var s' := ReapProcess(s, p);
    assert StdsOf(s.processes[p]) == set t | t in gone :: StdOf(s, t);
    RemovalKeepsThreads(s, s', p, gone);
    RemovalKeepsNatives(s, s', p, gone);
    RemovalKeepsPools(s, s', p, gone);
  }

  lemma ReapThreadKeepsAgreement(s: Tables, t: nat)
    requires Agree(s) && t in s.tidToPid && s.processes[s.tidToPid[t]].processTid != t
    ensures Agree(ReapThread(s, t))
  {
    var p := s.tidToPid[t];
    var s' := ReapThread(s, t);
    assert {StdOf(s, t)} == set u | u in {t} :: StdOf(s, u);
    assert s.processes[p].processTid in s.processes[p].threads;
    PutIsPutAll(s.tids, t);
    RemovalKeepsThreads(s, s', p, {t});
    RemovalKeepsNatives(s, s', p, {t});
    RemovalKeepsPools(s, s', p, {t});
  }

  lemma ReapedProcess(s: Tables, p: nat)
    requires Agree(s) && p in s.processes
    ensures forall t | t in s.processes[p].threads :: s.tids.InPool(t)
    ensures var s' := ReapProcess(s, p);
            Agree(s') && p !in s'.processes && s'.tidToPid == s.tidToPid - s.processes[p].threads.Keys
            && s'.stdToTid == s.stdToTid - StdsOf(s.processes[p])
  {
    ReapProcessKeepsAgreement(s, p);
  }

  /** Reaping a main thread removes and frees the process and all its threads. */
  lemma ReapTakesSiblings(s: Tables, p: nat, t: nat)
    requires Agree(s) && p in s.processes && t in s.processes[p].threads
    ensures forall t | t in s.processes[p].threads :: s.tids.InPool(t)
    ensures var s' := ReapProcess(s, p);
            && p !in s'.processes && !s'.pids.Uses(p)
            && t !in s'.tidToPid && !s'.tids.Uses(t) && StdOf(s, t) !in s'.stdToTid
  {
    hide PutAll, Lowest, NativesAgree;
    ReapedProcess(s, p);
    assert t in s.tidToPid && s.tidToPid[t] == p;
    assert StdOf(s, t) in StdsOf(s.processes[p]);
  }

  /** It touches no thread of another process. */
  lemma ReapSparesOthers(s: Tables, p: nat, t: nat)
    requires Agree(s) && p in s.processes && t in s.tidToPid && s.tidToPid[t] != p
    ensures forall u | u in s.processes[p].threads :: s.tids.InPool(u)
    ensures var s' := ReapProcess(s, p);
            && t in s'.tidToPid && s'.tidToPid[t] == s.tidToPid[t] && s'.tids.Uses(t)
            && s'.processes[s.tidToPid[t]] == s.processes[s.tidToPid[t]]
            && StdOf(s, t) in s'.stdToTid && s'.stdToTid[StdOf(s, t)] == t
  {
    ReapProcessKeepsAgreement(s, p);
    var s' := ReapProcess(s, p);
    assert t !in s.processes[p].threads;
    assert s.tidToPid[t] in s.processes && t in s.processes[s.tidToPid[t]].threads;
    assert StdOf(s', t) == StdOf(s, t);
  }

  /** Wait_For looks a handle up with operator[], which inserts 0 for an unknown one. */
  function LookedUp(s: Tables, handle: nat): Tables {
    s.(tidToPid := if handle in s.tidToPid then s.tidToPid else s.tidToPid[handle := 0])
  }

  /** The tables still agree after the lookup exactly when the handle was known. */
  lemma LookupKeepsAgreementIff(s: Tables, handle: nat)
    requires Agree(s)
    ensures Agree(LookedUp(s, handle)) <==> handle in s.tidToPid
  {
  }

  // ----- runs -----

  datatype Action = SpawnProcess(n: nat) | SpawnThread(p: nat, n: nat) | Reap(t: nat)

  /** Known callers and handles, native identifiers not in use, and no pool exhausted. */
  ghost predicate Enabled(s: Tables, a: Action)
    requires Agree(s)
  {
    match a
    case SpawnProcess(n) => !s.pids.Full() && !s.tids.Full() && n !in s.stdToTid
    case SpawnThread(p, n) => !s.tids.Full() && n !in s.stdToTid && p in s.processes
    case Reap(t) => t in s.tidToPid
  }

  ghost function Apply(s: Tables, a: Action): Tables
    requires Agree(s) && Enabled(s, a)
  {
    match a
    case SpawnProcess(n) => CreateProcess(s, n)
    case SpawnThread(p, n) => CreateThread(s, p, n)
    case Reap(t) =>
      ReapedOk(s, t);
      Reaped(s, t)
  }

  /** Read_Exit_Code of a known thread. */
  ghost function Reaped(s: Tables, t: nat): Tables
    requires Agree(s) && t in s.tidToPid
    requires s.tidToPid[t] in s.processes && forall u | u in s.processes[s.tidToPid[t]].threads :: s.tids.InPool(u)
    requires t in s.processes[s.tidToPid[t]].threads
  {
    var p := s.tidToPid[t];
    if s.processes[p].processTid == t then ReapProcess(s, p) else ReapThread(s, t)
  }

  lemma ReapedOk(s: Tables, t: nat)
    requires Agree(s) && t in s.tidToPid
    ensures s.tidToPid[t] in s.processes && t in s.processes[s.tidToPid[t]].threads
    ensures forall u | u in s.processes[s.tidToPid[t]].threads :: s.tids.InPool(u)
    ensures Agree(Reaped(s, t))
  {
    var p := s.tidToPid[t];
    assert p in s.processes && t in s.processes[p].threads;
    ReapProcessKeepsAgreement(s, p);
    if s.processes[p].processTid != t {
      ReapThreadKeepsAgreement(s, t);
    }
  }

  lemma StepKeepsAgreement(s: Tables, a: Action)
    requires Agree(s) && Enabled(s, a)
    ensures Agree(Apply(s, a))
  {
    match a
    case SpawnProcess(n) => CreateProcessKeepsAgreement(s, n);
    case SpawnThread(p, n) => CreateThreadKeepsAgreement(s, p, n);
    case Reap(t) => ReapedOk(s, t);
  }

  /** A run of enabled actions. The agreement of each state only makes the step well formed; StepKeepsAgreement
      supplies it for the next. */
  ghost predicate IsRun(s: Tables, run: seq<Action>, s': Tables)
    decreases |run|
  {
    if run == [] then s == s' else Agree(s) && Enabled(s, run[0]) && IsRun(Apply(s, run[0]), run[1..], s')
  }

  /** The loop of Read_Exit_Code over a process's threads, in the order of their identifiers, does not advance an
      iterator whose thread it has erased: the main thread has no sibling, or one with a higher identifier. */
  predicate Reapable(q: Process) {
    |q.threads| == 1 || (|q.threads| == 2 && forall t | t in q.threads :: q.processTid <= t)
  }

  /** Read_Exit_Code of thread t is defined: for a main thread its loop is. */
  predicate ReapDefined(s: Tables, t: nat) {
    t in s.tidToPid && s.tidToPid[t] in s.processes ==>
      var q := s.processes[s.tidToPid[t]];
      q.processTid == t ==> Reapable(q)
  }

  /** Over every run of create and reap the tables agree. */
  lemma {:induction false} RunKeepsAgreement(s: Tables, run: seq<Action>, s': Tables)
    requires Agree(s) && IsRun(s, run, s')
    ensures Agree(s')
    decreases |run|
  {
    if run != [] {
      StepKeepsAgreement(s, run[0]);
      RunKeepsAgreement(Apply(s, run[0]), run[1..], s');
    }
  }

  /** A run of which every call is defined in the code. */
  ghost predicate IsCodeRun(s: Tables, run: seq<Action>, s': Tables)
    decreases |run|
  {
    if run == [] then s == s'
    else
      Agree(s) && Enabled(s, run[0]) && (run[0].Reap? ==> ReapDefined(s, run[0].t))
      && IsCodeRun(Apply(s, run[0]), run[1..], s')
  }

  /** Whenever the run comes to reap a main thread, its process has no sibling left, or one with a higher identifier. */
  ghost predicate ReapsDefined(s: Tables, run: seq<Action>) {
    forall k, u | 0 <= k < |run| && run[k].Reap? && IsRun(s, run[..k], u) :: ReapDefined(u, run[k].t)
  }

  /** The code runs as intended exactly when every reaping of a main thread is defined. */
  lemma {:induction false} CodeRunIff(s: Tables, run: seq<Action>, s': Tables)
    requires Agree(s)
    ensures IsCodeRun(s, run, s') <==> IsRun(s, run, s') && ReapsDefined(s, run)
    decreases |run|
  {
    hide Agree, Enabled, Apply, ReapDefined;
    if run != [] && Enabled(s, run[0]) {
      var s1, rest := Apply(s, run[0]), run[1..];
      StepKeepsAgreement(s, run[0]);
      CodeRunIff(s1, rest, s');
      assert run[..0] == [] && IsRun(s, run[..0], s);
      forall k, u | 1 <= k < |run|
        ensures run[k] == rest[k - 1] && (IsRun(s, run[..k], u) <==> IsRun(s1, rest[..k - 1], u))
      {
        assert run[..k][1..] == rest[..k - 1];
      }
      ReapsShift(s, s1, run);
    }
  }

  /** What a run reaps is what its first step and the rest of it reap. */
  lemma ReapsShift(s: Tables, s1: Tables, run: seq<Action>)
    requires run != [] && IsRun(s, run[..0], s)
    requires forall k, u | 1 <= k < |run| ::
               run[k] == run[1..][k - 1] && (IsRun(s, run[..k], u) <==> IsRun(s1, run[1..][..k - 1], u))
    ensures ReapsDefined(s, run) <==> (run[0].Reap? ==> ReapDefined(s, run[0].t)) && ReapsDefined(s1, run[1..])
  {
  }

  /** Every process has its main thread only. */
  ghost predicate SingleThreaded(s: Tables) {
    forall p | p in s.processes :: s.processes[p].threads.Keys == {s.processes[p].processTid}
  }

  lemma SingleStep(s: Tables, a: Action)
    requires Agree(s) && SingleThreaded(s) && Enabled(s, a) && !a.SpawnThread?
    ensures a.Reap? ==> ReapDefined(s, a.t)
    ensures SingleThreaded(Apply(s, a))
  {
    hide PoolsAgree, NativesAgree, PutAll, StdOf, Lowest;
    if a.Reap? {
      ReapedOk(s, a.t);
      var p := s.tidToPid[a.t];
      assert s.processes[p].processTid == a.t;
    }
  }

  /** As long as no process starts a second thread, every call is defined. */
  lemma {:induction false} SingleRunsDefined(s: Tables, run: seq<Action>, s': Tables)
    requires Agree(s) && SingleThreaded(s) && IsRun(s, run, s')
    requires forall k | 0 <= k < |run| :: !run[k].SpawnThread?
    ensures IsCodeRun(s, run, s')
    decreases |run|
  {
    hide Agree, Enabled, Apply, SingleThreaded, ReapDefined;
    if run != [] {
      StepKeepsAgreement(s, run[0]);
      SingleStep(s, run[0]);
      SingleRunsDefined(Apply(s, run[0]), run[1..], s');
    }
  }

  /** The first m identifiers are used, in order, and the cursor is behind them. */
  ghost predicate FirstUsed(p: Pool, m: nat) {
    && p.Valid() && m <= COUNT && (forall i | 0 <= i < COUNT :: p.used[i] <==> i < m)
    && p.cursor == p.base + m % COUNT
  }

  lemma RoomLeft(p: Pool, m: nat)
    requires FirstUsed(p, m) && !p.Full()
    ensures m < COUNT
  {
  }

  lemma NextIdentifier(p: Pool, m: nat)
    requires FirstUsed(p, m) && m < COUNT
    ensures p.CursorOk() && !p.Full() && p.Get().1 == p.base + m
    ensures FirstUsed(p.Get().0, m + 1) && p.Get().0.base == p.base
  {
    hide Pool.Scan, Pool.Ahead;
    FirstFromCursor(p, m);
  }

  lemma FirstFromCursor(p: Pool, m: nat)
    requires FirstUsed(p, m) && m < COUNT
    ensures p.CursorOk() && !p.Full() && p.Ahead(0) == p.base + m && p.Scan(0) == 0
  {
    hide Pool.Scan;
    assert p.CursorOk() && p.Ahead(0) == p.base + m && !p.used[m];
    assert !p.Uses(p.Ahead(0));
  }

  /** The threads of every process come after its main thread, and all before the next identifier. */
  ghost predicate MainsFirst(s: Tables, m: nat) {
    forall p | p in s.processes :: forall t | t in s.processes[p].threads ::
      s.processes[p].processTid <= t < s.tids.base + m
  }

  /** How often the run starts a thread in process p. */
  function Starts(run: seq<Action>, p: nat): nat {
    if run == [] then 0
    else (if run[0].SpawnThread? && run[0].p == p then 1 else 0) + Starts(run[1..], p)
  }

  function Siblings(s: Tables, p: nat): nat {
    if p in s.processes then |s.processes[p].threads| else 1
  }

  lemma SpawnStep(s: Tables, a: Action, m: nat, p: nat)
    requires Agree(s) && Enabled(s, a) && !a.Reap? && FirstUsed(s.tids, m) && MainsFirst(s, m)
    ensures m < COUNT && FirstUsed(Apply(s, a).tids, m + 1) && MainsFirst(Apply(s, a), m + 1)
    ensures Siblings(Apply(s, a), p) == Siblings(s, p) + if a.SpawnThread? && a.p == p then 1 else 0
  {
    hide PoolsAgree, NativesAgree, StdOf, Pool.Get, FirstUsed;
    RoomLeft(s.tids, m);
    NextIdentifier(s.tids, m);
    FreshTid(s);
    if a.SpawnProcess? {
      FreshPid(s);
    }
  }

  lemma {:induction false} SpawnRun(s: Tables, run: seq<Action>, s': Tables, m: nat, p: nat)
    requires Agree(s) && IsRun(s, run, s') && FirstUsed(s.tids, m) && MainsFirst(s, m)
    requires forall k | 0 <= k < |run| :: !run[k].Reap?
    ensures Siblings(s', p) == Siblings(s, p) + Starts(run, p) && MainsFirst(s', m + |run|)
    decreases |run|
  {
    hide Agree, Enabled, Apply, FirstUsed, MainsFirst, Siblings;
    if run != [] {
      assert !run[0].Reap?;
      StepKeepsAgreement(s, run[0]);
      SpawnStep(s, run[0], m, p);
      SpawnRun(Apply(s, run[0]), run[1..], s', m + 1, p);
    }
  }

  /** After any calls of Create_Process and Create_Thread since the start, reaping a main thread is defined exactly when
      they started at most one further thread in its process. */
  lemma FirstReapIff(n: nat, run: seq<Action>, s: Tables, p: nat)
    requires IsRun(Boot(n), run, s) && (forall k | 0 <= k < |run| :: !run[k].Reap?) && p in s.processes
    ensures Reapable(s.processes[p]) <==> Starts(run, p) <= 1
  {
    hide Agree, FirstUsed;
    BootAgrees(n);
    RunKeepsAgreement(Boot(n), run, s);
    BootFirst(n);
    SpawnRun(Boot(n), run, s, 1, p);
    BootSiblings(n, p);
  }

  lemma BootFirst(n: nat)
    ensures FirstUsed(Boot(n).tids, 1) && MainsFirst(Boot(n), 1)
  {
    var none := Empty(MIN_TID);
    assert FirstUsed(none, 0);
    NextIdentifier(none, 0);
  }

  lemma BootSiblings(n: nat, p: nat)
    ensures Siblings(Boot(n), p) == 1
  {
  }

  /** The tables agree once the kernel has registered itself. */
  lemma BootAgrees(n: nat)
    ensures Agree(Boot(n))
  {
    var s := Tables(map[], map[], map[], Empty(MIN_PID), Empty(MIN_TID));
    assert Agree(s);
    assert !s.pids.used[0] && !s.tids.used[0];
    CreateProcessKeepsAgreement(s, n);
  }
}
