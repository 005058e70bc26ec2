/** What creating and reaping leave in the process controller's tables, thread by thread. */
module TableChanges {
  import opened IdPools
  import opened ProcessTables

  // ----- reaping -----

  /** Thread t of s is in no table of s' any more, and its identifier is free. */
  ghost predicate ThreadGone(s: Tables, s': Tables, t: nat) {
    && t !in s'.tidToPid && StdOf(s, t) !in s'.stdToTid
    && (forall p | p in s'.processes :: t !in s'.processes[p].threads)
    && s'.tids.Valid() && s'.tids.InPool(t) && !s'.tids.Uses(t)
  }

  /** Thread t belongs to the same process as before, as the same thread object on the same native thread. */
  ghost predicate ThreadKept(s: Tables, s': Tables, t: nat) {
    && t in s.tidToPid && t in s'.tidToPid && s'.tidToPid[t] == s.tidToPid[t]
    && var p := s.tidToPid[t];
    && p in s.processes && p in s'.processes && s'.processes[p].processTid == s.processes[p].processTid
    && t in s.processes[p].threads && t in s'.processes[p].threads
    && s'.processes[p].threads[t] == s.processes[p].threads[t]
    && StdOf(s, t) in s'.stdToTid && s'.stdToTid[StdOf(s, t)] == t
    && s'.tids.Valid() && s'.tids.InPool(t) && s'.tids.Uses(t)
  }

  predicate IsMain(s: Tables, t: nat) {
    t in s.tidToPid && s.tidToPid[t] in s.processes && s.processes[s.tidToPid[t]].processTid == t
  }

  /** Reading the exit code of thread t takes this thread away and, with a main thread, its whole process; the
      identifiers are free afterwards, and every other thread and process stays as it was. */
  ghost predicate TakenAway(s: Tables, t: nat, s': Tables) {
    && t in s.tidToPid
    && var p := s.tidToPid[t];
    && s'.processes.Keys == (if IsMain(s, t) then s.processes.Keys - {p} else s.processes.Keys)
    && s'.pids.Valid() && (forall i: nat | s'.pids.InPool(i) :: s'.pids.Uses(i) <==> i in s'.processes)
    && forall u | u in s.tidToPid ::
         if u == t || (IsMain(s, t) && s.tidToPid[u] == p) then ThreadGone(s, s', u) else ThreadKept(s, s', u)
  }

  lemma AfterRemoval(s: Tables, s': Tables, p: nat, gone: set<nat>, u: nat)
    requires Agree(s) && Agree(s') && ThreadsRemoved(s, s', p, gone) && u in s.tidToPid
    ensures u in gone ==> ThreadGone(s, s', u)
    ensures u !in gone ==> ThreadKept(s, s', u)
  {
    var q := s.tidToPid[u];
    assert q in s.processes && u in s.processes[q].threads;
    if u in gone {
      forall r | r in s'.processes ensures u !in s'.processes[r].threads {
        assert u in s'.processes[r].threads ==> u in s'.tidToPid;
      }
    } else {
      assert s'.tidToPid[u] == q;
      assert StdOf(s', u) == StdOf(s, u);
    }
  }

  lemma ReapTakesAway(s: Tables, t: nat)
    requires Agree(s) && t in s.tidToPid
    ensures s.tidToPid[t] in s.processes && t in s.processes[s.tidToPid[t]].threads
    ensures forall u | u in s.processes[s.tidToPid[t]].threads :: s.tids.InPool(u)
    ensures Agree(Reaped(s, t)) && TakenAway(s, t, Reaped(s, t))
  {
    hide NativesAgree, PoolsAgree;
    ReapedOk(s, t);
    var s', p := Reaped(s, t), s.tidToPid[t];
    var gone := if IsMain(s, t) then s.processes[p].threads.Keys else {t};
    ReapRemoves(s, t);
    forall u | u in s.tidToPid ensures u in gone <==> u == t || (IsMain(s, t) && s.tidToPid[u] == p) {
      assert s.tidToPid[u] == p <==> u in s.processes[p].threads;
    }
    forall u | u in s.tidToPid ensures if u in gone then ThreadGone(s, s', u) else ThreadKept(s, s', u) {
      AfterRemoval(s, s', p, gone, u);
    }
    MarkedProcesses(s');
  }

  lemma MarkedProcesses(s: Tables)
    requires Agree(s)
    ensures s.pids.Valid() && forall i: nat | s.pids.InPool(i) :: s.pids.Uses(i) <==> i in s.processes
  {
  }

  lemma ReapRemoves(s: Tables, t: nat)
    requires Agree(s) && t in s.tidToPid
    ensures s.tidToPid[t] in s.processes && t in s.processes[s.tidToPid[t]].threads
    ensures forall u | u in s.processes[s.tidToPid[t]].threads :: s.tids.InPool(u)
    ensures var p := s.tidToPid[t];
            ThreadsRemoved(s, Reaped(s, t), p, if IsMain(s, t) then s.processes[p].threads.Keys else {t})
  {
    hide PutAll, StdOf;
    ReapedOk(s, t);
    var p := s.tidToPid[t];
    if IsMain(s, t) {
      StdsOfProcess(s, p);
    } else {
      assert {StdOf(s, t)} == set u | u in {t} :: StdOf(s, u);
      assert s.processes[p].processTid in s.processes[p].threads;
    }
  }

  lemma StdsOfProcess(s: Tables, p: nat)
    requires ThreadsAgree(s) && p in s.processes
    ensures StdsOf(s.processes[p]) == set u | u in s.processes[p].threads.Keys :: StdOf(s, u)
  {
    forall u | u in s.processes[p].threads ensures StdOf(s, u) == s.processes[p].threads[u].stdTid {
      assert u in s.tidToPid && s.tidToPid[u] == p;
    }
  }

  // ----- creating -----

  /** Process p, with main thread t on native thread n, is new, and nothing else is. */
  ghost predicate ProcessAdded(s: Tables, s': Tables, p: nat, t: nat, n: nat) {
    && p != FAILED && p !in s.processes && t != FAILED && t !in s.tidToPid && n !in s.stdToTid
    && s'.processes == s.processes[p := Process(t, map[t := Thread(n, NO_EXIT_CODE)])]
    && s'.tidToPid == s.tidToPid[t := p] && s'.stdToTid == s.stdToTid[n := t]
  }

  /** Thread t of process p, on native thread n, is new, and nothing else is. */
  ghost predicate ThreadAdded(s: Tables, s': Tables, p: nat, t: nat, n: nat) {
    && p in s.processes && t != FAILED && t !in s.tidToPid && n !in s.stdToTid && t !in s.processes[p].threads
    && s'.processes == s.processes[p := Process(s.processes[p].processTid,
                                                s.processes[p].threads[t := Thread(n, NO_EXIT_CODE)])]
    && s'.tidToPid == s.tidToPid[t := p] && s'.stdToTid == s.stdToTid[n := t] && s'.pids == s.pids
  }

  lemma CreateProcessAdds(s: Tables, n: nat)
    requires Agree(s) && !s.pids.Full() && !s.tids.Full() && n !in s.stdToTid
    ensures var s' := CreateProcess(s, n);
            Agree(s') && n in s'.stdToTid && s'.stdToTid[n] in s'.tidToPid
            && ProcessAdded(s, s', s'.tidToPid[s'.stdToTid[n]], s.tids.Get().1, n)
  {
    CreateProcessKeepsAgreement(s, n);
    FreshPid(s);
    FreshTid(s);
  }

  /** A known caller's new thread belongs to the caller's process, and the identifier returned is its own. */
  lemma CreateThreadAdds(s: Tables, caller: nat, n: nat)
    requires Agree(s) && !s.tids.Full() && n !in s.stdToTid && caller in s.stdToTid
    ensures s.stdToTid[caller] in s.tidToPid
    ensures var (s', done, t) := CreateThreadFrom(s, caller, n);
            done && Agree(s') && ThreadAdded(s, s', s.tidToPid[s.stdToTid[caller]], t, n)
  {
    CreateThreadKeepsAgreementIff(s, caller, n);
    FreshTid(s);
    assert Asked(s, caller) == s;
  }
}
