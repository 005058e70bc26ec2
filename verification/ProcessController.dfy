/** The process controller's fields and the calls that change its tables. Each call runs under the table mutex. */
module ProcessControllers {
  import opened IdPools
  import opened ProcessTables
  import opened TableChanges

  class ProcessController {
    const pids: IdPool
    const tids: IdPool
    var processes: map<nat, Process>
    var tidToPid: map<nat, nat>
    var stdToTid: map<nat, nat>
    var shutdown: bool

    ghost predicate Valid()
      reads this, pids, tids, pids.used, tids.used
    {
      pids != tids && pids.used != tids.used && pids.Valid() && tids.Valid()
    }

    ghost function View(): Tables
      reads this, pids, tids, pids.used, tids.used
    {
      Tables(processes, tidToPid, stdToTid, pids.State(), tids.State())
    }

    /** Empty tables, then the kernel's own process on native thread n. */
    constructor (n: nat)
      ensures Valid() && View() == Boot(n) && Agree(View())
    {
      hide Agree, Registered;
      pids := new IdPool(MIN_PID);
      tids := new IdPool(MIN_TID);
      processes, tidToPid, stdToTid, shutdown := map[], map[], map[], false;
      new;
      BootAgrees(n);
      var pid := pids.Get();
      var tid := tids.Get();
      Register(n, pid, tid);
    }

    /** n is the native identifier of the thread that is started. */
    method Register(n: nat, pid: nat, tid: nat)
      requires Valid()
      modifies this`processes, this`tidToPid, this`stdToTid
      ensures Valid() && View() == Registered(old(View()), n, pid, tid)
    {
      stdToTid := Insert(stdToTid, n, tid);
      tidToPid := Insert(tidToPid, tid, pid);
      processes := Insert(processes, pid, Process(tid, map[tid := Thread(n, NO_EXIT_CODE)]));
    }

    /** Get_PID: whether the native thread has a process. */
    method FindCaller(caller: nat) returns (found: bool)
      requires Valid()
      modifies this`stdToTid
      ensures Valid() && View() == Asked(old(View()), caller) && found == HasProcess(old(View()), caller)
    {
      stdToTid := Insert(stdToTid, caller, 0);
      found := stdToTid[caller] in tidToPid && tidToPid[stdToTid[caller]] in processes;
    }

    /** Create_Process on native thread caller, whose process hands down its working directory: undefined when the
        caller has none. Nothing happens after a shutdown. */
    method CreateProcess(caller: nat, n: nat) returns (defined: bool, done: bool, tid: nat)
      requires Valid() && View().pids.CursorOk() && View().tids.CursorOk()
      modifies this`processes, this`tidToPid, this`stdToTid, pids, tids, pids.used, tids.used
      ensures Valid() && done == !shutdown && defined == (shutdown || HasProcess(old(View()), caller))
      ensures shutdown ==> View() == old(View())
      ensures defined && done ==> View() == ProcessTables.CreateProcess(Asked(old(View()), caller), n)
                                  && tid == old(View()).tids.Get().1
      ensures defined && done && Agree(old(View())) && !old(View()).pids.Full() && !old(View()).tids.Full()
              && n !in old(stdToTid)
              ==> Agree(View()) && tid in tidToPid && ProcessAdded(old(View()), View(), tidToPid[tid], tid, n)
    {
      hide Registered, HasProcess, Asked, Pool.Get;
      ghost var s := View();
      if shutdown {
        return true, false, 0;
      }
      done := true;
      var pid := pids.Get();
      tid := tids.Get();
      assert View() == s.(pids := s.pids.Get().0, tids := s.tids.Get().0) && tid == s.tids.Get().1;
      AskedIgnoresPools(s, View().pids, View().tids, caller);
      defined := FindCaller(caller);
      if defined {
        Register(n, pid, tid);
        if Agree(s) && !s.pids.Full() && !s.tids.Full() && n !in s.stdToTid {
          CreateProcessDefinedIff(s, caller, n);
          CreateProcessAdds(s, n);
        }
      }
    }

    /** caller is the native identifier of the calling thread, which need not be known. */
    method CreateThread(caller: nat, n: nat) returns (done: bool, tid: nat)
      requires Valid() && View().tids.CursorOk()
      modifies this`processes, this`tidToPid, this`stdToTid, tids, tids.used
      ensures Valid()
      ensures if shutdown then !done && View() == old(View())
              else (View(), done, tid) == CreateThreadFrom(old(View()), caller, n)
      ensures !shutdown && Agree(old(View())) && !old(View()).tids.Full() && n !in old(stdToTid) && caller in old(stdToTid)
              ==> done && Agree(View())
                  && ThreadAdded(old(View()), View(), old(tidToPid[stdToTid[caller]]), tid, n)
    {
      hide Agree, ThreadAdded, Pool.Get;
      if shutdown {
        return false, 0;
      }
      ghost var s := View();
      if Agree(s) && !s.tids.Full() && n !in s.stdToTid && caller in s.stdToTid {
        CreateThreadAdds(s, caller, n);
      }
      stdToTid := Insert(stdToTid, caller, 0);
      if stdToTid[caller] !in tidToPid {
        return false, 0;
      }
      var pid := tidToPid[stdToTid[caller]];
      tid := tids.Get();
      if pid !in processes {
        return false, 0;
      }
      var q := processes[pid];
      processes := processes[pid := q.(threads := Insert(q.threads, tid, Thread(n, NO_EXIT_CODE)))];
      stdToTid := Insert(stdToTid, n, tid);
      tidToPid := Insert(tidToPid, tid, pid);
      done := true;
    }

    /** Get_STD_TID: some native identifier mapped to t, 0 when there is none. */
    method GetStdTid(t: nat) returns (n: nat)
      ensures (n in stdToTid && stdToTid[n] == t) || (n == 0 && forall m | m in stdToTid :: stdToTid[m] != t)
    {
      var rest := stdToTid.Keys;
      while rest != {}
        invariant rest <= stdToTid.Keys
        invariant forall m | m in stdToTid && m !in rest :: stdToTid[m] != t
      {
        n :| n in rest;
        if stdToTid[n] == t {
          return;
        }
        rest := rest - {n};
      }
      n := 0;
    }

    /** found is false for an unknown thread, and then nothing changes. The call is undefined, and nothing is promised,
        exactly when the loop over a main thread's siblings is. */
    method ReadExitCode(t: nat) returns (defined: bool, found: bool, code: nat)
      requires Valid() && Agree(View())
      modifies this, pids, tids, pids.used, tids.used
      ensures Valid() && defined == ReapDefined(old(View()), t)
      ensures defined ==> found == (t in old(tidToPid)) && Agree(View())
      ensures defined ==> if found then ReapedTo(old(View()), t, View(), code) else View() == old(View())
      ensures defined && found ==> TakenAway(old(View()), t, View())
    {
      defined, found, code := true, false, 0;
      var std := GetStdTid(t);
      if t !in tidToPid {
        return;
      }
      ghost var s := View();
      ReapTakesAway(s, t);
      assert StdOf(s, t) in stdToTid && stdToTid[StdOf(s, t)] == t;
      assert std == StdOf(s, t);
      var pid := tidToPid[t];
      code := processes[pid].threads[t].exitCode;
      if processes[pid].processTid == t {
        defined := ReapMain(pid, t, std);
      } else {
        EraseThread(pid, t);
      }
      found := true;
    }

    method ReapMain(pid: nat, t: nat, std: nat) returns (defined: bool)
      requires Valid() && Agree(View()) && pid in processes && t == processes[pid].processTid
      requires std == StdOf(View(), t)
      modifies this, pids, tids, pids.used, tids.used
      ensures Valid() && defined == Reapable(old(processes)[pid])
      ensures forall u | u in old(processes)[pid].threads :: old(View()).tids.InPool(u)
      ensures defined ==> View() == ReapProcess(old(View()), pid)
    {
      hide Agree, Erased, PutAll, Lowest, StdOf;
      ghost var s := View();
      ReapProcessKeepsAgreement(s, pid);
      MainIsThread(s, pid);
      defined := ReapSiblings(pid, t);
      if !defined {
        return;
      }
      ReapMainValue(s, View(), pid, t, std);
      pids.Put(pid);
      tids.Put(t);
      stdToTid := stdToTid - {std};
      tidToPid := tidToPid - {t};
      processes := processes - {pid};
    }

    /** Free one thread and erase it everywhere. */
    method EraseThread(pid: nat, t: nat)
      requires Valid() && pid in processes && t in processes[pid].threads && View().tids.InPool(t)
      modifies this, tids, tids.used
      ensures Valid() && View() == WithoutThread(old(View()), pid, t)
    {
      var std := processes[pid].threads[t].stdTid;
      tids.Put(t);
      stdToTid := stdToTid - {std};
      tidToPid := tidToPid - {t};
      processes := processes[pid := processes[pid].(threads := processes[pid].threads - {t})];
    }

    /** The loop over the threads of a process, in ascending order: all but the main one are freed and erased. It is
        undefined as soon as it advances an iterator whose thread has been erased. */
    method ReapSiblings(pid: nat, main: nat) returns (defined: bool)
      requires Valid() && pid in processes && main in processes[pid].threads && main == processes[pid].processTid
      requires forall u | u in processes[pid].threads :: View().tids.InPool(u)
      modifies this, tids, tids.used
      ensures Valid() && defined == Reapable(old(processes)[pid])
      ensures defined ==> Erased(old(View()), View(), pid, old(processes)[pid].threads.Keys - {main})
    {
      hide Erased, WithoutThread, PutAll, Reapable;
      ghost var s, q := View(), processes[pid];
      var rest := processes[pid].threads.Keys;
      var count, i := |rest|, 0;
      NoneErased(s, pid);
      while rest != {}
        invariant Valid() && View() == s && Visiting(q, rest, i, count)
        decreases rest
      {
        ghost var first := LeastOf(rest);
        var t :| Least(rest, t);
        Visited(q, rest, i, count, t);
        if t != main {
          ErasedStep(s, s, pid, {}, t);
          EraseThread(pid, t);
        }
        rest := rest - {t};
        i := i + 1;
        if i >= count {
          return true;
        }
        if t != main {
          return false;
        }
      }
      VisitedAll(q, i, count);
      defined := true;
    }
  }

  lemma AskedIgnoresPools(s: Tables, pids: Pool, tids: Pool, caller: nat)
    ensures Asked(s, caller).pids == s.pids && Asked(s, caller).tids == s.tids
    ensures var u := s.(pids := pids, tids := tids);
            Asked(u, caller) == Asked(s, caller).(pids := pids, tids := tids) && HasProcess(u, caller) == HasProcess(s, caller)
  {
  }

  /** The loop over q's threads has erased none, rest being those still to come. */
  ghost predicate Visiting(q: Process, rest: set<nat>, i: nat, count: nat) {
    var all, main := q.threads.Keys, q.processTid;
    && count == |all| && main in all && i <= 1 && i + |rest| == count
    && if i == 0 then rest == all else rest == all - {main} && forall u | u in all :: main <= u
  }

  lemma Visited(q: Process, rest: set<nat>, i: nat, count: nat, t: nat)
    requires Visiting(q, rest, i, count) && Least(rest, t)
    ensures t in q.threads
    ensures i + 1 >= count ==>
              Reapable(q) && q.threads.Keys - {q.processTid} == if t == q.processTid then {} else {} + {t}
    ensures i + 1 < count && t != q.processTid ==> !Reapable(q)
    ensures i + 1 < count && t == q.processTid ==> Visiting(q, rest - {t}, i + 1, count)
  {
    if |rest| == 1 {
      OnlyOne(rest, t);
    }
  }

  lemma OnlyOne(ids: set<nat>, t: nat)
    requires |ids| == 1 && t in ids
    ensures ids == {t}
  {
    assert |ids - {t}| == 0;
  }

  lemma VisitedAll(q: Process, i: nat, count: nat)
    requires Visiting(q, {}, i, count)
    ensures Reapable(q) && q.threads.Keys - {q.processTid} == {}
  {
  }

  function WithoutThread(s: Tables, pid: nat, t: nat): Tables
    requires s.tids.Valid() && s.tids.InPool(t) && pid in s.processes && t in s.processes[pid].threads
  {
    var q := s.processes[pid];
    Tables(s.processes[pid := q.(threads := q.threads - {t})], s.tidToPid - {t}, s.stdToTid - {q.threads[t].stdTid},
           s.pids, s.tids.Put(t))
  }

  /** s' is s after the threads gone of process pid were freed and erased. */
  ghost predicate Erased(s: Tables, s': Tables, pid: nat, gone: set<nat>)
    requires s.tids.Valid() && pid in s.processes
    requires forall u | u in s.processes[pid].threads :: s.tids.InPool(u)
  {
    var q := s.processes[pid];
    && gone <= q.threads.Keys
    && s'.tidToPid == s.tidToPid - gone
    && s'.stdToTid == s.stdToTid - (set u | u in gone :: q.threads[u].stdTid)
    && s'.processes == s.processes[pid := q.(threads := q.threads - gone)]
    && s'.tids == PutAll(s.tids, gone) && s'.pids == s.pids
  }

  lemma NoneErased(s: Tables, pid: nat)
    requires s.tids.Valid() && pid in s.processes
    requires forall u | u in s.processes[pid].threads :: s.tids.InPool(u)
    ensures Erased(s, s, pid, {})
  {
    PutNone(s.tids);
    assert s.processes[pid].threads - {} == s.processes[pid].threads;
  }

  lemma ErasedStep(s: Tables, s': Tables, pid: nat, gone: set<nat>, t: nat)
    requires s.tids.Valid() && pid in s.processes
    requires forall u | u in s.processes[pid].threads :: s.tids.InPool(u)
    requires Erased(s, s', pid, gone) && t in s.processes[pid].threads && t !in gone
    ensures s'.tids.Valid() && s'.tids.InPool(t) && pid in s'.processes && t in s'.processes[pid].threads
    ensures Erased(s, WithoutThread(s', pid, t), pid, gone + {t})
  {
    var q := s.processes[pid];
    PutAllStep(s.tids, gone, t);
    assert q.threads - gone - {t} == q.threads - (gone + {t});
    assert (set u | u in gone + {t} :: q.threads[u].stdTid) == (set u | u in gone :: q.threads[u].stdTid) + {q.threads[t].stdTid};
  }

  /** What Read_Exit_Code of thread t makes of the tables, and the exit code it reports. */
  ghost predicate ReapedTo(s: Tables, t: nat, s': Tables, code: nat) {
    && Agree(s) && t in s.tidToPid && s.tidToPid[t] in s.processes && t in s.processes[s.tidToPid[t]].threads
    && (forall u | u in s.processes[s.tidToPid[t]].threads :: s.tids.InPool(u))
    && s' == Reaped(s, t)
    && code == s.processes[s.tidToPid[t]].threads[t].exitCode
  }

  lemma MainIsThread(s: Tables, pid: nat)
    requires Agree(s) && pid in s.processes
    ensures s.processes[pid].processTid in s.processes[pid].threads && s.pids.Valid() && s.pids.InPool(pid)
    ensures StdOf(s, s.processes[pid].processTid) == s.processes[pid].threads[s.processes[pid].processTid].stdTid
  {
  }

  /** Freeing the siblings and then the main thread and the process is what ReapProcess says. */
  lemma ReapMainValue(s: Tables, s': Tables, pid: nat, main: nat, std: nat)
    requires s.tids.Valid() && s.pids.Valid() && pid in s.processes && s.pids.InPool(pid)
    requires forall u | u in s.processes[pid].threads :: s.tids.InPool(u)
    requires main in s.processes[pid].threads && std == s.processes[pid].threads[main].stdTid
    requires Erased(s, s', pid, s.processes[pid].threads.Keys - {main})
    ensures s'.pids.Valid() && s'.tids.Valid() && s'.pids.InPool(pid) && s'.tids.InPool(main)
    ensures Tables(s'.processes - {pid}, s'.tidToPid - {main}, s'.stdToTid - {std}, s'.pids.Put(pid), s'.tids.Put(main))
            == ReapProcess(s, pid)
  {
    var q := s.processes[pid];
    var gone := q.threads.Keys - {main};
    PutAllStep(s.tids, gone, main);
    assert gone + {main} == q.threads.Keys;
    assert StdsOf(q) == (set u | u in gone :: q.threads[u].stdTid) + {std};
    assert s'.tidToPid - {main} == s.tidToPid - q.threads.Keys;
    assert s'.stdToTid - {std} == s.stdToTid - StdsOf(q);
    assert s'.processes - {pid} == s.processes - {pid};
  }

  lemma PutNone(p: Pool)
    requires p.Valid()
    ensures PutAll(p, {}) == p
  {
  }

  /** Giving back a set and then one more. */
  lemma PutAllStep(p: Pool, ids: set<nat>, t: nat)
    requires p.Valid() && p.InPool(t) && forall i | i in ids :: p.InPool(i)
    ensures PutAll(p, ids).Valid() && PutAll(p, ids).Put(t) == PutAll(p, ids + {t})
  {
  }
}
