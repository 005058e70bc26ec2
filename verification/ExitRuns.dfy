/** What whole calls do: which threads an Exit ends and with which code, what Wait_For registers, and who wakes whom. */
module ExitRuns {
  import opened ThreadControls
  import opened WaitProtocol

  // ----- processes and their main threads -----

  /** Every thread has a process, and the main thread of a process belongs to it. */
  ghost predicate HomesMatch(s: State) {
    s.home.Keys == s.threads.Keys && forall p | p in s.mains :: s.mains[p] in s.home && s.home[s.mains[p]] == p
  }

  lemma {:induction false} RegisterAllKeepsHomes(s: State, t: Tid, handles: seq<Tid>)
    requires t in s.threads
    ensures var s' := RegisterAll(s, t, handles).0;
            s'.threads.Keys == s.threads.Keys && s'.home == s.home && s'.mains == s.mains && s'.over == s.over
    decreases |handles|
  {
    if handles != [] && !Unwaitable(s, handles[0]) {
      RegisterAllKeepsHomes(Registered(s, t, handles[0]), t, handles[1..]);
    }
  }

  lemma StepKeepsHomes(s: State, a: Action)
    requires HomesMatch(s) && Inv(s) && Enabled(s, a)
    ensures HomesMatch(Next(s, a))
  {
    hide Inv;
    if a.WaitFor? {
      RegisterAllKeepsHomes(s, a.t, a.handles);
    }
    if a.Clear? || a.EndNotify? || a.Join? {
      assert s.exiting.todo[0] in s.threads;
    }
  }

  lemma {:induction false} RunKeepsHomes(s: State, run: seq<Action>, s': State)
    requires HomesMatch(s) && Inv(s) && IsRun(s, run, s')
    ensures HomesMatch(s') && Inv(s')
    decreases |run|
  {
    if run != [] {
      StepKeepsInv(s, run[0]);
      StepKeepsHomes(s, run[0]);
      RunKeepsHomes(Next(s, run[0]), run[1..], s');
    }
  }

  lemma OneStep(s: State, a: Action, s': State)
    requires IsRun(s, [a], s')
    ensures Enabled(s, a) && s' == Next(s, a)
  {
    assert [a][1..] == [];
  }

  // ----- Exit -----

  /** The process of thread t has t as its main thread. */
  predicate IsMain(s: State, t: Tid) { t in s.home && s.home[t] in s.mains && s.mains[s.home[t]] == t }

  /** The threads that go with t: those of its process for a main thread, and otherwise t alone. */
  predicate GoesWith(s: State, t: Tid, u: Tid) {
    u == t || (IsMain(s, t) && u in s.home && s.home[u] == s.home[t])
  }

  /** From s to s', exactly the threads of ended have exited, with this code, and with them the processes whose main
      threads they are. */
  ghost predicate EndedBy(s: State, s': State, ended: set<Tid>, code: nat) {
    && s'.home == s.home && s'.mains == s.mains && s'.threads.Keys == s.threads.Keys
    && s'.over == s.over + (set p | p in s.mains && s.mains[p] in ended)
    && forall u | u in s.threads ::
         if u in ended then s'.threads[u].state == Exited && s'.threads[u].exitCode == code
         else (s'.threads[u].state == Exited <==> s.threads[u].state == Exited)
              && s'.threads[u].exitCode == s.threads[u].exitCode
  }

  function Range(order: seq<Tid>): set<Tid> { set u | u in order }

  /** How far the Exit begun in s has come: the first k threads of the order are ended. */
  ghost predicate GotTo(s: State, m: State, order: seq<Tid>, code: nat, k: nat) {
    && k <= |order| && EndedBy(s, m, Range(order[..k]), code)
    && if k == |order| then m.exiting == Nobody
       else m.exiting.Someone? && m.exiting.todo == order[k..] && m.exiting.code == code
  }

  /** Between two joins no thread exits. */
  lemma OtherStepsEndNobody(m: State, a: Action)
    requires m.exiting.Someone? && Enabled(m, a) && !a.Join?
    ensures EndedBy(m, Next(m, a), {}, 0)
    ensures Next(m, a).exiting.Someone? && Next(m, a).exiting.todo == m.exiting.todo
            && Next(m, a).exiting.code == m.exiting.code
  {
  }

  lemma JoinEndsFirst(m: State)
    requires Enabled(m, Join)
    ensures EndedBy(m, Next(m, Join), {m.exiting.todo[0]}, m.exiting.code)
  {
  }

  lemma EndedTwice(s: State, m: State, m': State, a: set<Tid>, b: set<Tid>, code: nat)
    requires EndedBy(s, m, a, code) && (EndedBy(m, m', b, code) || (b == {} && EndedBy(m, m', b, 0)))
    ensures EndedBy(s, m', a + b, code)
  {
  }

  lemma ExitStepGets(s: State, m: State, a: Action, order: seq<Tid>, code: nat, k: nat)
    requires GotTo(s, m, order, code, k) && k < |order| && Enabled(m, a)
    ensures GotTo(s, Next(m, a), order, code, if a.Join? then k + 1 else k)
  {
    var ended := Range(order[..k]);
    if a.Join? {
      JoinEndsFirst(m);
      assert order[k..][0] == order[k] && order[k..][1..] == order[k + 1..];
      hide EndedBy, Enabled;
      EndedTwice(s, m, Next(m, a), ended, {order[k]}, code);
      assert order[..k + 1] == order[..k] + [order[k]];
      assert Range(order[..k + 1]) == ended + {order[k]};
    } else {
      OtherStepsEndNobody(m, a);
      hide EndedBy, Enabled, Next;
      EndedTwice(s, m, Next(m, a), ended, {}, code);
      assert ended + {} == ended;
    }
  }

  /** The Exit is under way until the last action of run. */
  ghost predicate UnderWay(s: State, run: seq<Action>) {
    forall k: nat, m: State | k < |run| && IsRun(s, run[..k], m) :: m.exiting.Someone?
  }

  lemma UnderWayRest(s: State, run: seq<Action>)
    requires run != [] && Enabled(s, run[0]) && UnderWay(s, run)
    ensures s.exiting.Someone? && UnderWay(Next(s, run[0]), run[1..])
  {
    assert IsRun(s, run[..0], s);
    forall k: nat, m: State | k < |run| - 1 && IsRun(Next(s, run[0]), run[1..][..k], m) ensures m.exiting.Someone? {
      assert run[..k + 1][1..] == run[1..][..k];
      assert IsRun(s, run[..k + 1], m);
    }
  }

  lemma {:induction false} ExitGets(s: State, m: State, order: seq<Tid>, code: nat, k: nat, run: seq<Action>, s': State)
    requires GotTo(s, m, order, code, k) && IsRun(m, run, s') && UnderWay(m, run) && s'.exiting == Nobody
    ensures EndedBy(s, s', Range(order), code)
    decreases |run|
  {
    hide EndedBy;
    if run == [] {
      assert order[..k] == order;
    } else {
      UnderWayRest(m, run);
      ExitStepGets(s, m, run[0], order, code, k);
      ExitGets(s, Next(m, run[0]), order, code, if run[0].Join? then k + 1 else k, run[1..], s');
    }
  }

  /** Exit of t, from its beginning to its end, whatever other threads do meanwhile: t has exited with the code given,
      and with a main thread every thread of its process, and the process is over; no other thread has exited, and no
      other exit code or process has changed. */
  lemma ExitEnds(run0: seq<Action>, s: State, t: Tid, order: seq<Tid>, code: nat, s1: State, run: seq<Action>, s': State)
    requires IsRun(Initial(), run0, s) && IsRun(s, [BeginExit(t, order, code)], s1)
    requires IsRun(s1, run, s') && UnderWay(s1, run) && s'.exiting == Nobody
    ensures s'.threads.Keys == s.threads.Keys && t in s.home
    ensures forall u | u in s.threads ::
              if GoesWith(s, t, u) then s'.threads[u].state == Exited && s'.threads[u].exitCode == code
              else (s'.threads[u].state == Exited <==> s.threads[u].state == Exited)
                   && s'.threads[u].exitCode == s.threads[u].exitCode
    ensures s'.over == if IsMain(s, t) then s.over + {s.home[t]} else s.over
  {
    InitialInv();
    RunKeepsHomes(Initial(), run0, s);
    OneStep(s, BeginExit(t, order, code), s1);
    hide IsRun, UnderWay;
    BeginsAtNone(s, s1, t, order, code);
    ExitGets(s, s1, order, code, 0, run, s');
    OrderIs(s, t, order);
  }

  lemma BeginsAtNone(s: State, s1: State, t: Tid, order: seq<Tid>, code: nat)
    requires Enabled(s, BeginExit(t, order, code)) && s1 == Next(s, BeginExit(t, order, code))
    ensures GotTo(s, s1, order, code, 0)
  {
    assert order[..0] == [] && order[0..] == order;
  }

  lemma OrderIs(s: State, t: Tid, order: seq<Tid>)
    requires HomesMatch(s) && t in s.home && ExitOrder(s, t, order)
    ensures forall u | u in s.threads :: u in Range(order) <==> GoesWith(s, t, u)
    ensures (set p | p in s.mains && s.mains[p] in Range(order)) == if IsMain(s, t) then {s.home[t]} else {}
  {
  }

  // ----- Wait_For -----

  /** Thread u's control with t registered for the handles of hs. */
  function Marked(c: Control, u: Tid, t: Tid, hs: set<Tid>): Control {
    c.(waiting := c.waiting + (if u == t then hs else {}), sleeped := c.sleeped + (if u in hs then {t} else {}))
  }

  lemma MarkedAgain(c: Control, u: Tid, t: Tid, h: Tid, hs: set<Tid>)
    ensures Marked(Marked(c, u, t, {h}), u, t, hs) == Marked(c, u, t, {h} + hs)
  {
    assert c.waiting + {h} + hs == c.waiting + ({h} + hs);
    assert c.sleeped + {t} + {t} == c.sleeped + {t};
    assert c.sleeped + {} + {t} == c.sleeped + {t};
    assert c.sleeped + {t} + {} == c.sleeped + {t};
  }

  lemma MarkedNone(c: Control, u: Tid, t: Tid)
    ensures Marked(c, u, t, {}) == c
  {
    assert c.waiting + {} == c.waiting && c.sleeped + {} == c.sleeped;
  }

  /** s' is s with t registered, on both sides, for the handles of hs, and nothing else changed. */
  ghost predicate RegisteredFor(s: State, s': State, t: Tid, hs: set<Tid>) {
    && s'.threads.Keys == s.threads.Keys && hs <= s.threads.Keys
    && s'.home == s.home && s'.mains == s.mains && s'.over == s.over && s'.exiting == s.exiting
    && forall u | u in s.threads :: s'.threads[u] == Marked(s.threads[u], u, t, hs)
  }

  lemma RegisteredMarks(s: State, t: Tid, h: Tid)
    requires t in s.threads && h in s.threads
    ensures RegisteredFor(s, Registered(s, t, h), t, {h})
  {
    forall u | u in s.threads ensures Registered(s, t, h).threads[u] == Marked(s.threads[u], u, t, {h}) {
      assert s.threads[u].waiting + {} == s.threads[u].waiting && s.threads[u].sleeped + {} == s.threads[u].sleeped;
    }
  }

  lemma RegisteredAgain(s: State, s1: State, s': State, t: Tid, h: Tid, hs: set<Tid>)
    requires RegisteredFor(s, s1, t, {h}) && RegisteredFor(s1, s', t, hs)
    ensures RegisteredFor(s, s', t, {h} + hs)
  {
    hide Marked;
    forall u | u in s.threads ensures s'.threads[u] == Marked(s.threads[u], u, t, {h} + hs) {
      MarkedAgain(s.threads[u], u, t, h, hs);
    }
  }

  lemma WaitableStays(s: State, t: Tid, h: Tid, u: Tid)
    requires t in s.threads && h in s.threads
    ensures CanWait(Registered(s, t, h), u) <==> CanWait(s, u)
    ensures Unwaitable(s, u) <==> !CanWait(s, u)
  {
  }

  /** A handle that can be waited on: a known thread that has not exited, of a process that is not over. */
  predicate CanWait(s: State, h: Tid) {
    h in s.threads && s.threads[h].state != Exited && (h in s.home ==> s.home[h] !in s.over)
  }

  /** k is the place of the first handle that cannot be waited on, or the number of handles. */
  predicate FirstUnwaitable(s: State, handles: seq<Tid>, k: nat) {
    k <= |handles| && (forall i | 0 <= i < k :: CanWait(s, handles[i])) && (k < |handles| ==> !CanWait(s, handles[k]))
  }

  lemma FirstOfRest(s: State, t: Tid, handles: seq<Tid>, k: nat)
    requires t in s.threads && FirstUnwaitable(s, handles, k) && k > 0
    ensures handles[0] in s.threads && FirstUnwaitable(Registered(s, t, handles[0]), handles[1..], k - 1)
    ensures Range(handles[..k]) == {handles[0]} + Range(handles[1..][..k - 1])
  {
    forall i | 0 <= i < |handles| - 1
      ensures CanWait(Registered(s, t, handles[0]), handles[1..][i]) <==> CanWait(s, handles[i + 1])
    {
      WaitableStays(s, t, handles[0], handles[i + 1]);
    }
    assert handles[..k] == [handles[0]] + handles[1..][..k - 1];
  }

  lemma {:induction false} RegisterAllIs(s: State, t: Tid, handles: seq<Tid>, k: nat)
    requires t in s.threads && FirstUnwaitable(s, handles, k)
    ensures var (s', all) := RegisterAll(s, t, handles);
            RegisteredFor(s, s', t, Range(handles[..k])) && s'.stopping == s.stopping && (all <==> k == |handles|)
    decreases |handles|
  {
    if k == 0 {
      NoneRegistered(s, t);
      assert Range(handles[..0]) == {};
    } else {
      hide RegisteredFor, Range;
      FirstOfRest(s, t, handles, k);
      assert CanWait(s, handles[0]);
      WaitableStays(s, t, handles[0], handles[0]);
      var s1 := Registered(s, t, handles[0]);
      RegisteredMarks(s, t, handles[0]);
      RegisterAllIs(s1, t, handles[1..], k - 1);
      RegisteredAgain(s, s1, RegisterAll(s1, t, handles[1..]).0, t, handles[0], Range(handles[1..][..k - 1]));
    }
  }

  lemma NoneRegistered(s: State, t: Tid)
    ensures RegisteredFor(s, s, t, {})
  {
    forall u | u in s.threads ensures Marked(s.threads[u], u, t, {}) == s.threads[u] {
      MarkedNone(s.threads[u], u, t);
    }
  }

  lemma {:induction false} FirstUnwaitableIs(s: State, handles: seq<Tid>) returns (k: nat)
    ensures FirstUnwaitable(s, handles, k)
  {
    k := 0;
    while k < |handles| && CanWait(s, handles[k])
      invariant k <= |handles| && forall i | 0 <= i < k :: CanWait(s, handles[i])
    {
      k := k + 1;
    }
  }

  /** Wait_For registers its caller for the handles before the first one that cannot be waited on, and goes on into Stop
      exactly when there is no such handle. */
  lemma WaitForRegisters(s: State, t: Tid, handles: seq<Tid>, s': State) returns (k: nat)
    requires IsRun(s, [WaitFor(t, handles)], s')
    ensures FirstUnwaitable(s, handles, k) && t in s.threads && t !in s.stopping
    ensures RegisteredFor(s, s', t, Range(handles[..k]))
    ensures s'.stopping == if k == |handles| then s.stopping + {t} else s.stopping
  {
    OneStep(s, WaitFor(t, handles), s');
    k := FirstUnwaitableIs(s, handles);
    RegisterAllIs(s, t, handles, k);
  }

  // ----- waking -----

  /** Whoever a thread lists as a sleeper has registered for it. */
  ghost predicate SleepersRegistered(s: State) {
    && (forall w, u | w in s.threads && u in s.threads[w].sleeped :: u in s.registered && w in s.registered[u])
    && (s.exiting.Someone? && s.exiting.stage.Notifying? && s.exiting.todo != [] ==>
          forall u | u in s.exiting.stage.rest :: u in s.registered && s.exiting.todo[0] in s.registered[u])
  }

  lemma {:induction false} RegisterAllKeepsSleepers(s: State, t: Tid, handles: seq<Tid>)
    requires t in s.threads && SleepersRegistered(s) && LockFree(s)
    ensures SleepersRegistered(RegisterAll(s, t, handles).0) && LockFree(RegisterAll(s, t, handles).0)
    decreases |handles|
  {
    if handles != [] && !Unwaitable(s, handles[0]) {
      RegisterAllKeepsSleepers(Registered(s, t, handles[0]), t, handles[1..]);
    }
  }

  lemma StepKeepsSleepers(s: State, a: Action)
    requires SleepersRegistered(s) && Known(s) && Enabled(s, a)
    ensures SleepersRegistered(Next(s, a))
  {
    if a.WaitFor? {
      RegisterAllKeepsSleepers(s, a.t, a.handles);
    }
  }

  lemma {:induction false} RunKeepsSleepers(s: State, run: seq<Action>, s': State)
    requires SleepersRegistered(s) && Inv(s) && IsRun(s, run, s')
    ensures SleepersRegistered(s') && Inv(s')
    decreases |run|
  {
    if run != [] {
      StepKeepsInv(s, run[0]);
      StepKeepsSleepers(s, run[0]);
      RunKeepsSleepers(Next(s, run[0]), run[1..], s');
    }
  }

  /** A blocked thread goes on only because a thread it registered for is being ended; this thread is the one Wait_For
      then reports, and is taken off the handles it waits for. */
  lemma WokenByRegistered(run: seq<Action>, s: State, a: Action, s': State, t: Tid)
    requires IsRun(Initial(), run, s) && IsRun(s, [a], s') && t in s.threads && s.threads[t].state == Blocked
    requires t in s'.threads && s'.threads[t].state == Running
    ensures a == Notify(t) && s.exiting.Someone? && s.exiting.todo != []
    ensures var w := s.exiting.todo[0];
            s'.threads[t].wakedBy == w && s'.threads[t].waiting == s.threads[t].waiting - {w}
            && t in s.registered && w in s.registered[t]
  {
    InitialInv();
    RunKeepsSleepers(Initial(), run, s);
    OneStep(s, a, s');
    if a.WaitFor? {
      RegisterAllFrame(s, a.t, a.handles);
    }
  }

  /** The notice wakes a blocked sleeper. */
  lemma NoticeWakes(s: State, t: Tid, s': State)
    requires IsRun(s, [Notify(t)], s')
    ensures t in s.threads && t in s'.threads && s'.threads[t].state != Blocked && s'.threads[t].mutex == Free
    ensures s.threads[t].state != Blocked ==>
              s'.threads[t].state == s.threads[t].state && s'.threads[t].wakedBy == s.threads[t].wakedBy
  {
    OneStep(s, Notify(t), s');
  }
}
