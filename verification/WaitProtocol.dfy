/** Wait_For, Exit and Read_Exit_Code as a state machine. A section under the table mutex is one step, except
    Exit, which is one step per thread object it locks; every pass of Stop and every Restart is one step. A thread
    that spins in Stop keeps its own mutex from one pass to the next, so no Restart can come in between. */
module WaitProtocol {
  import opened IdPools
  import opened ThreadControls

  /** Where the holder of the table mutex is in Exit, for the first thread of todo. */
  datatype Stage = Clearing | Notifying(rest: set<Tid>) | Joining

  datatype Exiting = Nobody | Someone(todo: seq<Tid>, stage: Stage, code: nat)

  /** home is the process of a thread, mains its main thread; over holds the processes whose main thread has
      exited; stopping the threads inside Stop; registered all handles a thread ever registered for. */
  datatype State = State(threads: map<Tid, Control>, home: map<Tid, nat>, mains: map<nat, Tid>, over: set<nat>,
                         stopping: set<Tid>, registered: map<Tid, set<Tid>>, exiting: Exiting)

  datatype Action =
    | Create(t: Tid, p: nat)
    | WaitFor(t: Tid, handles: seq<Tid>)
    | StopPass(t: Tid)
    | BeginExit(t: Tid, order: seq<Tid>, code: nat)
    | Clear
    | Notify(u: Tid)
    | EndNotify
    | Join
    | Reap(gone: set<Tid>)

  function With(s: State, t: Tid, c: Control): State { s.(threads := s.threads[t := c]) }

  /** A handle Wait_For cannot wait on: unknown, or exited, or of a process that is over. */
  predicate Unwaitable(s: State, h: Tid) {
    h !in s.threads || s.threads[h].state == Exited || (h in s.home && s.home[h] in s.over)
  }

  /** Both sides of a registration. */
  function Registered(s: State, t: Tid, h: Tid): State
    requires t in s.threads && h in s.threads
  {
    var s1 := With(s, t, s.threads[t].(waiting := s.threads[t].waiting + {h}));
    var s2 := With(s1, h, s1.threads[h].(sleeped := s1.threads[h].sleeped + {t}));
    s2.(registered := s.registered[t := (if t in s.registered then s.registered[t] else {}) + {h}])
  }

  /** The loop of Wait_For: it stops, and does not block, at the first handle it cannot wait on; what was
      registered before stays registered. */
  function RegisterAll(s: State, t: Tid, handles: seq<Tid>): (State, bool)
    requires t in s.threads
    decreases |handles|
  {
    if handles == [] then (s, true)
    else if Unwaitable(s, handles[0]) then (s, false)
    else RegisterAll(Registered(s, t, handles[0]), t, handles[1..])
  }

  predicate LockFree(s: State) { s.exiting == Nobody }

  predicate AtStage(s: State, stage: Stage) {
    s.exiting.Someone? && s.exiting.todo != [] && s.exiting.stage == stage
  }

  /** The threads Exit of t terminates: t alone, or for a main thread its siblings and then itself. */
  predicate ExitOrder(s: State, t: Tid, order: seq<Tid>)
    requires t in s.home
  {
    if s.home[t] in s.mains && s.mains[s.home[t]] == t then
      && order != [] && order[|order| - 1] == t
      && (forall u | u in order :: u in s.threads && u in s.home && s.home[u] == s.home[t])
      && (forall u | u in s.threads && u in s.home && s.home[u] == s.home[t] :: u in order)
      && (forall i, j | 0 <= i < j < |order| :: order[i] != order[j])
    else order == [t]
  }

  /** Only exited threads that no remaining thread lists as sleepers are reaped. */
  predicate Reapable(s: State, gone: set<Tid>) {
    && (forall t | t in gone :: t in s.threads && s.threads[t].state == Exited)
    && (forall w | w in s.threads && w !in gone :: s.threads[w].sleeped !! gone)
  }

  /** The sleepers are notified in ascending order, as the map that lists them is walked. */
  predicate Enabled(s: State, a: Action) {
    match a
    case Create(t, _) => LockFree(s) && t !in s.threads
    case WaitFor(t, _) => LockFree(s) && t in s.threads && t !in s.stopping
    case StopPass(t) => t in s.threads && t in s.stopping && s.threads[t].mutex != Asleep
    case BeginExit(t, order, _) =>
      LockFree(s) && t in s.threads && t in s.home && t !in s.stopping && ExitOrder(s, t, order)
    case Clear => AtStage(s, Clearing) && s.exiting.todo[0] in s.threads
    case Notify(u) =>
      s.exiting.Someone? && s.exiting.todo != [] && s.exiting.stage.Notifying? && Least(s.exiting.stage.rest, u)
      && u in s.threads && s.threads[u].mutex != Spinning
    case EndNotify => AtStage(s, Notifying({})) && s.exiting.todo[0] in s.threads
    case Join => AtStage(s, Joining) && s.exiting.todo[0] in s.threads
    case Reap(gone) => LockFree(s) && Reapable(s, gone)
  }

  function Next(s: State, a: Action): State
    requires Enabled(s, a)
  {
    match a
    case Create(t, p) =>
      With(s, t, Started()).(home := s.home[t := p], mains := if p in s.mains then s.mains else s.mains[p := t],
                             registered := s.registered[t := {}])
    case WaitFor(t, handles) =>
      var (s1, all) := RegisterAll(s, t, handles);
      if all then s1.(stopping := s.stopping + {t}) else s1
    case StopPass(t) =>
      var (c, pass) := s.threads[t].Stop();
      var s1 := With(s, t, c);
      if pass == Leaves then s1.(stopping := s.stopping - {t}) else s1
    case BeginExit(_, order, code) => s.(exiting := Someone(order, Clearing, code))
    case Clear =>
      var w := s.exiting.todo[0];
      With(s, w, s.threads[w].(waiting := {})).(exiting := s.exiting.(stage := Notifying(s.threads[w].sleeped)))
    case Notify(u) =>
      With(s, u, s.threads[u].Restart(s.exiting.todo[0]))
      .(exiting := s.exiting.(stage := Notifying(s.exiting.stage.rest - {u})))
    case EndNotify =>
      var w := s.exiting.todo[0];
      With(s, w, s.threads[w].(sleeped := {})).(exiting := s.exiting.(stage := Joining))
    case Join =>
      var w := s.exiting.todo[0];
      var rest := s.exiting.todo[1..];
      With(s, w, s.threads[w].Join(s.exiting.code))
      .(over := s.over + (set p | p in s.mains && s.mains[p] == w :: p),
        exiting := if rest == [] then Nobody else Someone(rest, Clearing, s.exiting.code))
    case Reap(gone) =>
      s.(threads := s.threads - gone, home := s.home - gone, stopping := s.stopping - gone,
         mains := map p | p in s.mains && s.mains[p] !in gone :: s.mains[p],
         over := s.over - (set p | p in s.mains && s.mains[p] in gone :: p))
  }

  // ----- the invariant -----

  /** w is the thread Exit is working on, past clearing its own handles. */
  predicate BeingEnded(s: State, w: Tid) {
    s.exiting.Someone? && s.exiting.todo != [] && s.exiting.todo[0] == w && s.exiting.stage != Clearing
  }

  /** t's registration for w stands on both sides, and its notice is still to come. */
  predicate Standing(s: State, t: Tid, w: Tid)
    requires t in s.threads
  {
    && w in s.threads && s.threads[w].state != Exited && t in s.threads[w].sleeped
    && (BeingEnded(s, w) ==> s.exiting.stage.Notifying? && t in s.exiting.stage.rest)
  }

  ghost predicate RegistrationsStand(s: State) {
    forall t, w | t in s.threads && s.threads[t].state != Exited && w in s.threads[t].waiting :: Standing(s, t, w)
  }

  ghost predicate BlockedHaveReason(s: State) {
    forall t | t in s.threads && s.threads[t].state == Blocked :: s.threads[t].waiting != {} || BeingEnded(s, t)
  }

  ghost predicate Known(s: State) {
    && (forall w | w in s.threads :: s.threads[w].sleeped <= s.threads.Keys)
    && (s.exiting.Someone? ==> s.exiting.todo != [] && forall u | u in s.exiting.todo :: u in s.threads)
    && (s.exiting.Someone? && s.exiting.stage.Notifying? ==> s.exiting.stage.rest <= s.threads.Keys)
  }

  ghost predicate WithinRegistered(s: State) {
    forall t | t in s.threads :: t in s.registered && s.threads[t].waiting <= s.registered[t]
  }

  /** Only threads in Stop sleep or spin: the blocked ones sleep, and the spinning ones have exited. */
  ghost predicate MutexesMatch(s: State) {
    forall t | t in s.threads ::
      && (s.threads[t].mutex != Free ==> t in s.stopping)
      && (s.threads[t].state == Running ==> s.threads[t].mutex == Free)
      && (s.threads[t].state == Blocked ==> s.threads[t].mutex == Asleep)
  }

  ghost predicate Inv(s: State) {
    RegistrationsStand(s) && BlockedHaveReason(s) && Known(s) && WithinRegistered(s) && MutexesMatch(s)
  }

  function Initial(): State { State(map[], map[], map[], {}, {}, map[], Nobody) }

  lemma InitialInv()
    ensures Inv(Initial())
  {
  }

  // ----- every step keeps it -----

  lemma CreateKeepsInv(s: State, t: Tid, p: nat)
    requires Inv(s) && Enabled(s, Create(t, p))
    ensures Inv(Next(s, Create(t, p)))
  {
  }

  lemma RegisteredKeepsInv(s: State, t: Tid, h: Tid)
    requires Inv(s) && LockFree(s) && t in s.threads && !Unwaitable(s, h)
    ensures Inv(Registered(s, t, h)) && LockFree(Registered(s, t, h)) && t in Registered(s, t, h).threads
  {
    var s' := Registered(s, t, h);
    forall u, w | u in s'.threads && s'.threads[u].state != Exited && w in s'.threads[u].waiting
      ensures Standing(s', u, w)
    {
      if !(u == t && w == h) {
        assert Standing(s, u, w);
      }
    }
  }

  lemma {:induction false} RegisterAllKeepsInv(s: State, t: Tid, handles: seq<Tid>)
    requires Inv(s) && LockFree(s) && t in s.threads
    ensures Inv(RegisterAll(s, t, handles).0) && LockFree(RegisterAll(s, t, handles).0)
    decreases |handles|
  {
    if handles != [] && !Unwaitable(s, handles[0]) {
      RegisteredKeepsInv(s, t, handles[0]);
      RegisterAllKeepsInv(Registered(s, t, handles[0]), t, handles[1..]);
    }
  }

  /** Registering changes the handles of t only, and no thread's state. */
  lemma {:induction false} RegisterAllFrame(s: State, t: Tid, handles: seq<Tid>)
    requires t in s.threads
    ensures var s' := RegisterAll(s, t, handles).0;
            && s'.stopping == s.stopping && s'.exiting == s.exiting && s'.threads.Keys == s.threads.Keys
            && forall u | u in s.threads ::
                 && s'.threads[u].state == s.threads[u].state
                 && (u != t ==> s'.threads[u].waiting == s.threads[u].waiting)
    decreases |handles|
  {
    if handles != [] && !Unwaitable(s, handles[0]) {
      RegisterAllFrame(Registered(s, t, handles[0]), t, handles[1..]);
    }
  }

  lemma StopPassKeepsInv(s: State, t: Tid)
    requires Inv(s) && Enabled(s, StopPass(t))
    ensures Inv(Next(s, StopPass(t)))
  {
    hide RegistrationsStand, BlockedHaveReason, Known, WithinRegistered, MutexesMatch;
    StopPassKeepsStanding(s, t);
    StopPassKeepsRest(s, t);
  }

  lemma StopPassKeepsStanding(s: State, t: Tid)
    requires Inv(s) && Enabled(s, StopPass(t))
    ensures RegistrationsStand(Next(s, StopPass(t)))
  {
    hide BlockedHaveReason, Known, WithinRegistered, MutexesMatch;
    var s' := Next(s, StopPass(t));
    forall u, w | u in s'.threads && s'.threads[u].state != Exited && w in s'.threads[u].waiting
      ensures Standing(s', u, w)
    {
      assert Standing(s, u, w);
    }
  }

  lemma StopPassKeepsRest(s: State, t: Tid)
    requires Inv(s) && Enabled(s, StopPass(t))
    ensures var s' := Next(s, StopPass(t));
            BlockedHaveReason(s') && Known(s') && WithinRegistered(s') && MutexesMatch(s')
  {
    hide RegistrationsStand;
  }

  lemma BeginExitKeepsInv(s: State, a: Action)
    requires Inv(s) && a.BeginExit? && Enabled(s, a)
    ensures Inv(Next(s, a))
  {
  }

  lemma ClearKeepsInv(s: State)
    requires Inv(s) && Enabled(s, Clear)
    ensures Inv(Next(s, Clear))
  {
  }

  lemma NotifyKeepsInv(s: State, u: Tid)
    requires Inv(s) && Enabled(s, Notify(u))
    ensures Inv(Next(s, Notify(u)))
  {
  }

  lemma EndNotifyKeepsInv(s: State)
    requires Inv(s) && Enabled(s, EndNotify)
    ensures Inv(Next(s, EndNotify))
  {
  }

  lemma JoinKeepsInv(s: State)
    requires Inv(s) && Enabled(s, Join)
    ensures Inv(Next(s, Join))
  {
  }

  lemma ReapKeepsInv(s: State, gone: set<Tid>)
    requires Inv(s) && Enabled(s, Reap(gone))
    ensures Inv(Next(s, Reap(gone)))
  {
  }

  lemma StepKeepsInv(s: State, a: Action)
    requires Inv(s) && Enabled(s, a)
    ensures Inv(Next(s, a))
  {
    match a
    case Create(t, p) => CreateKeepsInv(s, t, p);
    case WaitFor(t, handles) =>
      RegisterAllKeepsInv(s, t, handles);
      RegisterAllFrame(s, t, handles);
      InvIgnoresStopping(RegisterAll(s, t, handles).0, s.stopping + {t});
    case StopPass(t) => StopPassKeepsInv(s, t);
    case BeginExit(_, _, _) => BeginExitKeepsInv(s, a);
    case Clear => ClearKeepsInv(s);
    case Notify(u) => NotifyKeepsInv(s, u);
    case EndNotify => EndNotifyKeepsInv(s);
    case Join => JoinKeepsInv(s);
    case Reap(gone) => ReapKeepsInv(s, gone);
  }

  lemma InvIgnoresStopping(s: State, stopping: set<Tid>)
    requires Inv(s) && s.stopping <= stopping
    ensures Inv(s.(stopping := stopping))
  {
  }

  // ----- every run -----

  predicate IsRun(s: State, run: seq<Action>, s': State)
    decreases |run|
  {
    if run == [] then s == s' else Enabled(s, run[0]) && IsRun(Next(s, run[0]), run[1..], s')
  }

  lemma {:induction false} RunKeepsInv(s: State, run: seq<Action>, s': State)
    requires Inv(s) && IsRun(s, run, s')
    ensures Inv(s')
    decreases |run|
  {
    if run != [] {
      StepKeepsInv(s, run[0]);
      RunKeepsInv(Next(s, run[0]), run[1..], s');
    }
  }

  /** No wakeup is lost: in every reachable state a blocked thread waits for a known thread that has not exited
      and lists it among its sleepers, unless it is itself being ended. */
  lemma NoLostWakeup(run: seq<Action>, s: State, t: Tid)
    requires IsRun(Initial(), run, s) && t in s.threads && s.threads[t].state == Blocked
    ensures BeingEnded(s, t) ||
            exists w :: w in s.threads[t].waiting && w in s.threads && s.threads[w].state != Exited && t in s.threads[w].sleeped
  {
    InitialInv();
    RunKeepsInv(Initial(), run, s);
    if s.threads[t].waiting != {} {
      var w :| w in s.threads[t].waiting;
      assert Standing(s, t, w);
    }
  }

  /** Once every thread t ever registered for has exited or is gone, and no Exit is under way, t is not blocked,
      and if it is inside Stop its next pass leaves it. This covers an exit between registration and Stop. */
  lemma AllExitedMeansAwake(run: seq<Action>, s: State, t: Tid)
    requires IsRun(Initial(), run, s) && LockFree(s) && t in s.threads && s.threads[t].state != Exited
    requires t in s.registered && forall w | w in s.registered[t] :: w in s.threads ==> s.threads[w].state == Exited
    ensures s.threads[t].state == Running && s.threads[t].Stop().1 == Leaves
  {
    InitialInv();
    RunKeepsInv(Initial(), run, s);
    forall w | w in s.registered[t] ensures w !in s.threads[t].waiting {
      assert w in s.threads[t].waiting ==> Standing(s, t, w);
    }
  }

  // ----- when an Exit gets to its end -----

  predicate ExitStep(a: Action) { a.Clear? || a.Notify? || a.EndNotify? || a.Join? }

  predicate Spins(s: State, u: Tid) { u in s.threads && s.threads[u].mutex == Spinning }

  /** An Exit under way can take its next step exactly when the sleeper it comes to does not spin in Stop. */
  lemma NextExitStepIff(run: seq<Action>, s: State)
    requires IsRun(Initial(), run, s) && s.exiting.Someone?
    ensures (exists a :: Enabled(s, a) && ExitStep(a)) <==>
            !(s.exiting.stage.Notifying? && exists u :: Least(s.exiting.stage.rest, u) && Spins(s, u))
  {
    InitialInv();
    RunKeepsInv(Initial(), run, s);
    assert s.exiting.todo[0] in s.exiting.todo;
    match s.exiting.stage
    case Clearing => assert Enabled(s, Clear);
    case Joining => assert Enabled(s, Join);
    case Notifying(rest) =>
      if rest == {} {
        assert Enabled(s, EndNotify);
      } else {
        var u := LeastOf(rest);
        if !Spins(s, u) {
          assert Enabled(s, Notify(u));
        }
      }
  }

  /** A thread in the loop of Stop that no pass leaves: it keeps its mutex. */
  predicate Stuck(s: State, u: Tid) { Spins(s, u) && s.threads[u].waiting != {} }

  /** The Exit of s notifies the sleepers of the thread it ends. */
  predicate Notifies(s: State) { s.exiting.Someone? && s.exiting.todo != [] && s.exiting.stage.Notifying? }

  /** A stuck sleeper that is still to be notified stays so, and the Exit never gets past it, whatever is done. */
  lemma {:induction false} StuckForever(s: State, run: seq<Action>, s': State, u: Tid)
    requires Inv(s) && Notifies(s) && u in s.exiting.stage.rest && Stuck(s, u) && IsRun(s, run, s')
    ensures Notifies(s') && u in s'.exiting.stage.rest && Stuck(s', u) && s'.exiting.todo == s.exiting.todo
    decreases |run|
  {
    if run != [] {
      StepKeepsInv(s, run[0]);
      StuckForever(Next(s, run[0]), run[1..], s', u);
    }
  }

  /** All sleepers notified: the Exit is about to join the thread it ends. */
  predicate AllNotified(s: State, s': State) {
    s.exiting.Someone? && s'.exiting.Someone? && s'.exiting == s.exiting.(stage := Joining)
  }

  ghost predicate CanFinish(s: State) {
    exists run, s' :: IsRun(s, run, s') && AllNotified(s, s')
  }

  /** An Exit that notifies sleepers can come to the end of that exactly when none of them is stuck. */
  lemma NotifyingEndsIff(s: State)
    requires Inv(s) && Notifies(s)
    ensures CanFinish(s) <==> forall u | u in s.exiting.stage.rest :: !Stuck(s, u)
  {
    if u :| u in s.exiting.stage.rest && Stuck(s, u) {
      forall run, s' | IsRun(s, run, s') ensures !AllNotified(s, s') {
        StuckForever(s, run, s', u);
      }
    } else {
      var run, s' := NotifyRest(s);
    }
  }

  lemma {:induction false} NotifyRest(s: State) returns (run: seq<Action>, s': State)
    requires Inv(s) && Notifies(s) && forall u | u in s.exiting.stage.rest :: !Stuck(s, u)
    ensures IsRun(s, run, s') && AllNotified(s, s')
    decreases |s.exiting.stage.rest|
  {
    var rest := s.exiting.stage.rest;
    assert s.exiting.todo[0] in s.exiting.todo;
    if rest == {} {
      s' := Next(s, EndNotify);
      run := [EndNotify];
      assert IsRun(s', [], s') && run[1..] == [];
    } else {
      var u := LeastOf(rest);
      var free := if Spins(s, u) then [StopPass(u)] else [];
      var s1 := if Spins(s, u) then Next(s, StopPass(u)) else s;
      if Spins(s, u) {
        StopPassKeepsInv(s, u);
      }
      NotifyKeepsInv(s1, u);
      var s2 := Next(s1, Notify(u));
      assert |rest - {u}| < |rest|;
      var later;
      later, s' := NotifyRest(s2);
      run := [Notify(u)] + later;
      assert run[1..] == later;
      if Spins(s, u) {
        assert ([StopPass(u)] + run)[1..] == run;
        run := [StopPass(u)] + run;
      }
    }
  }

  /** In the run no thread that has exited calls Wait_For. */
  predicate LivingWait(s: State, run: seq<Action>)
    decreases |run|
  {
    run == [] || (Enabled(s, run[0])
                  && (run[0].WaitFor? ==> s.threads[run[0].t].state != Exited)
                  && LivingWait(Next(s, run[0]), run[1..]))
  }

  /** A thread that has exited, or whose handles Exit has cleared, has no handle left. */
  ghost predicate EndedWaitForNothing(s: State) {
    forall t | t in s.threads && (s.threads[t].state == Exited || BeingEnded(s, t)) :: s.threads[t].waiting == {}
  }

  lemma LivingStep(s: State, a: Action)
    requires Inv(s) && EndedWaitForNothing(s) && Enabled(s, a) && (a.WaitFor? ==> s.threads[a.t].state != Exited)
    ensures EndedWaitForNothing(Next(s, a))
  {
    if a.WaitFor? {
      RegisterAllFrame(s, a.t, a.handles);
    }
  }

  lemma {:induction false} LivingRun(s: State, run: seq<Action>, s': State)
    requires Inv(s) && EndedWaitForNothing(s) && IsRun(s, run, s') && LivingWait(s, run)
    ensures Inv(s') && EndedWaitForNothing(s')
    decreases |run|
  {
    if run != [] {
      StepKeepsInv(s, run[0]);
      LivingStep(s, run[0]);
      LivingRun(Next(s, run[0]), run[1..], s');
    }
  }

  /** As long as no exited thread calls Wait_For, every Exit that notifies sleepers can finish notifying them. */
  lemma LivingExitsEnd(run: seq<Action>, s: State)
    requires IsRun(Initial(), run, s) && LivingWait(Initial(), run) && Notifies(s)
    ensures CanFinish(s)
  {
    InitialInv();
    LivingRun(Initial(), run, s);
    NotifyingEndsIff(s);
  }

  // ----- a run that gets stuck -----

  /** An Exit ends a thread that nobody waits for. */
  lemma EndOne(run: seq<Action>, s: State) returns (run': seq<Action>, s': State)
    requires IsRun(Initial(), run, s) && AtStage(s, Clearing) && s.exiting.todo[0] in s.threads
    requires s.threads[s.exiting.todo[0]].sleeped == {}
    ensures IsRun(Initial(), run', s')
    ensures var w := s.exiting.todo[0];
            var rest := s.exiting.todo[1..];
            && s'.threads == s.threads[w := s.threads[w].(waiting := {}).Join(s.exiting.code)]
            && s'.home == s.home && s'.mains == s.mains && s'.stopping == s.stopping && s'.registered == s.registered
            && s'.over == s.over + (set p | p in s.mains && s.mains[p] == w :: p)
            && s'.exiting == if rest == [] then Nobody else Someone(rest, Clearing, s.exiting.code)
  {
    hide IsRun;
    run', s' := Then(run, s, Clear);
    run', s' := Then(run', s', EndNotify);
    run', s' := Then(run', s', Join);
  }

  /** Two threads of process 7 and one of process 8. */
  lemma ThreeThreads() returns (run: seq<Action>, s: State)
    ensures IsRun(Initial(), run, s) && s.exiting == Nobody && s.over == {} && s.stopping == {}
    ensures s.threads == map[0 := Started(), 1 := Started(), 2 := Started()]
    ensures s.home == map[0 := 7, 1 := 7, 2 := 8] && s.mains == map[7 := 0, 8 := 2]
  {
    run, s := [], Initial();
    assert IsRun(Initial(), run, s);
    hide IsRun;
    run, s := Then(run, s, Create(0, 7));
    run, s := Then(run, s, Create(1, 7));
    run, s := Then(run, s, Create(2, 8));
  }

  /** Main thread 0 exits, and with it thread 1. */
  lemma MainExits() returns (run: seq<Action>, s: State)
    ensures IsRun(Initial(), run, s) && s.exiting == Nobody && s.over == {7} && s.stopping == {}
    ensures s.threads.Keys == {0, 1, 2} && s.threads[1] == Started().Join(0) && s.threads[2] == Started()
    ensures s.home == map[0 := 7, 1 := 7, 2 := 8] && s.mains == map[7 := 0, 8 := 2]
  {
    hide IsRun;
    run, s := ThreeThreads();
    run, s := Then(run, s, BeginExit(0, [1, 0], 0));
    assert [1, 0][1..] == [0] && [0][1..] == [];
    var mains := s.mains;
    run, s := EndOne(run, s);
    assert (set p | p in mains && mains[p] == 1 :: p) == {};
    run, s := EndOne(run, s);
    assert 7 in mains && (set p | p in mains && mains[p] == 0 :: p) == {7};
  }

  /** The native thread of thread 1 then calls Wait_For for thread 2 and spins in Stop; when thread 2 exits in turn,
      its Exit never gets past notifying thread 1. */
  lemma StuckRun() returns (run: seq<Action>, s: State)
    ensures IsRun(Initial(), run, s) && Notifies(s) && !CanFinish(s)
  {
    hide IsRun, CanFinish;
    run, s := MainExits();
    var s1 := Registered(s, 1, 2);
    assert RegisterAll(s, 1, [2]) == RegisterAll(s1, 1, [2][1..]) == (s1, true);
    run, s := Then(run, s, WaitFor(1, [2]));
    run, s := Then(run, s, StopPass(1));
    run, s := Then(run, s, BeginExit(2, [2], 0));
    run, s := Then(run, s, Clear);
    InitialInv();
    RunKeepsInv(Initial(), run, s);
    assert 1 in s.exiting.stage.rest && Stuck(s, 1);
    NotifyingEndsIff(s);
  }

  lemma {:induction false} Then(run: seq<Action>, s: State, a: Action) returns (run': seq<Action>, s': State)
    requires IsRun(Initial(), run, s) && Enabled(s, a)
    ensures IsRun(Initial(), run', s') && s' == Next(s, a)
  {
    run', s' := run + [a], Next(s, a);
    RunExtends(Initial(), run, s, a);
  }

  lemma {:induction false} RunExtends(s0: State, run: seq<Action>, s: State, a: Action)
    requires IsRun(s0, run, s) && Enabled(s, a)
    ensures IsRun(s0, run + [a], Next(s, a))
    decreases |run|
  {
    if run == [] {
      assert IsRun(Next(s, a), [], Next(s, a));
      assert [a][1..] == [] && run + [a] == [a];
    } else {
      RunExtends(Next(s0, run[0]), run[1..], s, a);
      assert (run + [a])[1..] == run[1..] + [a];
    }
  }
}
