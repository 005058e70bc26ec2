/** What one call of Consume or Produce returns: how much, when it may be less than was asked for, and what a close of
    the other end does to it. */
module PipeCalls {
  import opened PipeProtocol
  import opened PipeFifo

  /** Nothing more will come out: the write end is closed and the buffer empty. */
  predicate Drained(s: State) { s.closedOutput && s.buffer == [] }

  predicate CBusy(s: State, t: Tid) { t in s.cs && s.cs[t].phase != CIdle }

  predicate PBusy(s: State, t: Tid) { t in s.ps && s.ps[t].phase != PIdle }

  /** The loop index stays below what was asked for, except at the loop's head. */
  predicate WantOk(c: Consumer) {
    c.i <= c.want && (c.phase != CIdle && c.phase != CCheck ==> c.i < c.want)
  }

  predicate WantsOk(s: State) { forall t | t in s.cs :: WantOk(s.cs[t]) }

  // ----- steps -----

  lemma WokenConsumer(s: State, w: Tid, t: Tid)
    requires t in s.cs
    ensures t in WakeC(s, w).cs && t in WakeP(s, w).cs && WakeP(s, w).cs[t] == s.cs[t]
    ensures WakeC(s, w).cs[t] == s.cs[t] || WakeC(s, w).cs[t] == s.cs[t].(phase := CGranted)
    ensures WakeC(s, w).cs[t] != s.cs[t] ==> s.cs[t].phase == CBlocked
  {
  }

  lemma WokenProducer(s: State, w: Tid, t: Tid)
    requires t in s.ps
    ensures t in WakeP(s, w).ps && t in WakeC(s, w).ps && WakeC(s, w).ps[t] == s.ps[t]
    ensures WakeP(s, w).ps[t] == s.ps[t] || WakeP(s, w).ps[t] == s.ps[t].(phase := PGranted)
    ensures WakeP(s, w).ps[t] != s.ps[t] ==> s.ps[t].phase == PBlocked
  {
  }

  /** Where a step takes one consumer. */
  predicate ConsumerMoves(s: State, a: Action, t: Tid, c: Consumer, c': Consumer) {
    if c.phase == CIdle then
      c' == (if a.BeginConsume? && a.t == t then Consumer(CCheck, a.want, 0, 0, [], c.done) else c)
    else if (a == CheckOutput(t) && (c.i == c.want || Drained(s))) || (a == Recheck(t) && Drained(s)) then
      c'.phase == CIdle && c'.done == c.done + c.got[..if c.consumed <= |c.got| then c.consumed else |c.got|]
    else c'.phase != CIdle && c'.want == c.want && c'.done == c.done
  }

  /** The steps a thread takes inside its own call of Consume. */
  predicate OwnC(a: Action, t: Tid) {
    (a.BeginConsume? || a.CheckOutput? || a.TakeItem? || a.Recheck? || a.Pop? || a.Return?) && a.t == t
  }

  lemma OwnStepOfConsumer(s: State, a: Action, t: Tid)
    requires Enabled(s, a) && t in s.cs && WantOk(s.cs[t]) && OwnC(a, t) && !a.Return?
    ensures t in Next(s, a).cs && WantOk(Next(s, a).cs[t])
    ensures ConsumerMoves(s, a, t, s.cs[t], Next(s, a).cs[t])
  {
  }

  lemma OtherStepOfConsumer(s: State, a: Action, t: Tid)
    requires Enabled(s, a) && t in s.cs && !OwnC(a, t)
    ensures t in Next(s, a).cs
    ensures Next(s, a).cs[t] == s.cs[t] || (s.cs[t].phase == CBlocked && Next(s, a).cs[t] == s.cs[t].(phase := CGranted))
  {
    match a
    case Release(u, w) =>
      var p := s.ps[u];
      WokenConsumer(WithP(s.(items := s.items.V().0), u, Advanced(p)), w, t);
    case Return(u, w) => WokenConsumer(WithC(s.(room := s.room.V().0), u, CAdvanced(s.cs[u])), w, t);
    case CloseNotify(w) => WokenConsumer(s.(woken := s.woken || CAt(s, w, CBlocked)), w, t);
    case _ =>
  }

  lemma StepOfConsumer(s: State, a: Action, t: Tid)
    requires Enabled(s, a) && t in s.cs && WantOk(s.cs[t])
    ensures t in Next(s, a).cs && WantOk(Next(s, a).cs[t])
    ensures ConsumerMoves(s, a, t, s.cs[t], Next(s, a).cs[t])
  {
    if !OwnC(a, t) {
      OtherStepOfConsumer(s, a, t);
      hide Next;
    } else if a.Return? {
      WokenConsumer(WithC(s.(room := s.room.V().0), t, CAdvanced(s.cs[t])), a.w, t);
    } else {
      OwnStepOfConsumer(s, a, t);
    }
  }

  predicate ProducerMoves(s: State, a: Action, t: Tid, p: Producer, p': Producer) {
    if p.phase == PIdle then
      p' == (if a.BeginProduce? && a.t == t then Producer(PCheck, a.input, 0, 0, p.done) else p)
    else if a == CheckInput(t) && (p.i >= |p.input| || s.closedInput) then
      p'.phase == PIdle && p'.done == p.done + p.input[..if p.produced <= |p.input| then p.produced else |p.input|]
    else p'.phase != PIdle && p'.input == p.input && p'.done == p.done
  }

  predicate OwnP(a: Action, t: Tid) {
    (a.BeginProduce? || a.CheckInput? || a.TakeRoom? || a.Push? || a.Release?) && a.t == t
  }

  lemma OtherStepOfProducer(s: State, a: Action, t: Tid)
    requires Enabled(s, a) && t in s.ps && !OwnP(a, t)
    ensures t in Next(s, a).ps
    ensures Next(s, a).ps[t] == s.ps[t] || (s.ps[t].phase == PBlocked && Next(s, a).ps[t] == s.ps[t].(phase := PGranted))
  {
    match a
    case Release(u, w) => WokenProducer(WithP(s.(items := s.items.V().0), u, Advanced(s.ps[u])), w, t);
    case Return(u, w) => WokenProducer(WithC(s.(room := s.room.V().0), u, CAdvanced(s.cs[u])), w, t);
    case CloseNotify(w) => WokenProducer(s.(woken := s.woken || CAt(s, w, CBlocked)), w, t);
    case _ =>
  }

  lemma OwnStepOfProducer(s: State, a: Action, t: Tid)
    requires Enabled(s, a) && t in s.ps && OwnP(a, t) && !a.Release?
    ensures t in Next(s, a).ps && ProducerMoves(s, a, t, s.ps[t], Next(s, a).ps[t])
  {
  }

  lemma StepOfProducer(s: State, a: Action, t: Tid)
    requires Enabled(s, a) && t in s.ps
    ensures t in Next(s, a).ps && ProducerMoves(s, a, t, s.ps[t], Next(s, a).ps[t])
  {
    if !OwnP(a, t) {
      OtherStepOfProducer(s, a, t);
      hide Next;
    } else if a.Release? {
      WokenProducer(WithP(s.(items := s.items.V().0), t, Advanced(s.ps[t])), a.w, t);
    } else {
      OwnStepOfProducer(s, a, t);
    }
  }

  lemma {:induction false} RunKeepsWants(s: State, run: seq<Action>, s': State)
    requires WantsOk(s) && IsRun(s, run, s')
    ensures WantsOk(s')
    decreases |run|
  {
    if run != [] {
      var s1 := Next(s, run[0]);
      KeysFixed(s, run[0]);
      forall t | t in s1.cs ensures WantOk(s1.cs[t]) {
        StepOfConsumer(s, run[0], t);
      }
      RunKeepsWants(s1, run[1..], s');
    }
  }

  /** What every run keeps, in one place. */
  ghost predicate CallsInv(s: State) { LogInv(s) && WantsOk(s) }

  lemma InitCalls(size: nat, producers: set<Tid>, consumers: set<Tid>)
    ensures CallsInv(Init(size, producers, consumers))
  {
    InitLog(size, producers, consumers);
  }

  lemma RunKeepsCalls(s: State, run: seq<Action>, s': State)
    requires CallsInv(s) && IsRun(s, run, s')
    ensures CallsInv(s')
  {
    RunKeepsLog(s, run, s');
    RunKeepsWants(s, run, s');
  }

  lemma OneStep(s: State, a: Action, s': State)
    requires IsRun(s, [a], s')
    ensures Enabled(s, a) && s' == Next(s, a)
  {
    assert [a][1..] == [];
  }

  // ----- when a call returns, and with what -----

  /** A call of Consume returns exactly from one of its two looks at the pipe: at the loop's head with all it wanted, or
      at either when the write end is closed and the buffer empty. It never has more than it wanted, and it reports
      all it took. */
  lemma ConsumeReturnsIff(s: State, a: Action, s': State, t: Tid)
    requires CallsInv(s) && IsRun(s, [a], s') && CBusy(s, t)
    ensures t in s'.cs && |s.cs[t].got| <= s.cs[t].want
    ensures s'.cs[t].phase == CIdle <==>
            (a == CheckOutput(t) && (|s.cs[t].got| == s.cs[t].want || Drained(s))) || (a == Recheck(t) && Drained(s))
    ensures s'.cs[t].phase == CIdle ==> s'.cs[t].done == s.cs[t].done + s.cs[t].got
    ensures s'.cs[t].phase != CIdle ==> s'.cs[t].done == s.cs[t].done && s'.cs[t].want == s.cs[t].want
  {
    OneStep(s, a, s');
    CIs(s, t);
    StepOfConsumer(s, a, t);
    assert s.cs[t].got[..|s.cs[t].got|] == s.cs[t].got;
  }

  /** A call of Produce returns exactly from the loop's head, with its whole buffer sent or the read end closed. */
  lemma ProduceReturnsIff(s: State, a: Action, s': State, t: Tid)
    requires CallsInv(s) && IsRun(s, [a], s') && PBusy(s, t)
    ensures t in s'.ps && s.ps[t].i <= |s.ps[t].input|
    ensures s'.ps[t].phase == PIdle <==> a == CheckInput(t) && (s.ps[t].i == |s.ps[t].input| || s.closedInput)
    ensures s'.ps[t].phase == PIdle ==> s'.ps[t].done == s.ps[t].done + s.ps[t].input[..s.ps[t].i]
    ensures s'.ps[t].phase != PIdle ==> s'.ps[t].done == s.ps[t].done && s'.ps[t].input == s.ps[t].input
  {
    OneStep(s, a, s');
    PIs(s, t);
    StepOfProducer(s, a, t);
  }

  // ----- whole calls -----

  lemma {:induction false} RunJoins(s: State, run: seq<Action>, m: State, more: seq<Action>, s': State)
    requires IsRun(s, run, m) && IsRun(m, more, s')
    ensures IsRun(s, run + more, s')
    decreases |run|
  {
    if run == [] {
      assert run + more == more;
    } else {
      assert (run + more)[1..] == run[1..] + more;
      RunJoins(Next(s, run[0]), run[1..], m, more, s');
    }
  }

  lemma {:induction false} RunSplits(s: State, run: seq<Action>, s': State, k: nat) returns (m: State)
    requires IsRun(s, run, s') && k <= |run|
    ensures IsRun(s, run[..k], m) && IsRun(m, run[k..], s')
    decreases |run|
  {
    if k == 0 {
      m := s;
    } else {
      m := RunSplits(Next(s, run[0]), run[1..], s', k - 1);
      assert run[..k][1..] == run[1..][..k - 1] && run[k..] == run[1..][k - 1..];
    }
  }

  /** From s on, thread t stays inside its call until the last action of run. */
  ghost predicate StaysC(s: State, run: seq<Action>, t: Tid) {
    forall k: nat, m: State | k < |run| && IsRun(s, run[..k], m) :: CBusy(m, t)
  }

  ghost predicate StaysP(s: State, run: seq<Action>, t: Tid) {
    forall k: nat, m: State | k < |run| && IsRun(s, run[..k], m) :: PBusy(m, t)
  }

  lemma {:induction false} InsideConsume(s: State, run: seq<Action>, m: State, t: Tid)
    requires CallsInv(s) && IsRun(s, run, m) && CBusy(s, t)
    requires forall k: nat, u: State | k <= |run| && IsRun(s, run[..k], u) :: CBusy(u, t)
    ensures CBusy(m, t) && m.cs[t].want == s.cs[t].want && m.cs[t].done == s.cs[t].done
    decreases |run|
  {
    hide CallsInv;
    if run == [] {
      assert IsRun(s, run[..0], s);
    } else {
      hide IsRun;
      var n := |run| - 1;
      var u := RunSplits(s, run, m, n);
      forall k: nat, x: State | k <= n && IsRun(s, run[..n][..k], x) ensures CBusy(x, t) {
        assert run[..n][..k] == run[..k];
      }
      InsideConsume(s, run[..n], u, t);
      RunKeepsCalls(s, run[..n], u);
      assert run[n..] == [run[n]] && run[..n + 1] == run;
      ConsumeReturnsIff(u, run[n], m, t);
    }
  }

  lemma {:induction false} InsideProduce(s: State, run: seq<Action>, m: State, t: Tid)
    requires CallsInv(s) && IsRun(s, run, m) && PBusy(s, t)
    requires forall k: nat, u: State | k <= |run| && IsRun(s, run[..k], u) :: PBusy(u, t)
    ensures PBusy(m, t) && m.ps[t].input == s.ps[t].input && m.ps[t].done == s.ps[t].done
    decreases |run|
  {
    hide CallsInv;
    if run == [] {
      assert IsRun(s, run[..0], s);
    } else {
      hide IsRun;
      var n := |run| - 1;
      var u := RunSplits(s, run, m, n);
      forall k: nat, x: State | k <= n && IsRun(s, run[..n][..k], x) ensures PBusy(x, t) {
        assert run[..n][..k] == run[..k];
      }
      InsideProduce(s, run[..n], u, t);
      RunKeepsCalls(s, run[..n], u);
      assert run[n..] == [run[n]] && run[..n + 1] == run;
      ProduceReturnsIff(u, run[n], m, t);
    }
  }

  lemma BegunConsume(s: State, want: nat, s1: State, t: Tid)
    requires CallsInv(s) && IsRun(s, [BeginConsume(t, want)], s1)
    ensures CallsInv(s1) && CAt(s, t, CIdle) && CBusy(s1, t) && s1.cs[t].want == want && s1.cs[t].done == s.cs[t].done
  {
    OneStep(s, BeginConsume(t, want), s1);
    RunKeepsCalls(s, [BeginConsume(t, want)], s1);
  }

  lemma BegunProduce(s: State, input: seq<Byte>, s1: State, t: Tid)
    requires CallsInv(s) && IsRun(s, [BeginProduce(t, input)], s1)
    ensures CallsInv(s1) && PAt(s, t, PIdle) && PBusy(s1, t) && s1.ps[t].input == input && s1.ps[t].done == s.ps[t].done
  {
    OneStep(s, BeginProduce(t, input), s1);
    RunKeepsCalls(s, [BeginProduce(t, input)], s1);
  }

  /** Between its calls a thread has reported every byte it moved. */
  lemma AtRest(s: State, t: Tid)
    requires CallsInv(s)
    ensures CAt(s, t, CIdle) ==> s.cs[t].done == Part(s.popped, t)
    ensures PAt(s, t, PIdle) ==> s.ps[t].done == Part(s.pushed, t)
  {
    hide Part, Bytes;
    if CAt(s, t, CIdle) {
      CIs(s, t);
      assert s.cs[t].done + [] == s.cs[t].done;
    }
    if PAt(s, t, PIdle) {
      PIs(s, t);
      assert s.ps[t].done + s.ps[t].input[..0] == s.ps[t].done;
    }
  }

  lemma StaysInside(run: seq<Action>, a: Action, k: nat)
    requires k <= |run|
    ensures k < |run + [a]| && (run + [a])[..k] == run[..k]
  {
  }

  /** A whole call of Consume(want), however the other threads run meanwhile: it hands over the next bytes, at most want
      of them, and fewer only when it last saw the write end closed and the buffer empty. */
  lemma ConsumeCall(s: State, want: nat, s1: State, run: seq<Action>, m: State, a: Action, s': State, t: Tid)
    requires CallsInv(s) && IsRun(s, [BeginConsume(t, want)], s1) && IsRun(s1, run, m) && IsRun(m, [a], s')
    requires StaysC(s1, run + [a], t) && t in s'.cs && s'.cs[t].phase == CIdle
    ensures t in s.cs && t in m.cs && |m.cs[t].got| <= want && s'.cs[t].done == s.cs[t].done + m.cs[t].got
    ensures |m.cs[t].got| == want || Drained(m)
    ensures s'.cs[t].done == Part(s'.popped, t) && s.cs[t].done == Part(s.popped, t)
  {
    hide CallsInv, IsRun, Part;
    BegunConsume(s, want, s1, t);
    RunKeepsCalls(s1, run, m);
    RunKeepsCalls(m, [a], s');
    forall k: nat, u: State | k <= |run| && IsRun(s1, run[..k], u) ensures CBusy(u, t) {
      StaysInside(run, a, k);
    }
    InsideConsume(s1, run, m, t);
    ConsumeReturnsIff(m, a, s', t);
    AtRest(s, t);
    AtRest(s', t);
  }

  /** A whole call of Produce(input): what it reports are the first bytes of the buffer, and fewer than all only when
      it last saw the read end closed. */
  lemma ProduceCall(s: State, input: seq<Byte>, s1: State, run: seq<Action>, m: State, a: Action, s': State, t: Tid)
    requires CallsInv(s) && IsRun(s, [BeginProduce(t, input)], s1) && IsRun(s1, run, m) && IsRun(m, [a], s')
    requires StaysP(s1, run + [a], t) && t in s'.ps && s'.ps[t].phase == PIdle
    ensures t in s.ps && t in m.ps && m.ps[t].i <= |input| && s'.ps[t].done == s.ps[t].done + input[..m.ps[t].i]
    ensures m.ps[t].i == |input| || m.closedInput
    ensures s'.ps[t].done == Part(s'.pushed, t) && s.ps[t].done == Part(s.pushed, t)
  {
    hide CallsInv, IsRun, Part;
    BegunProduce(s, input, s1, t);
    RunKeepsCalls(s1, run, m);
    RunKeepsCalls(m, [a], s');
    forall k: nat, u: State | k <= |run| && IsRun(s1, run[..k], u) ensures PBusy(u, t) {
      StaysInside(run, a, k);
    }
    InsideProduce(s1, run, m, t);
    ProduceReturnsIff(m, a, s', t);
    AtRest(s, t);
    AtRest(s', t);
  }

  // ----- what a close does -----

  /** Draining: with one producer and one consumer, a call of Consume that returns with less than it wanted, while the
      producer is in no call, has received every byte the producer's calls ever reported. */
  lemma ShortConsumeDrains(size: nat, p: Tid, c: Tid, run: seq<Action>, s: State, a: Action, s': State)
    requires IsRun(Init(size, {p}, {c}), run, s) && IsRun(s, [a], s') && CBusy(s, c) && CAt(s', c, CIdle)
    requires PAt(s, p, PIdle) && |s.cs[c].got| < s.cs[c].want
    ensures PAt(s', p, PIdle) && s'.cs[c].done == s'.ps[p].done
    ensures s'.closedOutput && s'.buffer == []
  {
    hide IsRun, Part, Bytes;
    InitCalls(size, {p}, {c});
    RunKeepsCalls(Init(size, {p}, {c}), run, s);
    ConsumeReturnsIff(s, a, s', c);
    OneToOne(size, p, c, run, s);
    PIs(s, p);
    OneStep(s, a, s');
    assert s.cs[c].done + s.cs[c].got + [] == s.cs[c].done + s.cs[c].got;
    assert s.ps[p].done + s.ps[p].input[..0] == s.ps[p].done;
  }

  /** Whether a producer is past its look at the read end, with a byte still to put in. */
  function MayPut(phase: PPhase): nat { One(phase == PWant || phase == PBlocked || phase == PGranted) }

  lemma StepAfterCloseRead(s: State, a: Action, t: Tid)
    requires Enabled(s, a) && t in s.ps && s.closedInput
    ensures t in Next(s, a).ps && Next(s, a).closedInput
    ensures |Part(Next(s, a).pushed, t)| + MayPut(Next(s, a).ps[t].phase) <= |Part(s.pushed, t)| + MayPut(s.ps[t].phase)
    ensures Part(s.pushed, t) <= Part(Next(s, a).pushed, t)
  {
    StepOfProducer(s, a, t);
    if a.Push? {
      PartAppend(s.pushed, (a.t, s.ps[a.t].input[s.ps[a.t].i]), t);
    }
    if !OwnP(a, t) {
      OtherStepOfProducer(s, a, t);
    }
  }

  lemma {:induction false} RunAfterCloseRead(s: State, run: seq<Action>, s': State, t: Tid)
    requires IsRun(s, run, s') && t in s.ps && s.closedInput
    ensures t in s'.ps && Part(s.pushed, t) <= Part(s'.pushed, t)
    ensures |Part(s'.pushed, t)| + MayPut(s'.ps[t].phase) <= |Part(s.pushed, t)| + MayPut(s.ps[t].phase)
    decreases |run|
  {
    if run != [] {
      StepAfterCloseRead(s, run[0], t);
      RunAfterCloseRead(Next(s, run[0]), run[1..], s', t);
    }
  }

  /** Once the read end is closed, a thread puts no further byte into the pipe, over any run: except, if it was
      already past its look at the flag, the one it was about to put in. */
  lemma CloseReadStops(s: State, s1: State, run: seq<Action>, s': State, t: Tid)
    requires IsRun(s, [CloseRead], s1) && IsRun(s1, run, s') && t in s.ps
    ensures Part(s.pushed, t) <= Part(s'.pushed, t)
    ensures |Part(s'.pushed, t)| <= |Part(s.pushed, t)| + MayPut(s.ps[t].phase)
  {
    OneStep(s, CloseRead, s1);
    RunAfterCloseRead(s1, run, s', t);
  }

  lemma Stepped(s: State, a: Action)
    requires Enabled(s, a)
    ensures IsRun(s, [a], Next(s, a))
  {
    assert [a][1..] == [] && IsRun(Next(s, a), [], Next(s, a));
  }

  lemma NotifiedGoesOn(s: State, t: Tid)
    requires !s.failed && s.buffer == [] && s.closedOutput && CAt(s, t, CBlocked)
    ensures Enabled(s, CloseNotify(t))
    ensures var s' := Next(s, CloseNotify(t));
            !s'.failed && CAt(s', t, CGranted) && s'.cs[t] == s.cs[t].(phase := CGranted) && Drained(s')
  {
  }

  lemma RecheckReturns(s: State, t: Tid)
    requires !s.failed && CAt(s, t, CGranted) && Drained(s) && s.cs[t].consumed == |s.cs[t].got|
    ensures Enabled(s, Recheck(t))
    ensures CAt(Next(s, Recheck(t)), t, CIdle) && Next(s, Recheck(t)).cs[t].done == s.cs[t].done + s.cs[t].got
  {
    assert s.cs[t].got[..s.cs[t].consumed] == s.cs[t].got;
  }

  /** A close of the write end, with its notification, lets a consumer that waits at an empty buffer return what it
      has. */
  lemma CloseWriteReleases(s: State, t: Tid) returns (s': State)
    requires CallsInv(s) && !s.failed && s.buffer == [] && CAt(s, t, CBlocked)
    ensures IsRun(s, [CloseWrite, CloseNotify(t), Recheck(t)], s')
    ensures CAt(s', t, CIdle) && s'.cs[t].done == s.cs[t].done + s.cs[t].got
  {
    CIs(s, t);
    Stepped(s, CloseWrite);
    var s1 := Next(s, CloseWrite);
    hide Next, IsRun;
    NotifiedGoesOn(s1, t);
    Stepped(s1, CloseNotify(t));
    var s2 := Next(s1, CloseNotify(t));
    RecheckReturns(s2, t);
    Stepped(s2, Recheck(t));
    s' := Next(s2, Recheck(t));
    RunJoins(s1, [CloseNotify(t)], s2, [Recheck(t)], s');
    RunJoins(s, [CloseWrite], s1, [CloseNotify(t), Recheck(t)], s');
  }
}
