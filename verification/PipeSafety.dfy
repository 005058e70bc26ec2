/** When the pipe can take a byte from its empty buffer: exactly with two consumers, after a Close has woken one. */
module PipeSafety {
  import opened PipeProtocol
  import PipeFifo

  /** No byte can ever get into the buffer. */
  predicate Starved(s: State) { s.ps.Keys == {} || s.size == 0 }

  predicate AtMostOneConsumer(s: State) { |s.cs.Keys| <= 1 }

  ghost predicate SafeInv(s: State) {
    && Inv(s) && !s.failed && (AtMostOneConsumer(s) || Starved(s))
    && (Starved(s) ==> s.buffer == [])
    && (forall t | CAt(s, t, CHolding) :: s.buffer != [])
  }

  lemma OnlyConsumer(s: State, t: Tid, u: Tid)
    requires AtMostOneConsumer(s) && t in s.cs && u in s.cs
    ensures t == u
  {
    if t != u {
      assert {t, u} <= s.cs.Keys;
      SubsetSize({t, u}, s.cs.Keys);
      assert false;
    }
  }

  lemma SubsetSize<T>(a: set<T>, b: set<T>)
    requires a <= b
    ensures |a| <= |b|
  {
    assert b == a + (b - a);
  }

  lemma PushIsSafe(s: State, t: Tid)
    requires SafeInv(s) && Enabled(s, Push(t))
    ensures SafeInv(Next(s, Push(t)))
  {
    StepKeepsInv(s, Push(t));
    KeysFixed(s, Push(t));
    CountPZeroIff(s, PGranted);
    assert !Starved(s);
  }

  lemma RecheckIsSafe(s: State, t: Tid)
    requires SafeInv(s) && Enabled(s, Recheck(t))
    ensures SafeInv(Next(s, Recheck(t)))
  {
    StepKeepsInv(s, Recheck(t));
    KeysFixed(s, Recheck(t));
    CountCZeroIff(s, CGranted);
    var s' := Next(s, Recheck(t));
    forall u | CAt(s', u, CHolding) ensures s'.buffer != [] {
      assert u != t ==> CAt(s, u, CHolding);
    }
  }

  lemma PopIsSafe(s: State, t: Tid)
    requires SafeInv(s) && Enabled(s, Pop(t))
    ensures SafeInv(Next(s, Pop(t)))
  {
    StepKeepsInv(s, Pop(t));
    KeysFixed(s, Pop(t));
    var s' := Next(s, Pop(t));
    assert CAt(s, t, CHolding);
    assert !Starved(s);
    forall u | u in s'.cs ensures !CAt(s', u, CHolding) {
      OnlyConsumer(s, t, u);
    }
  }

  /** The other steps neither change the buffer nor let a consumer hold. */
  lemma OthersKeepBuffer(s: State, a: Action)
    requires Enabled(s, a) && !a.Push? && !a.Recheck? && !a.Pop?
    ensures Next(s, a).buffer == s.buffer && Next(s, a).failed == s.failed
  {
  }

  lemma WakeHoldsNobody(s: State, w: Tid)
    ensures forall u | CAt(WakeC(s, w), u, CHolding) :: CAt(s, u, CHolding)
    ensures forall u | CAt(WakeP(s, w), u, CHolding) :: CAt(s, u, CHolding)
  {
  }

  lemma OthersHoldNobody(s: State, a: Action)
    requires Enabled(s, a) && !a.Push? && !a.Recheck? && !a.Pop?
    ensures forall u | CAt(Next(s, a), u, CHolding) :: CAt(s, u, CHolding)
  {
    match a
    case Release(t, w) =>
      var p := s.ps[t];
      WakeHoldsNobody(WithP(s.(items := s.items.V().0), t,
                            p.(phase := PCheck, i := p.i + 1, produced := p.produced + 1)), w);
    case Return(t, w) =>
      var c := s.cs[t];
      WakeHoldsNobody(WithC(s.(room := s.room.V().0), t,
                            c.(phase := CCheck, i := c.i + 1, consumed := c.consumed + 1)), w);
    case CloseNotify(w) => WakeHoldsNobody(s.(woken := s.woken || CAt(s, w, CBlocked)), w);
    case _ =>
  }

  lemma OtherStepIsSafe(s: State, a: Action)
    requires SafeInv(s) && Enabled(s, a) && !a.Push? && !a.Recheck? && !a.Pop?
    ensures SafeInv(Next(s, a))
  {
    StepKeepsInv(s, a);
    KeysFixed(s, a);
    OthersKeepBuffer(s, a);
    OthersHoldNobody(s, a);
  }

  lemma {:induction false} SafeRun(s: State, run: seq<Action>, s': State)
    requires SafeInv(s) && IsRun(s, run, s')
    ensures SafeInv(s')
    decreases |run|
  {
    if run != [] {
      match run[0] {
        case Push(t) => PushIsSafe(s, t);
        case Recheck(t) => RecheckIsSafe(s, t);
        case Pop(t) => PopIsSafe(s, t);
        case _ => OtherStepIsSafe(s, run[0]);
      }
      SafeRun(Next(s, run[0]), run[1..], s');
    }
  }

  // ----- before a Close wakes anyone -----

  /** In every interleaving, with any numbers of threads, a byte is taken from the empty buffer only after a Close
      has woken a consumer without a permit. */
  lemma {:induction false} FailureNeedsWakeup(s: State, run: seq<Action>, s': State)
    requires Inv(s) && IsRun(s, run, s') && (s.failed ==> s.woken)
    ensures s'.failed ==> s'.woken
    decreases |run|
  {
    if run != [] {
      StepKeepsInv(s, run[0]);
      if run[0].Pop? {
        CountCZeroIff(s, CHolding);
      } else if !run[0].Push? && !run[0].Recheck? {
        OthersKeepBuffer(s, run[0]);
      }
      FailureNeedsWakeup(Next(s, run[0]), run[1..], s');
    }
  }

  /** The steps of a thread that was granted a permit and has not yet given one back. */
  predicate Passes(a: Action) { a.Push? || a.Release? || a.Recheck? || a.Pop? || a.Return? }

  lemma HolderCanStep(s: State, t: Tid) returns (a: Action)
    requires PipeFifo.LogInv(s) && !s.failed && Holds(s, t)
    ensures Enabled(s, a) && Passes(a)
  {
    if PAt(s, t, PGranted) {
      assert PipeFifo.ProducerOk(s.ps[t], PipeFifo.Part(s.pushed, t));
      a := Push(t);
    } else if PAt(s, t, PPushed) {
      var w := t;
      if !NoCAt(s, CBlocked) {
        w :| w in s.cs && s.cs[w].phase == CBlocked;
      }
      a := Release(t, w);
    } else if CAt(s, t, CGranted) {
      assert PipeFifo.ConsumerOk(s.cs[t], PipeFifo.Part(s.popped, t));
      a := Recheck(t);
    } else if CAt(s, t, CHolding) {
      a := Pop(t);
    } else {
      var w := t;
      if !NoPAt(s, PBlocked) {
        w :| w in s.ps && s.ps[w].phase == PBlocked;
      }
      a := Return(t, w);
    }
  }

  /** Before a Close wakes anyone, producers and consumers that all wait never stop a pipe with room for a byte:
      in every reachable state in which both a producer and a consumer wait, some step that passes a permit on is
      possible. */
  lemma WaitersMeanStep(size: nat, producers: set<Tid>, consumers: set<Tid>, run: seq<Action>, s: State, p: Tid, c: Tid)
    requires size > 0 && IsRun(Init(size, producers, consumers), run, s) && !s.woken
    requires PAt(s, p, PBlocked) && CAt(s, c, CBlocked)
    ensures exists a :: Enabled(s, a) && Passes(a)
  {
    var s0 := Init(size, producers, consumers);
    InitInv(size, producers, consumers);
    RunKeepsInv(s0, run, s);
    SizeFixed(s0, run, s);
    FailureNeedsWakeup(s0, run, s);
    PipeFifo.InitLog(size, producers, consumers);
    PipeFifo.RunKeepsLog(s0, run, s);
    NeverStuck(s, p, c);
    var t :| Holds(s, t);
    var a := HolderCanStep(s, t);
  }

  // ----- the run that fails -----

  ghost predicate Reachable(s0: State, s: State) {
    exists run :: IsRun(s0, run, s)
  }

  lemma {:induction false} RunExtends(s0: State, run: seq<Action>, s: State, a: Action)
    requires IsRun(s0, run, s) && Enabled(s, a)
    ensures IsRun(s0, run + [a], Next(s, a))
    decreases |run|
  {
    if run == [] {
      assert run + [a] == [a];
      assert [a][1..] == [];
    } else {
      RunExtends(Next(s0, run[0]), run[1..], s, a);
      assert (run + [a])[1..] == run[1..] + [a];
    }
  }

  lemma Reach(s0: State, s: State, a: Action)
    requires Reachable(s0, s) && Enabled(s, a)
    ensures Reachable(s0, Next(s, a))
  {
    var run :| IsRun(s0, run, s);
    RunExtends(s0, run, s, a);
  }

  function Calling(phase: CPhase): Consumer { Consumer(phase, 1, 0, 0, [], []) }

  function Sending(phase: PPhase): Producer { Producer(phase, [0], 0, 0, []) }

  const IDLE_C: Consumer := Consumer(CIdle, 0, 0, 0, [], [])
  const IDLE_P: Producer := Producer(PIdle, [], 0, 0, [])

  /** Consumer t begins a call and comes to wait. */
  lemma ConsumerWaits(s0: State, s: State, t: Tid) returns (s': State)
    requires Reachable(s0, s) && !s.failed && t in s.cs && s.cs[t] == IDLE_C && s.items.value == 0
    requires !s.closedOutput
    ensures Reachable(s0, s')
    ensures s' == s.(cs := s.cs[t := Calling(CBlocked)], items := s.items.P().0)
  {
    var s1 := Next(s, BeginConsume(t, 1));
    Reach(s0, s, BeginConsume(t, 1));
    var s2 := Next(s1, CheckOutput(t));
    Reach(s0, s1, CheckOutput(t));
    s' := Next(s2, TakeItem(t));
    Reach(s0, s2, TakeItem(t));
    assert s'.cs == s.cs[t := Calling(CBlocked)];
  }

  lemma ProducerPuts(s0: State, s: State, t: Tid) returns (s': State)
    requires Reachable(s0, s) && !s.failed && t in s.ps && s.ps[t] == IDLE_P && !s.closedInput
    requires s.room.value > 0 && s.buffer == []
    ensures Reachable(s0, s') && !s'.failed && s'.buffer == [0] && PAt(s', t, PPushed)
    ensures s'.cs == s.cs && s'.items == s.items
  {
    var s1 := Next(s, BeginProduce(t, [0]));
    Reach(s0, s, BeginProduce(t, [0]));
    assert s1.ps[t] == Sending(PCheck);
    var s2 := Next(s1, CheckInput(t));
    Reach(s0, s1, CheckInput(t));
    assert s2.ps[t] == Sending(PWant);
    var s3 := Next(s2, TakeRoom(t));
    Reach(s0, s2, TakeRoom(t));
    assert s3.ps[t] == Sending(PGranted);
    s' := Next(s3, Push(t));
    Reach(s0, s3, Push(t));
  }

  /** Producer t puts one byte into the empty buffer and hands its permit to the waiting consumer w. */
  lemma ProducerSends(s0: State, s: State, t: Tid, w: Tid) returns (s': State)
    requires Reachable(s0, s) && !s.failed && t in s.ps && s.ps[t] == IDLE_P && !s.closedInput
    requires s.room.value > 0 && s.items.waiting > 0 && CAt(s, w, CBlocked) && s.buffer == []
    ensures Reachable(s0, s') && !s'.failed && s'.buffer == [0]
    ensures s'.cs == s.cs[w := s.cs[w].(phase := CGranted)]
  {
    var s4 := ProducerPuts(s0, s, t);
    s' := Next(s4, Release(t, w));
    Reach(s0, s4, Release(t, w));
  }

  /** Two consumers that both passed the second check on one byte: the second one to pop finds nothing. */
  lemma BothPop(s0: State, s: State, a: Tid, b: Tid) returns (s': State)
    requires Reachable(s0, s) && !s.failed && a != b && s.buffer == [0]
    requires a in s.cs && b in s.cs && s.cs[a] == Calling(CGranted) && s.cs[b] == Calling(CGranted)
    ensures Reachable(s0, s') && s'.failed
  {
    hide Reachable;
    var s1 := Next(s, Recheck(a));
    Reach(s0, s, Recheck(a));
    var s2 := Next(s1, Recheck(b));
    Reach(s0, s1, Recheck(b));
    var s3 := Next(s2, Pop(a));
    Reach(s0, s2, Pop(a));
    s' := Next(s3, Pop(b));
    Reach(s0, s3, Pop(b));
  }

  /** Two consumers wait; Close wakes one of them without a permit; a producer's byte wakes the other. */
  lemma FailingRun(size: nat, producers: set<Tid>, consumers: set<Tid>, a: Tid, b: Tid, p: Tid) returns (s: State)
    requires size > 0 && a in consumers && b in consumers && a != b && p in producers
    ensures Reachable(Init(size, producers, consumers), s) && s.failed
  {
    var s0 := Init(size, producers, consumers);
    assert IsRun(s0, [], s0);
    var s1 := ConsumerWaits(s0, s0, a);
    var s2 := ConsumerWaits(s0, s1, b);
    var s3 := Next(s2, CloseWrite);
    Reach(s0, s2, CloseWrite);
    var s4 := Next(s3, CloseNotify(a));
    Reach(s0, s3, CloseNotify(a));
    var s5 := ProducerSends(s0, s4, p, b);
    s := BothPop(s0, s5, a, b);
  }

  /** No run takes a byte from the empty buffer exactly when there is at most one consumer, or nothing can be put
      in at all. */
  lemma NoEmptyPopIff(size: nat, producers: set<Tid>, consumers: set<Tid>)
    ensures (forall s | Reachable(Init(size, producers, consumers), s) :: !s.failed) <==>
            |consumers| <= 1 || producers == {} || size == 0
  {
    var s0 := Init(size, producers, consumers);
    assert s0.cs.Keys == consumers && s0.ps.Keys == producers;
    if |consumers| <= 1 || producers == {} || size == 0 {
      InitInv(size, producers, consumers);
      assert SafeInv(s0);
      forall s | Reachable(s0, s) ensures !s.failed {
        var run :| IsRun(s0, run, s);
        SafeRun(s0, run, s);
      }
    } else {
      var p :| p in producers;
      var a :| a in consumers;
      assert consumers != {a};
      var b :| b in consumers && b != a;
      var s := FailingRun(size, producers, consumers, a, b, p);
    }
  }
}
