/** The pipe as a state machine: every thread is at one point of Produce or Consume, and a step is one
    access to the flags, one critical section of a semaphore, or one access to the buffer under the pipe's lock. */
module PipeProtocol {
  import opened Semaphores

  type Tid = nat
  type Byte = int

  datatype PPhase = PIdle | PCheck | PWant | PBlocked | PGranted | PPushed

  /** A producer thread: its call's buffer, loop index and count, and the bytes its finished calls reported. */
  datatype Producer = Producer(phase: PPhase, input: seq<Byte>, i: nat, produced: nat, done: seq<Byte>)

  datatype CPhase = CIdle | CCheck | CWant | CBlocked | CGranted | CHolding | CPopped

  datatype Consumer = Consumer(phase: CPhase, want: nat, i: nat, consumed: nat, got: seq<Byte>, done: seq<Byte>)

  /** pushed and popped record who moved which byte; woken: a Close has woken a consumer that holds no permit;
      failed: a byte was taken from the empty buffer. */
  datatype State = State(
    size: nat, room: Sem, items: Sem, buffer: seq<Byte>, closedInput: bool, closedOutput: bool,
    ps: map<Tid, Producer>, cs: map<Tid, Consumer>,
    pushed: seq<(Tid, Byte)>, popped: seq<(Tid, Byte)>, woken: bool, failed: bool)

  /** In Release and Return, w is the thread that notify_one picks; so it is in CloseNotify. */
  datatype Action =
    | BeginProduce(t: Tid, input: seq<Byte>)
    | CheckInput(t: Tid)
    | TakeRoom(t: Tid)
    | Push(t: Tid)
    | Release(t: Tid, w: Tid)
    | BeginConsume(t: Tid, want: nat)
    | CheckOutput(t: Tid)
    | TakeItem(t: Tid)
    | Recheck(t: Tid)
    | Pop(t: Tid)
    | Return(t: Tid, w: Tid)
    | CloseRead
    | CloseWrite
    | CloseNotify(w: Tid)

  predicate PAt(s: State, t: Tid, phase: PPhase) { t in s.ps && s.ps[t].phase == phase }

  predicate CAt(s: State, t: Tid, phase: CPhase) { t in s.cs && s.cs[t].phase == phase }

  predicate NoPAt(s: State, phase: PPhase) { forall t | t in s.ps :: s.ps[t].phase != phase }

  predicate NoCAt(s: State, phase: CPhase) { forall t | t in s.cs :: s.cs[t].phase != phase }

  function WithP(s: State, t: Tid, p: Producer): State { s.(ps := s.ps[t := p]) }

  function WithC(s: State, t: Tid, c: Consumer): State { s.(cs := s.cs[t := c]) }

  /** A producer's call returns: the bytes it reports are the first produced ones of its buffer. */
  function PReturned(p: Producer): Producer
    requires p.produced <= |p.input|
  {
    Producer(PIdle, [], 0, 0, p.done + p.input[..p.produced])
  }

  function CReturned(c: Consumer): Consumer
    requires c.consumed <= |c.got|
  {
    Consumer(CIdle, 0, 0, 0, [], c.done + c.got[..c.consumed])
  }

  predicate Enabled(s: State, a: Action) {
    !s.failed &&
    match a
    case BeginProduce(t, _) => PAt(s, t, PIdle)
    case CheckInput(t) => PAt(s, t, PCheck) && s.ps[t].produced <= |s.ps[t].input|
    case TakeRoom(t) => PAt(s, t, PWant)
    case Push(t) => PAt(s, t, PGranted) && s.ps[t].i < |s.ps[t].input|
    case Release(t, w) => PAt(s, t, PPushed) && (s.items.waiting > 0 ==> CAt(s, w, CBlocked) || NoCAt(s, CBlocked))
    case BeginConsume(t, _) => CAt(s, t, CIdle)
    case CheckOutput(t) => CAt(s, t, CCheck) && s.cs[t].consumed <= |s.cs[t].got|
    case TakeItem(t) => CAt(s, t, CWant)
    case Recheck(t) => CAt(s, t, CGranted) && s.cs[t].consumed <= |s.cs[t].got|
    case Pop(t) => CAt(s, t, CHolding)
    case Return(t, w) => CAt(s, t, CPopped) && (s.room.waiting > 0 ==> PAt(s, w, PBlocked) || NoPAt(s, PBlocked))
    case CloseRead => true
    case CloseWrite => true
    case CloseNotify(w) => s.closedOutput && (CAt(s, w, CBlocked) || NoCAt(s, CBlocked))
  }

  function WakeP(s: State, w: Tid): State {
    if PAt(s, w, PBlocked) then WithP(s, w, s.ps[w].(phase := PGranted)) else s
  }

  function WakeC(s: State, w: Tid): State {
    if CAt(s, w, CBlocked) then WithC(s, w, s.cs[w].(phase := CGranted)) else s
  }

  function Next(s: State, a: Action): State
    requires Enabled(s, a)
  {
    match a
    case BeginProduce(t, input) => WithP(s, t, Producer(PCheck, input, 0, 0, s.ps[t].done))
    case CheckInput(t) =>
      var p := s.ps[t];
      WithP(s, t, if p.i >= |p.input| || s.closedInput then PReturned(p) else p.(phase := PWant))
    case TakeRoom(t) =>
      var (room, wait) := s.room.P();
      WithP(s.(room := room), t, s.ps[t].(phase := if wait then PBlocked else PGranted))
    case Push(t) =>
      var p := s.ps[t];
      WithP(s.(buffer := s.buffer + [p.input[p.i]], pushed := s.pushed + [(t, p.input[p.i])]), t, p.(phase := PPushed))
    case Release(t, w) =>
      var (items, wake) := s.items.V();
      var p := s.ps[t];
      var s1 := WithP(s.(items := items), t, p.(phase := PCheck, i := p.i + 1, produced := p.produced + 1));
      if wake then WakeC(s1, w) else s1
    case BeginConsume(t, want) => WithC(s, t, Consumer(CCheck, want, 0, 0, [], s.cs[t].done))
    case CheckOutput(t) =>
      var c := s.cs[t];
      WithC(s, t, if c.i >= c.want || (s.closedOutput && s.buffer == []) then CReturned(c) else c.(phase := CWant))
    case TakeItem(t) =>
      var (items, wait) := s.items.P();
      WithC(s.(items := items), t, s.cs[t].(phase := if wait then CBlocked else CGranted))
    case Recheck(t) =>
      var c := s.cs[t];
      WithC(s, t, if s.closedOutput && s.buffer == [] then CReturned(c) else c.(phase := CHolding))
    case Pop(t) =>
      var c := s.cs[t];
      if s.buffer == [] then s.(failed := true)
      else
        WithC(s.(buffer := s.buffer[1..], popped := s.popped + [(t, s.buffer[0])]), t,
              c.(phase := CPopped, got := c.got + [s.buffer[0]]))
    case Return(t, w) =>
      var (room, wake) := s.room.V();
      var c := s.cs[t];
      var s1 := WithC(s.(room := room), t, c.(phase := CCheck, i := c.i + 1, consumed := c.consumed + 1));
      if wake then WakeP(s1, w) else s1
    case CloseRead => s.(closedInput := true)
    case CloseWrite => s.(closedOutput := true)
    case CloseNotify(w) => WakeC(s.(woken := s.woken || CAt(s, w, CBlocked)), w)
  }

  function Init(size: nat, producers: set<Tid>, consumers: set<Tid>): State {
    State(size, Fresh(size), Fresh(0), [], false, false,
          map t | t in producers :: Producer(PIdle, [], 0, 0, []),
          map t | t in consumers :: Consumer(CIdle, 0, 0, 0, [], []), [], [], false, false)
  }

  /** s' is reached from s by the actions of run. */
  predicate IsRun(s: State, run: seq<Action>, s': State)
    decreases |run|
  {
    if run == [] then s == s' else Enabled(s, run[0]) && IsRun(Next(s, run[0]), run[1..], s')
  }

  // ----- counting threads at a phase -----

  function PSet(ps: map<Tid, Producer>, phase: PPhase): set<Tid> { set t | t in ps && ps[t].phase == phase }

  function CSet(cs: map<Tid, Consumer>, phase: CPhase): set<Tid> { set t | t in cs && cs[t].phase == phase }

  function CountP(ps: map<Tid, Producer>, phase: PPhase): nat { |PSet(ps, phase)| }

  function CountC(cs: map<Tid, Consumer>, phase: CPhase): nat { |CSet(cs, phase)| }

  function One(b: bool): nat { if b then 1 else 0 }

  lemma SizeWithout<T>(a: set<T>, t: T)
    ensures |a| == |a - {t}| + One(t in a)
  {
  }

  lemma CountWithP(ps: map<Tid, Producer>, t: Tid, p: Producer, phase: PPhase)
    requires t in ps
    ensures CountP(ps[t := p], phase) == CountP(ps, phase) - One(ps[t].phase == phase) + One(p.phase == phase)
  {
    var a, b := PSet(ps, phase), PSet(ps[t := p], phase);
    SizeWithout(a, t);
    SizeWithout(b, t);
    assert forall u | u != t :: u in a <==> u in b;
    assert a - {t} == b - {t};
    assert (t in a <==> ps[t].phase == phase) && (t in b <==> p.phase == phase);
  }

  lemma CountWithC(cs: map<Tid, Consumer>, t: Tid, c: Consumer, phase: CPhase)
    requires t in cs
    ensures CountC(cs[t := c], phase) == CountC(cs, phase) - One(cs[t].phase == phase) + One(c.phase == phase)
  {
    var a, b := CSet(cs, phase), CSet(cs[t := c], phase);
    SizeWithout(a, t);
    SizeWithout(b, t);
    assert forall u | u != t :: u in a <==> u in b;
    assert a - {t} == b - {t};
    assert (t in a <==> cs[t].phase == phase) && (t in b <==> c.phase == phase);
  }

  lemma CountPZeroIff(s: State, phase: PPhase)
    ensures CountP(s.ps, phase) == 0 <==> NoPAt(s, phase)
  {
    assert forall t :: t in PSet(s.ps, phase) <==> PAt(s, t, phase);
    if PSet(s.ps, phase) != {} {
      var t :| t in PSet(s.ps, phase);
      assert PAt(s, t, phase);
    } else {
      forall t | t in s.ps ensures s.ps[t].phase != phase {
        assert t !in PSet(s.ps, phase);
      }
    }
  }

  lemma CountCZeroIff(s: State, phase: CPhase)
    ensures CountC(s.cs, phase) == 0 <==> NoCAt(s, phase)
  {
    assert forall t :: t in CSet(s.cs, phase) <==> CAt(s, t, phase);
    if CSet(s.cs, phase) != {} {
      var t :| t in CSet(s.cs, phase);
      assert CAt(s, t, phase);
    } else {
      forall t | t in s.cs ensures s.cs[t].phase != phase {
        assert t !in CSet(s.cs, phase);
      }
    }
  }

  /** Moving one producer changes the counts of its old and its new phase only. */
  lemma CountsP(ps: map<Tid, Producer>, t: Tid, p: Producer)
    requires t in ps
    ensures CountP(ps[t := p], PBlocked) == CountP(ps, PBlocked) - One(ps[t].phase == PBlocked) + One(p.phase == PBlocked)
    ensures CountP(ps[t := p], PGranted) == CountP(ps, PGranted) - One(ps[t].phase == PGranted) + One(p.phase == PGranted)
    ensures CountP(ps[t := p], PPushed) == CountP(ps, PPushed) - One(ps[t].phase == PPushed) + One(p.phase == PPushed)
  {
    CountWithP(ps, t, p, PBlocked);
    CountWithP(ps, t, p, PGranted);
    CountWithP(ps, t, p, PPushed);
  }

  lemma CountsC(cs: map<Tid, Consumer>, t: Tid, c: Consumer)
    requires t in cs
    ensures CountC(cs[t := c], CBlocked) == CountC(cs, CBlocked) - One(cs[t].phase == CBlocked) + One(c.phase == CBlocked)
    ensures CountC(cs[t := c], CGranted) == CountC(cs, CGranted) - One(cs[t].phase == CGranted) + One(c.phase == CGranted)
    ensures CountC(cs[t := c], CHolding) == CountC(cs, CHolding) - One(cs[t].phase == CHolding) + One(c.phase == CHolding)
    ensures CountC(cs[t := c], CPopped) == CountC(cs, CPopped) - One(cs[t].phase == CPopped) + One(c.phase == CPopped)
  {
    CountWithC(cs, t, c, CBlocked);
    CountWithC(cs, t, c, CGranted);
    CountWithC(cs, t, c, CHolding);
    CountWithC(cs, t, c, CPopped);
  }

  // ----- permits -----

  /** Permits of the producers' semaphore: free, granted, turned into bytes, or not yet given back. */
  predicate RoomConserved(s: State) {
    && s.room.Balanced(s.size)
    && s.room.waiting == CountP(s.ps, PBlocked)
    && s.room.value + CountP(s.ps, PGranted) + |s.buffer| + CountC(s.cs, CPopped) == s.size
  }

  /** Permits of the consumers' semaphore: free, granted and not yet used, or not yet given out. */
  predicate ItemsConserved(s: State) {
    && s.items.Balanced(0)
    && s.items.waiting == CountC(s.cs, CBlocked)
    && s.items.value + CountC(s.cs, CGranted) + CountC(s.cs, CHolding) + CountP(s.ps, PPushed) == |s.buffer|
  }

  /** What holds in every reachable state. The consumers' permits are conserved until a Close wakes one. */
  predicate Inv(s: State) {
    && RoomConserved(s)
    && s.items.value - s.items.waiting == s.items.given - s.items.taken
    && (s.woken ==> s.closedOutput)
    && (!s.woken ==> ItemsConserved(s))
  }

  lemma InitInv(size: nat, producers: set<Tid>, consumers: set<Tid>)
    ensures Inv(Init(size, producers, consumers))
  {
  }

  // ----- every step keeps the invariant -----

  lemma ProducerStepKeepsInv(s: State, a: Action)
    requires Inv(s) && Enabled(s, a)
    requires a.BeginProduce? || a.CheckInput? || a.TakeRoom? || a.Push?
    ensures Inv(Next(s, a))
  {
    CountsP(s.ps, a.t, Next(s, a).ps[a.t]);
  }

  lemma ReleaseKeepsInv(s: State, t: Tid, w: Tid)
    requires Inv(s) && Enabled(s, Release(t, w))
    ensures Inv(Next(s, Release(t, w)))
  {
    var p := s.ps[t];
    CountsP(s.ps, t, p.(phase := PCheck, i := p.i + 1, produced := p.produced + 1));
    CountCZeroIff(s, CBlocked);
    if w in s.cs {
      CountsC(s.cs, w, s.cs[w].(phase := CGranted));
    }
  }

  lemma ConsumerStepKeepsInv(s: State, a: Action)
    requires Inv(s) && Enabled(s, a)
    requires a.BeginConsume? || a.CheckOutput? || a.TakeItem? || a.Recheck?
    ensures Inv(Next(s, a))
  {
    CountsC(s.cs, a.t, Next(s, a).cs[a.t]);
    if a.Recheck? && !s.woken {
      CountCZeroIff(s, CGranted);
    }
  }

  lemma PopKeepsInv(s: State, t: Tid)
    requires Inv(s) && Enabled(s, Pop(t))
    ensures Inv(Next(s, Pop(t)))
  {
    if s.buffer != [] {
      CountsC(s.cs, t, Next(s, Pop(t)).cs[t]);
    }
  }

  lemma ReturnKeepsInv(s: State, t: Tid, w: Tid)
    requires Inv(s) && Enabled(s, Return(t, w))
    ensures Inv(Next(s, Return(t, w)))
  {
    var c := s.cs[t];
    CountsC(s.cs, t, c.(phase := CCheck, i := c.i + 1, consumed := c.consumed + 1));
    CountPZeroIff(s, PBlocked);
    if w in s.ps {
      CountsP(s.ps, w, s.ps[w].(phase := PGranted));
    }
  }

  lemma CloseKeepsInv(s: State, a: Action)
    requires Inv(s) && Enabled(s, a) && (a.CloseRead? || a.CloseWrite? || a.CloseNotify?)
    ensures Inv(Next(s, a))
  {
    if a.CloseNotify? && CAt(s, a.w, CBlocked) {
      CountsC(s.cs, a.w, s.cs[a.w].(phase := CGranted));
    }
  }

  lemma StepKeepsInv(s: State, a: Action)
    requires Inv(s) && Enabled(s, a)
    ensures Inv(Next(s, a))
  {
    match a
    case Release(t, w) => ReleaseKeepsInv(s, t, w);
    case Return(t, w) => ReturnKeepsInv(s, t, w);
    case Pop(t) => PopKeepsInv(s, t);
    case CloseRead => CloseKeepsInv(s, a);
    case CloseWrite => CloseKeepsInv(s, a);
    case CloseNotify(_) => CloseKeepsInv(s, a);
    case BeginProduce(_, _) => ProducerStepKeepsInv(s, a);
    case CheckInput(_) => ProducerStepKeepsInv(s, a);
    case TakeRoom(_) => ProducerStepKeepsInv(s, a);
    case Push(_) => ProducerStepKeepsInv(s, a);
    case _ => ConsumerStepKeepsInv(s, a);
  }

  /** In every interleaving, with any numbers of threads, the permits are conserved. */
  lemma {:induction false} RunKeepsInv(s: State, run: seq<Action>, s': State)
    requires Inv(s) && IsRun(s, run, s')
    ensures Inv(s')
    decreases |run|
  {
    if run != [] {
      StepKeepsInv(s, run[0]);
      RunKeepsInv(Next(s, run[0]), run[1..], s');
    }
  }

  // ----- what conservation gives -----

  /** Before a Close wakes anyone the buffer stays within its capacity and no byte is taken from it when empty. */
  lemma BufferWithinBounds(s: State, run: seq<Action>, s': State, size: nat, producers: set<Tid>, consumers: set<Tid>)
    requires s == Init(size, producers, consumers) && IsRun(s, run, s')
    ensures |s'.buffer| <= size
    ensures !s'.woken ==> forall t | CAt(s', t, CGranted) || CAt(s', t, CHolding) :: s'.buffer != []
  {
    InitInv(size, producers, consumers);
    RunKeepsInv(s, run, s');
    SizeFixed(s, run, s');
    CountCZeroIff(s', CGranted);
    CountCZeroIff(s', CHolding);
  }

  lemma {:induction false} SizeFixed(s: State, run: seq<Action>, s': State)
    requires IsRun(s, run, s')
    ensures s'.size == s.size && s'.ps.Keys == s.ps.Keys && s'.cs.Keys == s.cs.Keys
    decreases |run|
  {
    if run != [] {
      var s1 := Next(s, run[0]);
      KeysFixed(s, run[0]);
      SizeFixed(s1, run[1..], s');
    }
  }

  lemma WakeKeepsKeys(s: State, w: Tid)
    ensures WakeP(s, w).ps.Keys == s.ps.Keys && WakeP(s, w).cs.Keys == s.cs.Keys && WakeP(s, w).size == s.size
    ensures WakeC(s, w).ps.Keys == s.ps.Keys && WakeC(s, w).cs.Keys == s.cs.Keys && WakeC(s, w).size == s.size
  {
  }

  predicate SameKeys(s: State, s': State) {
    s'.ps.Keys == s.ps.Keys && s'.cs.Keys == s.cs.Keys && s'.size == s.size
  }

  lemma HandOffKeepsKeys(s: State, a: Action)
    requires Enabled(s, a) && (a.Release? || a.Return? || a.CloseNotify?)
    ensures SameKeys(s, Next(s, a))
  {
    match a
    case Release(t, w) =>
      var p := s.ps[t];
      WakeKeepsKeys(WithP(s.(items := s.items.V().0), t,
                          p.(phase := PCheck, i := p.i + 1, produced := p.produced + 1)), w);
    case Return(t, w) =>
      var c := s.cs[t];
      WakeKeepsKeys(WithC(s.(room := s.room.V().0), t,
                          c.(phase := CCheck, i := c.i + 1, consumed := c.consumed + 1)), w);
    case CloseNotify(w) => WakeKeepsKeys(s.(woken := s.woken || CAt(s, w, CBlocked)), w);
  }

  lemma KeysFixed(s: State, a: Action)
    requires Enabled(s, a)
    ensures SameKeys(s, Next(s, a))
  {
    if a.Release? || a.Return? || a.CloseNotify? {
      HandOffKeepsKeys(s, a);
    }
  }

  /** A thread that holds a granted or unreturned permit; it can always take its next step. */
  predicate Holds(s: State, t: Tid) {
    PAt(s, t, PGranted) || PAt(s, t, PPushed) || CAt(s, t, CGranted) || CAt(s, t, CHolding) || CAt(s, t, CPopped)
  }

  /** The pipe is never stuck: whenever producers and consumers both wait, all buffer_size permits are held by
      threads that can run, so there is one of them if the capacity is positive. */
  lemma NeverStuck(s: State, p: Tid, c: Tid)
    requires Inv(s) && !s.woken && PAt(s, p, PBlocked) && CAt(s, c, CBlocked)
    ensures CountP(s.ps, PGranted) + CountP(s.ps, PPushed) + CountC(s.cs, CGranted) + CountC(s.cs, CHolding)
            + CountC(s.cs, CPopped) == s.size
    ensures s.size > 0 ==> exists t :: Holds(s, t)
  {
    CountPZeroIff(s, PBlocked);
    CountCZeroIff(s, CBlocked);
    CountPZeroIff(s, PGranted);
    CountPZeroIff(s, PPushed);
    CountCZeroIff(s, CGranted);
    CountCZeroIff(s, CHolding);
    CountCZeroIff(s, CPopped);
    if s.size > 0 {
      assert !(NoPAt(s, PGranted) && NoPAt(s, PPushed) && NoCAt(s, CGranted) && NoCAt(s, CHolding) && NoCAt(s, CPopped));
      if !NoPAt(s, PGranted) || !NoPAt(s, PPushed) {
        var t :| t in s.ps && (s.ps[t].phase == PGranted || s.ps[t].phase == PPushed);
        assert Holds(s, t);
      } else {
        var t :| t in s.cs && (s.cs[t].phase == CGranted || s.cs[t].phase == CHolding || s.cs[t].phase == CPopped);
        assert Holds(s, t);
      }
    }
  }

  /** When no thread holds a permit, waiting producers mean a full buffer and waiting consumers an empty one. */
  lemma QuietMeansFullOrEmpty(s: State)
    requires Inv(s) && !s.woken && forall t :: !Holds(s, t)
    ensures !NoPAt(s, PBlocked) ==> |s.buffer| == s.size
    ensures !NoCAt(s, CBlocked) ==> s.buffer == []
  {
    CountPZeroIff(s, PBlocked);
    CountCZeroIff(s, CBlocked);
    CountPZeroIff(s, PGranted);
    CountPZeroIff(s, PPushed);
    CountCZeroIff(s, CGranted);
    CountCZeroIff(s, CHolding);
    CountCZeroIff(s, CPopped);
    assert forall t | t in s.ps :: !Holds(s, t);
    assert forall t | t in s.cs :: !Holds(s, t);
  }
}
