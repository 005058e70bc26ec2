/** The pipe is first-in first-out and reports exactly what it moved, over every run and with closes at any point. */
module PipeFifo {
  import opened PipeProtocol

  function Bytes(log: seq<(Tid, Byte)>): (r: seq<Byte>)
    ensures |r| == |log|
  {
    seq(|log|, i requires 0 <= i < |log| => log[i].1)
  }

  /** The bytes of one thread in a log. */
  function Part(log: seq<(Tid, Byte)>, t: Tid): seq<Byte> {
    if log == [] then []
    else Part(log[..|log| - 1], t) + if log[|log| - 1].0 == t then [log[|log| - 1].1] else []
  }

  lemma PartAppend(log: seq<(Tid, Byte)>, e: (Tid, Byte), t: Tid)
    ensures Part(log + [e], t) == Part(log, t) + if e.0 == t then [e.1] else []
    ensures Bytes(log + [e]) == Bytes(log) + [e.1]
  {
  }

  /** A producer's loop index is its count, and what the pipe got of it is what it reported plus what its
      present call has put in. */
  predicate ProducerOk(p: Producer, moved: seq<Byte>) {
    && p.i == p.produced <= |p.input|
    && (p.phase == PIdle ==> p.i == 0)
    && (p.phase == PWant || p.phase == PBlocked || p.phase == PGranted || p.phase == PPushed ==> p.i < |p.input|)
    && moved == p.done + p.input[..p.i + One(p.phase == PPushed)]
  }

  predicate ConsumerOk(c: Consumer, moved: seq<Byte>) {
    && c.i == c.consumed && |c.got| == c.i + One(c.phase == CPopped)
    && (c.phase == CIdle ==> c.i == 0)
    && moved == c.done + c.got
  }

  /** First in, first out: what was taken out, then what is inside, is what was put in. */
  predicate Flow(s: State) {
    Bytes(s.popped) + s.buffer == Bytes(s.pushed)
  }

  ghost predicate ProducersOk(s: State) {
    forall t | t in s.ps :: ProducerOk(s.ps[t], Part(s.pushed, t))
  }

  ghost predicate ConsumersOk(s: State) {
    forall t | t in s.cs :: ConsumerOk(s.cs[t], Part(s.popped, t))
  }

  predicate OnlyFrom(log: seq<(Tid, Byte)>, ts: set<Tid>) {
    forall i | 0 <= i < |log| :: log[i].0 in ts
  }

  ghost predicate LogInv(s: State) {
    Flow(s) && ProducersOk(s) && ConsumersOk(s) && OnlyFrom(s.pushed, s.ps.Keys) && OnlyFrom(s.popped, s.cs.Keys)
  }

  // ----- single moves -----

  /** One producer moves on without touching the buffer. */
  lemma PStep(s: State, s': State, t: Tid)
    requires LogInv(s) && t in s.ps && s'.ps.Keys == s.ps.Keys && s'.cs == s.cs
    requires forall u | u in s.ps && u != t :: s'.ps[u] == s.ps[u]
    requires s'.pushed == s.pushed && s'.popped == s.popped && s'.buffer == s.buffer
    requires ProducerOk(s'.ps[t], Part(s.pushed, t))
    ensures LogInv(s')
  {
    hide ProducerOk, ConsumerOk, Part, Bytes;
  }

  /** One consumer moves on without touching the buffer. */
  lemma CStep(s: State, s': State, t: Tid)
    requires LogInv(s) && t in s.cs && s'.cs.Keys == s.cs.Keys && s'.ps == s.ps
    requires forall u | u in s.cs && u != t :: s'.cs[u] == s.cs[u]
    requires s'.pushed == s.pushed && s'.popped == s.popped && s'.buffer == s.buffer
    requires ConsumerOk(s'.cs[t], Part(s.popped, t))
    ensures LogInv(s')
  {
    hide ProducerOk, ConsumerOk, Part, Bytes;
  }

  lemma PIs(s: State, t: Tid)
    requires LogInv(s) && t in s.ps
    ensures ProducerOk(s.ps[t], Part(s.pushed, t))
  {
  }

  lemma CIs(s: State, t: Tid)
    requires LogInv(s) && t in s.cs
    ensures ConsumerOk(s.cs[t], Part(s.popped, t))
  {
  }

  lemma ReturnedOk(p: Producer, moved: seq<Byte>)
    requires ProducerOk(p, moved) && p.phase == PCheck
    ensures ProducerOk(PReturned(p), moved)
  {
  }

  lemma CReturnedOk(c: Consumer, moved: seq<Byte>)
    requires ConsumerOk(c, moved) && c.phase != CPopped
    ensures ConsumerOk(CReturned(c), moved)
  {
  }

  lemma BegunOk(p: Producer, input: seq<Byte>, moved: seq<Byte>)
    requires ProducerOk(p, moved) && p.phase == PIdle
    ensures ProducerOk(Producer(PCheck, input, 0, 0, p.done), moved)
  {
  }

  lemma CBegunOk(c: Consumer, want: nat, moved: seq<Byte>)
    requires ConsumerOk(c, moved) && c.phase == CIdle
    ensures ConsumerOk(Consumer(CCheck, want, 0, 0, [], c.done), moved)
  {
  }

  lemma PushedOk(p: Producer, moved: seq<Byte>)
    requires ProducerOk(p, moved) && p.phase == PGranted
    ensures ProducerOk(p.(phase := PPushed), moved + [p.input[p.i]])
  {
  }

  lemma PoppedOk(c: Consumer, b: Byte, moved: seq<Byte>)
    requires ConsumerOk(c, moved) && c.phase == CHolding
    ensures ConsumerOk(c.(phase := CPopped, got := c.got + [b]), moved + [b])
  {
  }

  function Advanced(p: Producer): Producer { p.(phase := PCheck, i := p.i + 1, produced := p.produced + 1) }

  lemma AdvancedOk(p: Producer, moved: seq<Byte>)
    requires ProducerOk(p, moved) && p.phase == PPushed
    ensures ProducerOk(Advanced(p), moved)
  {
  }

  function CAdvanced(c: Consumer): Consumer { c.(phase := CCheck, i := c.i + 1, consumed := c.consumed + 1) }

  lemma CAdvancedOk(c: Consumer, moved: seq<Byte>)
    requires ConsumerOk(c, moved) && c.phase == CPopped
    ensures ConsumerOk(CAdvanced(c), moved)
  {
  }

  // ----- steps -----

  lemma PMovedWith(s: State, s': State, t: Tid, b: Byte)
    requires LogInv(s) && t in s.ps && s'.ps.Keys == s.ps.Keys
    requires forall u | u in s.ps && u != t :: s'.ps[u] == s.ps[u]
    requires s'.pushed == s.pushed + [(t, b)] && ProducerOk(s'.ps[t], Part(s.pushed, t) + [b])
    ensures ProducersOk(s') && OnlyFrom(s'.pushed, s'.ps.Keys)
  {
    hide ProducerOk, Part, Bytes;
    forall u | u in s'.ps ensures ProducerOk(s'.ps[u], Part(s'.pushed, u)) {
      PartAppend(s.pushed, (t, b), u);
      assert Part(s.pushed, u) + [] == Part(s.pushed, u);
    }
  }

  lemma CMovedWith(s: State, s': State, t: Tid, b: Byte)
    requires LogInv(s) && t in s.cs && s'.cs.Keys == s.cs.Keys
    requires forall u | u in s.cs && u != t :: s'.cs[u] == s.cs[u]
    requires s'.popped == s.popped + [(t, b)] && ConsumerOk(s'.cs[t], Part(s.popped, t) + [b])
    ensures ConsumersOk(s') && OnlyFrom(s'.popped, s'.cs.Keys)
  {
    hide ConsumerOk, Part, Bytes;
    forall u | u in s'.cs ensures ConsumerOk(s'.cs[u], Part(s'.popped, u)) {
      PartAppend(s.popped, (t, b), u);
      assert Part(s.popped, u) + [] == Part(s.popped, u);
    }
  }

  lemma FlowAfterPush(s: State, e: (Tid, Byte))
    requires Flow(s)
    ensures Bytes(s.popped) + (s.buffer + [e.1]) == Bytes(s.pushed + [e])
  {
    PartAppend(s.pushed, e, 0);
    assert Bytes(s.popped) + (s.buffer + [e.1]) == (Bytes(s.popped) + s.buffer) + [e.1];
  }

  lemma FlowAfterPop(s: State, t: Tid)
    requires Flow(s) && s.buffer != []
    ensures Bytes(s.popped + [(t, s.buffer[0])]) + s.buffer[1..] == Bytes(s.pushed)
  {
  }

  lemma PushKeepsLog(s: State, t: Tid)
    requires LogInv(s) && Enabled(s, Push(t))
    ensures LogInv(Next(s, Push(t)))
  {
    var p := s.ps[t];
    assert ProducerOk(p, Part(s.pushed, t));
    PushedOk(p, Part(s.pushed, t));
    PMovedWith(s, Next(s, Push(t)), t, p.input[p.i]);
    FlowAfterPush(s, (t, p.input[p.i]));
  }

  lemma PopKeepsLog(s: State, t: Tid)
    requires LogInv(s) && Enabled(s, Pop(t)) && s.buffer != []
    ensures LogInv(Next(s, Pop(t)))
  {
    assert ConsumerOk(s.cs[t], Part(s.popped, t));
    PoppedOk(s.cs[t], s.buffer[0], Part(s.popped, t));
    CMovedWith(s, Next(s, Pop(t)), t, s.buffer[0]);
    FlowAfterPop(s, t);
  }

  lemma ProducerStepKeepsLog(s: State, a: Action)
    requires LogInv(s) && Enabled(s, a) && (a.BeginProduce? || a.CheckInput? || a.TakeRoom?)
    ensures LogInv(Next(s, a))
  {
    hide LogInv, Part;
    PIs(s, a.t);
    var p := s.ps[a.t];
    var moved := Part(s.pushed, a.t);
    if a.BeginProduce? {
      BegunOk(p, a.input, moved);
    } else if a.CheckInput? {
      ReturnedOk(p, moved);
    }
    PStep(s, Next(s, a), a.t);
  }

  lemma ConsumerStepKeepsLog(s: State, a: Action)
    requires LogInv(s) && Enabled(s, a)
    requires a.BeginConsume? || a.CheckOutput? || a.TakeItem? || a.Recheck?
    ensures LogInv(Next(s, a))
  {
    hide LogInv, Part;
    CIs(s, a.t);
    var c := s.cs[a.t];
    var moved := Part(s.popped, a.t);
    if a.BeginConsume? {
      CBegunOk(c, a.want, moved);
    } else {
      CReturnedOk(c, moved);
    }
    CStep(s, Next(s, a), a.t);
  }

  lemma WakeKeepsLog(s: State, w: Tid)
    requires LogInv(s)
    ensures LogInv(WakeP(s, w)) && LogInv(WakeC(s, w))
  {
    hide LogInv, Part;
    if PAt(s, w, PBlocked) {
      PIs(s, w);
      PStep(s, WakeP(s, w), w);
    }
    if CAt(s, w, CBlocked) {
      CIs(s, w);
      CStep(s, WakeC(s, w), w);
    }
  }

  lemma ReleaseKeepsLog(s: State, t: Tid, w: Tid)
    requires LogInv(s) && Enabled(s, Release(t, w))
    ensures LogInv(Next(s, Release(t, w)))
  {
    hide LogInv, Part;
    PIs(s, t);
    AdvancedOk(s.ps[t], Part(s.pushed, t));
    var s1 := WithP(s.(items := s.items.V().0), t, Advanced(s.ps[t]));
    PStep(s, s1, t);
    WakeKeepsLog(s1, w);
  }

  lemma ReturnKeepsLog(s: State, t: Tid, w: Tid)
    requires LogInv(s) && Enabled(s, Return(t, w))
    ensures LogInv(Next(s, Return(t, w)))
  {
    hide LogInv, Part;
    CIs(s, t);
    CAdvancedOk(s.cs[t], Part(s.popped, t));
    var s1 := WithC(s.(room := s.room.V().0), t, CAdvanced(s.cs[t]));
    CStep(s, s1, t);
    WakeKeepsLog(s1, w);
  }

  lemma StepKeepsLog(s: State, a: Action)
    requires LogInv(s) && Enabled(s, a)
    ensures LogInv(Next(s, a))
  {
    match a
    case Release(t, w) => ReleaseKeepsLog(s, t, w);
    case Return(t, w) => ReturnKeepsLog(s, t, w);
    case Pop(t) => if s.buffer != [] { PopKeepsLog(s, t); }
    case Push(t) => PushKeepsLog(s, t);
    case CloseRead =>
    case CloseWrite =>
    case CloseNotify(w) => WakeKeepsLog(s.(woken := s.woken || CAt(s, w, CBlocked)), w);
    case BeginProduce(_, _) => ProducerStepKeepsLog(s, a);
    case CheckInput(_) => ProducerStepKeepsLog(s, a);
    case TakeRoom(_) => ProducerStepKeepsLog(s, a);
    case _ => ConsumerStepKeepsLog(s, a);
  }

  /** Over every run, with any numbers of threads and closes at any point: the bytes taken out, followed by the
      buffer, are the bytes put in, in order; and every thread has moved exactly the bytes its finished calls
      reported and its present call has reached. */
  lemma {:induction false} RunKeepsLog(s: State, run: seq<Action>, s': State)
    requires LogInv(s) && IsRun(s, run, s')
    ensures LogInv(s')
    decreases |run|
  {
    if run != [] {
      StepKeepsLog(s, run[0]);
      RunKeepsLog(Next(s, run[0]), run[1..], s');
    }
  }

  lemma InitLog(size: nat, producers: set<Tid>, consumers: set<Tid>)
    ensures LogInv(Init(size, producers, consumers))
  {
  }

  lemma {:induction false} PartOfOne(log: seq<(Tid, Byte)>, t: Tid)
    requires OnlyFrom(log, {t})
    ensures Part(log, t) == Bytes(log)
  {
    if log != [] {
      var r := log[..|log| - 1];
      PartOfOne(r, t);
      PartAppend(r, log[|log| - 1], t);
      assert log == r + [log[|log| - 1]];
    }
  }

  /** With one producer thread and one consumer thread: the bytes the consumer has received, then the buffer,
      are the bytes the producer has sent, each being what its finished calls reported and its present call has
      moved. */
  lemma OneToOne(size: nat, p: Tid, c: Tid, run: seq<Action>, s: State)
    requires IsRun(Init(size, {p}, {c}), run, s)
    ensures p in s.ps && c in s.cs && s.ps[p].i + One(s.ps[p].phase == PPushed) <= |s.ps[p].input|
    ensures s.cs[c].done + s.cs[c].got + s.buffer ==
            s.ps[p].done + s.ps[p].input[..s.ps[p].i + One(s.ps[p].phase == PPushed)]
    ensures s.ps[p].produced == s.ps[p].i && s.cs[c].consumed == s.cs[c].i
  {
    hide IsRun, Part, Bytes;
    InitLog(size, {p}, {c});
    RunKeepsLog(Init(size, {p}, {c}), run, s);
    SizeFixed(Init(size, {p}, {c}), run, s);
    assert s.ps.Keys == {p} && s.cs.Keys == {c};
    PartOfOne(s.pushed, p);
    PartOfOne(s.popped, c);
    assert ProducerOk(s.ps[p], Part(s.pushed, p)) && ConsumerOk(s.cs[c], Part(s.popped, c));
  }
}
