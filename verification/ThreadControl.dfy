/** The part of a thread object that blocking and waking change, and its critical sections. */
module ThreadControls {
  type Tid = nat

  datatype RunState = Running | Blocked | Exited

  /** Who has the thread's own mutex between two critical sections: nobody, nobody while the native thread sleeps in
      Stop, or the native thread itself, which goes round the loop of Stop without giving it up. */
  datatype Mutex = Free | Asleep | Spinning

  /** waiting and sleeped are the keys of waiting_handles and sleeped_handles. */
  datatype Control = Control(state: RunState, waiting: set<Tid>, sleeped: set<Tid>, wakedBy: Tid, exitCode: nat,
                             mutex: Mutex) {
    /** One pass of the loop in Stop: leave it, go to sleep, or (when exited) go round again. */
    function Stop(): (Control, Pass) {
      if waiting == {} then (this.(mutex := Free), Leaves)
      else if state == Running then (this.(state := Blocked, mutex := Asleep), Sleeps)
      else (this.(mutex := Spinning), Spins)
    }

    /** Restart, which needs the mutex: w has exited, and every sleeper in Stop is woken. */
    function Restart(w: Tid): Control
      requires mutex != Spinning
    {
      var c := this.(waiting := waiting - {w}, mutex := Free);
      if state == Blocked then c.(state := Running, wakedBy := w) else c
    }

    function Join(code: nat): Control { this.(state := Exited, exitCode := code) }
  }

  datatype Pass = Leaves | Sleeps | Spins

  function Started(): Control { Control(Running, {}, {}, 0, 0xFFFF, Free) }

  class ThreadControl {
    var state: RunState
    var waiting: set<Tid>
    var sleeped: set<Tid>
    var wakedBy: Tid
    var exitCode: nat
    var mutex: Mutex

    ghost function View(): Control
      reads this
    {
      Control(state, waiting, sleeped, wakedBy, exitCode, mutex)
    }

    constructor ()
      ensures View() == Started()
    {
      state, waiting, sleeped, wakedBy, exitCode, mutex := Running, {}, {}, 0, 0xFFFF, Free;
    }

    /** One pass of the loop, up to the wait on the condition variable. The lock is taken before the first pass and
        given up only by leaving or by waiting. */
    method StopPass() returns (pass: Pass)
      modifies this`state, this`mutex
      ensures (View(), pass) == old(View()).Stop()
    {
      if waiting == {} {
        mutex := Free;
        return Leaves;
      }
      if state == Running {
        state := Blocked;
        mutex := Asleep;
        return Sleeps;
      }
      mutex := Spinning;
      return Spins;
    }

    /** The caller gets the lock only when the native thread does not keep it. */
    method Restart(w: Tid)
      requires mutex != Spinning
      modifies this
      ensures View() == old(View()).Restart(w)
    {
      waiting := waiting - {w};
      mutex := Free;
      if state == Blocked {
        state := Running;
        wakedBy := w;
      }
    }

    method Join(code: nat)
      modifies this
      ensures View() == old(View()).Join(code)
    {
      exitCode := code;
      state := Exited;
    }
  }
}
