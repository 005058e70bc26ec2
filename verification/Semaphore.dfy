/** The hand-off semaphore: V gives its permit straight to a waiting thread. */
module Semaphores {

  /** value and waiting as in the code; taken and given count the calls of P begun and of V. */
  datatype Sem = Sem(value: int, waiting: nat, taken: nat, given: nat) {
    /** P: whether the caller has to wait to be woken. */
    function P(): (Sem, bool) {
      if value <= 0 then (Sem(value, waiting + 1, taken + 1, given), true)
      else (Sem(value - 1, waiting, taken + 1, given), false)
    }

    /** V: whether a waiting thread is woken instead of raising the value. */
    function V(): (Sem, bool) {
      if waiting > 0 then (Sem(value, waiting - 1, taken, given + 1), true)
      else (Sem(value + 1, waiting, taken, given + 1), false)
    }

    /** The accounting every call keeps, for an initial value. */
    predicate Balanced(initial: nat) {
      value >= 0 && value - waiting == initial + given - taken && (value == 0 || waiting == 0)
    }
  }

  function Fresh(initial: nat): Sem { Sem(initial, 0, 0, 0) }

  lemma CallsKeepBalance(s: Sem, initial: nat)
    requires s.Balanced(initial)
    ensures s.P().0.Balanced(initial) && s.V().0.Balanced(initial)
    ensures s.P().1 <==> s.value == 0
  {
  }

  /** The critical sections of P and V. A caller told to wait is inside cond.wait until it is notified. */
  class Semaphore {
    var value: int
    var waiting: nat
    ghost var taken: nat
    ghost var given: nat

    ghost function State(): Sem
      reads this
    {
      Sem(value, waiting, taken, given)
    }

    constructor (initial: nat)
      ensures State() == Fresh(initial) && State().Balanced(initial)
    {
      value, waiting, taken, given := initial, 0, 0, 0;
    }

    method P() returns (wait: bool)
      modifies this
      ensures (State(), wait) == old(State()).P()
    {
      taken := taken + 1;
      if value <= 0 {
        waiting := waiting + 1;
        return true;
      }
      value := value - 1;
      return false;
    }

    method V() returns (wake: bool)
      modifies this
      ensures (State(), wake) == old(State()).V()
    {
      given := given + 1;
      if waiting > 0 {
        waiting := waiting - 1;
        return true;
      }
      value := value + 1;
      return false;
    }
  }
}
