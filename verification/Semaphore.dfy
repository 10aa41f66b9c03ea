// The semaphore of Pintos/threads/synch.c, for the protocols that use it.
module Semaphore {

  type Tid = nat

  datatype Sema = Sema(value: nat, waiters: seq<Tid>)

  /** sema_down while the value is 0: the thread joins the waiters and blocks. */
  function Wait(s: Sema, t: Tid): Sema { s.(waiters := s.waiters + [t]) }

  /** sema_down once the value is positive. */
  function Down(s: Sema): Sema
    requires s.value > 0
  {
    s.(value := s.value - 1)
  }

  /** sema_up: the first waiter is unblocked; it will test the value again. */
  function Up(s: Sema): Sema {
    Sema(s.value + 1, if s.waiters == [] then [] else s.waiters[1..])
  }
}
