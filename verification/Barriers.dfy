/** The POSIX barrier both thread programs synchronise on. */
module Barriers {

  /** The arrival that completes `count` starts the next generation; a waiter leaves once
      the generation it arrived in is over. */
  datatype Barrier = Barrier(count: nat, arrived: nat, generation: nat) {
    function Arrive(): Barrier {
      if arrived + 1 == count then Barrier(count, 0, generation + 1)
      else Barrier(count, arrived + 1, generation)
    }
  }
}
