/** The lock that guards one object: a spinlock of a ring, or the mutex of the default atomics. */
module Locks {

  class Lock {
    var held: bool

    constructor ()
      ensures !held
    {
      held := false;
    }

    method Acquire()
      requires !held
      modifies this
      ensures held
    {
      held := true;
    }

    method Release()
      requires held
      modifies this
      ensures !held
    {
      held := false;
    }
  }
}
