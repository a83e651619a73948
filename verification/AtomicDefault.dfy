/**
 The default implementation of the atomic interface, one call at a time.  The lock is the
 one that epicsAtomicLock and epicsAtomicUnlock share between all default atomics.
 */
module AtomicDefault {
  import opened AtomicSpec
  import opened Residues
  import opened Locks

  /** The object a pTarget points to. */
  class Target {
    const modulus: Modulus
    var bits: int

    constructor (modulus: Modulus, bits: int)
      requires 0 <= bits < modulus
      ensures Now() == Word(modulus, bits)
    {
      this.modulus := modulus;
      this.bits := bits;
    }

    function Now(): Word
      reads this
    {
      Word(modulus, bits)
    }
  }

  method AtomicIncr(target: Target, lock: Lock) returns (result: int)
    requires !lock.held
    modifies target, lock
    ensures !lock.held && Apply(old(target.Now()), Incr) == (target.Now(), Value(result))
    ensures target.bits == result == Wrap(old(target.bits) + 1, target.modulus)
  {
    lock.Acquire();
    target.bits := Wrap(target.bits + 1, target.modulus);
    result := target.bits;
    lock.Release();
  }

  method AtomicDecr(target: Target, lock: Lock) returns (result: int)
    requires !lock.held
    modifies target, lock
    ensures !lock.held && Apply(old(target.Now()), Decr) == (target.Now(), Value(result))
    ensures target.bits == result == Wrap(old(target.bits) - 1, target.modulus)
  {
    lock.Acquire();
    target.bits := Wrap(target.bits - 1, target.modulus);
    result := target.bits;
    lock.Release();
  }

  method AtomicAdd(target: Target, delta: int, lock: Lock) returns (result: int)
    requires !lock.held
    modifies target, lock
    ensures !lock.held && Apply(old(target.Now()), Add(delta)) == (target.Now(), Value(result))
    ensures target.bits == result == Wrap(old(target.bits) + delta, target.modulus)
  {
    lock.Acquire();
    target.bits := Wrap(target.bits + delta, target.modulus);
    result := target.bits;
    lock.Release();
  }

  method AtomicSub(target: Target, delta: int, lock: Lock) returns (result: int)
    requires !lock.held
    modifies target, lock
    ensures !lock.held && Apply(old(target.Now()), Sub(delta)) == (target.Now(), Value(result))
    ensures target.bits == result == Wrap(old(target.bits) - delta, target.modulus)
  {
    lock.Acquire();
    target.bits := Wrap(target.bits - delta, target.modulus);
    result := target.bits;
    lock.Release();
  }

  method AtomicCmpAndSwap(target: Target, oldval: int, newval: int, lock: Lock) returns (cur: int)
    requires !lock.held
    requires 0 <= oldval < target.modulus && 0 <= newval < target.modulus
    modifies target, lock
    ensures !lock.held && Apply(old(target.Now()), CompareAndSwap(oldval, newval)) == (target.Now(), Value(cur))
    ensures cur == old(target.bits) && target.bits == if cur == oldval then newval else cur
  {
    lock.Acquire();
    cur := target.bits;
    if cur == oldval {
      target.bits := newval;
    }
    lock.Release();
  }

  method AtomicSet(target: Target, newVal: int)
    requires 0 <= newVal < target.modulus
    modifies target
    ensures Apply(old(target.Now()), Set(newVal)) == (target.Now(), Unit) && target.bits == newVal
  {
    target.bits := newVal;
  }

  method AtomicGet(target: Target) returns (value: int)
    ensures Apply(target.Now(), Get) == (target.Now(), Value(value)) && value == target.bits
  {
    value := target.bits;
  }
}
