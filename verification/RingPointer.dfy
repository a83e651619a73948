/** The ring as the header writes it: an object whose operations run one at a time. */
module RingPointer {
  import opened RingSpec
  import opened Locks

  /** The C++ int. */
  newtype int32 = x: int | -0x8000_0000 <= x < 0x8000_0000

  const INT_MAX: int32 := 0x7fff_ffff

  class EpicsRingPointer {
    const lock: Lock?
    var nextPush: int32
    var nextPop: int32
    const size: int32
    const buffer: array<Pointer>

    /** The indices are in range, and the lock, if there is one, is free. */
    ghost predicate Valid()
      reads this, lock
    {
      && InRange(nextPush as int, nextPop as int, size as int) && buffer.Length == size as int
      && (lock != null ==> !lock.held)
    }

    /** The abstract value: the capacity asked for and the queued pointers. */
    ghost function Contents(): Queue
      requires Valid()
      reads this, lock, buffer
    {
      Queue(size as int - 1, Live(buffer[..], nextPush as int, nextPop as int, size as int))
    }

    constructor (sz: int32, locked: bool)
      requires 0 <= sz < INT_MAX
      ensures Valid() && Contents() == Queue(sz as int, [])
      ensures (lock != null) == locked && fresh(buffer) && (lock != null ==> fresh(lock))
    {
      var slots := new Pointer[(sz + 1) as int];
      var spin: Lock? := null;
      if locked {
        spin := new Lock();
      }
      lock := spin;
      nextPush := 0;
      nextPop := 0;
      size := sz + 1;
      buffer := slots;
    }

    method Push(p: Pointer) returns (ok: bool)
      requires Valid()
      modifies this, buffer, lock
      ensures Valid() && Apply(old(Contents()), Op.Push(p)) == (Contents(), Flag(ok))
      ensures ok == (|old(Contents()).items| < old(Contents()).cap)
      ensures Contents() == if ok then Queue(old(Contents()).cap, old(Contents()).items + [p]) else old(Contents())
    {
      if lock != null { lock.Acquire(); }
      var next := nextPush;
      var newNext := next + 1;
      if newNext >= size { newNext := 0; }
      IndicesAnswerForTheQueue(Op.GetUsed, buffer[..], nextPush as int, nextPop as int, size as int);
      if newNext == nextPop {
        if lock != null { lock.Release(); }
        return false;
      }
      TheSpareSlotIsFree(buffer[..], next as int, nextPop as int, size as int, p);
      PublishingAppends(buffer[..][next as int := p], next as int, nextPop as int, size as int);
      buffer[next] := p;
      nextPush := newNext;
      if lock != null { lock.Release(); }
      return true;
    }

    method Pop() returns (p: Pointer)
      requires Valid()
      modifies this, lock
      ensures Valid() && Apply(old(Contents()), Op.Pop) == (Contents(), Item(p))
      ensures old(Contents()).items == [] ==> p == 0 && Contents() == old(Contents())
      ensures old(Contents()).items != [] ==> old(Contents()) == Queue(Contents().cap, [p] + Contents().items)
    {
      ghost var slots := buffer[..];
      if lock != null { lock.Acquire(); }
      var next := nextPop;
      if next == nextPush {
        if lock != null { lock.Release(); }
        assert buffer[..] == slots;
        return 0;
      }
      p := buffer[next];
      AdvancingPops(slots, nextPush as int, next as int, size as int, p);
      next := next + 1;
      if next >= size { next := 0; }
      nextPop := next;
      if lock != null { lock.Release(); }
      assert buffer[..] == slots;
    }

    method Flush()
      requires Valid()
      modifies this, lock
      ensures Valid() && Apply(old(Contents()), Op.Flush) == (Contents(), Unit)
      ensures Contents() == Queue(old(Contents()).cap, [])
    {
      if lock != null { lock.Acquire(); }
      nextPop := 0;
      nextPush := 0;
      if lock != null { lock.Release(); }
    }

    method GetFree() returns (n: int32)
      requires Valid()
      modifies lock
      ensures Valid() && Contents() == old(Contents()) && n as int == Contents().cap - |Contents().items|
    {
      if lock != null { lock.Acquire(); }
      n := nextPop - nextPush - 1;
      if n < 0 { n := n + size; }
      if lock != null { lock.Release(); }
    }

    method GetUsed() returns (n: int32)
      requires Valid()
      modifies lock
      ensures Valid() && Contents() == old(Contents()) && n as int == |Contents().items|
    {
      if lock != null { lock.Acquire(); }
      n := nextPush - nextPop;
      if n < 0 { n := n + size; }
      if lock != null { lock.Release(); }
    }

    method GetSize() returns (n: int32)
      requires Valid()
      ensures n as int == Contents().cap && |Contents().items| <= n as int
    {
      n := size - 1;
    }

    method IsEmpty() returns (empty: bool)
      requires Valid()
      modifies lock
      ensures Valid() && Contents() == old(Contents()) && empty == (Contents().items == [])
    {
      if lock != null { lock.Acquire(); }
      empty := nextPush == nextPop;
      if lock != null { lock.Release(); }
    }

    method IsFull() returns (full: bool)
      requires Valid()
      modifies lock
      ensures Valid() && Contents() == old(Contents()) && full == (|Contents().items| == Contents().cap)
    {
      if lock != null { lock.Acquire(); }
      var count := nextPush - nextPop + 1;
      if lock != null { lock.Release(); }
      full := count == 0 || count == size;
    }
  }
}
