/** The bounded queue of pointers that the ring promises, and the index arithmetic that stores it. */
module RingSpec {

  /** The address of a T; 0 is the null pointer. */
  type Pointer = nat

  datatype Op = Push(p: Pointer) | Pop | Flush | GetFree | GetUsed | IsEmpty | IsFull
  {
    /** The operations that only look at the two indices. */
    predicate Observer() {
      GetFree? || GetUsed? || IsEmpty? || IsFull?
    }
  }

  datatype Ret = Flag(yes: bool) | Item(p: Pointer) | Count(n: int) | Unit

  datatype Queue = Queue(cap: int, items: seq<Pointer>)

  /** The sequential bounded queue. */
  function Apply(q: Queue, op: Op): (Queue, Ret)
  {
    match op
    case Push(p) =>
      if |q.items| < q.cap then (q.(items := q.items + [p]), Flag(true)) else (q, Flag(false))
    case Pop =>
      if q.items == [] then (q, Item(0)) else (q.(items := q.items[1..]), Item(q.items[0]))
    case Flush => (q.(items := []), Unit)
    case GetFree => (q, Count(q.cap - |q.items|))
    case GetUsed => (q, Count(|q.items|))
    case IsEmpty => (q, Flag(|q.items| == 0))
    case IsFull => (q, Flag(|q.items| == q.cap))
  }

  // Index arithmetic, as the inline functions compute it

  /** The index after i: increment, and back to 0 at the end of the buffer. */
  function Succ(i: int, size: int): int
  {
    if i + 1 >= size then 0 else i + 1
  }

  /** What an observer answers from the two index values it has read. */
  function Answer(op: Op, push: int, pop: int, size: int): Ret
    requires op.Observer()
  {
    match op
    case GetFree => var n := pop - push - 1; Count(if n < 0 then n + size else n)
    case GetUsed => var n := push - pop; Count(if n < 0 then n + size else n)
    case IsEmpty => Flag(push == pop)
    case IsFull => var count := push - pop + 1; Flag(count == 0 || count == size)
  }

  predicate InRange(push: int, pop: int, size: int)
  {
    0 <= push < size && 0 <= pop < size
  }

  /** The indices and the buffer of a ring of the given size, one slot of which stays spare. */
  predicate Shape(buffer: seq<Pointer>, push: int, pop: int, size: int)
  {
    InRange(push, pop, size) && |buffer| == size
  }

  /** The queued pointers: the slots from nextPop up to, not including, nextPush, around the end. */
  function Live(buffer: seq<Pointer>, push: int, pop: int, size: int): seq<Pointer>
    requires Shape(buffer, push, pop, size)
  {
    if pop <= push then buffer[pop..push] else buffer[pop..] + buffer[..push]
  }

  /** The code's own index formulas count the free slots and the queued pointers, and tell empty and full. */
  lemma IndicesCountTheQueue(buffer: seq<Pointer>, push: int, pop: int, size: int)
    requires Shape(buffer, push, pop, size)
    ensures Answer(GetFree, push, pop, size) == Count(size - 1 - |Live(buffer, push, pop, size)|)
    ensures Answer(GetUsed, push, pop, size) == Count(|Live(buffer, push, pop, size)|)
    ensures Answer(IsEmpty, push, pop, size) == Flag(Live(buffer, push, pop, size) == [])
    ensures Answer(IsFull, push, pop, size) == Flag(|Live(buffer, push, pop, size)| == size - 1)
  {
  }

  /** So they answer exactly what the sequential queue answers, for every wrap-around. */
  lemma IndicesAnswerForTheQueue(op: Op, buffer: seq<Pointer>, push: int, pop: int, size: int)
    requires Shape(buffer, push, pop, size) && op.Observer()
    ensures Apply(Queue(size - 1, Live(buffer, push, pop, size)), op).1 == Answer(op, push, pop, size)
    ensures |Live(buffer, push, pop, size)| <= size - 1
    ensures Live(buffer, push, pop, size) == [] <==> push == pop
    ensures (|Live(buffer, push, pop, size)| == size - 1) <==> (Succ(push, size) == pop)
  {
  }

  /** Storing a pointer in the slot at nextPush and then moving nextPush appends it. */
  lemma PublishingAppends(buffer: seq<Pointer>, push: int, pop: int, size: int)
    requires Shape(buffer, push, pop, size) && Succ(push, size) != pop
    ensures Live(buffer, Succ(push, size), pop, size) == Live(buffer, push, pop, size) + [buffer[push]]
  {
  }

  /** Moving nextPop drops the head, which is the slot it pointed to. */
  lemma AdvancingDropsTheHead(buffer: seq<Pointer>, push: int, pop: int, size: int)
    requires Shape(buffer, push, pop, size) && push != pop
    ensures |Live(buffer, push, pop, size)| > 0 && Live(buffer, push, pop, size)[0] == buffer[pop]
    ensures Live(buffer, push, pop, size)[1..] == Live(buffer, push, Succ(pop, size), size)
  {
  }

  lemma AdvancingPops(buffer: seq<Pointer>, push: int, pop: int, size: int, p: Pointer)
    requires Shape(buffer, push, pop, size) && push != pop && p == buffer[pop]
    ensures Apply(Queue(size - 1, Live(buffer, push, pop, size)), Pop)
         == (Queue(size - 1, Live(buffer, push, Succ(pop, size), size)), Item(p))
  {
    AdvancingDropsTheHead(buffer, push, pop, size);
  }

  /** The slot at nextPush is not part of the queue, so a store to it changes nothing. */
  lemma TheSpareSlotIsFree(buffer: seq<Pointer>, push: int, pop: int, size: int, p: Pointer)
    requires Shape(buffer, push, pop, size)
    ensures Live(buffer[push := p], push, pop, size) == Live(buffer, push, pop, size)
  {
  }
}
