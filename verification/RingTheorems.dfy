/** What the interleaved ring guarantees over whole runs. */
module RingTheorems {
  import opened Wrappers
  import opened Linearizability
  import opened RingSpec
  import opened RingMachine

  // Linearizability, with the lock for any number of threads and without it for one writer and one reader

  ghost function AbsRun(ss: seq<Ring>): (run: seq<Atomic<Queue, Op, Ret>>)
    requires forall i :: 0 <= i < |ss| ==> Inv(ss[i])
    ensures |run| == |ss| && forall i :: 0 <= i < |ss| ==> run[i] == Abs(ss[i])
  {
    seq(|ss|, i requires 0 <= i < |ss| => Abs(ss[i]))
  }

  lemma RunRefines(ss: seq<Ring>, ls: seq<Label<Op, Ret>>, sz: nat, n: nat)
    requires Run(ss, ls, sz, n)
    ensures forall i :: 0 <= i < |ss| ==> Inv(ss[i]) && ss[i].size == sz + 1 && |ss[i].pcs| == n
    ensures forall i :: 0 <= i < |ss| ==> ss[i].locked == ss[0].locked
    ensures forall i :: 0 <= i < |ss| ==> ss[i].producer == ss[0].producer && ss[i].consumer == ss[0].consumer
    ensures AtomicRun(Apply, AbsRun(ss), ls) && Abs(ss[0]).value == Queue(sz, [])
  {
    forall i | 0 <= i < |ss|
      ensures Inv(ss[i]) && ss[i].size == sz + 1 && |ss[i].pcs| == n && ss[i].locked == ss[0].locked
      ensures ss[i].producer == ss[0].producer && ss[i].consumer == ss[0].consumer
    {
      ReachableInv(ss, ls, sz, n, i);
    }
    forall i | 0 <= i < |ls|
      ensures StepsAt(Apply, AbsRun(ss), ls, i)
    {
      assert NextAt(ss, ls, i);
      NextRefines(ss[i], ls[i], ss[i + 1]);
    }
  }

  /** Every history of the ring is a history of the atomic bounded queue. */
  lemma RingIsLinearizable(ss: seq<Ring>, ls: seq<Label<Op, Ret>>, sz: nat, n: nat)
    requires Run(ss, ls, sz, n)
    ensures Linearizable(Apply, Queue(sz, []), ls)
  {
    RunRefines(ss, ls, sz, n);
  }

  /** A step of thread t that is not a new call. */
  ghost predicate Progress(s: Ring, t: nat, l: Label<Op, Ret>, s': Ring) {
    Next(s, l, s') && l.t == t && !l.Call?
  }

  ghost predicate CanProceed(s: Ring, t: nat) {
    exists l, s' :: Progress(s, t, l, s')
  }

  /** A thread can always take its next step, except while it waits for a lock that another one holds. */
  lemma ProceedsUnlessWaiting(s: Ring, t: nat)
    requires Inv(s) && t < |s.pcs| && s.pcs[t] != Out
    ensures CanProceed(s, t) <==> !(s.locked && s.pcs[t].Enter? && s.holder.Some?)
  {
    assert Local(s, t);
    var next :=
      match s.pcs[t]
      case Enter(op) => s.At(t, Begin(op)).(holder := if s.locked then Some(t) else s.holder)
      case PushRead(p) => s.At(t, PushTest(p, s.nextPush))
      case PushTest(p, next) =>
        s.At(t, if Succ(next, s.size) == s.nextPop then Leave(Push(p), Flag(false))
                else PushStore(p, next, Succ(next, s.size)))
      case PushStore(p, next, newNext) => s.At(t, PushPublish(p, newNext)).(buffer := s.buffer[next := p])
      case PushPublish(p, newNext) => s.At(t, Leave(Push(p), Flag(true))).(nextPush := newNext)
      case PopRead => s.At(t, PopTest(s.nextPop))
      case PopTest(next) => s.At(t, if next == s.nextPush then Leave(Pop, Item(0)) else PopLoad(next))
      case PopLoad(next) => s.At(t, PopPublish(Succ(next, s.size), s.buffer[next]))
      case PopPublish(newNext, p) => s.At(t, Leave(Pop, Item(p))).(nextPop := newNext)
      case FlushPop => s.At(t, FlushPush).(nextPop := 0)
      case FlushPush => s.At(t, Leave(Flush, Unit)).(nextPush := 0)
      case Observe(op) => s.At(t, SawPush(op, s.nextPush))
      case SawPush(op, v) => s.At(t, Leave(op, Answer(op, v, s.nextPop, s.size)))
      case SawPop(op, v) => s.At(t, Leave(op, Answer(op, s.nextPush, v, s.size)))
      case Leave(op, ret) => s.At(t, Back(op, ret)).(holder := if s.locked then None else s.holder)
      case Back(_, _) => s.At(t, Out)
      case Out => s;
    var l := match s.pcs[t] case Back(op, ret) => Return(t, op, ret) case _ => Internal(t);
    if !(s.locked && s.pcs[t].Enter? && s.holder.Some?) {
      assert Progress(s, t, l, next);
    }
  }

  /** With the lock any idle thread may make any call; without it, one thread pushes, one pops, both observe. */
  lemma IdleThreadsMayCall(s: Ring, t: nat, op: Op)
    requires t < |s.pcs| && s.pcs[t] == Out
    ensures (exists s' :: Next(s, Call(t, op), s')) <==>
              s.locked || (t == s.producer && (op.Push? || op.Observer()))
                       || (t == s.consumer && (op.Pop? || op.Observer()))
  {
    if s.Allowed(t, op) {
      assert Next(s, Call(t, op), s.At(t, Enter(op)));
    }
  }

  /** Nobody ever waits for good: while any call is pending, some caller can take a step. */
  lemma SomeCallerProceeds(s: Ring, t: nat)
    requires Inv(s) && t < |s.pcs| && s.pcs[t] != Out
    ensures exists u: nat :: u < |s.pcs| && s.pcs[u] != Out && CanProceed(s, u)
    ensures !s.locked ==> CanProceed(s, t)
  {
    ProceedsUnlessWaiting(s, t);
    if s.holder.Some? {
      var h := s.holder.value;
      assert s.pcs[h].Inside();
      ProceedsUnlessWaiting(s, h);
    }
  }

  /** The lock is free on every return path: a thread outside the critical section does not hold it. */
  lemma LockIsReturned(ss: seq<Ring>, ls: seq<Label<Op, Ret>>, sz: nat, n: nat, k: nat)
    requires Run(ss, ls, sz, n) && k < |ls| && ls[k].Return?
    ensures |ss[k + 1].pcs| == n && ss[k + 1].holder != Some(ls[k].t)
    ensures ss[k + 1].holder.Some? ==> ss[k + 1].holder.value < n && ss[k + 1].pcs[ss[k + 1].holder.value].Inside()
  {
    RunRefines(ss, ls, sz, n);
    assert NextAt(ss, ls, k);
    assert !ss[k + 1].pcs[ls[k].t].Inside();
  }

  // The unlocked ring: slots

  /**
   The slot about to be stored and the slot about to be loaded are different, and a pointer
   that has been loaded is still the head of the queue when nextPop is stored.
   */
  lemma SlotsAreExclusive(ss: seq<Ring>, ls: seq<Label<Op, Ret>>, sz: nat, n: nat, k: nat, t: nat, u: nat)
    requires Run(ss, ls, sz, n) && k < |ss| && t < n && u < n
    ensures |ss[k].pcs| == n && Shape(ss[k].buffer, ss[k].nextPush, ss[k].nextPop, ss[k].size)
    ensures ss[k].pcs[t].PushStore? && ss[k].pcs[u].PopLoad? ==> ss[k].pcs[t].next != ss[k].pcs[u].next
    ensures ss[k].pcs[t].PushStore? && ss[k].pcs[u].PopPublish? ==> ss[k].pcs[t].next != ss[k].nextPop
    ensures ss[k].pcs[u].PopPublish? ==>
              var items := Live(ss[k].buffer, ss[k].nextPush, ss[k].nextPop, ss[k].size);
              items != [] && items[0] == ss[k].pcs[u].p
    ensures ss[k].pcs[t].PushStore? && ss[k].pcs[u].PushStore? ==> t == u
    ensures ss[k].pcs[t].PopPublish? && ss[k].pcs[u].PopPublish? ==> t == u
  {
    RunRefines(ss, ls, sz, n);
    var s := ss[k];
    assert Local(s, t) && Local(s, u);
    if s.pcs[u].PopPublish? {
      AdvancingDropsTheHead(s.buffer, s.nextPush, s.nextPop, s.size);
    }
    assert s.locked ==> (s.pcs[t].Inside() <==> s.holder == Some(t));
    assert s.locked ==> (s.pcs[u].Inside() <==> s.holder == Some(u));
  }

  // First in, first out

  /** The pointers other than null, which a popping client cannot tell from an empty ring. */
  ghost function Real(items: seq<Pointer>): seq<Pointer> {
    if items == [] then []
    else Real(items[..|items| - 1]) + if items[|items| - 1] == 0 then [] else [items[|items| - 1]]
  }

  lemma {:induction false} RealSplitsAtTheHead(items: seq<Pointer>)
    requires items != []
    ensures Real(items) == Real([items[0]]) + Real(items[1..])
  {
    if |items| == 1 {
      assert items == [items[0]] && items[1..] == [];
    } else {
      var front, last := items[..|items| - 1], items[|items| - 1];
      RealSplitsAtTheHead(front);
      assert items[1..][..|items| - 2] == front[1..] && items[1..][|items| - 2] == last;
      assert Real(items[1..]) == Real(front[1..]) + if last == 0 then [] else [last];
      assert front[0] == items[0];
    }
  }

  lemma {:induction false} RealKeepsRealPointers(items: seq<Pointer>)
    requires forall i :: 0 <= i < |items| ==> items[i] != 0
    ensures Real(items) == items
  {
    if items != [] {
      RealKeepsRealPointers(items[..|items| - 1]);
    }
  }

  /** The pointer whose push returns true at this label. */
  ghost function SentBy(l: Label<Op, Ret>): seq<Pointer> {
    match l
    case Return(_, Push(p), Flag(true)) => Real([p])
    case _ => []
  }

  /** The pointer that a pop returns at this label. */
  ghost function ReceivedBy(l: Label<Op, Ret>): seq<Pointer> {
    match l
    case Return(_, Pop, Item(p)) => Real([p])
    case _ => []
  }

  /** The pointers whose push has returned true in the first k steps, oldest first. */
  ghost function Sent(ls: seq<Label<Op, Ret>>, k: nat): seq<Pointer>
    requires k <= |ls|
  {
    if k == 0 then [] else Sent(ls, k - 1) + SentBy(ls[k - 1])
  }

  /** The pointers that pop has returned in the first k steps, oldest first. */
  ghost function Received(ls: seq<Label<Op, Ret>>, k: nat): seq<Pointer>
    requires k <= |ls|
  {
    if k == 0 then [] else Received(ls, k - 1) + ReceivedBy(ls[k - 1])
  }

  /** A push that has put its pointer in the queue and not returned yet. */
  ghost function Sending(a: Atomic<Queue, Op, Ret>, producer: nat): seq<Pointer> {
    if producer < |a.phases| then
      match a.phases[producer] case Done(Push(p), Flag(true)) => Real([p]) case _ => []
    else []
  }

  /** A pop that has taken its pointer out of the queue and not returned yet. */
  ghost function Receiving(a: Atomic<Queue, Op, Ret>, consumer: nat): seq<Pointer> {
    if consumer < |a.phases| then
      match a.phases[consumer] case Done(Pop, Item(p)) => Real([p]) case _ => []
    else []
  }

  /** One thread pushes, one pops, nobody flushes. */
  ghost predicate Roles(op: Op, t: nat, producer: nat, consumer: nat) {
    (op.Push? ==> t == producer) && (op.Pop? ==> t == consumer) && !op.Flush?
  }

  ghost predicate CallsFollowRoles(ls: seq<Label<Op, Ret>>, producer: nat, consumer: nat) {
    forall i :: 0 <= i < |ls| && ls[i].Call? ==> Roles(ls[i].op, ls[i].t, producer, consumer)
  }

  ghost predicate OnlyRealPointers(ls: seq<Label<Op, Ret>>) {
    forall i :: 0 <= i < |ls| && ls[i].Call? && ls[i].op.Push? ==> ls[i].op.p != 0
  }

  ghost predicate PendingFollowRoles(a: Atomic<Queue, Op, Ret>, producer: nat, consumer: nat) {
    forall t :: 0 <= t < |a.phases| && !a.phases[t].Idle? ==> Roles(a.phases[t].op, t, producer, consumer)
  }

  ghost predicate PendingRealPointers(a: Atomic<Queue, Op, Ret>) {
    && (forall t :: 0 <= t < |a.phases| && !a.phases[t].Idle? && a.phases[t].op.Push? ==> a.phases[t].op.p != 0)
    && (forall i :: 0 <= i < |a.value.items| ==> a.value.items[i] != 0)
  }

  lemma {:induction false} RolesPersist(run: seq<Atomic<Queue, Op, Ret>>, ls: seq<Label<Op, Ret>>,
                                        producer: nat, consumer: nat, k: nat)
    requires AtomicRun(Apply, run, ls) && CallsFollowRoles(ls, producer, consumer) && k <= |ls|
    ensures PendingFollowRoles(run[k], producer, consumer)
    ensures run[k].value.cap == run[0].value.cap
    ensures |run[0].value.items| <= run[0].value.cap ==> |run[k].value.items| <= run[0].value.cap
  {
    if k > 0 {
      RolesPersist(run, ls, producer, consumer, k - 1);
      assert StepsAt(Apply, run, ls, k - 1);
    }
  }

  lemma {:induction false} RealPointersPersist(run: seq<Atomic<Queue, Op, Ret>>, ls: seq<Label<Op, Ret>>, k: nat)
    requires AtomicRun(Apply, run, ls) && OnlyRealPointers(ls) && k <= |ls| && run[0].value.items == []
    ensures PendingRealPointers(run[k])
  {
    if k > 0 {
      RealPointersPersist(run, ls, k - 1);
      assert StepsAt(Apply, run, ls, k - 1);
    }
  }

  /** A call or return passes a pointer from the pending call to the client, or nothing. */
  lemma ReturnsHandOver(a: Atomic<Queue, Op, Ret>, l: Label<Op, Ret>, a': Atomic<Queue, Op, Ret>,
                        producer: nat, consumer: nat)
    requires AtomicStep(Apply, a, l, a') && PendingFollowRoles(a, producer, consumer) && !l.Internal?
    ensures a'.value == a.value
    ensures SentBy(l) + Sending(a', producer) == Sending(a, producer)
    ensures ReceivedBy(l) + Receiving(a', consumer) == Receiving(a, consumer)
  {
    assert l.Return? ==> Roles(l.op, l.t, producer, consumer);
  }

  /** One step of the accounting: a pointer moves on, or nothing does. */
  lemma PointersMoveOn(a: Atomic<Queue, Op, Ret>, l: Label<Op, Ret>, a': Atomic<Queue, Op, Ret>,
                       producer: nat, consumer: nat, sent: seq<Pointer>, received: seq<Pointer>)
    requires AtomicStep(Apply, a, l, a') && PendingFollowRoles(a, producer, consumer)
    requires sent + Sending(a, producer) == received + Receiving(a, consumer) + Real(a.value.items)
    ensures sent + SentBy(l) + Sending(a', producer)
         == received + ReceivedBy(l) + Receiving(a', consumer) + Real(a'.value.items)
  {
    if !l.Internal? {
      ReturnsHandOver(a, l, a', producer, consumer);
      Regroup(sent, SentBy(l), Sending(a', producer));
      Regroup(received, ReceivedBy(l), Receiving(a', consumer));
    } else {
      assert SentBy(l) == [] && ReceivedBy(l) == [];
      if a' == a {
        Regroup(sent, [], Sending(a, producer));
        Regroup(received, [], Receiving(a, consumer));
      } else {
        EffectMovesOnePointer(a, l.t, a', producer, consumer);
        var put := if Sending(a, producer) == [] then Sending(a', producer) else [];
        var got := if Receiving(a, consumer) == [] then Receiving(a', consumer) else [];
        assert Sending(a', producer) == Sending(a, producer) + put;
        assert Receiving(a', consumer) == Receiving(a, consumer) + got;
        Rebalance(sent, Sending(a, producer), put, received, Receiving(a, consumer), got,
                  Real(a.value.items), Real(a'.value.items));
      }
    }
  }

  lemma Regroup<T>(a: seq<T>, b: seq<T>, c: seq<T>)
    ensures a + b + c == a + (b + c)
    ensures b == [] ==> a + b + c == a + c
  {
  }

  lemma Rebalance<T>(sent: seq<T>, sending: seq<T>, put: seq<T>, received: seq<T>, receiving: seq<T>, got: seq<T>,
                     items: seq<T>, items': seq<T>)
    requires sent + sending == received + receiving + items && items + put == got + items'
    ensures sent + [] + (sending + put) == received + [] + (receiving + got) + items'
  {
    calc {
      sent + [] + (sending + put);
      (sent + sending) + put;
      received + receiving + (items + put);
      received + [] + (receiving + got) + items';
    }
  }

  lemma EffectMovesOnePointer(a: Atomic<Queue, Op, Ret>, t: nat, a': Atomic<Queue, Op, Ret>,
                              producer: nat, consumer: nat)
    requires Linearizes(Apply, a, t, a') && PendingFollowRoles(a, producer, consumer)
    ensures Sending(a, producer) == [] || Sending(a', producer) == Sending(a, producer)
    ensures Receiving(a, consumer) == [] || Receiving(a', consumer) == Receiving(a, consumer)
    ensures Real(a.value.items) + (if Sending(a, producer) == [] then Sending(a', producer) else [])
         == (if Receiving(a, consumer) == [] then Receiving(a', consumer) else []) + Real(a'.value.items)
  {
    assert Roles(a.phases[t].op, t, producer, consumer);
    match a.phases[t].op
    case Push(p) =>
      if |a.value.items| < a.value.cap {
        assert (a.value.items + [p])[..|a.value.items|] == a.value.items && [p][..0] == [];
        assert Real(a.value.items + [p]) == Real(a.value.items) + Real([p]);
        assert Sending(a', producer) == Real([p]) && Receiving(a', consumer) == Receiving(a, consumer);
      }
    case Pop =>
      if a.value.items != [] {
        RealSplitsAtTheHead(a.value.items);
      }
    case _ =>
  }

  /** What has been sent is what has been received followed by what is queued, in that order. */
  lemma {:induction false} SentIsReceivedThenQueued(run: seq<Atomic<Queue, Op, Ret>>, ls: seq<Label<Op, Ret>>,
                                                    producer: nat, consumer: nat, k: nat)
    requires AtomicRun(Apply, run, ls) && k <= |ls| && run[0].value.items == []
    requires CallsFollowRoles(ls, producer, consumer)
    ensures Sent(ls, k) + Sending(run[k], producer)
         == Received(ls, k) + Receiving(run[k], consumer) + Real(run[k].value.items)
  {
    if k > 0 {
      SentIsReceivedThenQueued(run, ls, producer, consumer, k - 1);
      RolesPersist(run, ls, producer, consumer, k - 1);
      assert StepsAt(Apply, run, ls, k - 1);
      PointersMoveOn(run[k - 1], ls[k - 1], run[k], producer, consumer, Sent(ls, k - 1), Received(ls, k - 1));
      assert Sent(ls, k) == Sent(ls, k - 1) + SentBy(ls[k - 1]);
      assert Received(ls, k) == Received(ls, k - 1) + ReceivedBy(ls[k - 1]);
    }
  }

  lemma CallsFollowRolesWithoutLock(ss: seq<Ring>, ls: seq<Label<Op, Ret>>, sz: nat, n: nat)
    requires Run(ss, ls, sz, n) && !ss[0].locked
    ensures CallsFollowRoles(ls, ss[0].producer, ss[0].consumer)
  {
    RunRefines(ss, ls, sz, n);
    forall i | 0 <= i < |ls| && ls[i].Call?
      ensures Roles(ls[i].op, ls[i].t, ss[0].producer, ss[0].consumer)
    {
      assert NextAt(ss, ls, i);
    }
  }

  /**
   The unlocked ring delivers in order, in every interleaving: the pointers pushed are the pointers
   popped followed by the live slots, and at most size - 1 slots are live.
   */
  lemma UnlockedRingIsFifo(ss: seq<Ring>, ls: seq<Label<Op, Ret>>, sz: nat, n: nat, k: nat)
    requires Run(ss, ls, sz, n) && !ss[0].locked && k <= |ls|
    ensures Inv(ss[k]) && Value(ss[k]).items == Live(ss[k].buffer, ss[k].nextPush, ss[k].nextPop, ss[k].size)
    ensures |Value(ss[k]).items| <= sz
    ensures Sent(ls, k) + Sending(Abs(ss[k]), ss[0].producer)
         == Received(ls, k) + Receiving(Abs(ss[k]), ss[0].consumer) + Real(Value(ss[k]).items)
    ensures Received(ls, k) <= Sent(ls, k) + Sending(Abs(ss[k]), ss[0].producer)
    ensures OnlyRealPointers(ls) ==> Real(Value(ss[k]).items) == Value(ss[k]).items
  {
    RunRefines(ss, ls, sz, n);
    CallsFollowRolesWithoutLock(ss, ls, sz, n);
    RolesPersist(AbsRun(ss), ls, ss[0].producer, ss[0].consumer, k);
    SentIsReceivedThenQueued(AbsRun(ss), ls, ss[0].producer, ss[0].consumer, k);
    if OnlyRealPointers(ls) {
      RealPointersPersist(AbsRun(ss), ls, k);
      RealKeepsRealPointers(Value(ss[k]).items);
    }
  }

  // Failures are honest

  lemma HonestAtItsEffect(run: seq<Atomic<Queue, Op, Ret>>, ls: seq<Label<Op, Ret>>, c: nat, j: nat, k: nat)
    requires TookEffectAt(Apply, run, ls, c, j, k) && |run[j].value.items| <= run[j].value.cap
    ensures ls[k].op.Push? ==> (ls[k].ret == Flag(false) <==> |run[j].value.items| == run[j].value.cap)
    ensures ls[k].op.Pop? && PendingRealPointers(run[j]) ==> (ls[k].ret == Item(0) <==> run[j].value.items == [])
  {
  }

  /**
   push returns false exactly when the queue was full, and, where nobody pushes null, pop returns
   null exactly when it was empty, at one instant during the call.
   */
  lemma FailuresAreHonest(ss: seq<Ring>, ls: seq<Label<Op, Ret>>, sz: nat, n: nat, k: nat)
    requires Run(ss, ls, sz, n) && k < |ls| && ls[k].Return?
    ensures forall i :: 0 <= i < |ss| ==> Inv(ss[i])
    ensures exists c: nat, j: nat :: TookEffectAt(Apply, AbsRun(ss), ls, c, j, k)
              && (ls[k].op.Push? ==> (ls[k].ret == Flag(false) <==> |Value(ss[j]).items| == sz))
              && (ls[k].op.Pop? && OnlyRealPointers(ls) ==> (ls[k].ret == Item(0) <==> Value(ss[j]).items == []))
  {
    RunRefines(ss, ls, sz, n);
    var run := AbsRun(ss);
    AnswersTakeEffectInsideTheCall(Apply, run, ls, k);
    var c: nat, j: nat :| TookEffectAt(Apply, run, ls, c, j, k) && EntersOrderAt(run, ls, j, k);
    if OnlyRealPointers(ls) {
      RealPointersPersist(run, ls, j);
    }
    assert Inv(ss[j]) && run[j].value == Value(ss[j]) && Value(ss[j]).cap == sz;
    QueueFits(ss[j]);
    HonestAtItsEffect(run, ls, c, j, k);
  }

  lemma QueueFits(s: Ring)
    requires Inv(s)
    ensures |Value(s).items| <= s.size - 1 == Value(s).cap
  {
  }

  // Every answer describes the ring

  /** items is what a ring with room for cap pointers holds when op answers ret, and items' what op leaves. */
  ghost predicate Describes(cap: int, items: seq<Pointer>, op: Op, ret: Ret, items': seq<Pointer>)
  {
    && (op.Push? ==> ret == Flag(|items| != cap) && items' == items + if |items| == cap then [] else [op.p])
    && (op.Pop? ==> ret.Item? && if items == [] then ret.p == 0 && items' == [] else items == [ret.p] + items')
    && (op.Flush? ==> ret == Unit && items' == [])
    && (op.GetFree? ==> ret.Count? && ret.n + |items| == cap)
    && (op.GetUsed? ==> ret.Count? && ret.n == |items|)
    && (op.IsEmpty? ==> ret.Flag? && (ret.yes <==> items == []))
    && (op.IsFull? ==> ret.Flag? && (ret.yes <==> |items| == cap))
    && (op.Observer() ==> items' == items)
  }

  lemma SpecificationDescribes(q: Queue, op: Op)
    requires |q.items| <= q.cap
    ensures Apply(q, op).0.cap == q.cap && Describes(q.cap, q.items, op, Apply(q, op).1, Apply(q, op).0.items)
  {
  }

  /**
   Every call that returns, of any thread and with or without the lock, has one step inside it at which
   its answer is the truth about the live slots, and which changes them as the operation promises.
   */
  lemma AnswersDescribeTheRing(ss: seq<Ring>, ls: seq<Label<Op, Ret>>, sz: nat, n: nat, k: nat)
    requires Run(ss, ls, sz, n) && k < |ls| && ls[k].Return?
    ensures forall i :: 0 <= i < |ss| ==> Inv(ss[i])
    ensures exists c: nat, j: nat :: TookEffectAt(Apply, AbsRun(ss), ls, c, j, k)
              && Describes(sz, Value(ss[j]).items, ls[k].op, ls[k].ret, Value(ss[j + 1]).items)
  {
    RunRefines(ss, ls, sz, n);
    var run := AbsRun(ss);
    AnswersTakeEffectInsideTheCall(Apply, run, ls, k);
    var c: nat, j: nat :| TookEffectAt(Apply, run, ls, c, j, k) && EntersOrderAt(run, ls, j, k);
    assert Inv(ss[j]) && run[j].value == Value(ss[j]) && Value(ss[j]).cap == sz;
    assert Inv(ss[j + 1]) && run[j + 1].value == Value(ss[j + 1]);
    QueueFits(ss[j]);
    SpecificationDescribes(Value(ss[j]), ls[k].op);
  }

  /** The two tests themselves: what they see is the state of the queue when the other side's index is read. */
  lemma TestsSeeTheQueue(s: Ring, t: nat, s': Ring)
    requires Inv(s) && t < |s.pcs| && Micro(s, t, s')
    ensures s.pcs[t].PushTest? ==> (s'.pcs[t].Leave? <==> |Value(s).items| == s.size - 1)
    ensures s.pcs[t].PopTest? ==> (s'.pcs[t].Leave? <==> Value(s).items == [])
  {
    assert Local(s, t);
    FlushInProgress(s, t, s');
    IndicesAnswerForTheQueue(IsEmpty, s.buffer, s.nextPush, s.nextPop, s.size);
  }

  // Reservations by the two unlocked threads

  /** How many pushes have returned from step i up to step k. */
  ghost function PushReturns(ls: seq<Label<Op, Ret>>, i: nat, k: nat): nat
    requires i <= k <= |ls|
    decreases k
  {
    if k == i then 0
    else PushReturns(ls, i, k - 1) + if ls[k - 1].Return? && ls[k - 1].op.Push? then 1 else 0
  }

  ghost function PopReturns(ls: seq<Label<Op, Ret>>, i: nat, k: nat): nat
    requires i <= k <= |ls|
    decreases k
  {
    if k == i then 0
    else PopReturns(ls, i, k - 1) + if ls[k - 1].Return? && ls[k - 1].op.Pop? then 1 else 0
  }

  /** Free slots counted by the producer, and items counted by the consumer, are still there when the count returns. */
  lemma {:induction false} CountsStayGood(run: seq<Atomic<Queue, Op, Ret>>, ls: seq<Label<Op, Ret>>,
                                          producer: nat, consumer: nat, k: nat)
    requires AtomicRun(Apply, run, ls) && CallsFollowRoles(ls, producer, consumer) && k <= |ls|
    ensures producer < |run[k].phases| && run[k].phases[producer].Done? && run[k].phases[producer].op.GetFree? ==>
              run[k].phases[producer].ret.Count? &&
              |run[k].value.items| + run[k].phases[producer].ret.n <= run[k].value.cap
    ensures consumer < |run[k].phases| && run[k].phases[consumer].Done? && run[k].phases[consumer].op.GetUsed? ==>
              run[k].phases[consumer].ret.Count? && run[k].phases[consumer].ret.n <= |run[k].value.items|
  {
    if k > 0 {
      CountsStayGood(run, ls, producer, consumer, k - 1);
      RolesPersist(run, ls, producer, consumer, k - 1);
      assert StepsAt(Apply, run, ls, k - 1);
    }
  }

  ghost function Answered(a: Atomic<Queue, Op, Ret>, t: nat, push: bool): nat {
    if t < |a.phases| && a.phases[t].Done? && (if push then a.phases[t].op.Push? else a.phases[t].op.Pop?) then 1 else 0
  }

  lemma {:induction false} FreeSlotsStayReserved(run: seq<Atomic<Queue, Op, Ret>>, ls: seq<Label<Op, Ret>>,
                                                 producer: nat, consumer: nat, i: nat, k: nat)
    requires AtomicRun(Apply, run, ls) && CallsFollowRoles(ls, producer, consumer) && i < k <= |ls|
    requires ls[i].Return? && ls[i].t == producer && ls[i].op == GetFree && ls[i].ret.Count?
    ensures var used := PushReturns(ls, i, k) + Answered(run[k], producer, true);
            && |run[k].value.items| + ls[i].ret.n <= run[k].value.cap + used
            && (Answered(run[k], producer, true) == 1 && used <= ls[i].ret.n
                ==> run[k].phases[producer].ret == Flag(true))
    decreases k
  {
    RolesPersist(run, ls, producer, consumer, k - 1);
    assert StepsAt(Apply, run, ls, k - 1);
    if k == i + 1 {
      CountsStayGood(run, ls, producer, consumer, i);
      assert PushReturns(ls, i, i) == 0;
    } else {
      FreeSlotsStayReserved(run, ls, producer, consumer, i, k - 1);
    }
  }

  /** With `returned` pops returned since getUsed said used: enough is left, and the pending pop has its pointer. */
  ghost predicate StillReserved(a: Atomic<Queue, Op, Ret>, consumer: nat, used: int, returned: int) {
    var taken := returned + Answered(a, consumer, false);
    && used <= |a.value.items| + taken
    && (Answered(a, consumer, false) == 1 && taken <= used
        ==> a.phases[consumer].ret.Item? && a.phases[consumer].ret.p != 0)
  }

  lemma StillReservedStep(a: Atomic<Queue, Op, Ret>, l: Label<Op, Ret>, a': Atomic<Queue, Op, Ret>,
                          producer: nat, consumer: nat, used: int, returned: int)
    requires AtomicStep(Apply, a, l, a') && PendingFollowRoles(a, producer, consumer)
    requires a.value.items != [] ==> a.value.items[0] != 0
    requires StillReserved(a, consumer, used, returned)
    ensures StillReserved(a', consumer, used, returned + if l.Return? && l.op.Pop? then 1 else 0)
  {
    assert !a.phases[l.t].Idle? ==> Roles(a.phases[l.t].op, l.t, producer, consumer);
    match l
    case Call(_, _) =>
    case Return(_, _, _) =>
    case Internal(t) =>
      if a' != a && a.phases[t].op.Pop? {
        assert t == consumer;
      }
  }

  lemma {:induction false} UsedItemsStayReserved(run: seq<Atomic<Queue, Op, Ret>>, ls: seq<Label<Op, Ret>>,
                                                 producer: nat, consumer: nat, i: nat, k: nat)
    requires AtomicRun(Apply, run, ls) && CallsFollowRoles(ls, producer, consumer) && i < k <= |ls|
    requires OnlyRealPointers(ls) && run[0].value.items == []
    requires ls[i].Return? && ls[i].t == consumer && ls[i].op == GetUsed && ls[i].ret.Count?
    ensures StillReserved(run[k], consumer, ls[i].ret.n, PopReturns(ls, i, k))
    decreases k
  {
    if k == i + 1 {
      CountsStayGood(run, ls, producer, consumer, i);
      assert StepsAt(Apply, run, ls, i);
      assert PopReturns(ls, i, i) == 0;
    } else {
      UsedItemsStayReserved(run, ls, producer, consumer, i, k - 1);
      RolesPersist(run, ls, producer, consumer, k - 1);
      RealPointersPersist(run, ls, k - 1);
      assert StepsAt(Apply, run, ls, k - 1);
      StillReservedStep(run[k - 1], ls[k - 1], run[k], producer, consumer, ls[i].ret.n, PopReturns(ls, i, k - 1));
    }
  }

  /** After getFree has told the producer n, its next n pushes succeed, whatever the consumer does meanwhile. */
  lemma ProducerReservation(ss: seq<Ring>, ls: seq<Label<Op, Ret>>, sz: nat, n: nat, i: nat, k: nat, free: int)
    requires Run(ss, ls, sz, n) && !ss[0].locked && i < k < |ls|
    requires ls[i] == Return(ss[0].producer, GetFree, Count(free))
    requires ls[k].Return? && ls[k].op.Push? && PushReturns(ls, i, k) < free
    ensures ls[k].ret == Flag(true)
  {
    RunRefines(ss, ls, sz, n);
    CallsFollowRolesWithoutLock(ss, ls, sz, n);
    FreeSlotsStayReserved(AbsRun(ss), ls, ss[0].producer, ss[0].consumer, i, k);
    RolesPersist(AbsRun(ss), ls, ss[0].producer, ss[0].consumer, k);
    assert StepsAt(Apply, AbsRun(ss), ls, k);
  }

  /** After getUsed has told the consumer n, its next n pops return queued pointers, whatever the producer does. */
  lemma ConsumerReservation(ss: seq<Ring>, ls: seq<Label<Op, Ret>>, sz: nat, n: nat, i: nat, k: nat, used: int)
    requires Run(ss, ls, sz, n) && !ss[0].locked && OnlyRealPointers(ls) && i < k < |ls|
    requires ls[i] == Return(ss[0].consumer, GetUsed, Count(used))
    requires ls[k].Return? && ls[k].op.Pop? && PopReturns(ls, i, k) < used
    ensures ls[k].ret.Item? && ls[k].ret.p != 0
  {
    RunRefines(ss, ls, sz, n);
    CallsFollowRolesWithoutLock(ss, ls, sz, n);
    UsedItemsStayReserved(AbsRun(ss), ls, ss[0].producer, ss[0].consumer, i, k);
    RolesPersist(AbsRun(ss), ls, ss[0].producer, ss[0].consumer, k);
    assert StepsAt(Apply, AbsRun(ss), ls, k);
  }
}
