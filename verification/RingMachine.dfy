/**
 The ring under concurrency: any number of threads, interleaved at every single
 access to nextPush, nextPop, a buffer slot or the spinlock.  With a lock any
 thread may call anything.  Without one, a single thread pushes, a single thread
 pops, and those two may also use the observers.
 */
module RingMachine {
  import opened Wrappers
  import opened Linearizability
  import opened RingSpec

  /** The program counter of one thread; the locals it has read so far are its parameters. */
  datatype Pc =
    | Out
    | Enter(op: Op)
    | PushRead(p: Pointer)
    | PushTest(p: Pointer, next: int)
    | PushStore(p: Pointer, next: int, newNext: int)
    | PushPublish(p: Pointer, newNext: int)
    | PopRead
    | PopTest(next: int)
    | PopLoad(next: int)
    | PopPublish(newNext: int, p: Pointer)
    | FlushPop
    | FlushPush
    | Observe(op: Op)
    | SawPush(op: Op, v: int)
    | SawPop(op: Op, v: int)
    | Leave(op: Op, ret: Ret)
    | Back(op: Op, ret: Ret)
  {
    /** The operation the thread is executing. */
    function Operation(): Op
      requires !Out?
    {
      match this
      case Enter(op) => op
      case PushRead(p) => Push(p)
      case PushTest(p, _) => Push(p)
      case PushStore(p, _, _) => Push(p)
      case PushPublish(p, _) => Push(p)
      case PopRead => Pop
      case PopTest(_) => Pop
      case PopLoad(_) => Pop
      case PopPublish(_, _) => Pop
      case FlushPop => Flush
      case FlushPush => Flush
      case Observe(op) => op
      case SawPush(op, _) => op
      case SawPop(op, _) => op
      case Leave(op, _) => op
      case Back(op, _) => op
    }

    predicate Pushing() {
      PushRead? || PushTest? || PushStore? || PushPublish?
    }

    predicate Popping() {
      PopRead? || PopTest? || PopLoad? || PopPublish?
    }

    predicate Flushing() {
      FlushPop? || FlushPush?
    }

    predicate Observing() {
      Observe? || SawPush? || SawPop?
    }

    /** About to store an index or a slot. */
    predicate Writing() {
      PushStore? || PushPublish? || PopPublish? || Flushing()
    }

    /** Between taking the lock and giving it back, when there is a lock. */
    predicate Inside() {
      !Out? && !Enter? && !Back?
    }
  }

  datatype Ring = Ring(
    size: int,
    locked: bool,
    producer: nat,
    consumer: nat,
    holder: Option<nat>,
    nextPush: int,
    nextPop: int,
    buffer: seq<Pointer>,
    pcs: seq<Pc>)
  {
    function At(t: nat, pc: Pc): Ring
      requires t < |pcs|
    {
      this.(pcs := pcs[t := pc])
    }

    /** Which calls the header allows: everything with the lock, one writer and one reader without. */
    predicate Allowed(t: nat, op: Op) {
      locked || match op
                case Push(_) => t == producer
                case Pop => t == consumer
                case Flush => false
                case _ => t == producer || t == consumer
    }
  }

  /** A ring as its constructor leaves it, with n threads that have not called it yet. */
  ghost predicate Init(s: Ring, sz: nat, n: nat) {
    && s.size == sz + 1
    && s.holder == None && s.nextPush == 0 && s.nextPop == 0
    && |s.buffer| == s.size
    && |s.pcs| == n
    && forall t :: 0 <= t < n ==> s.pcs[t] == Out
  }

  function Begin(op: Op): Pc {
    match op
    case Push(p) => PushRead(p)
    case Pop => PopRead
    case Flush => FlushPop
    case _ => Observe(op)
  }

  // One access to shared memory by thread t, function by function

  ghost predicate PushMicro(s: Ring, t: nat, s': Ring)
    requires t < |s.pcs|
  {
    match s.pcs[t]
    case PushRead(p) => s' == s.At(t, PushTest(p, s.nextPush))
    case PushTest(p, next) =>
      var newNext := Succ(next, s.size);
      if newNext == s.nextPop then s' == s.At(t, Leave(Push(p), Flag(false)))
      else s' == s.At(t, PushStore(p, next, newNext))
    case PushStore(p, next, newNext) =>
      0 <= next < |s.buffer| && s' == s.At(t, PushPublish(p, newNext)).(buffer := s.buffer[next := p])
    case PushPublish(p, newNext) => s' == s.At(t, Leave(Push(p), Flag(true))).(nextPush := newNext)
    case _ => false
  }

  ghost predicate PopMicro(s: Ring, t: nat, s': Ring)
    requires t < |s.pcs|
  {
    match s.pcs[t]
    case PopRead => s' == s.At(t, PopTest(s.nextPop))
    case PopTest(next) =>
      if next == s.nextPush then s' == s.At(t, Leave(Pop, Item(0)))
      else s' == s.At(t, PopLoad(next))
    case PopLoad(next) =>
      0 <= next < |s.buffer| && s' == s.At(t, PopPublish(Succ(next, s.size), s.buffer[next]))
    case PopPublish(newNext, p) => s' == s.At(t, Leave(Pop, Item(p))).(nextPop := newNext)
    case _ => false
  }

  ghost predicate FlushMicro(s: Ring, t: nat, s': Ring)
    requires t < |s.pcs|
  {
    match s.pcs[t]
    case FlushPop => s' == s.At(t, FlushPush).(nextPop := 0)
    case FlushPush => s' == s.At(t, Leave(Flush, Unit)).(nextPush := 0)
    case _ => false
  }

  /** An observer reads the two indices in either order, as C++ leaves the order open. */
  ghost predicate ObserverMicro(s: Ring, t: nat, s': Ring)
    requires t < |s.pcs|
  {
    match s.pcs[t]
    case Observe(op) => s' == s.At(t, SawPush(op, s.nextPush)) || s' == s.At(t, SawPop(op, s.nextPop))
    case SawPush(op, v) => op.Observer() && s' == s.At(t, Leave(op, Answer(op, v, s.nextPop, s.size)))
    case SawPop(op, v) => op.Observer() && s' == s.At(t, Leave(op, Answer(op, s.nextPush, v, s.size)))
    case _ => false
  }

  ghost predicate LockMicro(s: Ring, t: nat, s': Ring)
    requires t < |s.pcs|
  {
    match s.pcs[t]
    case Enter(op) =>
      if s.locked then s.holder == None && s' == s.At(t, Begin(op)).(holder := Some(t))
      else s' == s.At(t, Begin(op))
    case Leave(op, ret) =>
      if s.locked then s' == s.At(t, Back(op, ret)).(holder := None)
      else s' == s.At(t, Back(op, ret))
    case _ => false
  }

  ghost predicate Micro(s: Ring, t: nat, s': Ring)
    requires t < |s.pcs|
  {
    var pc := s.pcs[t];
    if pc.Pushing() then PushMicro(s, t, s')
    else if pc.Popping() then PopMicro(s, t, s')
    else if pc.Flushing() then FlushMicro(s, t, s')
    else if pc.Observing() then ObserverMicro(s, t, s')
    else LockMicro(s, t, s')
  }

  ghost predicate Next(s: Ring, l: Label<Op, Ret>, s': Ring) {
    && l.t < |s.pcs|
    && match l
       case Call(t, op) => s.pcs[t] == Out && s.Allowed(t, op) && s' == s.At(t, Enter(op))
       case Return(t, op, ret) => s.pcs[t] == Back(op, ret) && s' == s.At(t, Out)
       case Internal(t) => Micro(s, t, s')
  }

  /** Step i of the run follows its label. */
  ghost predicate NextAt(ss: seq<Ring>, ls: seq<Label<Op, Ret>>, i: int) {
    0 <= i < |ls| < |ss| && Next(ss[i], ls[i], ss[i + 1])
  }

  ghost predicate Run(ss: seq<Ring>, ls: seq<Label<Op, Ret>>, sz: nat, n: nat) {
    && |ss| == |ls| + 1
    && Init(ss[0], sz, n)
    && forall i :: 0 <= i < |ls| ==> NextAt(ss, ls, i)
  }

  // The invariant

  /** What thread t's locals say about the shared state at this instant. */
  ghost predicate Local(s: Ring, t: nat)
    requires t < |s.pcs|
  {
    match s.pcs[t]
    case PushTest(p, next) => next == s.nextPush
    case PushStore(p, next, newNext) => next == s.nextPush && newNext == Succ(next, s.size) && newNext != s.nextPop
    case PushPublish(p, newNext) =>
      && newNext == Succ(s.nextPush, s.size) && newNext != s.nextPop
      && 0 <= s.nextPush < |s.buffer| && s.buffer[s.nextPush] == p
    case PopTest(next) => next == s.nextPop
    case PopLoad(next) => next == s.nextPop && next != s.nextPush
    case PopPublish(newNext, p) =>
      && newNext == Succ(s.nextPop, s.size) && s.nextPop != s.nextPush
      && 0 <= s.nextPop < |s.buffer| && s.buffer[s.nextPop] == p
    case FlushPush => s.nextPop == 0
    case Observe(op) => op.Observer()
    case SawPush(op, v) => op.Observer() && (AnsweredBy(s, t, s.consumer) || v == s.nextPush)
    case SawPop(op, v) => op.Observer() && (AnsweredBy(s, t, s.producer) || v == s.nextPop)
    case _ => true
  }

  /**
   An observer of the unlocked ring has its answer as soon as it has read the index that
   another thread moves: its own index stays put until it returns.
   */
  ghost predicate AnsweredBy(s: Ring, t: nat, reader: nat) {
    !s.locked && t == reader
  }

  ghost predicate Inv(s: Ring) {
    && Shape(s.buffer, s.nextPush, s.nextPop, s.size)
    && (s.holder.Some? ==> s.locked && s.holder.value < |s.pcs|)
    && (s.locked ==> forall t :: 0 <= t < |s.pcs| ==> (s.pcs[t].Inside() <==> s.holder == Some(t)))
    && (forall t :: 0 <= t < |s.pcs| && s.pcs[t] != Out ==> s.Allowed(t, s.pcs[t].Operation()))
    && (forall t :: 0 <= t < |s.pcs| ==> Local(s, t))
  }

  /** The part of the invariant that one thread's own step depends on. */
  ghost predicate Focus(s: Ring, t: nat) {
    && Shape(s.buffer, s.nextPush, s.nextPop, s.size)
    && t < |s.pcs|
    && Local(s, t)
  }

  /** Everything but t's program counter, the lock and the written location stays. */
  lemma MicroTouches(s: Ring, t: nat, s': Ring)
    requires t < |s.pcs| && Micro(s, t, s')
    ensures |s'.pcs| == |s.pcs| && s'.pcs == s.pcs[t := s'.pcs[t]]
    ensures s'.size == s.size && s'.locked == s.locked && s'.producer == s.producer && s'.consumer == s.consumer
    ensures !s.pcs[t].Writing() ==> s' == s.(pcs := s'.pcs, holder := s'.holder)
    ensures s.pcs[t].Inside() && !s.pcs[t].Leave? ==> s'.holder == s.holder
  {
  }

  /** While t writes, no other thread is in a critical section or plays the same role. */
  lemma WritersAreAlone(s: Ring, t: nat, u: nat)
    requires Inv(s) && t < |s.pcs| && u < |s.pcs| && u != t && s.pcs[t].Writing()
    ensures s.locked ==> !s.pcs[u].Inside()
    ensures !s.locked ==> !s.pcs[t].Flushing() && !s.pcs[u].Flushing()
    ensures !s.locked && s.pcs[t].Pushing() ==> t == s.producer && !s.pcs[u].Pushing()
    ensures !s.locked && s.pcs[t].Popping() ==> t == s.consumer && !s.pcs[u].Popping()
    ensures !s.locked && s.pcs[u].Observing() ==> u == s.producer || u == s.consumer
  {
    assert s.Allowed(t, s.pcs[t].Operation());
    assert s.pcs[u] != Out ==> s.Allowed(u, s.pcs[u].Operation());
    assert Local(s, u);
  }

  lemma OthersKeepTheirFactsPush(s: Ring, t: nat, s': Ring, u: nat)
    requires Focus(s, t) && Focus(s, u) && Inv(s) && PushMicro(s, t, s') && u != t
    requires s.pcs[t].PushPublish? || s.pcs[t].PushStore?
    ensures |s'.pcs| == |s.pcs| && Local(s', u)
  {
    WritersAreAlone(s, t, u);
    assert s'.pcs[u] == s.pcs[u];
  }

  lemma OthersKeepTheirFactsPop(s: Ring, t: nat, s': Ring, u: nat)
    requires Focus(s, t) && Focus(s, u) && Inv(s) && PopMicro(s, t, s') && u != t
    requires s.pcs[t].PopPublish?
    ensures |s'.pcs| == |s.pcs| && Local(s', u)
  {
    WritersAreAlone(s, t, u);
    assert s'.pcs[u] == s.pcs[u];
  }

  lemma OthersKeepTheirFactsFlush(s: Ring, t: nat, s': Ring, u: nat)
    requires Focus(s, t) && Focus(s, u) && Inv(s) && FlushMicro(s, t, s') && u != t
    requires s.pcs[t].Flushing()
    ensures |s'.pcs| == |s.pcs| && Local(s', u)
  {
    WritersAreAlone(s, t, u);
    assert s'.pcs[u] == s.pcs[u];
  }

  /** Local depends on the indices, the buffer, and the roles only. */
  lemma SameMemoryKeepsFacts(s: Ring, s': Ring, u: nat)
    requires u < |s.pcs| == |s'.pcs| && s'.pcs[u] == s.pcs[u]
    requires s' == s.(pcs := s'.pcs, holder := s'.holder)
    requires Local(s, u)
    ensures Local(s', u)
  {
  }

  /** Whatever thread t does, what another thread u knows stays true. */
  lemma OthersKeepTheirFacts(s: Ring, t: nat, s': Ring, u: nat)
    requires Inv(s) && t < |s.pcs| && Micro(s, t, s')
    requires u < |s.pcs| && u != t
    ensures |s'.pcs| == |s.pcs| && Local(s', u)
  {
    MicroTouches(s, t, s');
    assert Focus(s, t) && Focus(s, u);
    if !s.pcs[t].Writing() {
      SameMemoryKeepsFacts(s, s', u);
    } else if s.pcs[t].Pushing() {
      OthersKeepTheirFactsPush(s, t, s', u);
    } else if s.pcs[t].Popping() {
      OthersKeepTheirFactsPop(s, t, s', u);
    } else {
      OthersKeepTheirFactsFlush(s, t, s', u);
    }
  }

  lemma OwnFactsPushing(s: Ring, t: nat, s': Ring)
    requires Focus(s, t) && PushMicro(s, t, s')
    ensures Focus(s', t)
  {
  }

  lemma OwnFactsPopping(s: Ring, t: nat, s': Ring)
    requires Focus(s, t) && PopMicro(s, t, s')
    ensures Focus(s', t)
  {
  }

  /** Thread t's own locals stay accurate through its own step, and so do the indices. */
  lemma OwnFacts(s: Ring, t: nat, s': Ring)
    requires Focus(s, t) && Micro(s, t, s')
    ensures Focus(s', t)
  {
    if s.pcs[t].Pushing() {
      OwnFactsPushing(s, t, s');
    } else if s.pcs[t].Popping() {
      OwnFactsPopping(s, t, s');
    }
  }

  lemma SameOperation(s: Ring, t: nat, s': Ring)
    requires t < |s.pcs| && Micro(s, t, s')
    ensures |s'.pcs| == |s.pcs| && s.pcs[t] != Out && s'.pcs[t] != Out
    ensures s'.pcs[t].Operation() == s.pcs[t].Operation()
  {
  }

  lemma LockDiscipline(s: Ring, t: nat, s': Ring)
    requires Inv(s) && t < |s.pcs| && Micro(s, t, s')
    ensures s'.holder.Some? ==> s'.locked && s'.holder.value < |s'.pcs|
    ensures s'.locked ==> forall u :: 0 <= u < |s'.pcs| ==> (s'.pcs[u].Inside() <==> s'.holder == Some(u))
  {
  }

  lemma MicroKeepsInv(s: Ring, t: nat, s': Ring)
    requires Inv(s) && t < |s.pcs| && Micro(s, t, s')
    ensures Inv(s')
  {
    OwnFacts(s, t, s');
    MicroTouches(s, t, s');
    SameOperation(s, t, s');
    LockDiscipline(s, t, s');
    forall u | 0 <= u < |s'.pcs|
      ensures Local(s', u)
      ensures s'.pcs[u] != Out ==> s'.Allowed(u, s'.pcs[u].Operation())
    {
      if u != t {
        OthersKeepTheirFacts(s, t, s', u);
        assert s'.pcs[u] == s.pcs[u];
      }
    }
  }

  lemma NextKeepsInv(s: Ring, l: Label<Op, Ret>, s': Ring)
    requires Inv(s) && Next(s, l, s')
    ensures Inv(s')
  {
    if l.Internal? {
      MicroKeepsInv(s, l.t, s');
    } else {
      forall u | 0 <= u < |s'.pcs|
        ensures Local(s', u)
      {
        assert Local(s, u);
      }
    }
  }

  lemma {:induction false} ReachableInv(ss: seq<Ring>, ls: seq<Label<Op, Ret>>, sz: nat, n: nat, k: nat)
    requires Run(ss, ls, sz, n) && k <= |ls|
    ensures Inv(ss[k]) && ss[k].size == sz + 1 && |ss[k].pcs| == n
    ensures ss[k].locked == ss[0].locked && ss[k].producer == ss[0].producer && ss[k].consumer == ss[0].consumer
  {
    if k > 0 {
      ReachableInv(ss, ls, sz, n, k - 1);
      assert NextAt(ss, ls, k - 1);
      NextKeepsInv(ss[k - 1], ls[k - 1], ss[k]);
    }
  }

  // The abstract queue behind a state

  /** A flush has taken effect once nextPop is 0, although nextPush is still to be stored. */
  ghost predicate MidFlush(s: Ring) {
    s.holder.Some? && s.holder.value < |s.pcs| && s.pcs[s.holder.value].FlushPush?
  }

  ghost function Value(s: Ring): Queue
    requires Shape(s.buffer, s.nextPush, s.nextPop, s.size)
  {
    Queue(s.size - 1, if MidFlush(s) then [] else Live(s.buffer, s.nextPush, s.nextPop, s.size))
  }

  ghost function PhaseOf(s: Ring, t: nat): Phase<Op, Ret>
    requires t < |s.pcs| && Local(s, t)
  {
    match s.pcs[t]
    case Out => Idle
    case FlushPush => Done(Flush, Unit)
    case SawPush(op, v) =>
      if AnsweredBy(s, t, s.consumer) then Done(op, Answer(op, v, s.nextPop, s.size)) else Called(op)
    case SawPop(op, v) =>
      if AnsweredBy(s, t, s.producer) then Done(op, Answer(op, s.nextPush, v, s.size)) else Called(op)
    case Leave(op, ret) => Done(op, ret)
    case Back(op, ret) => Done(op, ret)
    case pc => Called(pc.Operation())
  }

  ghost function Abs(s: Ring): Atomic<Queue, Op, Ret>
    requires Inv(s)
  {
    Atomic(Value(s), seq(|s.pcs|, t requires 0 <= t < |s.pcs| => PhaseOf(s, t)))
  }

  lemma SameMemorySamePhase(s: Ring, s': Ring, u: nat)
    requires u < |s.pcs| == |s'.pcs| && s'.pcs[u] == s.pcs[u]
    requires s' == s.(pcs := s'.pcs, holder := s'.holder, buffer := s'.buffer)
    requires Local(s, u) && Local(s', u)
    ensures PhaseOf(s', u) == PhaseOf(s, u)
  {
  }

  lemma OthersKeepTheirPhase(s: Ring, t: nat, s': Ring, u: nat)
    requires Inv(s) && Inv(s') && t < |s.pcs| && Micro(s, t, s')
    requires u < |s.pcs| && u != t
    ensures |s'.pcs| == |s.pcs| && PhaseOf(s', u) == PhaseOf(s, u)
  {
    MicroTouches(s, t, s');
    assert Local(s, u) && Local(s', u) && s'.pcs[u] == s.pcs[u];
    if !s.pcs[t].Writing() || s.pcs[t].PushStore? {
      SameMemorySamePhase(s, s', u);
    } else {
      WritersAreAlone(s, t, u);
    }
  }

  /** Thread t's step leaves the queue and the phase of t's own call alone, or performs that call. */
  ghost predicate Effect(s: Ring, t: nat, s': Ring)
    requires Focus(s, t) && Focus(s', t)
  {
    || (Value(s') == Value(s) && PhaseOf(s', t) == PhaseOf(s, t))
    || (PhaseOf(s, t).Called? && var op := PhaseOf(s, t).op;
        var (q, ret) := Apply(Value(s), op); Value(s') == q && PhaseOf(s', t) == Done(op, ret))
  }

  lemma FlushInProgress(s: Ring, t: nat, s': Ring)
    requires Inv(s) && t < |s.pcs| && Micro(s, t, s')
    ensures !s.pcs[t].FlushPop? && !s.pcs[t].FlushPush? ==> MidFlush(s) == MidFlush(s')
    ensures s.pcs[t].Inside() ==> MidFlush(s) == s.pcs[t].FlushPush?
  {
    assert s.Allowed(t, s.pcs[t].Operation());
    if s.locked && s.pcs[t].Inside() {
      assert s.holder == Some(t);
    }
  }

  lemma PushEffect(s: Ring, t: nat, s': Ring)
    requires Focus(s, t) && Focus(s', t) && PushMicro(s, t, s') && !MidFlush(s) && !MidFlush(s')
    ensures Effect(s, t, s')
  {
    match s.pcs[t]
    case PushTest(_, _) => IndicesAnswerForTheQueue(GetUsed, s.buffer, s.nextPush, s.nextPop, s.size);
    case PushStore(p, _, _) => TheSpareSlotIsFree(s.buffer, s.nextPush, s.nextPop, s.size, p);
    case PushPublish(p, _) => PublishEffect(s, t, s', p);
    case _ =>
  }

  lemma PublishEffect(s: Ring, t: nat, s': Ring, p: Pointer)
    requires Focus(s, t) && Focus(s', t) && PushMicro(s, t, s') && !MidFlush(s) && !MidFlush(s')
    requires s.pcs[t].PushPublish? && s.pcs[t].p == p
    ensures Effect(s, t, s')
  {
    IndicesAnswerForTheQueue(GetUsed, s.buffer, s.nextPush, s.nextPop, s.size);
    PublishingAppends(s.buffer, s.nextPush, s.nextPop, s.size);
    assert Value(s') == Queue(s.size - 1, Value(s).items + [p]);
  }

  lemma PopEffect(s: Ring, t: nat, s': Ring)
    requires Focus(s, t) && Focus(s', t) && PopMicro(s, t, s') && !MidFlush(s) && !MidFlush(s')
    ensures Effect(s, t, s')
  {
    match s.pcs[t]
    case PopTest(_) => IndicesAnswerForTheQueue(IsEmpty, s.buffer, s.nextPush, s.nextPop, s.size);
    case PopPublish(_, p) => TakeEffect(s, t, s', p);
    case _ =>
  }

  lemma TakeEffect(s: Ring, t: nat, s': Ring, p: Pointer)
    requires Focus(s, t) && Focus(s', t) && PopMicro(s, t, s') && !MidFlush(s) && !MidFlush(s')
    requires s.pcs[t].PopPublish? && s.pcs[t].p == p
    ensures Effect(s, t, s')
  {
    AdvancingDropsTheHead(s.buffer, s.nextPush, s.nextPop, s.size);
    assert Value(s').items == Value(s).items[1..] && Value(s).items[0] == p;
  }

  lemma FlushEffect(s: Ring, t: nat, s': Ring)
    requires Focus(s, t) && Focus(s', t) && FlushMicro(s, t, s')
    requires MidFlush(s) == s.pcs[t].FlushPush? && MidFlush(s') == s.pcs[t].FlushPop?
    ensures Effect(s, t, s')
  {
  }

  lemma ObserverEffect(s: Ring, t: nat, s': Ring)
    requires Focus(s, t) && Focus(s', t) && ObserverMicro(s, t, s') && !MidFlush(s) && !MidFlush(s')
    ensures Effect(s, t, s')
  {
    var op := s.pcs[t].op;
    IndicesAnswerForTheQueue(op, s.buffer, s.nextPush, s.nextPop, s.size);
    assert Value(s') == Value(s);
    assert Apply(Value(s), op) == (Value(s), Answer(op, s.nextPush, s.nextPop, s.size));
    assert PhaseOf(s, t) == Called(op) ==>
        PhaseOf(s', t) == Called(op) || PhaseOf(s', t) == Done(op, Answer(op, s.nextPush, s.nextPop, s.size));
  }

  lemma MicroEffect(s: Ring, t: nat, s': Ring)
    requires Inv(s) && Inv(s') && t < |s.pcs| && Micro(s, t, s')
    ensures |s'.pcs| == |s.pcs| && Effect(s, t, s')
  {
    MicroTouches(s, t, s');
    FlushInProgress(s, t, s');
    assert Focus(s, t) && Focus(s', t);
    var pc := s.pcs[t];
    if pc.Pushing() {
      PushEffect(s, t, s');
    } else if pc.Popping() {
      PopEffect(s, t, s');
    } else if pc.Flushing() {
      assert s.Allowed(t, pc.Operation());
      assert s.holder == Some(t);
      FlushEffect(s, t, s');
    } else if pc.Observing() {
      ObserverEffect(s, t, s');
    }
  }

  lemma OthersInAbs(s: Ring, t: nat, s': Ring)
    requires Inv(s) && Inv(s') && t < |s.pcs| && Micro(s, t, s')
    ensures |s'.pcs| == |s.pcs|
    ensures Abs(s').phases == Abs(s).phases[t := PhaseOf(s', t)]
  {
    SameOperation(s, t, s');
    forall u | 0 <= u < |s.pcs| && u != t
      ensures PhaseOf(s', u) == PhaseOf(s, u)
    {
      OthersKeepTheirPhase(s, t, s', u);
    }
  }

  /** Each access to memory either changes nothing the queue shows or is the point where a call takes effect. */
  lemma MicroRefines(s: Ring, t: nat, s': Ring)
    requires Inv(s) && Inv(s') && t < |s.pcs| && Micro(s, t, s')
    ensures Abs(s') == Abs(s) || Linearizes(Apply, Abs(s), t, Abs(s'))
  {
    OthersInAbs(s, t, s');
    MicroEffect(s, t, s');
    assert Abs(s).phases[t] == PhaseOf(s, t);
    assert Abs(s).phases[t := PhaseOf(s, t)] == Abs(s).phases;
  }

  /** A call or a return changes the phase of its own thread only, and not the queue. */
  lemma BoundaryInAbs(s: Ring, t: nat, pc: Pc, s': Ring)
    requires Inv(s) && Inv(s') && t < |s.pcs| && s' == s.At(t, pc) && pc.FlushPush? == s.pcs[t].FlushPush? == false
    ensures Abs(s') == Abs(s).(phases := Abs(s).phases[t := PhaseOf(s', t)])
  {
    forall u | 0 <= u < |s.pcs| && u != t
      ensures PhaseOf(s', u) == PhaseOf(s, u)
    {
      assert Local(s, u) && Local(s', u) && s'.pcs[u] == s.pcs[u];
      SameMemorySamePhase(s, s', u);
    }
    assert MidFlush(s) == MidFlush(s');
  }

  lemma CallsAndReturnsRefine(s: Ring, l: Label<Op, Ret>, s': Ring)
    requires Inv(s) && Inv(s') && Next(s, l, s') && !l.Internal?
    ensures AtomicStep(Apply, Abs(s), l, Abs(s'))
  {
    BoundaryInAbs(s, l.t, s'.pcs[l.t], s');
  }

  lemma NextRefines(s: Ring, l: Label<Op, Ret>, s': Ring)
    requires Inv(s) && Inv(s') && Next(s, l, s')
    ensures AtomicStep(Apply, Abs(s), l, Abs(s'))
  {
    if l.Internal? {
      MicroRefines(s, l.t, s');
    } else {
      CallsAndReturnsRefine(s, l, s');
    }
  }
}
