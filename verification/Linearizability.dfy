/**
 The canonical atomic object: a sequential specification shared by any number
 of threads, where a call becomes visible at one indivisible step between its
 invocation and its return.  A concurrent implementation is linearizable when
 every one of its histories is a history of this object.
 */
module Linearizability {
  import opened Wrappers

  /** Where one thread stands: no call, called but without effect yet, or answered. */
  datatype Phase<Op, Ret> = Idle | Called(op: Op) | Done(op: Op, ret: Ret)

  datatype Label<Op, Ret> = Call(t: nat, op: Op) | Return(t: nat, op: Op, ret: Ret) | Internal(t: nat)

  datatype Atomic<S, Op, Ret> = Atomic(value: S, phases: seq<Phase<Op, Ret>>)

  /** One operation as the sequential object performed it. */
  datatype Entry<Op, Ret> = Entry(t: nat, op: Op, ret: Ret)

  /** Thread t's pending call takes effect, all at once. */
  ghost predicate Linearizes<S, Op, Ret>(spec: (S, Op) -> (S, Ret), a: Atomic<S, Op, Ret>, t: nat,
                                         a': Atomic<S, Op, Ret>)
  {
    && t < |a.phases|
    && a.phases[t].Called?
    && var (value, ret) := spec(a.value, a.phases[t].op);
       a' == Atomic(value, a.phases[t := Done(a.phases[t].op, ret)])
  }

  ghost predicate AtomicStep<S, Op, Ret>(spec: (S, Op) -> (S, Ret), a: Atomic<S, Op, Ret>,
                                         l: Label<Op, Ret>, a': Atomic<S, Op, Ret>)
  {
    && l.t < |a.phases|
    && match l
       case Call(t, op) => a.phases[t].Idle? && a' == a.(phases := a.phases[t := Called(op)])
       case Return(t, op, ret) => a.phases[t] == Done(op, ret) && a' == a.(phases := a.phases[t := Idle])
       case Internal(t) => a' == a || Linearizes(spec, a, t, a')
  }

  /** Step i of the run follows its label. */
  ghost predicate StepsAt<S, Op, Ret>(spec: (S, Op) -> (S, Ret), run: seq<Atomic<S, Op, Ret>>,
                                      ls: seq<Label<Op, Ret>>, i: int)
  {
    0 <= i < |ls| < |run| && AtomicStep(spec, run[i], ls[i], run[i + 1])
  }

  ghost predicate AtomicRun<S, Op, Ret>(spec: (S, Op) -> (S, Ret), run: seq<Atomic<S, Op, Ret>>,
                                        ls: seq<Label<Op, Ret>>)
  {
    && |run| == |ls| + 1
    && (forall t :: 0 <= t < |run[0].phases| ==> run[0].phases[t].Idle?)
    && (forall i :: 0 <= i < |ls| ==> StepsAt(spec, run, ls, i))
  }

  /** The history ls of a concurrent object that starts at v can be explained one call at a time. */
  ghost predicate Linearizable<S(!new), Op(!new), Ret(!new)>(spec: (S, Op) -> (S, Ret), v: S,
                                                             ls: seq<Label<Op, Ret>>)
  {
    exists run: seq<Atomic<S, Op, Ret>> :: AtomicRun(spec, run, ls) && run[0].value == v
  }

  /** The calls and returns among the first k steps, which are all a client can see. */
  ghost function External<Op, Ret>(ls: seq<Label<Op, Ret>>, k: nat): seq<Label<Op, Ret>>
    requires k <= |ls|
  {
    if k == 0 then [] else External(ls, k - 1) + if ls[k - 1].Internal? then [] else [ls[k - 1]]
  }

  lemma {:induction false} ExternalGrows<Op, Ret>(ls: seq<Label<Op, Ret>>, i: nat, k: nat)
    requires i <= k <= |ls|
    ensures External(ls, i) <= External(ls, k)
  {
    if i < k {
      ExternalGrows(ls, i, k - 1);
    }
  }

  lemma {:induction false} SameThreads<S, Op, Ret>(spec: (S, Op) -> (S, Ret), run: seq<Atomic<S, Op, Ret>>,
                                                   ls: seq<Label<Op, Ret>>, k: nat)
    requires AtomicRun(spec, run, ls) && k <= |ls|
    ensures |run[k].phases| == |run[0].phases|
  {
    if k > 0 {
      SameThreads(spec, run, ls, k - 1);
      assert StepsAt(spec, run, ls, k - 1);
    }
  }

  // What a history of the canonical object means to its clients

  /** The call returned at k was invoked at c and took effect, as the specification says, at j. */
  ghost predicate TookEffectAt<S, Op, Ret>(spec: (S, Op) -> (S, Ret), run: seq<Atomic<S, Op, Ret>>,
                                           ls: seq<Label<Op, Ret>>, c: nat, j: nat, k: nat)
  {
    && c < j < k < |ls| < |run|
    && ls[k].Return?
    && var Return(t, op, ret) := ls[k];
       && ls[c] == Call(t, op)
       && ls[j] == Internal(t)
       && spec(run[j].value, op) == (run[j + 1].value, ret)
       && (forall i :: c < i <= j ==> t < |run[i].phases| && run[i].phases[t] == Called(op))
       && (forall i :: j < i <= k ==> t < |run[i].phases| && run[i].phases[t] == Done(op, ret))
  }

  lemma {:induction false} FindCall<S, Op, Ret>(spec: (S, Op) -> (S, Ret), run: seq<Atomic<S, Op, Ret>>,
                                                ls: seq<Label<Op, Ret>>, k: nat, t: nat) returns (c: nat)
    requires AtomicRun(spec, run, ls) && k <= |ls|
    requires t < |run[k].phases| && run[k].phases[t].Called?
    ensures c < k && ls[c] == Call(t, run[k].phases[t].op)
    ensures forall i :: c < i <= k ==> t < |run[i].phases| && run[i].phases[t] == run[k].phases[t]
  {
    SameThreads(spec, run, ls, k);
    assert k > 0;
    SameThreads(spec, run, ls, k - 1);
    assert StepsAt(spec, run, ls, k - 1);
    if ls[k - 1] == Call(t, run[k].phases[t].op) {
      c := k - 1;
    } else {
      c := FindCall(spec, run, ls, k - 1, t);
    }
  }

  lemma {:induction false} FindEffect<S, Op, Ret>(spec: (S, Op) -> (S, Ret), run: seq<Atomic<S, Op, Ret>>,
                                                  ls: seq<Label<Op, Ret>>, k: nat, t: nat) returns (c: nat, j: nat)
    requires AtomicRun(spec, run, ls) && k <= |ls|
    requires t < |run[k].phases| && run[k].phases[t].Done?
    ensures c < j < k && ls[c] == Call(t, run[k].phases[t].op) && ls[j] == Internal(t)
    ensures spec(run[j].value, run[k].phases[t].op) == (run[j + 1].value, run[k].phases[t].ret)
    ensures forall i :: c < i <= j ==> t < |run[i].phases| && run[i].phases[t] == Called(run[k].phases[t].op)
    ensures forall i :: j < i <= k ==> t < |run[i].phases| && run[i].phases[t] == run[k].phases[t]
  {
    SameThreads(spec, run, ls, k);
    assert k > 0;
    SameThreads(spec, run, ls, k - 1);
    assert StepsAt(spec, run, ls, k - 1);
    if run[k - 1].phases[t] == run[k].phases[t] {
      c, j := FindEffect(spec, run, ls, k - 1, t);
    } else {
      j := k - 1;
      c := FindCall(spec, run, ls, k - 1, t);
    }
  }

  /** The operations of the first k steps in the order in which they took effect. */
  ghost function Order<S, Op, Ret>(run: seq<Atomic<S, Op, Ret>>, ls: seq<Label<Op, Ret>>, k: nat): seq<Entry<Op, Ret>>
    requires k <= |ls| < |run|
  {
    if k == 0 then []
    else
      var t := ls[k - 1].t;
      Order(run, ls, k - 1) +
      if ls[k - 1].Internal? && run[k] != run[k - 1] && t < |run[k].phases| && run[k].phases[t].Done?
      then [Entry(t, run[k].phases[t].op, run[k].phases[t].ret)] else []
  }

  /** Step j puts the call returned at k, and nothing else, into the order of effect. */
  ghost predicate EntersOrderAt<S, Op, Ret>(run: seq<Atomic<S, Op, Ret>>, ls: seq<Label<Op, Ret>>, j: nat, k: nat)
  {
    && j < k < |ls| < |run|
    && ls[k].Return?
    && Order(run, ls, j + 1) == Order(run, ls, j) + [Entry(ls[k].t, ls[k].op, ls[k].ret)]
  }

  /** Every answer is the one the sequential object gives at one instant inside the call. */
  lemma AnswersTakeEffectInsideTheCall<S, Op, Ret>(spec: (S, Op) -> (S, Ret), run: seq<Atomic<S, Op, Ret>>,
                                                   ls: seq<Label<Op, Ret>>, k: nat)
    requires AtomicRun(spec, run, ls) && k < |ls| && ls[k].Return?
    ensures exists c: nat, j: nat :: TookEffectAt(spec, run, ls, c, j, k) && EntersOrderAt(run, ls, j, k)
  {
    assert StepsAt(spec, run, ls, k);
    var c, j := FindEffect(spec, run, ls, k, ls[k].t);
    assert TookEffectAt(spec, run, ls, c, j, k) && EntersOrderAt(run, ls, j, k);
  }

  /** Performs h one operation after another; None as soon as an answer is not the specified one. */
  ghost function Replay<S, Op, Ret>(spec: (S, Op) -> (S, Ret), v: S, h: seq<Entry<Op, Ret>>): Option<S>
  {
    if h == [] then Some(v)
    else
      var last := h[|h| - 1];
      match Replay(spec, v, h[..|h| - 1])
      case None => None
      case Some(w) => if spec(w, last.op).1 == last.ret then Some(spec(w, last.op).0) else None
  }

  /** The order of effect is a legal sequential execution and leaves the value the run leaves. */
  lemma {:induction false} OrderIsSequential<S, Op, Ret>(spec: (S, Op) -> (S, Ret), run: seq<Atomic<S, Op, Ret>>,
                                                         ls: seq<Label<Op, Ret>>, k: nat)
    requires AtomicRun(spec, run, ls) && k <= |ls|
    ensures Replay(spec, run[0].value, Order(run, ls, k)) == Some(run[k].value)
  {
    if k > 0 {
      OrderIsSequential(spec, run, ls, k - 1);
      assert StepsAt(spec, run, ls, k - 1);
      var before, now := Order(run, ls, k - 1), Order(run, ls, k);
      if now != before {
        assert now[..|now| - 1] == before;
      }
    }
  }
}
