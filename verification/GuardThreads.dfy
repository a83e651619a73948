/**
 Threads that run guard programs side by side, interleaved at every lock, unlock and
 store to a guard's mutex pointer.  A mutex is recursive: a thread may lock it when no
 other thread holds it, and holds it until it has unlocked it as often as it locked it.
 */
module GuardThreads {
  import opened Wrappers
  import opened GuardProgram

  /** What is still to be done, innermost scope first. */
  datatype Frame =
    | Body(p: Prog)                              // code to run, or to skip while an exception unwinds
    | Constructing(m: Mutex, body: Prog)         // the guard's pointer is set, its lock() is next
    | Guarding                                   // the innermost guard's destructor
    | Releasing(m: Mutex, g: nat, body: Prog)    // the pointer of guard g is cleared, the unlock() is next
    | Away(g: nat, m: Mutex)                     // the release's destructor, which locks first
    | Returning(g: nat, m: Mutex)                // m is locked, the pointer of guard g is stored next
    | Catching(handler: Prog)

  datatype Stack = Empty | Push(top: Frame, rest: Stack)

  datatype Thread = Thread(stack: Stack, guards: Guards, holds: multiset<Mutex>, throwing: bool, trace: seq<Event>)

  /** What a thread does next on its own account; only a lock depends on the other threads. */
  datatype Move = Finished | Goes(next: Thread) | Locks(m: Mutex, next: Thread) | Aborts | Faults

  function BodyMove(p: Prog, k: Stack, th: Thread): Move
  {
    if th.throwing then Goes(th.(stack := k)) else
    match p
    case Work(e) => Goes(th.(stack := k, trace := th.trace + [Did(e)]))
    case Throw => Goes(th.(stack := k, throwing := true))
    case Then(first, next) => Goes(th.(stack := Push(Body(first), Push(Body(next), k))))
    case Guarded(m, body) => Goes(th.(stack := Push(Constructing(m, body), k)))
    case Released(g, body) =>
      if g < |th.guards| && th.guards[g].Some?
      then Goes(th.(stack := Push(Releasing(th.guards[g].value, g, body), k), guards := th.guards[g := None]))
      else Faults
    case Check(g, m) =>
      if g < |th.guards| && th.guards[g] == Some(m)
      then Goes(th.(stack := k, trace := th.trace + [Checked(g, m, true)])) else Aborts
    case Try(body, handler) => Goes(th.(stack := Push(Body(body), Push(Catching(handler), k))))
  }

  function NextMove(th: Thread): Move
  {
    if th.stack.Empty? then Finished else
    var k := th.stack.rest;
    match th.stack.top
    case Body(p) => BodyMove(p, k, th)
    case Constructing(m, body) =>
      Locks(m, th.(stack := Push(Body(body), Push(Guarding, k)),
                   guards := th.guards + [Some(m)], holds := th.holds + multiset{m}))
    case Guarding =>
      var last := |th.guards| - 1;
      if last < 0 || th.guards[last].None? || th.guards[last].value !in th.holds then Faults
      else Goes(th.(stack := k, guards := th.guards[..last], holds := th.holds - multiset{th.guards[last].value}))
    case Releasing(m, g, body) =>
      if m !in th.holds then Faults
      else Goes(th.(stack := Push(Body(body), Push(Away(g, m), k)), holds := th.holds - multiset{m}))
    case Away(g, m) => Locks(m, th.(stack := Push(Returning(g, m), k), holds := th.holds + multiset{m}))
    case Returning(g, m) =>
      if g >= |th.guards| then Faults else Goes(th.(stack := k, guards := th.guards[g := Some(m)]))
    case Catching(handler) =>
      if th.throwing then Goes(th.(stack := Push(Body(handler), k), throwing := false)) else Goes(th.(stack := k))
  }

  type System = seq<Thread>

  /** No thread other than t holds m. */
  ghost predicate Available(s: System, t: nat, m: Mutex)
  {
    forall u :: 0 <= u < |s| && u != t ==> m !in s[u].holds
  }

  ghost predicate CanStep(s: System, t: nat)
  {
    && t < |s|
    && (NextMove(s[t]).Goes? || (NextMove(s[t]).Locks? && Available(s, t, NextMove(s[t]).m)))
  }

  ghost predicate Step(s: System, t: nat, s': System)
  {
    CanStep(s, t) && s' == s[t := NextMove(s[t]).next]
  }

  function Start(p: Prog): Thread
  {
    Thread(Push(Body(p), Empty), [], multiset{}, false, [])
  }

  ghost predicate StepAt(ss: seq<System>, who: seq<nat>, i: int)
  {
    0 <= i < |who| < |ss| && Step(ss[i], who[i], ss[i + 1])
  }

  /** A run of the programs ps; thread who[i] makes the i-th step.  With ranked, all of them obey the hierarchy. */
  ghost predicate Run(ss: seq<System>, who: seq<nat>, ps: seq<Prog>, ranked: bool)
  {
    && |ss| == |who| + 1
    && |ss[0]| == |ps|
    && (forall t :: 0 <= t < |ps| ==>
          ss[0][t] == Start(ps[t]) && WellNested(ps[t], []) && (ranked ==> Ordered(ps[t], [])))
    && (forall i :: 0 <= i < |who| ==> StepAt(ss, who, i))
  }

  // The invariant

  /** Only the innermost frame can be between two steps of a release. */
  ghost predicate Resting(k: Stack)
  {
    k.Push? ==> !k.top.Releasing? && !k.top.Returning?
  }

  /** The work left fits the guards at hand, all the way down to the outermost scope. */
  ghost predicate Fits(k: Stack, guards: Guards, ranked: bool)
    decreases k
  {
    && (k.Push? ==> Resting(k.rest))
    && match k
    case Empty => guards == []
    case Push(Body(p), rest) => Fitting(p, guards, ranked) && Fits(rest, guards, ranked)
    case Push(Constructing(m, body), rest) =>
      && (ranked ==> Admissible(m, guards))
      && Fitting(body, guards + [Some(m)], ranked)
      && Fits(rest, guards, ranked)
    case Push(Guarding, rest) =>
      && |guards| > 0 && guards[|guards| - 1].Some?
      && Fits(rest, guards[..|guards| - 1], ranked)
    case Push(Releasing(m, g, body), rest) =>
      && g < |guards| && guards[g] == None
      && (ranked ==> Admissible(m, guards))
      && Fitting(body, guards, ranked)
      && Fits(rest, guards[g := Some(m)], ranked)
    case Push(Away(g, m), rest) =>
      && g < |guards| && guards[g] == None
      && (ranked ==> Admissible(m, guards))
      && Fits(rest, guards[g := Some(m)], ranked)
    case Push(Returning(g, m), rest) =>
      && g < |guards| && guards[g] == None
      && Fits(rest, guards[g := Some(m)], ranked)
    case Push(Catching(handler), rest) => Fitting(handler, guards, ranked) && Fits(rest, guards, ranked)
  }

  ghost predicate Fitting(p: Prog, guards: Guards, ranked: bool)
  {
    WellNested(p, guards) && (ranked ==> Ordered(p, guards))
  }

  /**
   1 between clearing a guard's pointer and unlocking its mutex m, and between locking m again
   and storing the pointer: m is then held once more than the guards say.
   */
  ghost function InTransit(k: Stack, m: Mutex): nat
  {
    match k
    case Push(Releasing(m', _, _), _) => if m == m' then 1 else 0
    case Push(Returning(_, m'), _) => if m == m' then 1 else 0
    case _ => 0
  }

  /** Each mutex is held once for every constructed guard that points to it, and once in transit. */
  ghost predicate Accounted(th: Thread)
  {
    forall m :: th.holds[m] == multiset(th.guards)[Some(m)] + InTransit(th.stack, m)
  }

  ghost predicate ThreadOk(th: Thread, ranked: bool)
  {
    Fits(th.stack, th.guards, ranked) && Accounted(th)
  }

  ghost predicate Exclusive(s: System)
  {
    forall t, u, m :: 0 <= t < |s| && 0 <= u < |s| && t != u && m in s[t].holds ==> m !in s[u].holds
  }

  ghost predicate Inv(s: System, ranked: bool)
  {
    (forall t :: 0 <= t < |s| ==> ThreadOk(s[t], ranked)) && Exclusive(s)
  }

  /** What one move must leave behind. */
  ghost predicate MovesWell(th: Thread, ranked: bool)
  {
    var mv := NextMove(th);
    && !mv.Faults?
    && (mv.Goes? || mv.Locks? ==> ThreadOk(mv.next, ranked))
  }

  lemma ReleaseOpensWell(th: Thread, g: nat, body: Prog, k: Stack, ranked: bool)
    requires th.stack == Push(Body(Released(g, body)), k) && ThreadOk(th, ranked) && !th.throwing
    ensures MovesWell(th, ranked)
  {
    assert th.guards[g := None][g := th.guards[g]] == th.guards;
    assert multiset(th.guards[g := None]) == multiset(th.guards) - multiset{th.guards[g]} + multiset{None};
    assert multiset(th.guards)[th.guards[g]] > 0;
  }

  lemma BodyMovesWell(th: Thread, p: Prog, k: Stack, ranked: bool)
    requires th.stack == Push(Body(p), k) && ThreadOk(th, ranked)
    ensures MovesWell(th, ranked)
  {
    if !th.throwing && p.Released? {
      ReleaseOpensWell(th, p.g, p.body, k, ranked);
    }
  }

  lemma ConstructionMovesWell(th: Thread, k: Stack, ranked: bool)
    requires th.stack.Push? && th.stack.rest == k && ThreadOk(th, ranked) && th.stack.top.Constructing?
    ensures MovesWell(th, ranked)
  {
    var m := th.stack.top.m;
    assert (th.guards + [Some(m)])[..|th.guards|] == th.guards;
  }

  lemma DroppingTheLastGuard(guards: Guards, m: Mutex, m': Mutex)
    requires |guards| > 0 && guards[|guards| - 1] == Some(m)
    ensures multiset(guards)[Some(m')]
         == multiset(guards[..|guards| - 1])[Some(m')] + if m == m' then 1 else 0
  {
    assert guards == guards[..|guards| - 1] + [Some(m)];
  }

  /** The accounts of a thread whose innermost guard, on m, is gone. */
  lemma DestructionKeepsAccounts(th: Thread, m: Mutex, k: Stack)
    requires Accounted(th) && th.stack == Push(Guarding, k) && Resting(k)
    requires |th.guards| > 0 && th.guards[|th.guards| - 1] == Some(m)
    ensures m in th.holds
    ensures Accounted(th.(stack := k, guards := th.guards[..|th.guards| - 1], holds := th.holds - multiset{m}))
  {
    var th' := th.(stack := k, guards := th.guards[..|th.guards| - 1], holds := th.holds - multiset{m});
    DroppingTheLastGuard(th.guards, m, m);
    assert th.holds[m] > 0;
    forall m'
      ensures th'.holds[m'] == multiset(th'.guards)[Some(m')] + InTransit(th'.stack, m')
    {
      DroppingTheLastGuard(th.guards, m, m');
      assert th.holds[m'] == multiset(th.guards)[Some(m')] + InTransit(th.stack, m');
    }
  }

  lemma DestructionMovesWell(th: Thread, k: Stack, ranked: bool)
    requires th.stack.Push? && th.stack.rest == k && ThreadOk(th, ranked) && th.stack.top.Guarding?
    ensures MovesWell(th, ranked)
  {
    DestructionKeepsAccounts(th, th.guards[|th.guards| - 1].value, k);
  }

  lemma ReleaseMovesWell(th: Thread, k: Stack, ranked: bool)
    requires th.stack.Push? && th.stack.rest == k && ThreadOk(th, ranked)
    requires th.stack.top.Releasing? || th.stack.top.Away?
    ensures MovesWell(th, ranked)
  {
    if th.stack.top.Releasing? {
      assert th.holds[th.stack.top.m] > 0;
    }
  }

  lemma ReturnMovesWell(th: Thread, k: Stack, ranked: bool)
    requires th.stack.Push? && th.stack.rest == k && ThreadOk(th, ranked)
    requires th.stack.top.Returning?
    ensures MovesWell(th, ranked)
  {
    var g, m := th.stack.top.g, th.stack.top.m;
    assert multiset(th.guards[g := Some(m)]) == multiset(th.guards) - multiset{None} + multiset{Some(m)};
  }

  /** No destructor meets a null pointer, the accounts stay right, and what remains to be done still fits. */
  lemma EveryMoveIsFine(th: Thread, ranked: bool)
    requires ThreadOk(th, ranked)
    ensures MovesWell(th, ranked)
  {
    match th.stack
    case Empty =>
    case Push(Body(p), k) => BodyMovesWell(th, p, k, ranked);
    case Push(Catching(_), _) =>
    case Push(Returning(_, _), k) => ReturnMovesWell(th, k, ranked);
    case Push(Releasing(_, _, _), k) => ReleaseMovesWell(th, k, ranked);
    case Push(Away(_, _), k) => ReleaseMovesWell(th, k, ranked);
    case Push(Constructing(_, _), k) => ConstructionMovesWell(th, k, ranked);
    case Push(Guarding, k) => DestructionMovesWell(th, k, ranked);
  }

  /** Nothing but a lock adds to what a thread holds. */
  lemma MoveHolds(th: Thread, m: Mutex)
    requires NextMove(th).Goes? || NextMove(th).Locks?
    ensures m in NextMove(th).next.holds ==> m in th.holds || NextMove(th) == Locks(m, NextMove(th).next)
  {
  }

  lemma StepKeepsInv(s: System, t: nat, s': System, ranked: bool)
    requires Inv(s, ranked) && Step(s, t, s')
    ensures Inv(s', ranked) && |s'| == |s|
  {
    EveryMoveIsFine(s[t], ranked);
    forall u, v, m | 0 <= u < |s'| && 0 <= v < |s'| && u != v && m in s'[u].holds
      ensures m !in s'[v].holds
    {
      MoveHolds(s[t], m);
    }
  }

  lemma {:induction false} ReachableInv(ss: seq<System>, who: seq<nat>, ps: seq<Prog>, ranked: bool, i: nat)
    requires Run(ss, who, ps, ranked) && i <= |who|
    ensures |ss[i]| == |ps| && Inv(ss[i], ranked)
  {
    if i == 0 {
      forall t | 0 <= t < |ps|
        ensures ThreadOk(ss[0][t], ranked)
      {
        assert ss[0][t] == Start(ps[t]);
        assert Fits(Empty, [], ranked);
      }
    } else {
      ReachableInv(ss, who, ps, ranked, i - 1);
      assert StepAt(ss, who, i - 1);
      StepKeepsInv(ss[i - 1], who[i - 1], ss[i], ranked);
    }
  }

  // Accounting, exclusion, release

  /**
   Guard accounting at every step of every run: the number of locks a thread has on m is the number
   of its guards pointing to m, but for the single step in transit; so a guard whose pointer is not
   null always has its mutex locked, and a passed assertIdenticalMutex means the mutex is held.
   */
  lemma GuardsAccountForLocks(ss: seq<System>, who: seq<nat>, ps: seq<Prog>, i: nat, t: nat, m: Mutex)
    requires Run(ss, who, ps, false) && i <= |who| && t < |ps|
    ensures |ss[i]| == |ps|
    ensures ss[i][t].holds[m] == multiset(ss[i][t].guards)[Some(m)] + InTransit(ss[i][t].stack, m)
    ensures Some(m) in ss[i][t].guards ==> m in ss[i][t].holds
    ensures !NextMove(ss[i][t]).Faults?
  {
    ReachableInv(ss, who, ps, false, i);
    assert ThreadOk(ss[i][t], false);
    EveryMoveIsFine(ss[i][t], false);
  }

  /** The next thing t does is assertIdenticalMutex on guard g. */
  ghost predicate Asserting(s: System, t: nat, g: nat, m: Mutex)
  {
    t < |s| && !s[t].throwing && s[t].stack.Push? && s[t].stack.top == Body(Check(g, m))
  }

  /**
   In every interleaving the assertion passes if and only if the guard points to the mutex, and then the
   thread holds it and no other thread does; otherwise, and so whenever the guard is released, it fails.
   */
  lemma AssertionsFollowThePointer(ss: seq<System>, who: seq<nat>, ps: seq<Prog>, i: nat, t: nat, g: nat, m: Mutex)
    requires Run(ss, who, ps, false) && i <= |who| && Asserting(ss[i], t, g, m)
    ensures g < |ss[i][t].guards|
    ensures NextMove(ss[i][t]).Goes? <==> ss[i][t].guards[g] == Some(m)
    ensures NextMove(ss[i][t]).Aborts? <==> ss[i][t].guards[g] != Some(m)
    ensures NextMove(ss[i][t]).Goes? ==> m in ss[i][t].holds && Available(ss[i], t, m)
  {
    ReachableInv(ss, who, ps, false, i);
    var th := ss[i][t];
    assert ThreadOk(th, false) && Fitting(Check(g, m), th.guards, false);
    GuardsAccountForLocks(ss, who, ps, i, t, m);
  }

  /** Code under a live, unreleased guard on m never overlaps another thread's code under a guard on m. */
  lemma GuardsExclude(ss: seq<System>, who: seq<nat>, ps: seq<Prog>, i: nat, t: nat, u: nat, m: Mutex)
    requires Run(ss, who, ps, false) && i <= |who| && t < |ps| && u < |ps| && t != u
    ensures |ss[i]| == |ps|
    ensures Some(m) in ss[i][t].guards ==> Some(m) !in ss[i][u].guards && m !in ss[i][u].holds
  {
    GuardsAccountForLocks(ss, who, ps, i, t, m);
    GuardsAccountForLocks(ss, who, ps, i, u, m);
    ReachableInv(ss, who, ps, false, i);
  }

  /** A release makes m available to the others exactly when no other guard of the thread points to it. */
  lemma ReleaseMakesAvailable(ss: seq<System>, who: seq<nat>, ps: seq<Prog>, i: nat, u: nat, m: Mutex)
    requires Run(ss, who, ps, false) && i < |who| && u < |ps| && u != who[i]
    requires who[i] < |ss[i]| && ss[i][who[i]].stack.Push? && ss[i][who[i]].stack.top.Releasing?
    requires m == ss[i][who[i]].stack.top.m
    ensures |ss[i + 1]| == |ps| && who[i] < |ps|
    ensures Available(ss[i + 1], u, m) <==> Some(m) !in ss[i + 1][who[i]].guards
    ensures !Available(ss[i], u, m)
  {
    var t := who[i];
    ReachableInv(ss, who, ps, false, i);
    ReachableInv(ss, who, ps, false, i + 1);
    assert StepAt(ss, who, i);
    assert ThreadOk(ss[i][t], false) && ThreadOk(ss[i + 1][t], false);
    assert ss[i][t].holds[m] > 0;
    assert ss[i + 1][t].holds[m] == multiset(ss[i + 1][t].guards)[Some(m)];
    var before, after := ss[i], ss[i + 1];
    forall v | 0 <= v < |after| && v != u && v != t
      ensures m !in after[v].holds
    {
      assert after[v] == before[v];
    }
  }
}
