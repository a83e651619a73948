/** The lock hierarchy is not only sufficient: a program that leaves it deadlocks with one that follows it. */
module GuardHierarchy {
  import opened Wrappers
  import opened GuardProgram
  import opened GuardThreads
  import opened GuardMeaning
  import opened GuardProgress

  /** Some run of the programs comes to s. */
  ghost predicate Reachable(ps: seq<Prog>, s: System)
  {
    exists ss, who :: Run(ss, who, ps, false) && ss[|who|] == s
  }

  /** Work is left, nobody can step, and nobody has been stopped by a failed assertion. */
  ghost predicate Deadlocked(s: System)
  {
    (exists t :: Unfinished(s, t)) && forall u :: !CanStep(s, u) && !Stopped(s, u)
  }

  ghost predicate CanDeadlock(ps: seq<Prog>)
  {
    exists s :: Reachable(ps, s) && Deadlocked(s)
  }

  lemma StepReaches(ps: seq<Prog>, s: System, t: nat, s': System)
    requires Reachable(ps, s) && Step(s, t, s')
    ensures Reachable(ps, s')
  {
    var ss, who :| Run(ss, who, ps, false) && ss[|who|] == s;
    var ss', who' := ss + [s'], who + [t];
    forall i | 0 <= i < |who'|
      ensures StepAt(ss', who', i)
    {
      assert i < |who| ==> StepAt(ss, who, i);
    }
    assert Run(ss', who', ps, false);
  }

  lemma NothingHasHappened(ps: seq<Prog>, s: System)
    requires |s| == |ps| && forall t :: 0 <= t < |ps| ==> s[t] == Start(ps[t]) && WellNested(ps[t], [])
    ensures Reachable(ps, s)
  {
    var ss, who: seq<nat> := [s], [];
    assert Run(ss, who, ps, false) && ss[|who|] == s;
  }

  /** The first thread can go its way while the second one holds nothing. */
  lemma {:induction false} FirstThreadGoes(ps: seq<Prog>, a: Thread, b: Thread, other: Thread, n: nat)
    requires Reachable(ps, [a, other]) && Iterates(Moved, a, b, n) && other.holds == multiset{}
    ensures Reachable(ps, [b, other])
    decreases n
  {
    if n > 0 {
      var next := Moved(a).value;
      assert [a, other][0 := next] == [next, other];
      StepReaches(ps, [a, other], 0, [next, other]);
      FirstThreadGoes(ps, next, b, other, n - 1);
    }
  }

  /** Takes m and then a. */
  function Rival(m: Mutex, a: Mutex): Prog
  {
    Guarded(m, Guarded(a, Work(0)))
  }

  /** The rival thread when it holds m and wants a. */
  function RivalWaiting(m: Mutex, a: Mutex): Thread
  {
    Thread(Push(Constructing(a, Work(0)), Push(Guarding, Empty)), [Some(m)], multiset{m}, false, [])
  }

  /** While the first thread does not hold m, the rival can take it. */
  lemma RivalGoes(ps: seq<Prog>, th: Thread, m: Mutex, a: Mutex)
    requires Reachable(ps, [th, Start(Rival(m, a))]) && m !in th.holds
    ensures Reachable(ps, [th, RivalWaiting(m, a)])
  {
    var r0 := Start(Rival(m, a));
    var r1 := r0.(stack := Push(Constructing(m, Guarded(a, Work(0))), Empty));
    var r2 := Thread(Push(Body(Guarded(a, Work(0))), Push(Guarding, Empty)), [Some(m)], multiset{m}, false, []);
    assert NextMove(r1).next == r2;
    assert [th, r0][1 := r1] == [th, r1] && [th, r1][1 := r2] == [th, r2];
    assert [th, r2][1 := RivalWaiting(m, a)] == [th, RivalWaiting(m, a)];
    StepReaches(ps, [th, r0], 1, [th, r1]);
    StepReaches(ps, [th, r1], 1, [th, r2]);
    StepReaches(ps, [th, r2], 1, [th, RivalWaiting(m, a)]);
  }

  lemma BothWait(th: Thread, m: Mutex, a: Mutex)
    requires NextMove(th).Locks? && NextMove(th).m == m && a in th.holds
    ensures Deadlocked([th, RivalWaiting(m, a)])
  {
    var s := [th, RivalWaiting(m, a)];
    assert Unfinished(s, 1);
    assert m in s[1].holds && a in s[0].holds;
    assert !CanStep(s, 0) && !CanStep(s, 1);
  }

  /**
   Whenever a program wants m, not held, while it holds a, there is a program that deadlocks with it;
   and if m ranks below a, so that wanting it breaks the hierarchy, that program follows the hierarchy.
   */
  lemma WaitingWhileHoldingDeadlocks(p: Prog, th: Thread, a: Mutex)
    requires WellNested(p, []) && Leads(Start(p), th) && NextMove(th).Locks?
    requires NextMove(th).m !in th.holds && a in th.holds
    ensures WellNested(Rival(NextMove(th).m, a), []) && CanDeadlock([p, Rival(NextMove(th).m, a)])
    ensures NextMove(th).m.rank < a.rank ==> Ordered(Rival(NextMove(th).m, a), [])
  {
    var m := NextMove(th).m;
    var ps, s0 := [p, Rival(m, a)], [Start(p), Start(Rival(m, a))];
    assert [] + [Some(m)] == [Some(m)];
    assert WellNested(Rival(m, a), []);
    NothingHasHappened(ps, s0);
    var n: nat :| Iterates(Moved, Start(p), th, n);
    FirstThreadGoes(ps, Start(p), th, Start(Rival(m, a)), n);
    RivalGoes(ps, th, m, a);
    BothWait(th, m, a);
  }

  // The converse of deadlock freedom

  /** No two mutexes of the hierarchy share a rank. */
  ghost predicate Strict(ms: set<Mutex>)
  {
    forall m, m' :: m in ms && m' in ms && m.rank == m'.rank ==> m == m'
  }

  /** All of p is executed: it does not throw or try, and its assertions hold.  Its mutexes are in ms. */
  predicate Straight(p: Prog, guards: Guards, ms: set<Mutex>)
  {
    match p
    case Work(_) => true
    case Throw => false
    case Then(first, next) => Straight(first, guards, ms) && Straight(next, guards, ms)
    case Guarded(m, body) => m in ms && Straight(body, guards + [Some(m)], ms)
    case Released(g, body) => g < |guards| && Straight(body, guards[g := None], ms)
    case Check(g, m) => g < |guards| && guards[g] == Some(m)
    case Try(_, _) => false
  }

  /** Every mutex is held exactly as often as the guards say, and is one of ms. */
  ghost predicate Exact(s: State, ms: set<Mutex>)
  {
    forall m :: s.holds[m] == multiset(s.guards)[Some(m)] && (Some(m) in s.guards ==> m in ms)
  }

  lemma {:induction false} StraightProgramsEnd(p: Prog, s: State, ms: set<Mutex>)
    requires WellNested(p, s.guards) && Straight(p, s.guards, ms) && GuardsAreBacked(s)
    ensures Exec(Recursive, p, s).1.Normal?
    decreases p
  {
    ScopesBalance(p, s);
    match p
    case Then(first, next) =>
      ScopesBalance(first, s);
      StraightProgramsEnd(first, s, ms);
      StraightProgramsEnd(next, Exec(Recursive, first, s).0, ms);
    case Guarded(m, body) =>
      OpeningKeepsGuardsBacked(s, m);
      StraightProgramsEnd(body, OpenGuard(Recursive, s, m), ms);
    case Released(g, body) =>
      ReleasingKeepsGuardsBacked(s, g);
      StraightProgramsEnd(body, OpenRelease(Recursive, s, g).value, ms);
    case _ =>
  }

  /** th wants a mutex that it does not hold and that does not rank above the mutex a, which it holds. */
  ghost predicate OutOfOrder(th: Thread, a: Mutex, ms: set<Mutex>)
  {
    && NextMove(th).Locks? && NextMove(th).m !in th.holds && a in th.holds
    && NextMove(th).m in ms && a in ms && NextMove(th).m.rank <= a.rank
  }

  lemma InadmissibleIsOutOfOrder(th: Thread, s: State, ms: set<Mutex>) returns (a: Mutex)
    requires Exact(s, ms) && th.guards == s.guards && th.holds == s.holds
    requires NextMove(th).Locks? && NextMove(th).m in ms && !Admissible(NextMove(th).m, s.guards)
    ensures OutOfOrder(th, a, ms)
  {
    var i :| 0 <= i < |s.guards| && s.guards[i].Some? && s.guards[i].value.rank >= NextMove(th).m.rank;
    a := s.guards[i].value;
    assert Some(a) in s.guards;
    assert s.holds[a] > 0 && s.holds[NextMove(th).m] == 0;
  }

  /** The body runs to its end, and the release is about to take the mutex back. */
  lemma RelockIsNext(g: nat, body: Prog, k: Stack, s: State, away: State, ms: set<Mutex>) returns (th: Thread)
    requires g < |s.guards| && s.guards[g].Some? && OpenRelease(Recursive, s, g) == Some(away)
    requires GuardsAreBacked(away) && WellNested(body, away.guards) && Straight(body, away.guards, ms)
    ensures Leads(ThreadIn(Push(Body(Released(g, body)), k), s, Normal), th)
    ensures th.stack == Push(Away(g, s.guards[g].value), k) && th.guards == away.guards && th.holds == away.holds
  {
    var m := s.guards[g].value;
    StraightProgramsEnd(body, away, ms);
    ScopesBalance(body, away);
    MovesDoWhatTheProgramMeans(body, Push(Away(g, m), k), away);
    ReleasedOpens(g, body, k, s, m, away);
    th := ThreadIn(Push(Away(g, m), k), Exec(Recursive, body, away).0, Normal);
    LeadsOn(ThreadIn(Push(Body(Released(g, body)), k), s, Normal),
            ThreadIn(Push(Body(body), Push(Away(g, m), k)), away, Normal), th);
  }

  /** The body runs to its end, and the release then wants the mutex back out of order. */
  lemma RelockIsReached(g: nat, body: Prog, k: Stack, s: State, away: State, ms: set<Mutex>)
      returns (th: Thread, a: Mutex)
    requires g < |s.guards| && s.guards[g].Some? && OpenRelease(Recursive, s, g) == Some(away)
    requires Exact(away, ms) && GuardsAreBacked(away) && s.guards[g].value in ms
    requires WellNested(body, away.guards) && Straight(body, away.guards, ms)
    requires !Admissible(s.guards[g].value, away.guards)
    ensures Leads(ThreadIn(Push(Body(Released(g, body)), k), s, Normal), th) && OutOfOrder(th, a, ms)
  {
    th := RelockIsNext(g, body, k, s, away, ms);
    assert NextMove(th).Locks? && NextMove(th).m == s.guards[g].value;
    a := InadmissibleIsOutOfOrder(th, away, ms);
  }

  lemma OpeningKeepsExact(s: State, m: Mutex, ms: set<Mutex>)
    requires Exact(s, ms) && m in ms
    ensures Exact(OpenGuard(Recursive, s, m), ms)
  {
  }

  lemma ReleasingKeepsExact(s: State, g: nat, ms: set<Mutex>)
    requires Exact(s, ms) && g < |s.guards| && s.guards[g].Some?
    ensures s.guards[g].value in ms
    ensures OpenRelease(Recursive, s, g).Some? && Exact(OpenRelease(Recursive, s, g).value, ms)
  {
    var m := s.guards[g].value;
    assert Some(m) in s.guards && multiset(s.guards)[Some(m)] > 0;
    assert multiset(s.guards[g := None]) == multiset(s.guards) - multiset{Some(m)} + multiset{None};
    forall m' | Some(m') in s.guards[g := None]
      ensures m' in ms
    {
      assert Some(m') in s.guards;
    }
  }

  /** A program that leaves the hierarchy somewhere gets there when it runs alone. */
  lemma {:induction false} DisorderIsReached(p: Prog, k: Stack, s: State, ms: set<Mutex>) returns (th: Thread, a: Mutex)
    requires WellNested(p, s.guards) && Straight(p, s.guards, ms) && !Ordered(p, s.guards) && Exact(s, ms)
    ensures Leads(ThreadIn(Push(Body(p), k), s, Normal), th) && OutOfOrder(th, a, ms)
    decreases p
  {
    var from := ThreadIn(Push(Body(p), k), s, Normal);
    match p
    case Then(first, next) =>
      var start := ThreadIn(Push(Body(first), Push(Body(next), k)), s, Normal);
      MoveLeads(from, start);
      if !Ordered(first, s.guards) {
        th, a := DisorderIsReached(first, Push(Body(next), k), s, ms);
      } else {
        var s1 := Exec(Recursive, first, s).0;
        StraightProgramsEnd(first, s, ms);
        ScopesBalance(first, s);
        MovesDoWhatTheProgramMeans(first, Push(Body(next), k), s);
        th, a := DisorderIsReached(next, k, s1, ms);
        LeadsOn(start, ThreadIn(Push(Body(next), k), s1, Normal), th);
      }
      LeadsOn(from, start, th);
    case Guarded(m, body) =>
      var locking := ThreadIn(Push(Constructing(m, body), k), s, Normal);
      if !Admissible(m, s.guards) {
        th := locking;
        MoveLeads(from, locking);
        a := InadmissibleIsOutOfOrder(th, s, ms);
      } else {
        OpeningKeepsExact(s, m, ms);
        th, a := DisorderIsReached(body, Push(Guarding, k), OpenGuard(Recursive, s, m), ms);
        GuardedOpens(m, body, k, s);
        LeadsOn(from, ThreadIn(Push(Body(body), Push(Guarding, k)), OpenGuard(Recursive, s, m), Normal), th);
      }
    case Released(g, body) =>
      ReleasingKeepsExact(s, g, ms);
      var m, away := s.guards[g].value, OpenRelease(Recursive, s, g).value;
      if !Ordered(body, away.guards) {
        th, a := DisorderIsReached(body, Push(Away(g, m), k), away, ms);
        ReleasedOpens(g, body, k, s, m, away);
        LeadsOn(from, ThreadIn(Push(Body(body), Push(Away(g, m), k)), away, Normal), th);
      } else {
        th, a := RelockIsReached(g, body, k, s, away, ms);
      }
    case _ =>
  }

  lemma DisorderDeadlocks(p: Prog, ms: set<Mutex>) returns (m: Mutex, a: Mutex)
    requires WellNested(p, []) && Straight(p, [], ms) && Strict(ms) && !Ordered(p, [])
    ensures m in ms && a in ms && m.rank < a.rank
    ensures WellNested(Rival(m, a), []) && Ordered(Rival(m, a), []) && CanDeadlock([p, Rival(m, a)])
  {
    var s0 := State([], multiset{}, []);
    var th: Thread;
    th, a := DisorderIsReached(p, Empty, s0, ms);
    m := NextMove(th).m;
    WaitingWhileHoldingDeadlocks(p, th, a);
  }

  lemma OrderedProgramsDoNotDeadlock(p: Prog, q: Prog)
    requires WellNested(p, []) && Ordered(p, []) && WellNested(q, []) && Ordered(q, [])
    ensures !CanDeadlock([p, q])
  {
    if CanDeadlock([p, q]) {
      var s :| Reachable([p, q], s) && Deadlocked(s);
      var ss, who :| Run(ss, who, [p, q], false) && ss[|who|] == s;
      assert Run(ss, who, [p, q], true);
      var t :| Unfinished(s, t);
      NoDeadlock(ss, who, [p, q], |who|, t);
    }
  }

  /**
   The hierarchy is exact: a program all of which is executed can be run beside every program that
   follows the hierarchy, without a deadlock, if and only if it follows the hierarchy itself, with its
   relocks as with its guards.
   */
  lemma FollowingTheHierarchyIsNecessary(p: Prog, ms: set<Mutex>)
    requires WellNested(p, []) && Straight(p, [], ms) && Strict(ms)
    ensures Ordered(p, []) <==> forall q :: WellNested(q, []) && Ordered(q, []) ==> !CanDeadlock([p, q])
  {
    if Ordered(p, []) {
      forall q | WellNested(q, []) && Ordered(q, [])
        ensures !CanDeadlock([p, q])
      {
        OrderedProgramsDoNotDeadlock(p, q);
      }
    } else {
      var m, a := DisorderDeadlocks(p, ms);
    }
  }

  // The documented hierarchy

  /** callbackControl comes before mutualExclusion. */
  const CALLBACK := Mutex(0, 0)
  const MUTUAL := Mutex(1, 1)

  /** Takes both mutexes in order, but lets go of the outer one only and takes it again. */
  const LETS_GO := Guarded(CALLBACK, Guarded(MUTUAL, Released(0, Work(0))))

  lemma LetsGoRelocksOutOfOrder()
    ensures WellNested(LETS_GO, []) && Straight(LETS_GO, [], {CALLBACK, MUTUAL}) && !Ordered(LETS_GO, [])
    ensures !Admissible(CALLBACK, [None, Some(MUTUAL)])
  {
    var outer, inside, away := [Some(CALLBACK)], [Some(CALLBACK), Some(MUTUAL)], [None, Some(MUTUAL)];
    assert away[1].value.rank >= CALLBACK.rank;
    assert [] + [Some(CALLBACK)] == outer && outer + [Some(MUTUAL)] == inside && inside[0 := None] == away;
    var body := Released(0, Work(0));
    assert WellNested(body, inside) && Straight(body, inside, {CALLBACK, MUTUAL}) && !Ordered(body, inside);
    assert WellNested(Guarded(MUTUAL, body), outer) && Straight(Guarded(MUTUAL, body), outer, {CALLBACK, MUTUAL});
    assert !Ordered(Guarded(MUTUAL, body), outer);
  }

  /**
   Although every guard constructor of the two programs follows the hierarchy, they can deadlock: the
   first releases and relocks the outer mutex while it holds the inner one.
   */
  lemma RelockingOutOfOrderDeadlocks()
    ensures Admissible(CALLBACK, []) && Admissible(MUTUAL, [Some(CALLBACK)])
    ensures !Admissible(CALLBACK, [None, Some(MUTUAL)])
    ensures CanDeadlock([LETS_GO, Rival(CALLBACK, MUTUAL)])
  {
    LetsGoRelocksOutOfOrder();
    var m, a := DisorderDeadlocks(LETS_GO, {CALLBACK, MUTUAL});
  }
}
