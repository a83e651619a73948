/**
 Programs built from the scopes of epicsGuard and epicsGuardRelease, and their
 meaning when they run alone: what each constructor and destructor does to the
 guards' mutex pointers and to the recursive mutexes.
 */
module GuardProgram {
  import opened Wrappers

  /** A recursive mutex, and its place in the lock hierarchy. */
  datatype Mutex = Mutex(id: nat, rank: nat)

  /** One path through a piece of code; guards are numbered from the outermost live one. */
  datatype Prog =
    | Work(e: nat)
    | Throw
    | Then(first: Prog, next: Prog)
    | Guarded(m: Mutex, body: Prog)
    | Released(g: nat, body: Prog)
    | Check(g: nat, m: Mutex)
    | Try(body: Prog, handler: Prog)

  /** The mutex pointers of the live guards, outermost first; None is the null pointer. */
  type Guards = seq<Option<Mutex>>

  /** Every guard that is used is in scope, and none is released twice at a time. */
  predicate WellNested(p: Prog, guards: Guards)
  {
    match p
    case Work(_) => true
    case Throw => true
    case Then(first, next) => WellNested(first, guards) && WellNested(next, guards)
    case Guarded(m, body) => WellNested(body, guards + [Some(m)])
    case Released(g, body) => g < |guards| && guards[g].Some? && WellNested(body, guards[g := None])
    case Check(g, _) => g < |guards|
    case Try(body, handler) => WellNested(body, guards) && WellNested(handler, guards)
  }

  /** m is already held, or ranks above everything held. */
  predicate Admissible(m: Mutex, guards: Guards)
  {
    Some(m) in guards || forall i :: 0 <= i < |guards| && guards[i].Some? ==> guards[i].value.rank < m.rank
  }

  /** Every lock, by a guard or by the end of a release, follows the hierarchy. */
  predicate Ordered(p: Prog, guards: Guards)
  {
    match p
    case Work(_) => true
    case Throw => true
    case Then(first, next) => Ordered(first, guards) && Ordered(next, guards)
    case Guarded(m, body) => Admissible(m, guards) && Ordered(body, guards + [Some(m)])
    case Released(g, body) =>
      && g < |guards| && guards[g].Some?
      && Ordered(body, guards[g := None])
      && Admissible(guards[g].value, guards[g := None])
    case Check(_, _) => true
    case Try(body, handler) => Ordered(body, guards) && Ordered(handler, guards)
  }

  // Running alone

  /** The mutex type a guard is instantiated with. */
  datatype Kind = Recursive | Noop

  /** What the program does apart from locking. */
  datatype Event = Did(e: nat) | Checked(g: nat, m: Mutex, ok: bool)

  datatype State = State(guards: Guards, holds: multiset<Mutex>, trace: seq<Event>)

  /** How a piece of code ends; an abort is a failed assertion, a fault the use of a null pointer or a foreign lock. */
  datatype Outcome = Normal | Thrown | Aborted | Faulted
  {
    predicate RunsDestructors() {
      Normal? || Thrown?
    }
  }

  function Lock(kind: Kind, s: State, m: Mutex): State
  {
    if kind.Noop? then s else s.(holds := s.holds + multiset{m})
  }

  /** None when the mutex is not held, which a recursive mutex does not allow. */
  function Unlock(kind: Kind, s: State, m: Mutex): Option<State>
  {
    if kind.Noop? then Some(s)
    else if m in s.holds then Some(s.(holds := s.holds - multiset{m}))
    else None
  }

  /** The constructor of a guard, which locks. */
  function OpenGuard(kind: Kind, s: State, m: Mutex): State
  {
    Lock(kind, s, m).(guards := s.guards + [Some(m)])
  }

  /** The destructor of the innermost guard, which unlocks through the guard's pointer. */
  function CloseGuard(kind: Kind, s: State): Option<State>
  {
    if s.guards == [] || s.guards[|s.guards| - 1].None? then None
    else
      match Unlock(kind, s, s.guards[|s.guards| - 1].value)
      case None => None
      case Some(u) => Some(u.(guards := s.guards[..|s.guards| - 1]))
  }

  /** The constructor of a release of guard g: the pointer is cleared, then the mutex unlocked. */
  function OpenRelease(kind: Kind, s: State, g: nat): Option<State>
  {
    if g >= |s.guards| || s.guards[g].None? then None
    else Unlock(kind, s.(guards := s.guards[g := None]), s.guards[g].value)
  }

  /** The destructor of a release of guard g, whose mutex was m. */
  function CloseRelease(kind: Kind, s: State, g: nat, m: Mutex): State
    requires g < |s.guards|
  {
    Lock(kind, s, m).(guards := s.guards[g := Some(m)])
  }

  function Exec(kind: Kind, p: Prog, s: State): (r: (State, Outcome))
    ensures r.1.RunsDestructors() ==> |r.0.guards| == |s.guards|
    decreases p
  {
    match p
    case Work(e) => (s.(trace := s.trace + [Did(e)]), Normal)
    case Throw => (s, Thrown)
    case Then(first, next) =>
      var (s1, o) := Exec(kind, first, s);
      if o.Normal? then Exec(kind, next, s1) else (s1, o)
    case Guarded(m, body) =>
      var (s1, o) := Exec(kind, body, OpenGuard(kind, s, m));
      if !o.RunsDestructors() then (s1, o)
      else (match CloseGuard(kind, s1) case Some(s2) => (s2, o) case None => (s1, Faulted))
    case Released(g, body) =>
      (match OpenRelease(kind, s, g)
       case None => (s, Faulted)
       case Some(away) =>
         var (s1, o) := Exec(kind, body, away);
         if o.RunsDestructors() then (CloseRelease(kind, s1, g, s.guards[g].value), o) else (s1, o))
    case Check(g, m) =>
      var ok := g < |s.guards| && s.guards[g] == Some(m);
      (s.(trace := s.trace + [Checked(g, m, ok)]), if ok then Normal else Aborted)
    case Try(body, handler) =>
      var (s1, o) := Exec(kind, body, s);
      if o.Thrown? then Exec(kind, handler, s1) else (s1, o)
  }

  /** Every mutex is held at least once for each live guard that points to it. */
  ghost predicate GuardsAreBacked(s: State)
  {
    forall m :: multiset(s.guards)[Some(m)] <= s.holds[m]
  }

  lemma OpeningKeepsGuardsBacked(s: State, m: Mutex)
    requires GuardsAreBacked(s)
    ensures GuardsAreBacked(OpenGuard(Recursive, s, m))
  {
  }

  lemma ReleasingKeepsGuardsBacked(s: State, g: nat)
    requires GuardsAreBacked(s) && g < |s.guards| && s.guards[g].Some?
    ensures OpenRelease(Recursive, s, g).Some? && GuardsAreBacked(OpenRelease(Recursive, s, g).value)
  {
    assert multiset(s.guards)[s.guards[g]] > 0;
  }

  lemma ReacquiringKeepsGuardsBacked(s: State, g: nat, m: Mutex)
    requires GuardsAreBacked(s) && g < |s.guards|
    ensures GuardsAreBacked(CloseRelease(Recursive, s, g, m))
  {
  }

  lemma ClosingKeepsGuardsBacked(s: State)
    requires GuardsAreBacked(s) && s.guards != [] && s.guards[|s.guards| - 1].Some?
    ensures CloseGuard(Recursive, s).Some? && GuardsAreBacked(CloseGuard(Recursive, s).value)
  {
    var last := |s.guards| - 1;
    assert s.guards == s.guards[..last] + [s.guards[last]];
  }

  ghost predicate Restored(s: State, s': State, o: Outcome)
  {
    && !o.Faulted?
    && (o.RunsDestructors() ==> s'.guards == s.guards && s'.holds == s.holds)
    && s.trace <= s'.trace
  }

  lemma GuardedBalances(m: Mutex, body: Prog, s: State)
    requires var (s1, o) := Exec(Recursive, body, OpenGuard(Recursive, s, m));
             Restored(OpenGuard(Recursive, s, m), s1, o)
    ensures var (s', o) := Exec(Recursive, Guarded(m, body), s); Restored(s, s', o)
  {
    var (s1, o) := Exec(Recursive, body, OpenGuard(Recursive, s, m));
    if o.RunsDestructors() {
      assert s1.guards[..|s1.guards| - 1] == s.guards && s1.guards[|s1.guards| - 1] == Some(m);
      assert m in s1.holds && s1.holds - multiset{m} == s.holds;
    }
  }

  lemma ReleasedBalances(g: nat, body: Prog, s: State)
    requires g < |s.guards| && s.guards[g].Some? && s.guards[g].value in s.holds
    requires var away := OpenRelease(Recursive, s, g).value;
             var (s1, o) := Exec(Recursive, body, away); Restored(away, s1, o)
    ensures var (s', o) := Exec(Recursive, Released(g, body), s); Restored(s, s', o)
  {
    var m := s.guards[g].value;
    var (s1, o) := Exec(Recursive, body, OpenRelease(Recursive, s, g).value);
    if o.RunsDestructors() {
      assert s1.guards[g := Some(m)] == s.guards;
      assert s1.holds + multiset{m} == s.holds;
    }
  }

  /**
   Exception-safe balance: however the code ends, short of a failed assertion, every mutex is
   held as often as before and every outer guard points where it pointed; no destructor meets a
   null pointer or unlocks a mutex that is not held.
   */
  lemma {:induction false} ScopesBalance(p: Prog, s: State)
    requires WellNested(p, s.guards) && GuardsAreBacked(s)
    ensures var (s', o) := Exec(Recursive, p, s); Restored(s, s', o)
    decreases p
  {
    match p
    case Then(first, next) =>
      ScopesBalance(first, s);
      var (s1, o) := Exec(Recursive, first, s);
      if o.Normal? {
        ScopesBalance(next, s1);
      }
    case Guarded(m, body) =>
      OpeningKeepsGuardsBacked(s, m);
      ScopesBalance(body, OpenGuard(Recursive, s, m));
      GuardedBalances(m, body, s);
    case Released(g, body) =>
      ReleasingKeepsGuardsBacked(s, g);
      ScopesBalance(body, OpenRelease(Recursive, s, g).value);
      ReleasedBalances(g, body, s);
    case Try(body, handler) =>
      ScopesBalance(body, s);
      var (s1, o) := Exec(Recursive, body, s);
      if o.Thrown? {
        ScopesBalance(handler, s1);
      }
    case _ =>
  }

  // What assertIdenticalMutex catches

  lemma CheckingAfter(body: Prog, g: nat, m: Mutex, s: State)
    requires Exec(Recursive, body, s).1.Normal? && g < |Exec(Recursive, body, s).0.guards|
    ensures Exec(Recursive, Then(body, Check(g, m)), s).1
         == if Exec(Recursive, body, s).0.guards[g] == Some(m) then Normal else Aborted
  {
  }

  lemma GuardsPassOutcomesOn(m: Mutex, body: Prog, s: State)
    requires WellNested(body, s.guards + [Some(m)]) && GuardsAreBacked(s)
    ensures Exec(Recursive, Guarded(m, body), s).1 == Exec(Recursive, body, OpenGuard(Recursive, s, m)).1
  {
    ScopesBalance(Guarded(m, body), s);
  }

  lemma CheckingBehindAGuard(body: Prog, g: nat, m: Mutex, inner: State)
    requires WellNested(body, inner.guards) && GuardsAreBacked(inner) && g < |inner.guards|
    requires Exec(Recursive, body, inner).1.Normal?
    ensures Exec(Recursive, Then(body, Check(g, m)), inner).1 == if inner.guards[g] == Some(m) then Normal else Aborted
  {
    ScopesBalance(body, inner);
    CheckingAfter(body, g, m, inner);
  }

  /** After any code that ends normally, the assertion on a guard passes exactly for the guard's own mutex. */
  lemma AssertionsKnowTheMutex(m: Mutex, body: Prog, g: nat, m': Mutex, s: State, inner: State)
    requires g == |s.guards| && inner == OpenGuard(Recursive, s, m)
    requires WellNested(body, inner.guards) && GuardsAreBacked(s) && Exec(Recursive, body, inner).1.Normal?
    ensures Exec(Recursive, Guarded(m, Then(body, Check(g, m'))), s).1 == if m == m' then Normal else Aborted
  {
    OpeningKeepsGuardsBacked(s, m);
    CheckingBehindAGuard(body, g, m', inner);
    GuardsPassOutcomesOn(m, Then(body, Check(g, m')), s);
  }

  /** While a guard is released, and after any code that ends normally there, the assertion on it fails. */
  lemma AssertionsCatchReleasedGuards(g: nat, body: Prog, m: Mutex, s: State)
    requires WellNested(Released(g, body), s.guards) && GuardsAreBacked(s)
    requires Exec(Recursive, Released(g, body), s).1.Normal?
    ensures Exec(Recursive, Released(g, Then(body, Check(g, m))), s).1.Aborted?
  {
    ReleasingKeepsGuardsBacked(s, g);
    CheckingBehindAGuard(body, g, m, OpenRelease(Recursive, s, g).value);
  }

  // What the code inside the scopes does

  /** The work in a trace. */
  ghost function Works(trace: seq<Event>): seq<nat>
  {
    if trace == [] then []
    else Works(trace[..|trace| - 1]) + if trace[|trace| - 1].Did? then [trace[|trace| - 1].e] else []
  }

  /** Whether p ends in an exception when all its scopes and assertions are erased. */
  predicate Throws(p: Prog)
  {
    match p
    case Work(_) => false
    case Throw => true
    case Then(first, next) => Throws(first) || Throws(next)
    case Guarded(_, body) => Throws(body)
    case Released(_, body) => Throws(body)
    case Check(_, _) => false
    case Try(body, handler) => Throws(body) && Throws(handler)
  }

  /** The work that p does when all its scopes and assertions are erased. */
  function Log(p: Prog): seq<nat>
  {
    match p
    case Work(e) => [e]
    case Throw => []
    case Then(first, next) => Log(first) + if Throws(first) then [] else Log(next)
    case Guarded(_, body) => Log(body)
    case Released(_, body) => Log(body)
    case Check(_, _) => []
    case Try(body, handler) => Log(body) + if Throws(body) then Log(handler) else []
  }

  lemma WorksOfOneMore(trace: seq<Event>, e: Event)
    ensures Works(trace + [e]) == Works(trace) + if e.Did? then [e.e] else []
  {
    assert (trace + [e])[..|trace|] == trace;
  }

  /** From the work before to the work after, p ends as o says and does what it does without its scopes. */
  ghost predicate Adds(p: Prog, before: seq<nat>, after: seq<nat>, o: Outcome)
  {
    o.RunsDestructors() ==> after == before + Log(p) && (o.Thrown? <==> Throws(p))
  }

  /** works reads a trace event by event. */
  ghost predicate ReadsWork(works: seq<Event> -> seq<nat>)
  {
    forall trace, e :: works(trace + [e]) == works(trace) + if e.Did? then [e.e] else []
  }

  ghost predicate DoesTheWork(works: seq<Event> -> seq<nat>, p: Prog, s: State, r: (State, Outcome))
  {
    Adds(p, works(s.trace), works(r.0.trace), r.1)
  }

  /** How a guard or a release that ends well passes the trace and the outcome of its body on. */
  lemma ScopesKeepTheTrace(kind: Kind, m: Mutex, g: nat, body: Prog, s: State)
    ensures var (r, inner) := (Exec(kind, Guarded(m, body), s), Exec(kind, body, OpenGuard(kind, s, m)));
            r.1.RunsDestructors() ==> r.1 == inner.1 && r.0.trace == inner.0.trace
    ensures OpenGuard(kind, s, m).trace == s.trace
    ensures OpenRelease(kind, s, g).Some? ==>
              var away := OpenRelease(kind, s, g).value;
              var (r, inner) := (Exec(kind, Released(g, body), s), Exec(kind, body, away));
              away.trace == s.trace && (r.1.RunsDestructors() ==> r.1 == inner.1 && r.0.trace == inner.0.trace)
  {
  }

  lemma {:induction false} EveryReaderSeesTheWork(works: seq<Event> -> seq<nat>, kind: Kind, p: Prog, s: State)
    requires ReadsWork(works)
    ensures DoesTheWork(works, p, s, Exec(kind, p, s))
    decreases p
  {
    match p
    case Then(first, next) =>
      EveryReaderSeesTheWork(works, kind, first, s);
      EveryReaderSeesTheWork(works, kind, next, Exec(kind, first, s).0);
    case Guarded(m, body) =>
      EveryReaderSeesTheWork(works, kind, body, OpenGuard(kind, s, m));
      ScopesKeepTheTrace(kind, m, 0, body, s);
    case Released(g, body) =>
      if OpenRelease(kind, s, g).Some? {
        EveryReaderSeesTheWork(works, kind, body, OpenRelease(kind, s, g).value);
        ScopesKeepTheTrace(kind, Mutex(0, 0), g, body, s);
      }
    case Try(body, handler) =>
      EveryReaderSeesTheWork(works, kind, body, s);
      EveryReaderSeesTheWork(works, kind, handler, Exec(kind, body, s).0);
    case _ =>
  }

  /**
   Scopes are transparent: with either kind of mutex, code that runs to a normal end or to an exception
   does the same work, in the same order, and throws exactly when it does so without its scopes.
   */
  lemma ScopesAreTransparent(kind: Kind, p: Prog, s: State)
    requires Exec(kind, p, s).1.RunsDestructors()
    ensures var (s', o) := Exec(kind, p, s);
            Works(s'.trace) == Works(s.trace) + Log(p) && (o.Thrown? <==> Throws(p))
  {
    forall trace, e
      ensures Works(trace + [e]) == Works(trace) + if e.Did? then [e.e] else []
    {
      WorksOfOneMore(trace, e);
    }
    EveryReaderSeesTheWork(Works, kind, p, s);
  }

  /** The two runs differ in what they hold, and in nothing else. */
  ghost predicate SameButLocks(locked: (State, Outcome), noop: (State, Outcome))
  {
    && noop == (locked.0.(holds := noop.0.holds), locked.1)
    && (locked.1.RunsDestructors() ==> GuardsAreBacked(locked.0))
  }

  /** Two states that differ in what is held. */
  ghost predicate Twins(s: State, n: State)
  {
    GuardsAreBacked(s) && n == s.(holds := n.holds)
  }

  lemma ThenErases(first: Prog, next: Prog, s: State, n: State)
    requires var (locked, noop) := (Exec(Recursive, first, s), Exec(Noop, first, n));
             && SameButLocks(locked, noop) && noop.0.holds == n.holds
             && (locked.1.Normal? ==> && SameButLocks(Exec(Recursive, next, locked.0), Exec(Noop, next, noop.0))
                                      && Exec(Noop, next, noop.0).0.holds == n.holds)
    ensures SameButLocks(Exec(Recursive, Then(first, next), s), Exec(Noop, Then(first, next), n))
    ensures Exec(Noop, Then(first, next), n).0.holds == n.holds
  {
  }

  lemma TryErases(body: Prog, handler: Prog, s: State, n: State)
    requires var (locked, noop) := (Exec(Recursive, body, s), Exec(Noop, body, n));
             && SameButLocks(locked, noop) && noop.0.holds == n.holds
             && (locked.1.Thrown? ==> && SameButLocks(Exec(Recursive, handler, locked.0), Exec(Noop, handler, noop.0))
                                      && Exec(Noop, handler, noop.0).0.holds == n.holds)
    ensures SameButLocks(Exec(Recursive, Try(body, handler), s), Exec(Noop, Try(body, handler), n))
    ensures Exec(Noop, Try(body, handler), n).0.holds == n.holds
  {
  }

  lemma ClosingErases(s: State, n: State)
    requires Twins(s, n)
    ensures CloseGuard(Recursive, s).Some? == CloseGuard(Noop, n).Some?
    ensures CloseGuard(Recursive, s).Some? ==>
              && Twins(CloseGuard(Recursive, s).value, CloseGuard(Noop, n).value)
              && CloseGuard(Noop, n).value.holds == n.holds
  {
    if s.guards != [] && s.guards[|s.guards| - 1].Some? {
      ClosingKeepsGuardsBacked(s);
    }
  }

  lemma GuardedErases(m: Mutex, body: Prog, s: State, n: State)
    requires Twins(s, n)
    requires SameButLocks(Exec(Recursive, body, OpenGuard(Recursive, s, m)), Exec(Noop, body, OpenGuard(Noop, n, m)))
    ensures SameButLocks(Exec(Recursive, Guarded(m, body), s), Exec(Noop, Guarded(m, body), n))
    ensures Exec(Noop, Guarded(m, body), n).0.holds == Exec(Noop, body, OpenGuard(Noop, n, m)).0.holds
  {
    var (s1, o) := Exec(Recursive, body, OpenGuard(Recursive, s, m));
    if o.RunsDestructors() {
      ClosingErases(s1, Exec(Noop, body, OpenGuard(Noop, n, m)).0);
    }
  }

  lemma ClosingReleaseErases(g: nat, m: Mutex, s: State, n: State)
    requires Twins(s, n) && g < |s.guards|
    ensures Twins(CloseRelease(Recursive, s, g, m), CloseRelease(Noop, n, g, m))
    ensures CloseRelease(Noop, n, g, m).holds == n.holds
  {
    ReacquiringKeepsGuardsBacked(s, g, m);
  }

  lemma ReleasedErases(g: nat, body: Prog, s: State, n: State, away: State, away': State)
    requires Twins(s, n) && g < |s.guards| && s.guards[g].Some?
    requires OpenRelease(Recursive, s, g) == Some(away) && OpenRelease(Noop, n, g) == Some(away')
    requires SameButLocks(Exec(Recursive, body, away), Exec(Noop, body, away'))
    ensures SameButLocks(Exec(Recursive, Released(g, body), s), Exec(Noop, Released(g, body), n))
    ensures Exec(Noop, Released(g, body), n).0.holds == Exec(Noop, body, away').0.holds
  {
    var (s1, o) := Exec(Recursive, body, away);
    var n1 := Exec(Noop, body, away').0;
    if o.RunsDestructors() {
      ClosingReleaseErases(g, s.guards[g].value, s1, n1);
    }
  }

  /**
   NOOP erasure: with epicsMutexNOOP in place of the recursive mutex, every program, well nested
   or not, does the same work, gets the same assertion outcomes, leaves the same pointers and
   ends the same way, as long as the live guards are backed by held mutexes at the start.
   */
  lemma {:induction false} NoopChangesOnlyTheLocks(p: Prog, s: State, n: State)
    requires Twins(s, n)
    ensures SameButLocks(Exec(Recursive, p, s), Exec(Noop, p, n))
    ensures Exec(Noop, p, n).0.holds == n.holds
    decreases p
  {
    match p
    case Then(first, next) =>
      NoopChangesOnlyTheLocks(first, s, n);
      if Exec(Recursive, first, s).1.Normal? {
        NoopChangesOnlyTheLocks(next, Exec(Recursive, first, s).0, Exec(Noop, first, n).0);
      }
      ThenErases(first, next, s, n);
    case Guarded(m, body) =>
      OpeningKeepsGuardsBacked(s, m);
      NoopChangesOnlyTheLocks(body, OpenGuard(Recursive, s, m), OpenGuard(Noop, n, m));
      GuardedErases(m, body, s, n);
    case Released(g, body) =>
      if g < |s.guards| && s.guards[g].Some? {
        ReleasingKeepsGuardsBacked(s, g);
        var away, away' := OpenRelease(Recursive, s, g).value, OpenRelease(Noop, n, g).value;
        NoopChangesOnlyTheLocks(body, away, away');
        ReleasedErases(g, body, s, n, away, away');
      }
    case Try(body, handler) =>
      NoopChangesOnlyTheLocks(body, s, n);
      if Exec(Recursive, body, s).1.Thrown? {
        NoopChangesOnlyTheLocks(handler, Exec(Recursive, body, s).0, Exec(Noop, body, n).0);
      }
      TryErases(body, handler, s, n);
    case _ =>
  }
}
