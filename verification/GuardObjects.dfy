/** The guard and release objects themselves, and a caller that builds and destroys them scope by scope. */
module GuardObjects {
  import opened Wrappers
  import opened GuardProgram

  /** epicsMutex or epicsMutexNOOP, as one thread sees it. */
  class EpicsMutex {
    const kind: Kind
    const id: Mutex
    var depth: nat

    constructor (kind: Kind, id: Mutex)
      ensures this.kind == kind && this.id == id && depth == 0
    {
      this.kind := kind;
      this.id := id;
      depth := 0;
    }

    method Lock()
      modifies this
      ensures depth == if kind.Noop? then old(depth) else old(depth) + 1
    {
      if kind.Recursive? {
        depth := depth + 1;
      }
    }

    method Unlock()
      requires kind.Recursive? ==> depth > 0
      modifies this
      ensures depth == if kind.Noop? then old(depth) else old(depth) - 1
    {
      if kind.Recursive? {
        depth := depth - 1;
      }
    }
  }

  class EpicsGuard {
    var targetMutex: EpicsMutex?

    constructor (mutexIn: EpicsMutex)
      modifies mutexIn
      ensures targetMutex == mutexIn
      ensures mutexIn.depth == if mutexIn.kind.Noop? then old(mutexIn.depth) else old(mutexIn.depth) + 1
    {
      targetMutex := mutexIn;
      new;
      targetMutex.Lock();
    }

    /** The argument of the assert. */
    method AssertIdenticalMutex(mutexToVerify: EpicsMutex) returns (ok: bool)
      ensures ok == (targetMutex == mutexToVerify)
    {
      ok := targetMutex == mutexToVerify;
    }

    method Destroy()
      requires targetMutex != null && (targetMutex.kind.Recursive? ==> targetMutex.depth > 0)
      modifies targetMutex
      ensures targetMutex.depth == if targetMutex.kind.Noop? then old(targetMutex.depth) else old(targetMutex.depth) - 1
    {
      targetMutex.Unlock();
    }
  }

  class EpicsGuardRelease {
    const guard: EpicsGuard
    const targetMutex: EpicsMutex

    constructor (guardIn: EpicsGuard)
      requires guardIn.targetMutex != null
      requires guardIn.targetMutex.kind.Recursive? ==> guardIn.targetMutex.depth > 0
      modifies guardIn, guardIn.targetMutex
      ensures guard == guardIn && targetMutex == old(guardIn.targetMutex) && guardIn.targetMutex == null
      ensures targetMutex.depth == if targetMutex.kind.Noop? then old(guardIn.targetMutex.depth)
                                   else old(guardIn.targetMutex.depth) - 1
    {
      guard := guardIn;
      targetMutex := guardIn.targetMutex;
      new;
      guard.targetMutex := null;
      targetMutex.Unlock();
    }

    method Destroy()
      modifies guard, targetMutex
      ensures guard.targetMutex == targetMutex
      ensures targetMutex.depth == if targetMutex.kind.Noop? then old(targetMutex.depth) else old(targetMutex.depth) + 1
    {
      targetMutex.Lock();
      guard.targetMutex := targetMutex;
    }
  }

  /** The mutexes p names. */
  predicate Knows(p: Prog, known: set<Mutex>)
  {
    match p
    case Then(first, next) => Knows(first, known) && Knows(next, known)
    case Guarded(m, body) => m in known && Knows(body, known)
    case Released(_, body) => Knows(body, known)
    case Check(_, m) => m in known
    case Try(body, handler) => Knows(body, known) && Knows(handler, known)
    case _ => true
  }

  ghost predicate GuardsMatch(env: seq<EpicsGuard>, mutexes: map<Mutex, EpicsMutex>, guards: Guards)
    reads env
  {
    && |env| == |guards|
    && (forall i, j :: 0 <= i < j < |env| ==> env[i] != env[j])
    && (forall i :: 0 <= i < |env| ==> PointsTo(env[i], mutexes, guards[i]))
  }

  ghost predicate PointsTo(guard: EpicsGuard, mutexes: map<Mutex, EpicsMutex>, target: Option<Mutex>)
    reads guard
  {
    match target
    case None => guard.targetMutex == null
    case Some(m) => m in mutexes && guard.targetMutex == mutexes[m]
  }

  ghost predicate LocksMatch(mutexes: map<Mutex, EpicsMutex>, holds: multiset<Mutex>)
    reads mutexes.Values
  {
    forall m :: m in mutexes ==>
      mutexes[m].kind == Recursive && mutexes[m].id == m && mutexes[m].depth == holds[m]
  }

  /** The live guard objects and the mutex objects are in the state s. */
  ghost predicate Matches(env: seq<EpicsGuard>, mutexes: map<Mutex, EpicsMutex>, s: State)
    reads env, mutexes.Values
  {
    GuardsMatch(env, mutexes, s.guards) && LocksMatch(mutexes, s.holds)
  }

  lemma GuardsMatchWithOneMore(env: seq<EpicsGuard>, guard: EpicsGuard, mutexes: map<Mutex, EpicsMutex>,
                               guards: Guards, m: Mutex)
    requires guard !in env && PointsTo(guard, mutexes, Some(m))
    ensures GuardsMatch(env, mutexes, guards) <==> GuardsMatch(env + [guard], mutexes, guards + [Some(m)])
  {
    var env', guards' := env + [guard], guards + [Some(m)];
    if GuardsMatch(env', mutexes, guards') {
      forall i | 0 <= i < |env|
        ensures PointsTo(env[i], mutexes, guards[i])
      {
        assert env'[i] == env[i] && guards'[i] == guards[i];
      }
      forall i, j | 0 <= i < j < |env|
        ensures env[i] != env[j]
      {
        assert env'[i] != env'[j];
      }
    }
  }

  /** o and log are what p means in s, and what p means restores the pointers and the locks. */
  ghost predicate Meant(p: Prog, s: State, o: Outcome, log: seq<Event>)
  {
    var (s', o') := Exec(Recursive, p, s);
    && o == o' && s'.trace == s.trace + log
    && (o.RunsDestructors() ==> s'.guards == s.guards && s'.holds == s.holds)
  }

  lemma GuardedMeans(m: Mutex, body: Prog, s: State, o: Outcome, log: seq<Event>)
    requires Meant(body, OpenGuard(Recursive, s, m), o, log)
    ensures Meant(Guarded(m, body), s, o, log)
  {
    var (s1, _) := Exec(Recursive, body, OpenGuard(Recursive, s, m));
    if o.RunsDestructors() {
      assert s1.guards[..|s.guards|] == s.guards && s1.guards[|s.guards|] == Some(m);
      assert s1.holds - multiset{m} == s.holds;
      assert CloseGuard(Recursive, s1) == Some(s.(trace := s1.trace));
    }
  }

  lemma ReleasedMeans(g: nat, m: Mutex, body: Prog, s: State, away: State, o: Outcome, log: seq<Event>)
    requires g < |s.guards| && s.guards[g] == Some(m) && m in s.holds && OpenRelease(Recursive, s, g) == Some(away)
    requires Meant(body, away, o, log)
    ensures Meant(Released(g, body), s, o, log)
  {
    var (s1, _) := Exec(Recursive, body, away);
    if o.RunsDestructors() {
      assert s1.guards[g := Some(m)] == s.guards;
      assert s1.holds + multiset{m} == s.holds;
    }
  }

  method EnterGuard(m: Mutex, env: seq<EpicsGuard>, mutexes: map<Mutex, EpicsMutex>, ghost s: State)
    returns (guard: EpicsGuard)
    requires m in mutexes && Matches(env, mutexes, s)
    modifies mutexes[m]
    ensures fresh(guard) && Matches(env + [guard], mutexes, OpenGuard(Recursive, s, m))
  {
    guard := new EpicsGuard(mutexes[m]);
    GuardsMatchWithOneMore(env, guard, mutexes, s.guards, m);
  }

  method LeaveGuard(guard: EpicsGuard, ghost m: Mutex, ghost env: seq<EpicsGuard>,
                    ghost mutexes: map<Mutex, EpicsMutex>, ghost s: State)
    requires m in mutexes && guard !in env
    requires Matches(env + [guard], mutexes, OpenGuard(Recursive, s, m))
    modifies mutexes[m]
    ensures Matches(env, mutexes, s)
  {
    assert (env + [guard])[|env|] == guard && (s.guards + [Some(m)])[|env|] == Some(m);
    assert PointsTo(guard, mutexes, Some(m));
    GuardsMatchWithOneMore(env, guard, mutexes, s.guards, m);
    guard.Destroy();
  }

  method EnterRelease(g: nat, ghost m: Mutex, env: seq<EpicsGuard>,
                      ghost mutexes: map<Mutex, EpicsMutex>, ghost s: State)
    returns (release: EpicsGuardRelease)
    requires Matches(env, mutexes, s) && g < |env| && s.guards[g] == Some(m) && m in s.holds && m in mutexes
    modifies env[g], mutexes[m]
    ensures fresh(release) && release.guard == env[g] && release.targetMutex == mutexes[m]
    ensures OpenRelease(Recursive, s, g).Some? && Matches(env, mutexes, OpenRelease(Recursive, s, g).value)
  {
    assert PointsTo(env[g], mutexes, Some(m));
    release := new EpicsGuardRelease(env[g]);
  }

  method LeaveRelease(release: EpicsGuardRelease, ghost g: nat, ghost m: Mutex, ghost env: seq<EpicsGuard>,
                      ghost mutexes: map<Mutex, EpicsMutex>, ghost s: State)
    requires g < |env| == |s.guards| && s.guards[g] == Some(m) && m in s.holds && m in mutexes
    requires OpenRelease(Recursive, s, g).Some? && Matches(env, mutexes, OpenRelease(Recursive, s, g).value)
    requires release.guard == env[g] && release.targetMutex == mutexes[m]
    modifies env[g], mutexes[m]
    ensures Matches(env, mutexes, s)
  {
    assert forall i :: 0 <= i < |env| && i != g ==> PointsTo(env[i], mutexes, s.guards[i]) by {
      forall i | 0 <= i < |env| && i != g
        ensures PointsTo(env[i], mutexes, s.guards[i])
      {
        assert PointsTo(env[i], mutexes, s.guards[g := None][i]);
      }
    }
    release.Destroy();
  }

  /** { epicsGuard guard ( mutexes[m] ); body } */
  method PerformGuarded(m: Mutex, body: Prog, env: seq<EpicsGuard>, mutexes: map<Mutex, EpicsMutex>, ghost s: State)
    returns (o: Outcome, log: seq<Event>)
    requires Knows(Guarded(m, body), mutexes.Keys) && Matches(env, mutexes, s)
    requires WellNested(Guarded(m, body), s.guards) && GuardsAreBacked(s)
    modifies env, mutexes.Values
    ensures Meant(Guarded(m, body), s, o, log) && (o.RunsDestructors() ==> Matches(env, mutexes, s))
    decreases body, 1
  {
    OpeningKeepsGuardsBacked(s, m);
    var guard := EnterGuard(m, env, mutexes, s);
    o, log := Perform(body, env + [guard], mutexes, OpenGuard(Recursive, s, m));
    GuardedMeans(m, body, s, o, log);
    if o.RunsDestructors() {
      LeaveGuard(guard, m, env, mutexes, s);
    }
  }

  /** { epicsGuardRelease release ( env[g] ); body } */
  method PerformReleased(g: nat, body: Prog, env: seq<EpicsGuard>, mutexes: map<Mutex, EpicsMutex>, ghost s: State)
    returns (o: Outcome, log: seq<Event>)
    requires Knows(Released(g, body), mutexes.Keys) && Matches(env, mutexes, s)
    requires WellNested(Released(g, body), s.guards) && GuardsAreBacked(s)
    modifies env, mutexes.Values
    ensures Meant(Released(g, body), s, o, log) && (o.RunsDestructors() ==> Matches(env, mutexes, s))
    decreases body, 1
  {
    ReleasingKeepsGuardsBacked(s, g);
    ghost var m, away := s.guards[g].value, OpenRelease(Recursive, s, g).value;
    assert PointsTo(env[g], mutexes, Some(m));
    var release := EnterRelease(g, m, env, mutexes, s);
    o, log := Perform(body, env, mutexes, away);
    ReleasedMeans(g, m, body, s, away, o, log);
    if o.RunsDestructors() {
      LeaveRelease(release, g, m, env, mutexes, s);
    }
  }

  /**
   Runs p with real guard objects, destroying each one when its scope is left, by an exception too.
   It does what p means, and leaves every guard and every mutex as it found it.
   */
  method Perform(p: Prog, env: seq<EpicsGuard>, mutexes: map<Mutex, EpicsMutex>, ghost s: State)
    returns (o: Outcome, log: seq<Event>)
    requires Knows(p, mutexes.Keys) && Matches(env, mutexes, s)
    requires WellNested(p, s.guards) && GuardsAreBacked(s)
    modifies env, mutexes.Values
    ensures Meant(p, s, o, log) && (o.RunsDestructors() ==> Matches(env, mutexes, s))
    ensures p.Check? ==> var ok := old(env[p.g].targetMutex) == mutexes[p.m];
                         o == (if ok then Normal else Aborted) && log == [Checked(p.g, p.m, ok)]
    decreases p, 0
  {
    match p
    case Work(e) =>
      return Normal, [Did(e)];
    case Throw =>
      return Thrown, [];
    case Then(first, next) =>
      o, log := Perform(first, env, mutexes, s);
      if o.Normal? {
        var rest;
        o, rest := Perform(next, env, mutexes, Exec(Recursive, first, s).0);
        log := log + rest;
      }
    case Guarded(m, body) =>
      o, log := PerformGuarded(m, body, env, mutexes, s);
    case Released(g, body) =>
      o, log := PerformReleased(g, body, env, mutexes, s);
    case Check(g, m) =>
      assert PointsTo(env[g], mutexes, s.guards[g]);
      var ok := env[g].AssertIdenticalMutex(mutexes[m]);
      return if ok then Normal else Aborted, [Checked(g, m, ok)];
    case Try(body, handler) =>
      o, log := Perform(body, env, mutexes, s);
      if o.Thrown? {
        var rest;
        o, rest := Perform(handler, env, mutexes, Exec(Recursive, body, s).0);
        log := log + rest;
      }
  }
}
