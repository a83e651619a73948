/**
 What the threads of the interleaved machine come to: whatever the interleaving, each of them
 ends as its program does when it runs alone.
 */
module GuardMeaning {
  import opened Wrappers
  import opened GuardProgram
  import opened GuardThreads

  /** Iterating next n times leads from a to b. */
  ghost predicate Iterates<T>(next: T -> Option<T>, a: T, b: T, n: nat)
    decreases n
  {
    if n == 0 then a == b
    else
      match next(a)
      case None => false
      case Some(c) => Iterates(next, c, b, n - 1)
  }

  lemma {:induction false} IteratesFurther<T>(next: T -> Option<T>, a: T, b: T, c: T, n: nat, n': nat)
    requires Iterates(next, a, b, n) && Iterates(next, b, c, n')
    ensures Iterates(next, a, c, n + n')
    decreases n
  {
    if n > 0 {
      IteratesFurther(next, next(a).value, b, c, n - 1, n');
    }
  }

  /** A thread's next move, when no other thread is in the way. */
  function Moved(th: Thread): Option<Thread>
  {
    match NextMove(th)
    case Goes(next) => Some(next)
    case Locks(_, next) => Some(next)
    case _ => None
  }

  /** Thread th becomes th' by moves of its own. */
  ghost predicate Leads(th: Thread, th': Thread)
  {
    exists n: nat :: Iterates(Moved, th, th', n)
  }

  lemma LeadsOn(a: Thread, b: Thread, c: Thread)
    requires Leads(a, b) && Leads(b, c)
    ensures Leads(a, c)
  {
    var n: nat :| Iterates(Moved, a, b, n);
    var n': nat :| Iterates(Moved, b, c, n');
    IteratesFurther(Moved, a, b, c, n, n');
  }

  lemma MoveLeads(a: Thread, b: Thread)
    requires Moved(a) == Some(b)
    ensures Leads(a, b)
  {
    assert Iterates(Moved, a, b, 1);
  }

  /** The thread that has the state s, is about to do k, and unwinds if the outcome was a throw. */
  function ThreadIn(k: Stack, s: State, o: Outcome): Thread
  {
    Thread(k, s.guards, s.holds, o.Thrown?, s.trace)
  }

  /** Some moves ahead, th is stopped by a failed assertion, or has come upon a null pointer or a foreign lock. */
  ghost predicate Halts(th: Thread, o: Outcome)
  {
    exists th' :: Leads(th, th') && (if o.Aborted? then NextMove(th').Aborts? else NextMove(th').Faults?)
  }

  /** th comes to k in the state s with the outcome o, or to the abort or the fault that o is. */
  ghost predicate Reaches(th: Thread, k: Stack, s: State, o: Outcome)
  {
    if o.RunsDestructors() then Leads(th, ThreadIn(k, s, o)) else Halts(th, o)
  }

  lemma ReachesOn(a: Thread, b: Thread, k: Stack, s: State, o: Outcome)
    requires Leads(a, b) && Reaches(b, k, s, o)
    ensures Reaches(a, k, s, o)
  {
    if o.RunsDestructors() {
      LeadsOn(a, b, ThreadIn(k, s, o));
    } else {
      var c :| Leads(b, c) && (if o.Aborted? then NextMove(c).Aborts? else NextMove(c).Faults?);
      LeadsOn(a, b, c);
    }
  }

  lemma HaltsHere(th: Thread, o: Outcome)
    requires if o.Aborted? then NextMove(th).Aborts? else NextMove(th).Faults?
    ensures Halts(th, o)
  {
    assert Iterates(Moved, th, th, 0);
  }

  /** p followed by k does what p means. */
  ghost predicate Performs(p: Prog, k: Stack, s: State)
  {
    var (s', o) := Exec(Recursive, p, s);
    Reaches(ThreadIn(Push(Body(p), k), s, Normal), k, s', o)
  }

  lemma ThenMoves(first: Prog, next: Prog, k: Stack, s: State)
    requires Performs(first, Push(Body(next), k), s)
    requires Exec(Recursive, first, s).1.Normal? ==> Performs(next, k, Exec(Recursive, first, s).0)
    ensures Performs(Then(first, next), k, s)
  {
    var (s1, o1) := Exec(Recursive, first, s);
    var (s', o) := Exec(Recursive, Then(first, next), s);
    var start := ThreadIn(Push(Body(first), Push(Body(next), k)), s, Normal);
    if o1.RunsDestructors() {
      var middle := ThreadIn(Push(Body(next), k), s1, o1);
      if o1.Thrown? {
        MoveLeads(middle, ThreadIn(k, s1, o1));
      }
      ReachesOn(start, middle, k, s', o);
    }
    MoveLeads(ThreadIn(Push(Body(Then(first, next)), k), s, Normal), start);
    ReachesOn(ThreadIn(Push(Body(Then(first, next)), k), s, Normal), start, k, s', o);
  }

  lemma TryMoves(body: Prog, handler: Prog, k: Stack, s: State)
    requires Performs(body, Push(Catching(handler), k), s)
    requires Exec(Recursive, body, s).1.Thrown? ==> Performs(handler, k, Exec(Recursive, body, s).0)
    ensures Performs(Try(body, handler), k, s)
  {
    var (s1, o1) := Exec(Recursive, body, s);
    var (s', o) := Exec(Recursive, Try(body, handler), s);
    var start := ThreadIn(Push(Body(body), Push(Catching(handler), k)), s, Normal);
    if o1.RunsDestructors() {
      var middle := ThreadIn(Push(Catching(handler), k), s1, o1);
      if o1.Thrown? {
        MoveLeads(middle, ThreadIn(Push(Body(handler), k), s1, Normal));
        ReachesOn(middle, ThreadIn(Push(Body(handler), k), s1, Normal), k, s', o);
      } else {
        MoveLeads(middle, ThreadIn(k, s1, o1));
      }
      ReachesOn(start, middle, k, s', o);
    }
    MoveLeads(ThreadIn(Push(Body(Try(body, handler)), k), s, Normal), start);
    ReachesOn(ThreadIn(Push(Body(Try(body, handler)), k), s, Normal), start, k, s', o);
  }

  lemma GuardedOpens(m: Mutex, body: Prog, k: Stack, s: State)
    ensures Leads(ThreadIn(Push(Body(Guarded(m, body)), k), s, Normal),
                  ThreadIn(Push(Body(body), Push(Guarding, k)), OpenGuard(Recursive, s, m), Normal))
  {
    var from := ThreadIn(Push(Body(Guarded(m, body)), k), s, Normal);
    var locking := ThreadIn(Push(Constructing(m, body), k), s, Normal);
    var start := ThreadIn(Push(Body(body), Push(Guarding, k)), OpenGuard(Recursive, s, m), Normal);
    MoveLeads(from, locking);
    MoveLeads(locking, start);
    LeadsOn(from, locking, start);
  }

  lemma GuardCloses(s1: State, o1: Outcome, k: Stack)
    requires o1.RunsDestructors()
    ensures var closed := CloseGuard(Recursive, s1);
            Reaches(ThreadIn(Push(Guarding, k), s1, o1), k, if closed.Some? then closed.value else s1,
                    if closed.Some? then o1 else Faulted)
  {
    var middle, closed := ThreadIn(Push(Guarding, k), s1, o1), CloseGuard(Recursive, s1);
    if closed.Some? {
      MoveLeads(middle, ThreadIn(k, closed.value, o1));
    } else {
      HaltsHere(middle, Faulted);
    }
  }

  lemma GuardedMoves(m: Mutex, body: Prog, k: Stack, s: State)
    requires Performs(body, Push(Guarding, k), OpenGuard(Recursive, s, m))
    ensures Performs(Guarded(m, body), k, s)
  {
    var inner := OpenGuard(Recursive, s, m);
    var (s1, o1) := Exec(Recursive, body, inner);
    var (s', o) := Exec(Recursive, Guarded(m, body), s);
    var start := ThreadIn(Push(Body(body), Push(Guarding, k)), inner, Normal);
    if o1.RunsDestructors() {
      GuardCloses(s1, o1, k);
      ReachesOn(start, ThreadIn(Push(Guarding, k), s1, o1), k, s', o);
    }
    GuardedOpens(m, body, k, s);
    ReachesOn(ThreadIn(Push(Body(Guarded(m, body)), k), s, Normal), start, k, s', o);
  }

  lemma ReleasedOpens(g: nat, body: Prog, k: Stack, s: State, m: Mutex, away: State)
    requires g < |s.guards| && s.guards[g] == Some(m) && OpenRelease(Recursive, s, g) == Some(away)
    ensures Leads(ThreadIn(Push(Body(Released(g, body)), k), s, Normal),
                  ThreadIn(Push(Body(body), Push(Away(g, m), k)), away, Normal))
  {
    var from := ThreadIn(Push(Body(Released(g, body)), k), s, Normal);
    var unlocking := from.(stack := Push(Releasing(m, g, body), k), guards := s.guards[g := None]);
    var start := ThreadIn(Push(Body(body), Push(Away(g, m), k)), away, Normal);
    MoveLeads(from, unlocking);
    MoveLeads(unlocking, start);
    LeadsOn(from, unlocking, start);
  }

  lemma ReleaseFaults(g: nat, body: Prog, k: Stack, s: State)
    requires OpenRelease(Recursive, s, g).None?
    ensures Halts(ThreadIn(Push(Body(Released(g, body)), k), s, Normal), Faulted)
  {
    var from := ThreadIn(Push(Body(Released(g, body)), k), s, Normal);
    if g < |s.guards| && s.guards[g].Some? {
      var unlocking := from.(stack := Push(Releasing(s.guards[g].value, g, body), k), guards := s.guards[g := None]);
      MoveLeads(from, unlocking);
    } else {
      HaltsHere(from, Faulted);
    }
  }

  lemma ReleaseCloses(g: nat, m: Mutex, s1: State, o: Outcome, k: Stack)
    requires g < |s1.guards|
    ensures Leads(ThreadIn(Push(Away(g, m), k), s1, o), ThreadIn(k, CloseRelease(Recursive, s1, g, m), o))
  {
    var middle, to := ThreadIn(Push(Away(g, m), k), s1, o), ThreadIn(k, CloseRelease(Recursive, s1, g, m), o);
    var storing := middle.(stack := Push(Returning(g, m), k), holds := s1.holds + multiset{m});
    MoveLeads(middle, storing);
    MoveLeads(storing, to);
    LeadsOn(middle, storing, to);
  }

  lemma ReleasedMoves(g: nat, body: Prog, k: Stack, s: State, m: Mutex, away: State)
    requires g < |s.guards| && s.guards[g] == Some(m) && OpenRelease(Recursive, s, g) == Some(away)
    requires Performs(body, Push(Away(g, m), k), away)
    ensures Performs(Released(g, body), k, s)
  {
    var (s1, o1) := Exec(Recursive, body, away);
    var (s', o) := Exec(Recursive, Released(g, body), s);
    var start := ThreadIn(Push(Body(body), Push(Away(g, m), k)), away, Normal);
    if o1.RunsDestructors() {
      ReleaseCloses(g, m, s1, o1, k);
      ReachesOn(start, ThreadIn(Push(Away(g, m), k), s1, o1), k, s', o);
    }
    ReleasedOpens(g, body, k, s, m, away);
    ReachesOn(ThreadIn(Push(Body(Released(g, body)), k), s, Normal), start, k, s', o);
  }

  /**
   The machine refines the scoped meaning: left alone, a thread that is about to run p and then k comes
   to k in exactly the state and with exactly the exception that p means, or stops where p does.
   */
  lemma {:induction false} MovesDoWhatTheProgramMeans(p: Prog, k: Stack, s: State)
    ensures Performs(p, k, s)
    decreases p
  {
    match p
    case Then(first, next) =>
      MovesDoWhatTheProgramMeans(first, Push(Body(next), k), s);
      if Exec(Recursive, first, s).1.Normal? {
        MovesDoWhatTheProgramMeans(next, k, Exec(Recursive, first, s).0);
      }
      ThenMoves(first, next, k, s);
    case Guarded(m, body) =>
      MovesDoWhatTheProgramMeans(body, Push(Guarding, k), OpenGuard(Recursive, s, m));
      GuardedMoves(m, body, k, s);
    case Released(g, body) =>
      if OpenRelease(Recursive, s, g).None? {
        ReleaseFaults(g, body, k, s);
      } else {
        var m, away := s.guards[g].value, OpenRelease(Recursive, s, g).value;
        MovesDoWhatTheProgramMeans(body, Push(Away(g, m), k), away);
        ReleasedMoves(g, body, k, s, m, away);
      }
    case Try(body, handler) =>
      MovesDoWhatTheProgramMeans(body, Push(Catching(handler), k), s);
      if Exec(Recursive, body, s).1.Thrown? {
        MovesDoWhatTheProgramMeans(handler, k, Exec(Recursive, body, s).0);
      }
      TryMoves(body, handler, k, s);
    case _ =>
      var (s', o) := Exec(Recursive, p, s);
      var from := ThreadIn(Push(Body(p), k), s, Normal);
      if o.Aborted? {
        HaltsHere(from, o);
      } else {
        MoveLeads(from, ThreadIn(k, s', o));
      }
  }

  // Every interleaving

  /** What p does when it runs alone from the beginning. */
  function Meaning(p: Prog): (State, Outcome)
  {
    Exec(Recursive, p, State([], multiset{}, []))
  }

  /** Moves are deterministic, so they end in one place only. */
  lemma {:induction false} OneEnd<T>(next: T -> Option<T>, a: T, b: T, c: T, n: nat, n': nat)
    requires Iterates(next, a, b, n) && Iterates(next, a, c, n')
    requires next(b) == None && next(c) == None
    ensures b == c
    decreases n
  {
    if n > 0 {
      OneEnd(next, next(a).value, b, c, n - 1, n' - 1);
    }
  }

  /** In every run each thread goes the way it would go alone. */
  lemma {:induction false} ThreadsGoTheirOwnWay(ss: seq<System>, who: seq<nat>, ps: seq<Prog>, ranked: bool,
                                                i: nat, t: nat)
    requires Run(ss, who, ps, ranked) && i <= |who| && t < |ps|
    ensures |ss[i]| == |ps| && Leads(Start(ps[t]), ss[i][t])
  {
    if i == 0 {
      assert Iterates(Moved, Start(ps[t]), ss[0][t], 0);
    } else {
      ThreadsGoTheirOwnWay(ss, who, ps, ranked, i - 1, t);
      assert StepAt(ss, who, i - 1);
      if who[i - 1] == t {
        MoveLeads(ss[i - 1][t], ss[i][t]);
        LeadsOn(Start(ps[t]), ss[i - 1][t], ss[i][t]);
      }
    }
  }

  /**
   Whatever the interleaving, a thread that has finished has the guards, the locks, the trace and the
   exception that its program means when it runs alone, and a thread is stopped by a failed assertion
   only where its program fails one alone.
   */
  lemma ThreadsEndAsTheirProgramsMean(ss: seq<System>, who: seq<nat>, ps: seq<Prog>, ranked: bool, i: nat, t: nat)
    requires Run(ss, who, ps, ranked) && i <= |who| && t < |ps|
    ensures |ss[i]| == |ps|
    ensures var (s', o) := Meaning(ps[t]);
            && (ss[i][t].stack.Empty? ==> o.RunsDestructors() && ss[i][t] == ThreadIn(Empty, s', o))
            && (NextMove(ss[i][t]).Aborts? ==> o.Aborted?)
  {
    var (s', o) := Meaning(ps[t]);
    ThreadsGoTheirOwnWay(ss, who, ps, ranked, i, t);
    MovesDoWhatTheProgramMeans(ps[t], Empty, State([], multiset{}, []));
    var th, start := ss[i][t], Start(ps[t]);
    var end :| Leads(start, end) && (if o.RunsDestructors() then end == ThreadIn(Empty, s', o)
                                     else if o.Aborted? then NextMove(end).Aborts? else NextMove(end).Faults?);
    if Moved(th) == None {
      var n: nat :| Iterates(Moved, start, th, n);
      var n': nat :| Iterates(Moved, start, end, n');
      OneEnd(Moved, start, th, end, n, n');
    }
  }

  /**
   In every interleaving, a thread that has finished has done the work of its program in the program's
   order, and ends in an exception exactly if the program does when it has no guards at all.
   */
  lemma ThreadsDoTheirWork(ss: seq<System>, who: seq<nat>, ps: seq<Prog>, ranked: bool, i: nat, t: nat)
    requires Run(ss, who, ps, ranked) && i <= |who| && t < |ps|
    ensures |ss[i]| == |ps|
    ensures ss[i][t].stack.Empty? ==> Works(ss[i][t].trace) == Log(ps[t]) && (ss[i][t].throwing <==> Throws(ps[t]))
  {
    ThreadsEndAsTheirProgramsMean(ss, who, ps, ranked, i, t);
    if ss[i][t].stack.Empty? {
      ScopesAreTransparent(Recursive, ps[t], State([], multiset{}, []));
    }
  }
}
