/** Runs of guard programs end, and never in a deadlock when every lock follows the hierarchy. */
module GuardProgress {
  import opened Wrappers
  import opened GuardProgram
  import opened GuardThreads
  import opened GuardMeaning
  import opened Sums

  // Every step brings the end nearer

  function Weight(p: Prog): nat
  {
    match p
    case Work(_) => 1
    case Throw => 1
    case Then(first, next) => 1 + Weight(first) + Weight(next)
    case Guarded(_, body) => 3 + Weight(body)
    case Released(_, body) => 4 + Weight(body)
    case Check(_, _) => 1
    case Try(body, handler) => 2 + Weight(body) + Weight(handler)
  }

  function FrameWeight(f: Frame): nat
  {
    match f
    case Body(p) => Weight(p)
    case Constructing(_, body) => 2 + Weight(body)
    case Guarding => 1
    case Releasing(_, _, body) => 3 + Weight(body)
    case Away(_, _) => 2
    case Returning(_, _) => 1
    case Catching(handler) => 1 + Weight(handler)
  }

  function StackWeight(k: Stack): nat
  {
    if k.Empty? then 0 else FrameWeight(k.top) + StackWeight(k.rest)
  }

  function ThreadWeight(th: Thread): int
  {
    StackWeight(th.stack)
  }

  /** The number of steps that are left at most. */
  ghost function Remaining(s: System): (r: int)
    ensures r >= 0
  {
    SumIsNatural(ThreadWeight, s);
    Sum(ThreadWeight, s)
  }

  lemma EveryProgramWeighs(p: Prog)
    ensures Weight(p) > 0
  {
  }

  lemma MoveShrinks(th: Thread)
    requires NextMove(th).Goes? || NextMove(th).Locks?
    ensures StackWeight(NextMove(th).next.stack) < StackWeight(th.stack)
  {
    if th.stack.top.Body? {
      EveryProgramWeighs(th.stack.top.p);
    }
  }

  /** A run is never longer than its programs' total weight, whatever the interleaving. */
  lemma {:induction false} RunsAreBounded(ss: seq<System>, who: seq<nat>, ps: seq<Prog>, ranked: bool, i: nat)
    requires Run(ss, who, ps, ranked) && i <= |who|
    ensures i + Remaining(ss[i]) <= Remaining(ss[0])
  {
    if i > 0 {
      RunsAreBounded(ss, who, ps, ranked, i - 1);
      assert StepAt(ss, who, i - 1);
      var s, t := ss[i - 1], who[i - 1];
      MoveShrinks(s[t]);
      SumUpdate(ThreadWeight, s, t, NextMove(s[t]).next);
    }
  }

  // Some thread can always step

  ghost predicate Unfinished(s: System, t: nat)
  {
    t < |s| && s[t].stack.Push?
  }

  lemma {:induction false} HighestWanted(s: System, n: nat) returns (top: nat)
    requires n <= |s|
    ensures forall t :: 0 <= t < n && NextMove(s[t]).Locks? ==> NextMove(s[t]).m.rank <= top
  {
    if n == 0 {
      top := 0;
    } else {
      top := HighestWanted(s, n - 1);
      if NextMove(s[n - 1]).Locks? && NextMove(s[n - 1]).m.rank > top {
        top := NextMove(s[n - 1]).m.rank;
      }
    }
  }

  /** A thread that waits for a lock wants one that ranks above all it holds. */
  lemma WaitingGoesUp(s: System, v: nat, m: Mutex)
    requires Inv(s, true) && v < |s| && NextMove(s[v]).Locks? && !Available(s, v, NextMove(s[v]).m)
    requires m in s[v].holds
    ensures m.rank < NextMove(s[v]).m.rank
  {
    var wanted := NextMove(s[v]).m;
    var th := s[v];
    assert ThreadOk(th, true) && Admissible(wanted, th.guards);
    assert InTransit(th.stack, m) == 0 && InTransit(th.stack, wanted) == 0;
    assert th.holds[m] == multiset(th.guards)[Some(m)];
    assert Some(m) in th.guards;
    assert wanted !in th.holds;
    assert th.holds[wanted] == multiset(th.guards)[Some(wanted)];
    assert Some(wanted) !in th.guards;
  }

  /** A failed assertion has stopped t for good. */
  ghost predicate Stopped(s: System, t: nat)
  {
    t < |s| && NextMove(s[t]).Aborts?
  }

  lemma UnfinishedThreadsMove(s: System, t: nat)
    requires Inv(s, true) && Unfinished(s, t)
    ensures NextMove(s[t]).Goes? || NextMove(s[t]).Locks? || Stopped(s, t)
  {
    EveryMoveIsFine(s[t], true);
  }

  lemma HoldersAreUnfinished(s: System, v: nat, m: Mutex)
    requires Inv(s, true) && v < |s| && m in s[v].holds
    ensures Unfinished(s, v)
  {
    assert ThreadOk(s[v], true);
    assert s[v].holds[m] > 0;
  }

  /** Follow the chain of holders: ranks go up, so it ends at a thread that can step, or that has stopped. */
  lemma {:induction false} FollowHolders(s: System, t: nat, top: nat) returns (u: nat)
    requires Inv(s, true) && Unfinished(s, t)
    requires forall v :: 0 <= v < |s| && NextMove(s[v]).Locks? ==> NextMove(s[v]).m.rank <= top
    ensures CanStep(s, u) || Stopped(s, u)
    decreases if NextMove(s[t]).Locks? then top - NextMove(s[t]).m.rank else top + 1
  {
    UnfinishedThreadsMove(s, t);
    if CanStep(s, t) || Stopped(s, t) {
      u := t;
    } else {
      var m := NextMove(s[t]).m;
      var v :| 0 <= v < |s| && v != t && m in s[v].holds;
      HoldersAreUnfinished(s, v, m);
      UnfinishedThreadsMove(s, v);
      if CanStep(s, v) || Stopped(s, v) {
        u := v;
      } else {
        WaitingGoesUp(s, v, m);
        u := FollowHolders(s, v, top);
      }
    }
  }

  /**
   Deadlock freedom: when every lock, including the one at the end of a release, takes a mutex that
   the thread holds already or that ranks above all it holds, some thread can step in every reachable
   state in which work is left; or else an assertion has failed, which it then also does when that
   thread's program runs alone.
   */
  lemma NoDeadlock(ss: seq<System>, who: seq<nat>, ps: seq<Prog>, i: nat, t: nat)
    requires Run(ss, who, ps, true) && i <= |who| && Unfinished(ss[i], t)
    ensures exists u: nat :: CanStep(ss[i], u) || (Stopped(ss[i], u) && u < |ps| && Meaning(ps[u]).1.Aborted?)
  {
    ReachableInv(ss, who, ps, true, i);
    var top := HighestWanted(ss[i], |ss[i]|);
    var u := FollowHolders(ss[i], t, top);
    if Stopped(ss[i], u) {
      ThreadsEndAsTheirProgramsMean(ss, who, ps, true, i, u);
    }
  }

  /** Thread t is done, holds nothing, and has come to the state and the exception that its program means. */
  ghost predicate EndsAs(s: System, t: nat, p: Prog)
  {
    && t < |s|
    && Meaning(p).1.RunsDestructors()
    && s[t] == ThreadIn(Empty, Meaning(p).0, Meaning(p).1)
    && s[t].guards == [] && s[t].holds == multiset{}
  }

  /**
   Total correctness under the hierarchy: in a run that cannot go on, every thread has ended exactly as
   its program means when it runs alone, unless the assertion of some program fails, alone as here.
   */
  lemma MaximalRunsAreComplete(ss: seq<System>, who: seq<nat>, ps: seq<Prog>)
    requires Run(ss, who, ps, true)
    requires forall u :: !CanStep(ss[|who|], u)
    ensures |ss[|who|]| == |ps|
    ensures (forall t :: 0 <= t < |ps| ==> EndsAs(ss[|who|], t, ps[t]))
         || (exists u: nat :: Stopped(ss[|who|], u) && u < |ps| && Meaning(ps[u]).1.Aborted?)
  {
    var last := ss[|who|];
    ReachableInv(ss, who, ps, true, |who|);
    if !exists u: nat :: Stopped(last, u) && u < |ps| && Meaning(ps[u]).1.Aborted? {
      forall t | 0 <= t < |ps|
        ensures EndsAs(last, t, ps[t])
      {
        if Unfinished(last, t) {
          NoDeadlock(ss, who, ps, |who|, t);
        }
        ThreadsEndAsTheirProgramsMean(ss, who, ps, true, |who|, t);
        NothingIsHeldAtTheEnd(last[t]);
      }
    }
  }

  lemma NothingIsHeldAtTheEnd(th: Thread)
    requires ThreadOk(th, true) && th.stack.Empty?
    ensures th.guards == [] && th.holds == multiset{}
  {
    assert forall m :: th.holds[m] == 0;
  }
}
