/**
 When set, which stores without the lock, still behaves like an atomic operation: a condition on the
 calls of a client that is sufficient, and the exact condition on the values where two calls clash.
 */
module AtomicSets {
  import opened Wrappers
  import opened Linearizability
  import opened AtomicSpec
  import opened AtomicMachine
  import opened AtomicTheorems
  import opened Residues

  // Calls that stay apart

  /** The call of thread t that is open after the first k steps. */
  ghost function Open(ls: seq<Label<Op, Ret>>, k: nat, t: nat): Option<Op>
    requires k <= |ls|
  {
    if k == 0 then None
    else if ls[k - 1].Internal? || ls[k - 1].t != t then Open(ls, k - 1, t)
    else if ls[k - 1].Call? then Some(ls[k - 1].op)
    else None
  }

  ghost predicate OpenSet(ls: seq<Label<Op, Ret>>, k: nat, t: nat)
    requires k <= |ls|
  {
    Open(ls, k, t).Some? && Open(ls, k, t).value.Set?
  }

  ghost predicate OpenReadModifyWrite(ls: seq<Label<Op, Ret>>, k: nat, t: nat)
    requires k <= |ls|
  {
    Open(ls, k, t).Some? && Open(ls, k, t).value.ReadModifyWrite()
  }

  /** No set is ever open together with a read-modify-write. */
  ghost predicate SetsStayApart(ls: seq<Label<Op, Ret>>) {
    forall k: nat, t: nat, u: nat :: k <= |ls| && OpenSet(ls, k, t) ==> !OpenReadModifyWrite(ls, k, u)
  }

  /** Each thread is inside the call it has open. */
  lemma {:induction false} ThreadsAreInsideTheirCalls(ss: seq<Memory>, ls: seq<Label<Op, Ret>>, w: Word, n: nat,
                                                      k: nat, t: nat)
    requires Run(ss, ls, w, n) && k <= |ls|
    ensures |ss[k].pcs| == n
    ensures t < n ==> var p := PhaseOf(ss[k].pcs[t]); Open(ls, k, t) == if p.Idle? then None else Some(p.op)
    ensures t < n ==> var pc := ss[k].pcs[t]; pc.Enter? || pc.Load? || pc.Store? ==> pc.op.ReadModifyWrite()
  {
    if k > 0 {
      ThreadsAreInsideTheirCalls(ss, ls, w, n, k - 1, t);
      assert NextAt(ss, ls, k - 1);
    }
  }

  /**
   A client whose sets and read-modify-writes are never open at the same time gets an atomic word,
   whatever else its threads do together.
   */
  lemma SetsApartAreLinearizable(ss: seq<Memory>, ls: seq<Label<Op, Ret>>, w: Word, n: nat)
    requires Run(ss, ls, w, n) && SetsStayApart(ls)
    ensures QuietRun(ss, ls) && Linearizable(Apply, w, ls)
  {
    forall i | 0 <= i < |ls| && ls[i].Internal? && ls[i].t < |ss[i].pcs|
      ensures Quiet(ss[i], ls[i].t)
    {
      ThreadsAreInsideTheirCalls(ss, ls, w, n, i, ls[i].t);
      if ss[i].pcs[ls[i].t].SetStore? {
        assert OpenSet(ls, i, ls[i].t);
        forall h | 0 <= h < n
          ensures !StorePending(ss[i], h)
        {
          ThreadsAreInsideTheirCalls(ss, ls, w, n, i, h);
          assert !OpenReadModifyWrite(ls, i, h);
        }
      }
    }
    AtomicsAreLinearizable(ss, ls, w, n);
  }

  // One set and one pending store

  /** The word w takes first, which answers r, and then second, which answers r', and is w' in the end. */
  ghost predicate InOrder(w: Word, first: Op, r: Ret, second: Op, r': Ret, w': Word)
  {
    Apply(w, first).1 == r && Apply(Apply(w, first).0, second) == (w', r')
  }

  /** Another value in the word gives another answer. */
  lemma AnswersTellTheWordsApart(m: Modulus, b: int, cur: int, op: Op)
    requires op.ReadModifyWrite() && 0 <= b < m && 0 <= cur < m && b != cur
    requires op.CompareAndSwap? ==> cur == Wrap(op.oldval, m)
    ensures Apply(Word(m, cur), op) == (Word(m, Stored(op, cur, m)), Result(op, cur, m))
    ensures Apply(Word(m, b), op).1 != Result(op, cur, m)
  {
    if !op.CompareAndSwap? && Wrap(b + op.Delta(), m) == Wrap(cur + op.Delta(), m) {
      CloseNumbersDiffer(b + op.Delta(), cur + op.Delta(), m);
    }
  }

  /**
   A set that stores between the load and the store of thread h can be put after h's operation if and
   only if it stores what h is about to store, and before it if and only if it stores what is there.
   */
  lemma SetAndPendingStoreHaveAnOrder(s: Memory, t: nat, s1: Memory, h: nat, s2: Memory)
    requires Inv(s) && t < |s.pcs| && s.pcs[t].SetStore? && Micro(s, t, s1)
    requires StorePending(s, h) && StorePending(s1, h) && Micro(s1, h, s2)
    ensures var (op, update) := (s.pcs[h].op, Set(s.pcs[t].newval));
            var (ret, before, after) :=
              (Result(op, s.pcs[h].cur, s.modulus), Word(s.modulus, s.bits), Word(s2.modulus, s2.bits));
            && (InOrder(before, op, ret, update, Unit, after) <==> s1.bits == s2.bits)
            && (InOrder(before, update, Unit, op, ret, after) <==> Quiet(s, t))
  {
    assert Local(s, h);
    if s1.bits != s.bits {
      AnswersTellTheWordsApart(s.modulus, s1.bits, s.bits, s.pcs[h].op);
    }
  }

  // What the clients see of a clash

  /**
   A word of modulus m holds cur.  Thread 0 has loaded it for op when thread 1 sets newval; then thread 0
   stores and returns, and thread 1 gets.
   */
  datatype Clash = Clash(m: Modulus, cur: int, op: Op, newval: int)
  {
    ghost predicate Valid() {
      0 <= cur < m && op.ReadModifyWrite() && (op.CompareAndSwap? ==> cur == Wrap(op.oldval, m))
    }

    ghost function Start(): Word {
      Word(m, cur)
    }

    ghost function Kept(): int {
      Stored(op, cur, m)
    }

    ghost function Answer(): Ret {
      Result(op, cur, m)
    }

    /** The calls and returns. */
    ghost function History(): seq<Label<Op, Ret>> {
      [Call(0, op), Call(1, Set(newval)), Return(1, Set(newval), Unit), Return(0, op, Answer()),
       Call(1, Get), Return(1, Get, Value(Kept()))]
    }

    /** The set stores what is there, or what is about to be there. */
    ghost predicate Harmless() {
      Wrap(newval, m) == cur || Wrap(newval, m) == Kept()
    }

    ghost function Run(): (seq<Memory>, seq<Label<Op, Ret>>)
    {
      var s0 := Memory(m, cur, None, [Pc.Out, Pc.Out]);
      var s1 := s0.At(0, Enter(op));
      var s2 := s1.At(0, Load(op)).(holder := Some(0));
      var s3 := s2.At(0, Store(op, cur));
      var s4 := s3.At(1, SetStore(newval));
      var s5 := s4.At(1, Back(Set(newval), Unit)).(bits := Wrap(newval, m));
      var s6 := s5.At(1, Out);
      var s7 := s6.At(0, Unlock(op, Answer())).(bits := Kept());
      var s8 := s7.At(0, Back(op, Answer())).(holder := None);
      var s9 := s8.At(0, Out);
      var s10 := s9.At(1, GetLoad);
      var s11 := s10.At(1, Back(Get, Value(Kept())));
      ([s0, s1, s2, s3, s4, s5, s6, s7, s8, s9, s10, s11, s11.At(1, Out)],
       [Call(0, op), Internal(0), Internal(0), Call(1, Set(newval)), Internal(1), Return(1, Set(newval), Unit),
        Internal(0), Internal(0), Return(0, op, Answer()), Call(1, Get), Internal(1), Return(1, Get, Value(Kept()))])
    }

    /** The atomic word when op takes effect at its load, and the set finds the value it stores. */
    ghost function SetLast(): seq<Atomic<Word, Op, Ret>>
    {
      var w, done := Word(m, Kept()), Done(op, Answer());
      [Atomic(Start(), [Idle, Idle]), Atomic(Start(), [Called(op), Idle]), Atomic(w, [done, Idle]),
       Atomic(w, [done, Idle]), Atomic(w, [done, Called(Set(newval))]), Atomic(w, [done, Done(Set(newval), Unit)]),
       Atomic(w, [done, Idle]), Atomic(w, [done, Idle]), Atomic(w, [done, Idle]), Atomic(w, [Idle, Idle]),
       Atomic(w, [Idle, Called(Get)]), Atomic(w, [Idle, Done(Get, Value(Kept()))]), Atomic(w, [Idle, Idle])]
    }

    /** The states a sequential explanation can be in after the first k calls and returns. */
    ghost predicate Explains(a: Atomic<Word, Op, Ret>, k: nat)
    {
      var b := a.value.bits;
      var p := if |a.phases| > 0 then a.phases[0] else Idle;
      var q := if |a.phases| > 1 then a.phases[1] else Idle;
      var early := (b == cur && p == Called(op)) || (b == Kept() && p == Done(op, Answer()));
      var late := (b == Wrap(newval, m) && (p == Called(op) || p == Done(op, Answer())))
                  || (p.Done? && p.ret != Answer());
      && a.value.modulus == m
      && (forall t :: 2 <= t < |a.phases| ==> a.phases[t] == Idle)
      && match k
      case 0 => b == cur && p == Idle && q == Idle
      case 1 => q == Idle && early
      case 2 => (q == Called(Set(newval)) && early) || (q == Done(Set(newval), Unit) && late)
      case 3 => q == Idle && late
      case 4 => b == Wrap(newval, m) && p == Idle && q == Idle
      case 5 =>
        b == Wrap(newval, m) && p == Idle && (q == Called(Get) || q == Done(Get, Value(Wrap(newval, m))))
      case _ => false
    }
  }

  lemma ExplanationsMoveOn(c: Clash, a: Atomic<Word, Op, Ret>, l: Label<Op, Ret>, a': Atomic<Word, Op, Ret>, k: nat)
    requires c.Valid() && !c.Harmless() && AtomicStep(Apply, a, l, a') && c.Explains(a, k) && k < 6
    requires l.Internal? || l == c.History()[k]
    ensures c.Explains(a', if l.Internal? then k else k + 1)
  {
    var x := Wrap(c.newval, c.m);
    AnswersTellTheWordsApart(c.m, x, c.cur, c.op);
    match l
    case Internal(t) =>
      if a' != a {
        assert t < 2;
      }
    case _ =>
  }

  /** The next label of a run is internal or the next one its clients see. */
  lemma NextSeen(ls: seq<Label<Op, Ret>>, i: nat)
    requires i < |ls|
    ensures var (seen, k) := (External(ls, |ls|), |External(ls, i)|);
            if ls[i].Internal? then |External(ls, i + 1)| == k
            else k < |seen| && ls[i] == seen[k] && |External(ls, i + 1)| == k + 1
  {
    ExternalGrows(ls, i + 1, |ls|);
    if !ls[i].Internal? {
      assert External(ls, i + 1)[|External(ls, i)|] == ls[i];
    }
  }

  lemma NextExplanation(c: Clash, run: seq<Atomic<Word, Op, Ret>>, ls: seq<Label<Op, Ret>>, i: nat)
    requires c.Valid() && !c.Harmless()
    requires AtomicRun(Apply, run, ls) && External(ls, |ls|) == c.History() && i < |ls|
    requires c.Explains(run[i], |External(ls, i)|)
    ensures c.Explains(run[i + 1], |External(ls, i + 1)|)
  {
    assert StepsAt(Apply, run, ls, i);
    NextSeen(ls, i);
    ExplanationsMoveOn(c, run[i], ls[i], run[i + 1], |External(ls, i)|);
  }

  lemma {:induction false} ExplanationsOfAClash(c: Clash, run: seq<Atomic<Word, Op, Ret>>, ls: seq<Label<Op, Ret>>,
                                                i: nat)
    requires c.Valid() && !c.Harmless()
    requires AtomicRun(Apply, run, ls) && External(ls, |ls|) == c.History() && i <= |ls|
    requires run[0].value == c.Start()
    ensures c.Explains(run[i], |External(ls, i)|)
  {
    if i > 0 {
      ExplanationsOfAClash(c, run, ls, i - 1);
      NextExplanation(c, run, ls, i - 1);
    }
  }

  lemma AClashCanHappen(c: Clash)
    requires c.Valid()
    ensures var (ss, ls) := c.Run(); Run(ss, ls, c.Start(), 2)
  {
    var (ss, ls) := c.Run();
    forall i | 0 <= i < |ls|
      ensures NextAt(ss, ls, i)
    {
      if
      case i < 3 =>
      case 3 <= i < 6 =>
      case 6 <= i < 9 =>
      case 9 <= i =>
    }
  }

  lemma AClashIsWhatTheClientsSee(c: Clash)
    ensures var ls := c.Run().1; External(ls, |ls|) == c.History()
  {
    var ls := c.Run().1;
    assert External(ls, 1) == c.History()[..1];
    assert External(ls, 2) == c.History()[..1];
    assert External(ls, 4) == c.History()[..2];
    assert External(ls, 6) == c.History()[..3];
    assert External(ls, 8) == c.History()[..3];
    assert External(ls, 10) == c.History()[..5];
  }

  lemma SetLastIsARun(c: Clash)
    requires c.Valid() && Wrap(c.newval, c.m) == c.Kept()
    ensures AtomicRun(Apply, c.SetLast(), c.Run().1)
  {
    var run, ls := c.SetLast(), c.Run().1;
    assert Apply(c.Start(), c.op) == (Word(c.m, c.Kept()), c.Answer());
    forall i | 0 <= i < |ls|
      ensures StepsAt(Apply, run, ls, i)
    {
      if
      case i < 3 =>
      case 3 <= i < 6 =>
      case 6 <= i < 9 =>
      case 9 <= i =>
    }
  }

  lemma HarmlessClashesAreLinearizable(c: Clash)
    requires c.Valid() && c.Harmless()
    ensures Linearizable(Apply, c.Start(), c.Run().1)
  {
    var (ss, ls) := c.Run();
    if Wrap(c.newval, c.m) == c.cur {
      AClashCanHappen(c);
      forall i | 0 <= i < |ls| && ls[i].Internal?
        ensures Quiet(ss[i], ls[i].t)
      {
        assert i == 4 || !ss[i].pcs[ls[i].t].SetStore?;
      }
      AtomicsAreLinearizable(ss, ls, c.Start(), 2);
    } else {
      SetLastIsARun(c);
      assert c.SetLast()[0].value == c.Start();
    }
  }

  /**
   The condition on values is exact.  For every word, every read-modify-write whose store is pending and
   every value set in between, the machine has a run with this history; and the history, however its
   internal steps fall, has a sequential explanation if and only if the set stores the value that was
   there or the value that the pending store puts there.
   */
  lemma AClashIsLinearizableExactlyWhenHarmless(c: Clash)
    requires c.Valid()
    ensures var (ss, ls) := c.Run(); Run(ss, ls, c.Start(), 2) && External(ls, |ls|) == c.History()
    ensures Linearizable(Apply, c.Start(), c.Run().1) <==> c.Harmless()
    ensures (exists ls: seq<Label<Op, Ret>> :: External(ls, |ls|) == c.History() && Linearizable(Apply, c.Start(), ls))
       <==> c.Harmless()
  {
    AClashCanHappen(c);
    AClashIsWhatTheClientsSee(c);
    if c.Harmless() {
      HarmlessClashesAreLinearizable(c);
    } else {
      forall ls: seq<Label<Op, Ret>> | External(ls, |ls|) == c.History()
        ensures !Linearizable(Apply, c.Start(), ls)
      {
        if Linearizable(Apply, c.Start(), ls) {
          var run: seq<Atomic<Word, Op, Ret>> :| AtomicRun(Apply, run, ls) && run[0].value == c.Start();
          ExplanationsOfAClash(c, run, ls, |ls|);
        }
      }
    }
  }
}
