/** Conservation, distinct tickets and the single compare-and-swap winner, over whole interleaved runs. */
module AtomicCounting {
  import opened Linearizability
  import opened AtomicSpec
  import opened AtomicMachine
  import opened AtomicTheorems
  import opened Residues
  import opened Sums

  /** A step changes the total by what it changes in one thread. */
  lemma SumStep(f: Phase<Op, Ret> -> int, a: Atomic<Word, Op, Ret>, l: Label<Op, Ret>, a': Atomic<Word, Op, Ret>)
    requires AtomicStep(Apply, a, l, a')
    ensures |a'.phases| == |a.phases|
    ensures Sum(f, a'.phases) == Sum(f, a.phases) - f(a.phases[l.t]) + f(a'.phases[l.t])
  {
    SumUpdate(f, a.phases, l.t, a'.phases[l.t]);
    assert a'.phases == a.phases[l.t := a'.phases[l.t]];
  }

  // Conservation

  ghost predicate OnlyCounts(ls: seq<Label<Op, Ret>>) {
    forall i :: 0 <= i < |ls| && ls[i].Call? ==> ls[i].op.Counts()
  }

  /** The amount by which a call that has taken effect and not returned has moved the word. */
  ghost function Moved(p: Phase<Op, Ret>): int {
    if p.Done? then p.op.Delta() else 0
  }

  /** The sum of the deltas of the calls that have returned in the first k steps. */
  ghost function ReturnedDelta(ls: seq<Label<Op, Ret>>, k: nat): int
    requires k <= |ls|
  {
    if k == 0 then 0 else ReturnedDelta(ls, k - 1) + if ls[k - 1].Return? then ls[k - 1].op.Delta() else 0
  }

  /** The sum of amount over the calls that have returned in the first k steps. */
  ghost function Returned(amount: Op -> int, ls: seq<Label<Op, Ret>>, k: nat): int
    requires k <= |ls|
  {
    if k == 0 then 0 else Returned(amount, ls, k - 1) + if ls[k - 1].Return? then amount(ls[k - 1].op) else 0
  }

  ghost function Incrs(op: Op): int {
    if op.Incr? then 1 else 0
  }

  ghost function Decrs(op: Op): int {
    if op.Decr? then 1 else 0
  }

  ghost function Added(op: Op): int {
    if op.Add? then op.delta else 0
  }

  ghost function Subtracted(op: Op): int {
    if op.Sub? then op.delta else 0
  }

  lemma {:induction false} DeltasByKind(ls: seq<Label<Op, Ret>>, k: nat)
    requires k <= |ls|
    ensures ReturnedDelta(ls, k)
         == Returned(Incrs, ls, k) - Returned(Decrs, ls, k) + Returned(Added, ls, k) - Returned(Subtracted, ls, k)
  {
    if k > 0 {
      DeltasByKind(ls, k - 1);
    }
  }

  ghost predicate PendingCounts(a: Atomic<Word, Op, Ret>) {
    forall t :: 0 <= t < |a.phases| && !a.phases[t].Idle? ==> a.phases[t].op.Counts()
  }

  /** The word is w plus the deltas returned and the deltas of the calls that have moved it since. */
  ghost predicate Balanced(a: Atomic<Word, Op, Ret>, w: Word, returned: int) {
    && PendingCounts(a)
    && a.value.modulus == w.modulus
    && a.value.bits == Wrap(w.bits + returned + Sum(Moved, a.phases), w.modulus)
  }

  /** What a step does to the word it does to the sum of the deltas. */
  lemma DeltasStep(a: Atomic<Word, Op, Ret>, l: Label<Op, Ret>, a': Atomic<Word, Op, Ret>)
    requires AtomicStep(Apply, a, l, a') && PendingCounts(a) && (l.Call? ==> l.op.Counts())
    ensures PendingCounts(a') && a'.value.modulus == a.value.modulus
    ensures var d := if l.Internal? && a' != a then a.phases[l.t].op.Delta() else 0;
            && Sum(Moved, a'.phases) == Sum(Moved, a.phases) + d - (if l.Return? then l.op.Delta() else 0)
            && ((a'.value.bits == a.value.bits && d == 0) || a'.value.bits == Wrap(a.value.bits + d, a.value.modulus))
  {
    SumStep(Moved, a, l, a');
    assert !a.phases[l.t].Idle? ==> a.phases[l.t].op.Counts();
  }

  lemma BalancedStep(a: Atomic<Word, Op, Ret>, l: Label<Op, Ret>, a': Atomic<Word, Op, Ret>, w: Word, returned: int)
    requires AtomicStep(Apply, a, l, a') && Balanced(a, w, returned) && (l.Call? ==> l.op.Counts())
    ensures Balanced(a', w, returned + if l.Return? then l.op.Delta() else 0)
  {
    DeltasStep(a, l, a');
    var d := if l.Internal? && a' != a then a.phases[l.t].op.Delta() else 0;
    AddAfterWrapping(w.bits + returned + Sum(Moved, a.phases), d, w.modulus);
  }

  lemma {:induction false} WordIsInitialPlusDeltas(run: seq<Atomic<Word, Op, Ret>>, ls: seq<Label<Op, Ret>>, k: nat)
    requires AtomicRun(Apply, run, ls) && OnlyCounts(ls) && k <= |ls|
    requires 0 <= run[0].value.bits < run[0].value.modulus
    ensures Balanced(run[k], run[0].value, ReturnedDelta(ls, k))
  {
    if k == 0 {
      SumOfZeros(Moved, run[0].phases);
    } else {
      WordIsInitialPlusDeltas(run, ls, k - 1);
      assert StepsAt(Apply, run, ls, k - 1);
      BalancedStep(run[k - 1], ls[k - 1], run[k], run[0].value, ReturnedDelta(ls, k - 1));
    }
  }

  lemma AllOutAllIdle(s: Memory)
    requires forall t :: 0 <= t < |s.pcs| ==> s.pcs[t] == Out
    ensures forall t :: 0 <= t < |Abs(s).phases| ==> Abs(s).phases[t] == Idle
  {
  }

  /** Once nothing is pending, the returned deltas are all there is. */
  lemma SettledCountIsTheSum(run: seq<Atomic<Word, Op, Ret>>, ls: seq<Label<Op, Ret>>, k: nat)
    requires AtomicRun(Apply, run, ls) && OnlyCounts(ls) && k <= |ls|
    requires 0 <= run[0].value.bits < run[0].value.modulus
    requires forall t :: 0 <= t < |run[k].phases| ==> run[k].phases[t] == Idle
    ensures run[k].value.bits == Wrap(run[0].value.bits + ReturnedDelta(ls, k), run[0].value.modulus)
  {
    WordIsInitialPlusDeltas(run, ls, k);
    SumOfZeros(Moved, run[k].phases);
  }

  /**
   When every call has returned, the word is the initial word plus the number of incrs less the number of
   decrs, plus all that was added less all that was subtracted, modulo the word size.
   */
  lemma CountingConserves(ss: seq<Memory>, ls: seq<Label<Op, Ret>>, w: Word, n: nat, k: nat)
    requires Run(ss, ls, w, n) && OnlyCounts(ls) && k <= |ls|
    requires forall t :: 0 <= t < |ss[k].pcs| ==> ss[k].pcs[t] == Out
    ensures ss[k].bits == Wrap(w.bits + Returned(Incrs, ls, k) - Returned(Decrs, ls, k)
                               + Returned(Added, ls, k) - Returned(Subtracted, ls, k), w.modulus)
  {
    assert NeverSets(ls);
    AllOutAllIdle(ss[k]);
    RunRefinesWithoutSet(ss, ls, w, n);
    SettledCountIsTheSum(AbsRun(ss), ls, k);
    DeltasByKind(ls, k);
  }

  // Distinct results

  ghost predicate OnlyIncrements(ls: seq<Label<Op, Ret>>) {
    forall i :: 0 <= i < |ls| && ls[i].Call? ==> ls[i].op == Incr
  }

  ghost function Calls(ls: seq<Label<Op, Ret>>, k: nat): nat
    requires k <= |ls|
  {
    if k == 0 then 0 else Calls(ls, k - 1) + if ls[k - 1].Call? then 1 else 0
  }

  lemma {:induction false} CallsGrow(ls: seq<Label<Op, Ret>>, i: nat, k: nat)
    requires i <= k <= |ls|
    ensures Calls(ls, i) <= Calls(ls, k)
  {
    if i < k {
      CallsGrow(ls, i, k - 1);
    }
  }

  ghost function Waiting(p: Phase<Op, Ret>): int {
    if p.Called? then 1 else 0
  }

  /** Every pending call is an increment, and the word counts the increments that have taken effect. */
  ghost predicate Tally(a: Atomic<Word, Op, Ret>, w: Word, effects: nat) {
    && a.value.modulus == w.modulus
    && (forall t :: 0 <= t < |a.phases| && !a.phases[t].Idle? ==> a.phases[t].op == Incr)
    && a.value.bits == Wrap(w.bits + effects, w.modulus)
  }

  lemma TallyStep(a: Atomic<Word, Op, Ret>, l: Label<Op, Ret>, a': Atomic<Word, Op, Ret>, w: Word, effects: nat)
    requires AtomicStep(Apply, a, l, a') && Tally(a, w, effects) && (l.Call? ==> l.op == Incr)
    ensures Tally(a', w, effects + if l.Internal? && a' != a then 1 else 0)
  {
    AddAfterWrapping(w.bits + effects, 1, w.modulus);
  }

  lemma {:induction false} WordCountsEffects(run: seq<Atomic<Word, Op, Ret>>, ls: seq<Label<Op, Ret>>, k: nat)
    requires AtomicRun(Apply, run, ls) && OnlyIncrements(ls) && k <= |ls|
    requires 0 <= run[0].value.bits < run[0].value.modulus
    ensures Tally(run[k], run[0].value, |Order(run, ls, k)|)
  {
    if k == 0 {
    } else {
      WordCountsEffects(run, ls, k - 1);
      assert StepsAt(Apply, run, ls, k - 1);
      TallyStep(run[k - 1], ls[k - 1], run[k], run[0].value, |Order(run, ls, k - 1)|);
    }
  }

  /** Every call made has taken effect or is waiting to. */
  lemma {:induction false} CallsAreEffectsAndWaiting(run: seq<Atomic<Word, Op, Ret>>, ls: seq<Label<Op, Ret>>, k: nat)
    requires AtomicRun(Apply, run, ls) && k <= |ls|
    ensures |Order(run, ls, k)| + Sum(Waiting, run[k].phases) == Calls(ls, k)
  {
    if k == 0 {
      SumOfZeros(Waiting, run[0].phases);
    } else {
      CallsAreEffectsAndWaiting(run, ls, k - 1);
      assert StepsAt(Apply, run, ls, k - 1);
      SumStep(Waiting, run[k - 1], ls[k - 1], run[k]);
    }
  }

  lemma {:induction false} OrderGrows(run: seq<Atomic<Word, Op, Ret>>, ls: seq<Label<Op, Ret>>, i: nat, k: nat)
    requires i <= k <= |ls| < |run|
    ensures |Order(run, ls, i)| <= |Order(run, ls, k)|
  {
    if i < k {
      OrderGrows(run, ls, i, k - 1);
    }
  }

  /** Two calls take effect at different steps. */
  lemma EffectsDiffer(run: seq<Atomic<Word, Op, Ret>>, ls: seq<Label<Op, Ret>>,
                      c: nat, j: nat, k: nat, c': nat, j': nat, k': nat)
    requires AtomicRun(Apply, run, ls) && k < k'
    requires TookEffectAt(Apply, run, ls, c, j, k) && TookEffectAt(Apply, run, ls, c', j', k')
    ensures j != j'
  {
    assert StepsAt(Apply, run, ls, k);
    var t := ls[k].t;
    assert run[k + 1].phases[t] == Idle;
  }

  /** The value an increment returns is the initial word plus its place in the order of effect. */
  lemma TicketIsPlaceInOrder(run: seq<Atomic<Word, Op, Ret>>, ls: seq<Label<Op, Ret>>, c: nat, j: nat, k: nat)
    requires AtomicRun(Apply, run, ls) && OnlyIncrements(ls) && 0 <= run[0].value.bits < run[0].value.modulus
    requires TookEffectAt(Apply, run, ls, c, j, k)
    ensures ls[k].ret == Value(Wrap(run[0].value.bits + |Order(run, ls, j + 1)|, run[0].value.modulus))
  {
    IncrReturnsTheWord(run, ls, c, j, k);
    WordCountsEffects(run, ls, j + 1);
  }

  lemma PlacesAreWithinTheCalls(run: seq<Atomic<Word, Op, Ret>>, ls: seq<Label<Op, Ret>>, k: nat)
    requires AtomicRun(Apply, run, ls) && k <= |ls|
    ensures |Order(run, ls, k)| <= Calls(ls, |ls|)
  {
    CallsAreEffectsAndWaiting(run, ls, k);
    SumIsNatural(Waiting, run[k].phases);
    CallsGrow(ls, k, |ls|);
  }

  lemma IncrReturnsTheWord(run: seq<Atomic<Word, Op, Ret>>, ls: seq<Label<Op, Ret>>, c: nat, j: nat, k: nat)
    requires OnlyIncrements(ls) && TookEffectAt(Apply, run, ls, c, j, k)
    ensures ls[k].ret == Value(run[j + 1].value.bits)
  {
    assert ls[c].op == Incr == ls[k].op;
    assert Apply(run[j].value, Incr) == (run[j + 1].value, ls[k].ret);
  }

  /** Different places among at most m give different tickets. */
  lemma PlacesAreDistinct(run: seq<Atomic<Word, Op, Ret>>, ls: seq<Label<Op, Ret>>, j: nat, k: nat, j': nat, k': nat,
                          start: int, m: Modulus)
    requires j < j' && EntersOrderAt(run, ls, j, k) && EntersOrderAt(run, ls, j', k')
    requires |Order(run, ls, j' + 1)| <= m
    ensures Wrap(start + |Order(run, ls, j + 1)|, m) != Wrap(start + |Order(run, ls, j' + 1)|, m)
  {
    OrderGrows(run, ls, j + 1, j');
    var place, place' := |Order(run, ls, j + 1)|, |Order(run, ls, j' + 1)|;
    assert 1 <= place < place' <= m;
    if Wrap(start + place, m) == Wrap(start + place', m) {
      CloseNumbersDiffer(start + place, start + place', m);
    }
  }

  lemma FindTicket(run: seq<Atomic<Word, Op, Ret>>, ls: seq<Label<Op, Ret>>, k: nat) returns (c: nat, j: nat)
    requires AtomicRun(Apply, run, ls) && OnlyIncrements(ls) && 0 <= run[0].value.bits < run[0].value.modulus
    requires k < |ls| && ls[k].Return?
    ensures TookEffectAt(Apply, run, ls, c, j, k) && EntersOrderAt(run, ls, j, k)
    ensures ls[k].ret == Value(Wrap(run[0].value.bits + |Order(run, ls, j + 1)|, run[0].value.modulus))
    ensures |Order(run, ls, j + 1)| <= Calls(ls, |ls|)
  {
    AnswersTakeEffectInsideTheCall(Apply, run, ls, k);
    c, j :| TookEffectAt(Apply, run, ls, c, j, k) && EntersOrderAt(run, ls, j, k);
    TicketIsPlaceInOrder(run, ls, c, j, k);
    PlacesAreWithinTheCalls(run, ls, j + 1);
  }

  lemma TicketsDiffer(run: seq<Atomic<Word, Op, Ret>>, ls: seq<Label<Op, Ret>>, k: nat, k': nat)
    requires AtomicRun(Apply, run, ls) && OnlyIncrements(ls) && 0 <= run[0].value.bits < run[0].value.modulus
    requires Calls(ls, |ls|) <= run[0].value.modulus
    requires k < k' < |ls| && ls[k].Return? && ls[k'].Return?
    ensures ls[k].ret != ls[k'].ret
  {
    var c, j := FindTicket(run, ls, k);
    var c', j' := FindTicket(run, ls, k');
    EffectsDiffer(run, ls, c, j, k, c', j', k');
    if j < j' {
      PlacesAreDistinct(run, ls, j, k, j', k', run[0].value.bits, run[0].value.modulus);
    } else {
      PlacesAreDistinct(run, ls, j', k', j, k, run[0].value.bits, run[0].value.modulus);
    }
  }

  /** No more increments than the word has values: no two of them return the same value. */
  lemma IncrementsAreDistinct(ss: seq<Memory>, ls: seq<Label<Op, Ret>>, w: Word, n: nat, k: nat, k': nat)
    requires Run(ss, ls, w, n) && OnlyIncrements(ls) && Calls(ls, |ls|) <= w.modulus
    requires k < k' < |ls| && ls[k].Return? && ls[k'].Return?
    ensures ls[k].ret != ls[k'].ret
  {
    assert NeverSets(ls);
    RunRefinesWithoutSet(ss, ls, w, n);
    TicketsDiffer(AbsRun(ss), ls, k, k');
  }

  // One winner

  /** Compare-and-swaps away from oldval, and reads. */
  ghost predicate Competes(op: Op, oldval: int, m: Modulus) {
    op == Get || (op.CompareAndSwap? && Wrap(op.oldval, m) == oldval && Wrap(op.newval, m) != oldval)
  }

  ghost predicate OnlyCompetitors(ls: seq<Label<Op, Ret>>, oldval: int, m: Modulus) {
    forall i :: 0 <= i < |ls| && ls[i].Call? ==> Competes(ls[i].op, oldval, m)
  }

  ghost predicate Wins(op: Op, ret: Ret, oldval: int) {
    op.CompareAndSwap? && ret == Value(oldval)
  }

  ghost function Winning(oldval: int): Phase<Op, Ret> -> int {
    (p: Phase<Op, Ret>) => if p.Done? && Wins(p.op, p.ret, oldval) then 1 else 0
  }

  /** The number of calls that have returned oldval in the first k steps. */
  ghost function Winners(ls: seq<Label<Op, Ret>>, k: nat, oldval: int): nat
    requires k <= |ls|
  {
    if k == 0 then 0
    else Winners(ls, k - 1, oldval) +
         if ls[k - 1].Return? && Wins(ls[k - 1].op, ls[k - 1].ret, oldval) then 1 else 0
  }

  /** A completed compare-and-swap has left the word away from oldval, and at its own newval if it won. */
  ghost predicate Settled(w: Word, op: Op, ret: Ret, oldval: int) {
    op.CompareAndSwap? ==>
      w.bits != oldval && (Wins(op, ret, oldval) ==> w.bits == Wrap(op.newval, w.modulus))
  }

  ghost predicate OneWinner(a: Atomic<Word, Op, Ret>, oldval: int, winners: nat) {
    && (forall t :: 0 <= t < |a.phases| && !a.phases[t].Idle? ==> Competes(a.phases[t].op, oldval, a.value.modulus))
    && winners + Sum(Winning(oldval), a.phases) == (if a.value.bits == oldval then 0 else 1)
    && (forall t :: 0 <= t < |a.phases| && a.phases[t].Done?
          ==> Settled(a.value, a.phases[t].op, a.phases[t].ret, oldval))
  }

  /** Nothing that competes for oldval moves a word that has left it. */
  lemma CompetitionStep(a: Atomic<Word, Op, Ret>, l: Label<Op, Ret>, a': Atomic<Word, Op, Ret>,
                        oldval: int, winners: nat)
    requires AtomicStep(Apply, a, l, a') && OneWinner(a, oldval, winners)
    requires l.Call? ==> Competes(l.op, oldval, a.value.modulus)
    ensures OneWinner(a', oldval, winners + if l.Return? && Wins(l.op, l.ret, oldval) then 1 else 0)
    ensures a'.value.modulus == a.value.modulus
    ensures a.value.bits != oldval ==> a'.value == a.value
    ensures l.Return? ==> Settled(a'.value, l.op, l.ret, oldval)
  {
    SumStep(Winning(oldval), a, l, a');
    assert !a.phases[l.t].Idle? ==> Competes(a.phases[l.t].op, oldval, a.value.modulus);
  }

  /** At most one call has won; the word says which. */
  lemma {:induction false} AtMostOneWinner(run: seq<Atomic<Word, Op, Ret>>, ls: seq<Label<Op, Ret>>,
                                           oldval: int, k: nat)
    requires AtomicRun(Apply, run, ls) && k <= |ls|
    requires run[0].value.bits == oldval && OnlyCompetitors(ls, oldval, run[0].value.modulus)
    ensures run[k].value.modulus == run[0].value.modulus && OneWinner(run[k], oldval, Winners(ls, k, oldval))
    ensures forall i :: 0 <= i < k && ls[i].Return? ==> Settled(run[k].value, ls[i].op, ls[i].ret, oldval)
  {
    if k == 0 {
      SumOfZeros(Winning(oldval), run[0].phases);
    } else {
      AtMostOneWinner(run, ls, oldval, k - 1);
      assert StepsAt(Apply, run, ls, k - 1);
      CompetitionStep(run[k - 1], ls[k - 1], run[k], oldval, Winners(ls, k - 1, oldval));
    }
  }

  /**
   Any number of threads compete to replace oldval.  Once every call has returned and at least one
   of them was a compare-and-swap, exactly one of them got oldval back, and the word is its newval.
   */
  lemma ExactlyOneWinner(ss: seq<Memory>, ls: seq<Label<Op, Ret>>, w: Word, n: nat, k: nat, first: nat)
    requires Run(ss, ls, w, n) && OnlyCompetitors(ls, w.bits, w.modulus) && k <= |ls|
    requires forall t :: 0 <= t < |ss[k].pcs| ==> ss[k].pcs[t] == Out
    requires first < k && ls[first].Return? && ls[first].op.CompareAndSwap?
    ensures Winners(ls, k, w.bits) == 1
    ensures forall i :: 0 <= i < k && ls[i].Return? && Wins(ls[i].op, ls[i].ret, w.bits)
                ==> ss[k].bits == Wrap(ls[i].op.newval, w.modulus)
  {
    assert NeverSets(ls);
    RunRefinesWithoutSet(ss, ls, w, n);
    var run := AbsRun(ss);
    assert run[0] == Abs(ss[0]) && run[k] == Abs(ss[k]);
    AtMostOneWinner(run, ls, w.bits, k);
    AllOutAllIdle(ss[k]);
    SumOfZeros(Winning(w.bits), run[k].phases);
    assert Settled(run[k].value, ls[first].op, ls[first].ret, w.bits);
  }
}
