/** What the interleaved default atomics guarantee over whole runs. */
module AtomicTheorems {
  import opened Linearizability
  import opened AtomicSpec
  import opened AtomicMachine
  import opened Residues

  // Linearizability

  ghost function AbsRun(ss: seq<Memory>): (run: seq<Atomic<Word, Op, Ret>>)
    ensures |run| == |ss| && forall i :: 0 <= i < |ss| ==> run[i] == Abs(ss[i])
  {
    seq(|ss|, i requires 0 <= i < |ss| => Abs(ss[i]))
  }

  lemma RunRefines(ss: seq<Memory>, ls: seq<Label<Op, Ret>>, w: Word, n: nat)
    requires Run(ss, ls, w, n) && QuietRun(ss, ls)
    ensures AtomicRun(Apply, AbsRun(ss), ls) && Abs(ss[0]).value == w
  {
    forall i | 0 <= i < |ls|
      ensures StepsAt(Apply, AbsRun(ss), ls, i)
    {
      ReachableInv(ss, ls, w, n, i);
      assert NextAt(ss, ls, i);
      NextRefines(ss[i], ls[i], ss[i + 1]);
    }
  }

  /** Every history in which no set disturbs a pending store is a history of the atomic word. */
  lemma AtomicsAreLinearizable(ss: seq<Memory>, ls: seq<Label<Op, Ret>>, w: Word, n: nat)
    requires Run(ss, ls, w, n) && QuietRun(ss, ls)
    ensures Linearizable(Apply, w, ls)
  {
    RunRefines(ss, ls, w, n);
  }

  ghost predicate NeverSets(ls: seq<Label<Op, Ret>>) {
    forall i :: 0 <= i < |ls| && ls[i].Call? ==> !ls[i].op.Set?
  }

  lemma {:induction false} NoSetIsUnderWay(ss: seq<Memory>, ls: seq<Label<Op, Ret>>, w: Word, n: nat, k: nat)
    requires Run(ss, ls, w, n) && NeverSets(ls) && k <= |ls|
    ensures forall t :: 0 <= t < |ss[k].pcs| ==> !ss[k].pcs[t].SetStore?
  {
    if k > 0 {
      NoSetIsUnderWay(ss, ls, w, n, k - 1);
      assert NextAt(ss, ls, k - 1);
    }
  }

  /** Without set there is no condition: incr, decr, add, sub, compare-and-swap and get always linearize. */
  lemma RunRefinesWithoutSet(ss: seq<Memory>, ls: seq<Label<Op, Ret>>, w: Word, n: nat)
    requires Run(ss, ls, w, n) && NeverSets(ls)
    ensures AtomicRun(Apply, AbsRun(ss), ls) && Abs(ss[0]).value == w && Linearizable(Apply, w, ls)
    ensures forall i :: 0 <= i < |ss| ==> Inv(ss[i]) && ss[i].modulus == w.modulus && |ss[i].pcs| == n
  {
    forall i | 0 <= i < |ls|
      ensures ls[i].t < |ss[i].pcs| ==> Quiet(ss[i], ls[i].t)
    {
      NoSetIsUnderWay(ss, ls, w, n, i);
    }
    RunRefines(ss, ls, w, n);
    forall i | 0 <= i < |ss|
      ensures Inv(ss[i]) && ss[i].modulus == w.modulus && |ss[i].pcs| == n
    {
      ReachableInv(ss, ls, w, n, i);
    }
  }

  // Every answer describes the word

  /** bits is what a word of m values holds when op answers ret, and bits' what op leaves. */
  ghost predicate Describes(m: Modulus, bits: int, op: Op, ret: Ret, bits': int)
  {
    && (op.Incr? ==> ret == Value(bits') && bits' == Wrap(bits + 1, m))
    && (op.Decr? ==> ret == Value(bits') && bits' == Wrap(bits - 1, m))
    && (op.Add? ==> ret == Value(bits') && bits' == Wrap(bits + op.delta, m))
    && (op.Sub? ==> ret == Value(bits') && bits' == Wrap(bits - op.delta, m))
    && (op.CompareAndSwap? ==>
          ret == Value(bits) && bits' == if bits == Wrap(op.oldval, m) then Wrap(op.newval, m) else bits)
    && (op.Set? ==> ret == Unit && bits' == Wrap(op.newval, m))
    && (op.Get? ==> ret == Value(bits) && bits' == bits)
  }

  lemma SpecificationDescribes(w: Word, op: Op)
    ensures Apply(w, op).0.modulus == w.modulus && Describes(w.modulus, w.bits, op, Apply(w, op).1, Apply(w, op).0.bits)
  {
  }

  /**
   Every call that returns has one step inside it at which its answer is the truth about the bits in
   memory, and which changes them as the operation promises: a failed compare-and-swap too.
   */
  lemma AnswersDescribeTheWord(ss: seq<Memory>, ls: seq<Label<Op, Ret>>, w: Word, n: nat, k: nat)
    requires Run(ss, ls, w, n) && QuietRun(ss, ls) && k < |ls| && ls[k].Return?
    ensures exists c: nat, j: nat :: TookEffectAt(Apply, AbsRun(ss), ls, c, j, k)
              && Describes(w.modulus, ss[j].bits, ls[k].op, ls[k].ret, ss[j + 1].bits)
  {
    RunRefines(ss, ls, w, n);
    var run := AbsRun(ss);
    AnswersTakeEffectInsideTheCall(Apply, run, ls, k);
    var c: nat, j: nat :| TookEffectAt(Apply, run, ls, c, j, k) && EntersOrderAt(run, ls, j, k);
    ReachableInv(ss, ls, w, n, j);
    assert run[j] == Abs(ss[j]) && run[j + 1] == Abs(ss[j + 1]);
    SpecificationDescribes(run[j].value, ls[k].op);
  }

  /** sub undoes add, and decr undoes incr, whatever overflows. */
  lemma SubUndoesAdd(w: Word, d: int)
    requires 0 <= w.bits < w.modulus
    ensures Apply(Apply(w, Add(d)).0, Sub(d)).0 == w && Apply(Apply(w, Incr).0, Decr).0 == w
  {
    AddAfterWrapping(w.bits + d, -d, w.modulus);
    AddAfterWrapping(w.bits + 1, -1, w.modulus);
    WrapsIntoTheWord(w.bits, w.modulus);
  }
}
