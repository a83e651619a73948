/**
 The default atomics under concurrency: any number of threads, interleaved at every
 lock, load, store and unlock.  set stores and get loads without the lock.
 */
module AtomicMachine {
  import opened Wrappers
  import opened Linearizability
  import opened AtomicSpec
  import opened Residues

  datatype Pc =
    | Out
    | Enter(op: Op)
    | Load(op: Op)
    | Store(op: Op, cur: int)
    | Unlock(op: Op, ret: Ret)
    | SetStore(newval: int)
    | GetLoad
    | Back(op: Op, ret: Ret)
  {
    predicate Inside() {
      Load? || Store? || Unlock?
    }
  }

  datatype Memory = Memory(modulus: Modulus, bits: int, holder: Option<nat>, pcs: seq<Pc>)
  {
    function At(t: nat, pc: Pc): Memory
      requires t < |pcs|
    {
      this.(pcs := pcs[t := pc])
    }
  }

  ghost predicate Init(s: Memory, w: Word, n: nat) {
    && s.modulus == w.modulus && s.bits == w.bits && 0 <= w.bits < w.modulus
    && s.holder == None
    && |s.pcs| == n
    && forall t :: 0 <= t < n ==> s.pcs[t] == Out
  }

  /** What the store of a read-modify-write puts into the word, given what it loaded. */
  function Stored(op: Op, cur: int, modulus: Modulus): int
  {
    if op.CompareAndSwap? then Wrap(op.newval, modulus) else Wrap(cur + op.Delta(), modulus)
  }

  /** What it returns. */
  function Result(op: Op, cur: int, modulus: Modulus): Ret
  {
    Value(if op.CompareAndSwap? then cur else Stored(op, cur, modulus))
  }

  ghost predicate Micro(s: Memory, t: nat, s': Memory)
    requires t < |s.pcs|
  {
    match s.pcs[t]
    case Enter(op) => s.holder == None && s' == s.At(t, Load(op)).(holder := Some(t))
    case Load(op) =>
      s' == s.At(t, if op.CompareAndSwap? && s.bits != Wrap(op.oldval, s.modulus) then Unlock(op, Value(s.bits))
                    else Store(op, s.bits))
    case Store(op, cur) =>
      s' == s.At(t, Unlock(op, Result(op, cur, s.modulus))).(bits := Stored(op, cur, s.modulus))
    case Unlock(op, ret) => s' == s.At(t, Back(op, ret)).(holder := None)
    case SetStore(newval) => s' == s.At(t, Back(Set(newval), Unit)).(bits := Wrap(newval, s.modulus))
    case GetLoad => s' == s.At(t, Back(Get, Value(s.bits)))
    case _ => false
  }

  function Begin(op: Op): Pc {
    match op
    case Set(newval) => SetStore(newval)
    case Get => GetLoad
    case _ => Enter(op)
  }

  ghost predicate Next(s: Memory, l: Label<Op, Ret>, s': Memory) {
    && l.t < |s.pcs|
    && match l
       case Call(t, op) => s.pcs[t] == Out && s' == s.At(t, Begin(op))
       case Return(t, op, ret) => s.pcs[t] == Back(op, ret) && s' == s.At(t, Out)
       case Internal(t) => Micro(s, t, s')
  }

  /** Step i of the run follows its label. */
  ghost predicate NextAt(ss: seq<Memory>, ls: seq<Label<Op, Ret>>, i: int) {
    0 <= i < |ls| < |ss| && Next(ss[i], ls[i], ss[i + 1])
  }

  ghost predicate Run(ss: seq<Memory>, ls: seq<Label<Op, Ret>>, w: Word, n: nat) {
    && |ss| == |ls| + 1
    && Init(ss[0], w, n)
    && forall i :: 0 <= i < |ls| ==> NextAt(ss, ls, i)
  }

  // When set may run without the lock

  /** Thread h is between its load and its store. */
  ghost predicate StorePending(s: Memory, h: nat) {
    h < |s.pcs| && s.pcs[h].Store?
  }

  /** The next step of t is not a set that changes the word under a pending store. */
  ghost predicate Quiet(s: Memory, t: nat)
    requires t < |s.pcs|
  {
    s.pcs[t].SetStore? ==>
      Wrap(s.pcs[t].newval, s.modulus) == s.bits || forall h :: 0 <= h < |s.pcs| ==> !StorePending(s, h)
  }

  ghost predicate QuietRun(ss: seq<Memory>, ls: seq<Label<Op, Ret>>) {
    forall i :: 0 <= i < |ls| < |ss| && ls[i].Internal? && ls[i].t < |ss[i].pcs| ==> Quiet(ss[i], ls[i].t)
  }

  // The invariant and the abstract word

  ghost predicate Local(s: Memory, t: nat)
    requires t < |s.pcs|
  {
    match s.pcs[t]
    case Enter(op) => op.ReadModifyWrite()
    case Load(op) => op.ReadModifyWrite()
    case Store(op, cur) =>
      op.ReadModifyWrite() && cur == s.bits && (op.CompareAndSwap? ==> cur == Wrap(op.oldval, s.modulus))
    case _ => true
  }

  ghost predicate Inv(s: Memory) {
    && 0 <= s.bits < s.modulus
    && (s.holder.Some? ==> s.holder.value < |s.pcs|)
    && (forall t :: 0 <= t < |s.pcs| ==> (s.pcs[t].Inside() <==> s.holder == Some(t)))
    && (forall t :: 0 <= t < |s.pcs| ==> Local(s, t))
  }

  ghost function PhaseOf(pc: Pc): Phase<Op, Ret> {
    match pc
    case Out => Idle
    case Enter(op) => Called(op)
    case Load(op) => Called(op)
    case Store(op, _) => Called(op)
    case SetStore(newval) => Called(Set(newval))
    case GetLoad => Called(Get)
    case Unlock(op, ret) => Done(op, ret)
    case Back(op, ret) => Done(op, ret)
  }

  ghost function Abs(s: Memory): Atomic<Word, Op, Ret> {
    Atomic(Word(s.modulus, s.bits), seq(|s.pcs|, t requires 0 <= t < |s.pcs| => PhaseOf(s.pcs[t])))
  }

  /** A step keeps the invariant exactly when it is not a disturbing set. */
  lemma MicroKeepsInvExactlyWhenQuiet(s: Memory, t: nat, s': Memory)
    requires Inv(s) && t < |s.pcs| && Micro(s, t, s')
    ensures Inv(s') <==> Quiet(s, t)
  {
    assert Local(s, t);
    if Quiet(s, t) {
      forall u | 0 <= u < |s'.pcs|
        ensures Local(s', u) && (s'.pcs[u].Inside() <==> s'.holder == Some(u))
      {
        assert Local(s, u);
        assert s.pcs[u].Inside() <==> s.holder == Some(u);
        assert !StorePending(s, u) || s.holder == Some(u);
      }
    } else {
      var h :| 0 <= h < |s.pcs| && StorePending(s, h);
      assert Local(s, h) && !Local(s', h);
    }
  }

  lemma NextKeepsInv(s: Memory, l: Label<Op, Ret>, s': Memory)
    requires Inv(s) && Next(s, l, s') && (l.Internal? ==> Quiet(s, l.t))
    ensures Inv(s') && |s'.pcs| == |s.pcs| && s'.modulus == s.modulus
  {
    if l.Internal? {
      MicroKeepsInvExactlyWhenQuiet(s, l.t, s');
    } else {
      forall u | 0 <= u < |s'.pcs|
        ensures Local(s', u)
      {
        assert Local(s, u);
      }
    }
  }

  lemma NextRefines(s: Memory, l: Label<Op, Ret>, s': Memory)
    requires Inv(s) && Next(s, l, s')
    ensures AtomicStep(Apply, Abs(s), l, Abs(s'))
  {
    assert Local(s, l.t);
    assert Abs(s').phases == Abs(s).phases[l.t := PhaseOf(s'.pcs[l.t])];
    assert Abs(s).phases[l.t := PhaseOf(s.pcs[l.t])] == Abs(s).phases;
  }

  lemma {:induction false} ReachableInv(ss: seq<Memory>, ls: seq<Label<Op, Ret>>, w: Word, n: nat, k: nat)
    requires Run(ss, ls, w, n) && QuietRun(ss, ls) && k <= |ls|
    ensures Inv(ss[k]) && |ss[k].pcs| == n && ss[k].modulus == w.modulus
  {
    if k > 0 {
      ReachableInv(ss, ls, w, n, k - 1);
      assert NextAt(ss, ls, k - 1);
      NextKeepsInv(ss[k - 1], ls[k - 1], ss[k]);
    }
  }
}
