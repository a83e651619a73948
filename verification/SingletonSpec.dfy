/**
 References to lazily built singletons, counted.  A world holds any number of singletons and any
 number of live references; instances are numbered in the order in which they are built.

 incrRefCount and decrRefCount are declared but not defined in the header.  The model assumes that
 the first builds on the way from 0 to 1 and that the second destroys on the way from 1 to 0.
 */
module SingletonSpec {
  import opened Wrappers
  import opened Sums

  /** The fields of SingletonUntyped. */
  datatype Slot = Slot(instance: Option<nat>, refCount: nat)

  /** refs says which singleton each live reference points to. */
  datatype World = World(slots: seq<Slot>, refs: map<nat, nat>, built: nat, destroyed: seq<nat>)

  /** Each operation names the reference it acts on; Construct also stands for getReference. */
  datatype Op =
    | Construct(r: nat, k: nat)
    | Copy(r: nat, from: nat)
    | Destroy(r: nat)
    | Assign(r: nat, from: nat)

  /** incrRefCount on one singleton: its new fields and the number of instances built. */
  function Incr(s: Slot, built: nat): (Slot, nat)
  {
    if s.refCount == 0 then (Slot(Some(built), 1), built + 1) else (s.(refCount := s.refCount + 1), built)
  }

  /** decrRefCount on one singleton; never called at 0, as CountsStayRight shows. */
  function Decr(s: Slot, destroyed: seq<nat>): (Slot, seq<nat>)
  {
    if s.refCount > 1 then (s.(refCount := s.refCount - 1), destroyed)
    else (Slot(None, 0), if s.instance.Some? then destroyed + [s.instance.value] else destroyed)
  }

  function IncrRefCount(w: World, k: nat): World
    requires k < |w.slots|
  {
    var (s, built) := Incr(w.slots[k], w.built);
    w.(slots := w.slots[k := s], built := built)
  }

  function DecrRefCount(w: World, k: nat): World
    requires k < |w.slots|
  {
    var (s, destroyed) := Decr(w.slots[k], w.destroyed);
    w.(slots := w.slots[k := s], destroyed := destroyed)
  }

  /** r is live, and the pointer that the header asserts not to be null points to a singleton. */
  predicate Live(w: World, r: nat)
  {
    r in w.refs && w.refs[r] < |w.slots|
  }

  /** What C++ lets the owner of references do: construct new ones, use live ones. */
  predicate Legal(w: World, op: Op)
  {
    match op
    case Construct(r, k) => r !in w.refs && k < |w.slots|
    case Copy(r, from) => r !in w.refs && Live(w, from)
    case Destroy(r) => Live(w, r)
    case Assign(r, from) => Live(w, r) && Live(w, from)
  }

  function Apply(w: World, op: Op): World
    requires Legal(w, op)
  {
    match op
    case Construct(r, k) => IncrRefCount(w, k).(refs := w.refs[r := k])
    case Copy(r, from) => IncrRefCount(w, w.refs[from]).(refs := w.refs[r := w.refs[from]])
    case Destroy(r) => DecrRefCount(w, w.refs[r]).(refs := w.refs - {r})
    case Assign(r, from) =>
      if w.refs[r] == w.refs[from] then w
      else IncrRefCount(DecrRefCount(w, w.refs[r]), w.refs[from]).(refs := w.refs[r := w.refs[from]])
  }

  /** The live references to singleton k. */
  function Referrers(refs: map<nat, nat>, k: nat): set<nat>
  {
    set r | r in refs && refs[r] == k
  }

  predicate Counted(w: World, k: nat)
    requires k < |w.slots|
  {
    && w.slots[k].refCount == |Referrers(w.refs, k)|
    && (w.slots[k].instance.Some? <==> w.slots[k].refCount > 0)
  }

  /** Instance i is the current instance of singleton k. */
  predicate Current(w: World, i: nat, k: nat)
  {
    k < |w.slots| && w.slots[k].instance == Some(i)
  }

  /** Every instance built so far is current or destroyed, never both, never twice. */
  ghost predicate InstancesAccounted(w: World)
  {
    && (forall i: nat :: i < w.built <==> i in w.destroyed || exists k: nat :: Current(w, i, k))
    && (forall i: nat, k: nat :: Current(w, i, k) ==> i !in w.destroyed)
    && (forall i: nat, k: nat, k': nat :: Current(w, i, k) && Current(w, i, k') ==> k == k')
    && (forall d, d' :: 0 <= d < d' < |w.destroyed| ==> w.destroyed[d] != w.destroyed[d'])
  }

  ghost predicate Inv(w: World)
  {
    && (forall k :: 0 <= k < |w.slots| ==> Counted(w, k))
    && (forall r :: r in w.refs ==> Live(w, r))
    && InstancesAccounted(w)
  }

  ghost predicate Initial(w: World)
  {
    && w.refs == map[] && w.built == 0 && w.destroyed == []
    && forall k :: 0 <= k < |w.slots| ==> w.slots[k] == Slot(None, 0)
  }

  /** ws is what the operations ops make of an initial world. */
  ghost predicate Run(ws: seq<World>, ops: seq<Op>)
  {
    && |ws| == |ops| + 1
    && Initial(ws[0])
    && forall i :: 0 <= i < |ops| ==> Legal(ws[i], ops[i]) && ws[i + 1] == Apply(ws[i], ops[i])
  }

  // Counting referrers

  lemma NewReferrer(refs: map<nat, nat>, r: nat, k: nat, j: nat)
    requires r !in refs
    ensures |Referrers(refs[r := k], j)| == |Referrers(refs, j)| + if j == k then 1 else 0
  {
    assert Referrers(refs[r := k], j) == Referrers(refs, j) + if j == k then {r} else {};
  }

  lemma LostReferrer(refs: map<nat, nat>, r: nat, j: nat)
    requires r in refs
    ensures |Referrers(refs - {r}, j)| == |Referrers(refs, j)| - if j == refs[r] then 1 else 0
  {
    assert Referrers(refs - {r}, j) == Referrers(refs, j) - if j == refs[r] then {r} else {};
  }

  lemma LiveMeansCounted(w: World, r: nat)
    requires Inv(w) && r in w.refs
    ensures Live(w, r) && w.slots[w.refs[r]].refCount > 0 && w.slots[w.refs[r]].instance.Some?
  {
    assert Counted(w, w.refs[r]);
    assert r in Referrers(w.refs, w.refs[r]);
  }

  // One count up, one count down

  lemma IncrKeepsInstances(w: World, k: nat)
    requires InstancesAccounted(w) && k < |w.slots| && (w.slots[k].instance.Some? <==> w.slots[k].refCount > 0)
    ensures InstancesAccounted(IncrRefCount(w, k))
  {
    var w' := IncrRefCount(w, k);
    forall i: nat, j: nat
      ensures Current(w', i, j) <==> Current(w, i, j) || (w.slots[k].refCount == 0 && j == k && i == w.built)
    {
    }
    forall i: nat
      ensures i < w'.built <==> i in w'.destroyed || exists j: nat :: Current(w', i, j)
    {
      if i < w.built && i !in w.destroyed {
        var j: nat :| Current(w, i, j);
        assert Current(w', i, j);
      } else if i < w'.built && i !in w.destroyed {
        assert Current(w', i, k);
      }
    }
  }

  lemma DecrKeepsInstances(w: World, k: nat)
    requires InstancesAccounted(w) && k < |w.slots| && w.slots[k].instance.Some? && w.slots[k].refCount > 0
    ensures InstancesAccounted(DecrRefCount(w, k))
  {
    var w' := DecrRefCount(w, k);
    forall i: nat, j: nat
      ensures Current(w', i, j) <==> Current(w, i, j) && !(w.slots[k].refCount == 1 && j == k)
    {
    }
    assert Current(w, w.slots[k].instance.value, k);
  }

  lemma AcquireKeepsInv(w: World, r: nat, k: nat)
    requires Inv(w) && r !in w.refs && k < |w.slots|
    ensures Inv(IncrRefCount(w, k).(refs := w.refs[r := k]))
  {
    var w' := IncrRefCount(w, k).(refs := w.refs[r := k]);
    assert Counted(w, k);
    IncrKeepsInstances(w, k);
    InstancesIgnoreReferences(IncrRefCount(w, k), w');
    forall j | 0 <= j < |w'.slots|
      ensures Counted(w', j)
    {
      assert Counted(w, j);
      NewReferrer(w.refs, r, k, j);
    }
    forall q | q in w'.refs
      ensures Live(w', q)
    {
      assert q == r || Live(w, q);
    }
  }

  lemma ReleaseKeepsInv(w: World, r: nat)
    requires Inv(w) && r in w.refs
    ensures Live(w, r) && Inv(DecrRefCount(w, w.refs[r]).(refs := w.refs - {r}))
  {
    LiveMeansCounted(w, r);
    var k := w.refs[r];
    var w' := DecrRefCount(w, k).(refs := w.refs - {r});
    DecrKeepsInstances(w, k);
    InstancesIgnoreReferences(DecrRefCount(w, k), w');
    forall j | 0 <= j < |w'.slots|
      ensures Counted(w', j)
    {
      assert Counted(w, j);
      LostReferrer(w.refs, r, j);
    }
    forall q | q in w'.refs
      ensures Live(w', q)
    {
      assert Live(w, q);
    }
  }

  lemma InstancesIgnoreReferences(w: World, w': World)
    requires InstancesAccounted(w) && w' == w.(refs := w'.refs)
    ensures InstancesAccounted(w')
  {
    forall i: nat, k: nat
      ensures Current(w', i, k) <==> Current(w, i, k)
    {
    }
  }

  /** Assignment across singletons is a destruction and a construction of the same reference. */
  lemma AssignIsReleaseThenAcquire(w: World, r: nat, from: nat)
    requires Inv(w) && Live(w, r) && Live(w, from) && w.refs[r] != w.refs[from]
    ensures var released := DecrRefCount(w, w.refs[r]).(refs := w.refs - {r});
            Apply(w, Assign(r, from)) == IncrRefCount(released, w.refs[from]).(refs := released.refs[r := w.refs[from]])
  {
    assert (w.refs - {r})[r := w.refs[from]] == w.refs[r := w.refs[from]];
  }

  lemma ApplyKeepsInv(w: World, op: Op)
    requires Inv(w) && Legal(w, op)
    ensures Inv(Apply(w, op))
  {
    match op
    case Construct(r, k) => AcquireKeepsInv(w, r, k);
    case Copy(r, from) => AcquireKeepsInv(w, r, w.refs[from]);
    case Destroy(r) => ReleaseKeepsInv(w, r);
    case Assign(r, from) =>
      if w.refs[r] != w.refs[from] {
        AssignIsReleaseThenAcquire(w, r, from);
        ReleaseKeepsInv(w, r);
        AcquireKeepsInv(DecrRefCount(w, w.refs[r]).(refs := w.refs - {r}), r, w.refs[from]);
      }
  }

  lemma InitialInv(w: World)
    requires Initial(w)
    ensures Inv(w)
  {
    forall k | 0 <= k < |w.slots|
      ensures Counted(w, k)
    {
      assert Referrers(w.refs, k) == {};
    }
  }

  /**
   After every sequence of constructions, copies, assignments and destructions: each count is the
   number of live references, an instance exists exactly while the count is positive, and every
   instance ever built is current in one singleton or has been destroyed once.
   */
  lemma {:induction false} CountsStayRight(ws: seq<World>, ops: seq<Op>, i: nat)
    requires Run(ws, ops) && i <= |ops|
    ensures Inv(ws[i]) && |ws[i].slots| == |ws[0].slots|
  {
    if i == 0 {
      InitialInv(ws[0]);
    } else {
      CountsStayRight(ws, ops, i - 1);
      ApplyKeepsInv(ws[i - 1], ops[i - 1]);
    }
  }

  /** operator-> on a live reference never yields null, nor an instance that has been destroyed. */
  lemma ArrowIsNeverNull(ws: seq<World>, ops: seq<Op>, i: nat, r: nat)
    requires Run(ws, ops) && i <= |ops| && r in ws[i].refs
    ensures Live(ws[i], r)
    ensures var p := ws[i].slots[ws[i].refs[r]].instance; p.Some? && p.value !in ws[i].destroyed
  {
    CountsStayRight(ws, ops, i);
    LiveMeansCounted(ws[i], r);
    assert Current(ws[i], ws[i].slots[ws[i].refs[r]].instance.value, ws[i].refs[r]);
  }

  /** Two live references reach the same instance if and only if they point to the same singleton. */
  lemma ArrowsMeetInOneSingleton(ws: seq<World>, ops: seq<Op>, i: nat, r: nat, q: nat)
    requires Run(ws, ops) && i <= |ops| && r in ws[i].refs && q in ws[i].refs
    ensures Live(ws[i], r) && Live(ws[i], q)
    ensures ws[i].slots[ws[i].refs[r]].instance == ws[i].slots[ws[i].refs[q]].instance
       <==> ws[i].refs[r] == ws[i].refs[q]
  {
    CountsStayRight(ws, ops, i);
    LiveMeansCounted(ws[i], r);
    LiveMeansCounted(ws[i], q);
    assert Current(ws[i], ws[i].slots[ws[i].refs[r]].instance.value, ws[i].refs[r]);
    assert Current(ws[i], ws[i].slots[ws[i].refs[q]].instance.value, ws[i].refs[q]);
  }

  /** A reference that survives an operation, pointing to the same singleton, keeps the same instance. */
  lemma SurvivorsKeepTheirInstance(w: World, op: Op, r: nat)
    requires Inv(w) && Legal(w, op) && r in w.refs && r in Apply(w, op).refs && Apply(w, op).refs[r] == w.refs[r]
    ensures Live(w, r) && |Apply(w, op).slots| == |w.slots|
    ensures Apply(w, op).slots[w.refs[r]].instance == w.slots[w.refs[r]].instance
  {
    LiveMeansCounted(w, r);
    ApplyKeepsInv(w, op);
    LiveMeansCounted(Apply(w, op), r);
  }

  ghost predicate SameSingleton(ws: seq<World>, r: nat, i: nat, j: nat)
  {
    && i <= j < |ws|
    && r in ws[i].refs
    && forall n :: i <= n <= j ==> r in ws[n].refs && ws[n].refs[r] == ws[i].refs[r]
  }

  /** Over a whole run: as long as a reference points to a singleton, that singleton's instance is one and the same. */
  lemma {:induction false} OneInstanceWhileReferenced(ws: seq<World>, ops: seq<Op>, r: nat, i: nat, j: nat)
    requires Run(ws, ops) && SameSingleton(ws, r, i, j)
    ensures Live(ws[i], r) && Live(ws[j], r) && |ws[j].slots| == |ws[i].slots|
    ensures ws[j].slots[ws[i].refs[r]].instance == ws[i].slots[ws[i].refs[r]].instance
    decreases j
  {
    CountsStayRight(ws, ops, i);
    LiveMeansCounted(ws[i], r);
    if i < j {
      OneInstanceWhileReferenced(ws, ops, r, i, j - 1);
      CountsStayRight(ws, ops, j - 1);
      assert r in ws[j].refs;
      SurvivorsKeepTheirInstance(ws[j - 1], ops[j - 1], r);
    }
  }

  function CountOf(slot: Slot): int
  {
    slot.refCount
  }

  /**
   Assignment is safe although it decrements first: it never builds, within one singleton it changes
   nothing, across singletons it destroys exactly when the last reference leaves, and the total of
   all counts stays the same.
   */
  lemma AssignmentIsSafe(w: World, r: nat, from: nat)
    requires Inv(w) && r in w.refs && from in w.refs
    ensures Legal(w, Assign(r, from))
    ensures var w' := Apply(w, Assign(r, from));
            && w'.refs == w.refs[r := w.refs[from]]
            && w'.built == w.built
            && (w.refs[r] == w.refs[from] ==> w' == w)
            && (w'.destroyed == w.destroyed <==>
                  w.refs[r] == w.refs[from] || exists q :: q != r && q in w.refs && w.refs[q] == w.refs[r])
            && Sum(CountOf, w'.slots) == Sum(CountOf, w.slots)
  {
    LiveMeansCounted(w, r);
    LiveMeansCounted(w, from);
    var k, k' := w.refs[r], w.refs[from];
    if k != k' {
      LastReferrer(w, r);
      var released := DecrRefCount(w, k);
      SumUpdate(CountOf, w.slots, k, released.slots[k]);
      SumUpdate(CountOf, released.slots, k', IncrRefCount(released, k').slots[k']);
    }
  }

  lemma LastReferrer(w: World, r: nat)
    requires Inv(w) && Live(w, r)
    ensures w.slots[w.refs[r]].refCount > 1 <==> exists q :: q != r && q in w.refs && w.refs[q] == w.refs[r]
  {
    var all := Referrers(w.refs, w.refs[r]);
    var others := all - {r};
    assert Counted(w, w.refs[r]) && r in all && |all| == |others| + 1;
    if |others| > 0 {
      var q :| q in others;
      assert q != r && q in w.refs && w.refs[q] == w.refs[r];
    }
    if q :| q != r && q in w.refs && w.refs[q] == w.refs[r] {
      assert q in others;
    }
  }
}
