/** The reference objects themselves, over the counted singletons they point to. */
module SingletonObjects {
  import opened Wrappers
  import opened SingletonSpec

  /** Where _build takes instances from and _destroy puts them. */
  class Instances {
    var built: nat
    var destroyed: seq<nat>

    constructor ()
      ensures built == 0 && destroyed == []
    {
      built := 0;
      destroyed := [];
    }

    method Build() returns (p: nat)
      modifies this
      ensures p == old(built) && built == old(built) + 1 && destroyed == old(destroyed)
    {
      p := built;
      built := built + 1;
    }

    method Destroy(p: nat)
      modifies this
      ensures built == old(built) && destroyed == old(destroyed) + [p]
    {
      destroyed := destroyed + [p];
    }
  }

  class SingletonUntyped {
    var instance: Option<nat>
    var refCount: nat

    constructor ()
      ensures Now() == Slot(None, 0)
    {
      instance := None;
      refCount := 0;
    }

    function Now(): Slot
      reads this
    {
      Slot(instance, refCount)
    }

    /** The assumed contract of incrRefCount, on the k-th of the singletons. */
    method IncrRefCount(heap: Instances, ghost w: World, ghost singles: seq<SingletonUntyped>, ghost k: nat)
      requires SinglesMatch(w, singles, heap) && k < |singles| && singles[k] == this
      modifies this, heap
      ensures SinglesMatch(SingletonSpec.IncrRefCount(w, k), singles, heap)
    {
      if refCount == 0 {
        var p := heap.Build();
        instance := Some(p);
      }
      refCount := refCount + 1;
    }

    /** The assumed contract of decrRefCount, on the k-th of the singletons. */
    method DecrRefCount(heap: Instances, ghost w: World, ghost singles: seq<SingletonUntyped>, ghost k: nat)
      requires SinglesMatch(w, singles, heap) && k < |singles| && singles[k] == this && refCount > 0
      modifies this, heap
      ensures SinglesMatch(SingletonSpec.DecrRefCount(w, k), singles, heap)
    {
      refCount := refCount - 1;
      if refCount == 0 {
        if instance.Some? {
          heap.Destroy(instance.value);
        }
        instance := None;
      }
    }

    method PInstance() returns (p: Option<nat>)
      ensures p == Now().instance
    {
      p := instance;
    }
  }

  /** The singletons and the instances are in the state of the world w. */
  ghost predicate SinglesMatch(w: World, singles: seq<SingletonUntyped>, heap: Instances)
    reads singles, heap
  {
    && |singles| == |w.slots|
    && (forall i, j :: 0 <= i < j < |singles| ==> singles[i] != singles[j])
    && (forall k :: 0 <= k < |singles| ==> singles[k].Now() == w.slots[k])
    && heap.built == w.built && heap.destroyed == w.destroyed
  }

  ghost predicate RefsMatch(pointees: map<nat, nat>, singles: seq<SingletonUntyped>, refs: map<nat, Reference>)
    reads refs.Values
  {
    && refs.Keys == pointees.Keys
    && (forall r :: r in refs ==> pointees[r] < |singles| && refs[r].singleton == singles[pointees[r]])
    && (forall r, q :: r in refs && q in refs && r != q ==> refs[r] != refs[q])
  }

  /** The objects are in the state of the world w; refs names the live reference objects. */
  ghost predicate Matches(w: World, singles: seq<SingletonUntyped>, refs: map<nat, Reference>, heap: Instances)
    reads singles, refs.Values, heap
  {
    SinglesMatch(w, singles, heap) && RefsMatch(w.refs, singles, refs)
  }

  class Reference {
    var singleton: SingletonUntyped

    /** reference ( epicsSingleton & ) */
    constructor (es: SingletonUntyped, heap: Instances, ghost w: World, ghost singles: seq<SingletonUntyped>,
                 ghost refs: map<nat, Reference>, ghost r: nat, ghost k: nat)
      requires Inv(w) && Matches(w, singles, refs, heap) && Legal(w, Construct(r, k)) && es == singles[k]
      modifies es, heap
      ensures singleton == es && es.refCount == old(es.refCount) + 1 && es.instance.Some?
      ensures heap.built == old(heap.built) + if old(es.refCount) == 0 then 1 else 0
      ensures Matches(Apply(w, Construct(r, k)), singles, refs[r := this], heap)
    {
      singleton := es;
      new;
      assert Counted(w, k);
      es.IncrRefCount(heap, w, singles, k);
    }

    /** reference ( const reference & ) */
    constructor Copy(ref: Reference, heap: Instances, ghost w: World, ghost singles: seq<SingletonUntyped>,
                     ghost refs: map<nat, Reference>, ghost r: nat, ghost from: nat)
      requires Inv(w) && Matches(w, singles, refs, heap) && Legal(w, SingletonSpec.Op.Copy(r, from))
      requires ref == refs[from]
      modifies ref.singleton, heap
      ensures singleton == ref.singleton == old(ref.singleton) && singleton.refCount == old(ref.singleton.refCount) + 1
      ensures heap.built == old(heap.built)
      ensures Matches(Apply(w, SingletonSpec.Op.Copy(r, from)), singles, refs[r := this], heap)
    {
      singleton := ref.singleton;
      new;
      LiveMeansCounted(w, from);
      singleton.IncrRefCount(heap, w, singles, w.refs[from]);
    }

    /** ~reference () */
    method Destroy(heap: Instances, ghost w: World, ghost singles: seq<SingletonUntyped>,
                   ghost refs: map<nat, Reference>, ghost r: nat)
      requires Inv(w) && Matches(w, singles, refs, heap) && r in refs && refs[r] == this
      modifies singleton, heap
      ensures Legal(w, Op.Destroy(r)) && Matches(Apply(w, Op.Destroy(r)), singles, refs - {r}, heap)
      ensures singleton == old(singleton) && singleton.refCount == old(singleton.refCount) - 1
      ensures old(singleton.instance).Some?
      ensures heap.destroyed == old(heap.destroyed) +
                                (if singleton.refCount == 0 then [old(singleton.instance).value] else [])
    {
      LiveMeansCounted(w, r);
      singleton.DecrRefCount(heap, w, singles, w.refs[r]);
    }

    /** The decrement of operator =. */
    method Leave(heap: Instances, ghost w: World, ghost singles: seq<SingletonUntyped>,
                 ghost refs: map<nat, Reference>, ghost r: nat)
      requires Matches(w, singles, refs, heap) && r in refs && refs[r] == this && singleton.refCount > 0
      modifies singleton, heap
      ensures singleton == old(singleton)
      ensures Matches(SingletonSpec.DecrRefCount(w, w.refs[r]), singles, refs, heap)
    {
      singleton.DecrRefCount(heap, w, singles, w.refs[r]);
    }

    /** The store to _pSingleton and the increment of operator =. */
    method Join(es: SingletonUntyped, heap: Instances, ghost w: World, ghost singles: seq<SingletonUntyped>,
                ghost refs: map<nat, Reference>, ghost r: nat, ghost k: nat)
      requires Matches(w, singles, refs, heap) && r in refs && refs[r] == this && k < |singles| && singles[k] == es
      modifies this, es, heap
      ensures Matches(SingletonSpec.IncrRefCount(w, k).(refs := w.refs[r := k]), singles, refs, heap)
    {
      singleton := es;
      singleton.IncrRefCount(heap, w, singles, k);
    }

    /** operator = ( const reference & ) */
    method Assign(ref: Reference, heap: Instances, ghost w: World, ghost singles: seq<SingletonUntyped>,
                  ghost refs: map<nat, Reference>, ghost r: nat, ghost from: nat)
      requires Inv(w) && Matches(w, singles, refs, heap)
      requires r in refs && refs[r] == this && from in refs && refs[from] == ref
      modifies this, singleton, ref.singleton, heap
      ensures Legal(w, Op.Assign(r, from)) && Matches(Apply(w, Op.Assign(r, from)), singles, refs, heap)
      ensures singleton == old(ref.singleton) && heap.built == old(heap.built)
    {
      LiveMeansCounted(w, r);
      LiveMeansCounted(w, from);
      if singleton != ref.singleton {
        Leave(heap, w, singles, refs, r);
        Join(ref.singleton, heap, SingletonSpec.DecrRefCount(w, w.refs[r]), singles, refs, r, w.refs[from]);
      }
    }

    /** operator -> () */
    method Arrow(heap: Instances, ghost w: World, ghost singles: seq<SingletonUntyped>,
                 ghost refs: map<nat, Reference>, ghost r: nat) returns (p: Option<nat>)
      requires Inv(w) && Matches(w, singles, refs, heap) && r in refs && refs[r] == this
      ensures p == singleton.instance && p.Some? && Current(w, p.value, w.refs[r])
      ensures p.value < heap.built && p.value !in heap.destroyed
    {
      LiveMeansCounted(w, r);
      p := singleton.PInstance();
      assert Current(w, p.value, w.refs[r]);
    }
  }
}
