# Verified model of the EPICS Base lock, queue and ownership headers

EPICS Base ships a handful of small inline classes on which its clients and drivers rely between
threads: a ring buffer that needs no lock for one writer and one reader, guards for mutexes,
portable atomic operations, and counted references to singletons. This project models these in
Dafny and proves what their headers promise, or exactly when they keep it.

* **`epicsRingPointer`**, a circular buffer with one spare slot. `RingSpec` holds the bounded queue it
  promises and the index arithmetic. `RingPointer` is the object, with C `int` fields for which the
  verifier also shows that no expression overflows. `RingMachine` interleaves any number of threads at
  every single access to an index, a slot or the spinlock: with the lock any thread may call anything;
  without it one thread pushes, one pops, and these two may also use the observers.
  `RingTheorems` proves linearizability for both, FIFO delivery, slot exclusivity, honest failures,
  reservations and progress.
* **`epicsGuard` / `epicsGuardRelease`**, scoped lock and scoped unlock-relock. `GuardProgram` gives
  scoped programs with exceptions their meaning, with `GuardObjects` building and destroying the actual
  objects. `GuardThreads` runs such programs in any number of threads, interleaved at every lock, unlock
  and store to a guard's pointer. `GuardMeaning` proves that in every interleaving each thread ends as its
  program does alone, `GuardProgress` proves termination and deadlock freedom under the lock hierarchy,
  and `GuardHierarchy` that a program which leaves the hierarchy deadlocks with one that follows it.
* **The default atomics**, read-modify-write operations built from lock, load, store, unlock, with
  unlocked `get` and `set`. `AtomicDefault` has the functions, `AtomicMachine` interleaves them,
  `AtomicTheorems` proves linearizability, `AtomicSets` says what a client must do to use `set` safely
  and when a `set` between another thread's load and store has a sequential explanation, and
  `AtomicCounting` proves conservation, distinct results and the single compare-and-swap winner.
* **`epicsSingleton::reference`**, counted references to a lazily built instance. `SingletonSpec` holds
  the counts and what every sequence of operations keeps, `SingletonObjects` the reference objects.

`Linearizability` defines the canonical atomic object that the ring and the atomics refine, and proves
what that means for a client: every answer is the sequential one at an instant inside the call, and the
order of these instants is a legal sequential execution.

## Assumptions

* Memory is sequentially consistent: the fields and slots are `volatile`, and each access is one step.
* A spinlock, `epicsAtomicLock` and `epicsMutex` are abstract locks. The mutex is recursive, as
  `include/epicsMutex.h` lines 94-95 require.
* A pointer is its address, and 0 is null. A `pop` that returns null therefore cannot be told from an
  empty ring; statements about received pointers skip null ones.
* An atomic word is a residue modulo 2 to the power of its width. A signed `int` is the same residue
  read as two's complement: signed overflow, undefined in C++, is modelled as wrap-around.
* A guard program is one path through some code: branches and loops are already decided, and `Throw`
  may stand anywhere. `Work` stands for code that touches no lock. A failed `assertIdenticalMutex`
  stops its thread for good, without running destructors; the other threads go on.
* `incrRefCount` and `decrRefCount` are declared but not defined in the header. They are assumed to
  build on the way from 0 to 1 and to destroy on the way from 1 to 0. The count is not bounded: each
  reference occupies memory, so a `size_t` can count them.

## Model

| member | source | states |
|---|---|---|
| Linearizability.AnswersTakeEffectInsideTheCall | include/epicsRingPointer.h:88-93 | in every history of the canonical atomic object each return has a call before it and, between the two, one step at which the specification gives exactly this answer; that step puts this operation into the order of effect |
| Linearizability.OrderIsSequential | include/epicsRingPointer.h:88-93 | the operations in the order of their effects form a legal sequential execution, with the same answers and the same final value |
| RingSpec.IndicesCountTheQueue | include/epicsRingPointer.h:154-197 | for all indices, both wrap-around orders and capacity 0, the formula of getFree is the capacity less the number of live slots, that of getUsed the number of live slots, that of isEmpty tells whether there are none and that of isFull whether there are as many as the capacity |
| RingSpec.IndicesAnswerForTheQueue | include/epicsRingPointer.h:111-197 | the formulas agree with the sequential queue, and the test of push sees exactly fullness, that of pop exactly emptiness |
| RingPointer.EpicsRingPointer.constructor | include/epicsRingPointer.h:96-102 | an empty queue of capacity sz for every sz from 0 up to INT_MAX - 1, with a lock exactly when asked for |
| RingPointer.EpicsRingPointer.Push | include/epicsRingPointer.h:111-126 | answers true exactly if the length is below the capacity, and then the contents end in the new pointer; otherwise nothing changes; the lock is free again on both paths |
| RingPointer.EpicsRingPointer.Pop | include/epicsRingPointer.h:128-143 | the old contents are the returned pointer followed by the new contents, or they were empty and null is returned; the lock is free again on both paths |
| RingPointer.EpicsRingPointer.Flush | include/epicsRingPointer.h:145-152 | leaves the empty queue of the same capacity |
| RingPointer.EpicsRingPointer.GetFree | include/epicsRingPointer.h:154-162 | returns capacity minus length, without overflow, and changes nothing |
| RingPointer.EpicsRingPointer.GetUsed | include/epicsRingPointer.h:164-172 | returns the length, without overflow, and changes nothing |
| RingPointer.EpicsRingPointer.GetSize | include/epicsRingPointer.h:174-178 | returns the capacity, which the length never exceeds |
| RingPointer.EpicsRingPointer.IsEmpty | include/epicsRingPointer.h:180-188 | true exactly for the empty queue |
| RingPointer.EpicsRingPointer.IsFull | include/epicsRingPointer.h:190-197 | true exactly when the length is the capacity, also for capacity 0 |
| RingTheorems.RingIsLinearizable | include/epicsRingPointer.h:111-197 | every history of the ring, locked with any threads or unlocked with one writer and one reader, in every interleaving of single accesses, is a history of the atomic bounded queue, observers and flush included |
| RingTheorems.AnswersDescribeTheRing | include/epicsRingPointer.h:111-197 | every returned call, of any thread and with or without the lock, has one step inside it at which its answer is true of the live slots: getFree, getUsed, isEmpty and isFull tell their number, push appends or finds them full, pop takes the oldest or finds none, and flush leaves none |
| RingTheorems.UnlockedRingIsFifo | include/epicsRingPointer.h:19-21 | without the lock, after every step of every run: pointers pushed == pointers popped followed by the live slots, in order, with at most capacity of them live; so what is popped is a prefix of what is pushed |
| RingTheorems.SlotsAreExclusive | include/epicsRingPointer.h:115-140 | in every reachable state the slot about to be stored differs from the slot about to be loaded, the loaded pointer is still the head when nextPop is stored, and at most one thread is at each store |
| RingTheorems.FailuresAreHonest | include/epicsRingPointer.h:115-136 | push returns false if and only if the queue was full, and, where nobody pushes null, pop returns null if and only if it was empty, at one instant inside the call |
| RingTheorems.TestsSeeTheQueue | include/epicsRingPointer.h:118-136 | the test of push fails exactly when the queue is full, and the test of pop exactly when it is empty, at the instant the other side's index is read |
| RingTheorems.ProducerReservation | include/epicsRingPointer.h:154-162 | after getFree has told the producer n, its next n pushes succeed whatever the consumer does |
| RingTheorems.ConsumerReservation | include/epicsRingPointer.h:164-172 | after getUsed has told the consumer n, its next n pops return queued pointers whatever the producer does |
| RingTheorems.ProceedsUnlessWaiting | include/epicsRingPointer.h:111-197 | a thread inside a call can take its next step if and only if it is not waiting for a lock that is held |
| RingTheorems.SomeCallerProceeds | include/epicsRingPointer.h:88-93 | while a call is pending some caller can step; without the lock every caller can |
| RingTheorems.IdleThreadsMayCall | include/epicsRingPointer.h:88-93 | the calls that the proofs cover: with the lock any call by any thread, without it push and the observers by one thread, pop and the observers by one thread |
| RingTheorems.LockIsReturned | include/epicsRingPointer.h:111-197 | after every return the returning thread does not hold the lock, and any holder is inside its critical section |
| GuardProgram.ScopesBalance | include/epicsGuard.h:66-107 | for every well nested program, on normal exit or a throw at any depth, all hold counts and all outer guards' pointers are as on entry, and no destructor meets a null pointer or an unheld mutex |
| GuardProgram.AssertionsKnowTheMutex | include/epicsGuard.h:79-84 | after any code under a guard that ends normally, assertIdenticalMutex on the guard passes if and only if it is given the mutex of the guard |
| GuardProgram.AssertionsCatchReleasedGuards | include/epicsGuard.h:79-97 | while a guard is released, and after any code that ends normally there, assertIdenticalMutex on it fails for every mutex |
| GuardProgram.ScopesAreTransparent | include/epicsGuard.h:66-107 | with either kind of mutex, code does the same work in the same order, and ends in an exception, exactly as it does with all guards and releases erased |
| GuardProgram.NoopChangesOnlyTheLocks | include/epicsGuard.h:57-112 | with epicsMutexNOOP in place of the recursive mutex every program does the same work, gets the same assertion outcomes, leaves the same pointers and ends the same way |
| GuardObjects.EpicsGuard.constructor | include/epicsGuard.h:66-71 | the pointer is the mutex, which is locked once more |
| GuardObjects.EpicsGuard.Destroy | include/epicsGuard.h:73-77 | the mutex is locked once less |
| GuardObjects.EpicsGuard.AssertIdenticalMutex | include/epicsGuard.h:79-84 | passes exactly when the pointer is the given mutex, so never on a released guard |
| GuardObjects.EpicsGuardRelease.constructor | include/epicsGuard.h:86-100 | keeps the guard's mutex, nulls the guard's pointer and locks once less |
| GuardObjects.EpicsGuardRelease.Destroy | include/epicsGuard.h:102-107 | locks once more and restores the guard's pointer |
| GuardObjects.Perform | include/epicsGuard.h:66-107 | running a well nested program with real guard objects does what the program means and leaves every guard object and every mutex object as it was, exceptions included; an assertion ends normally, and is logged as passed, if and only if the guard object points to the mutex object |
| GuardThreads.GuardsAccountForLocks | include/epicsGuard.h:66-107 | at every step of every interleaving a thread's hold count on m is the number of its guards pointing to m, plus one only in the single step between clearing and unlocking or between locking and restoring; a non-null pointer means the mutex is held; no null pointer is ever used |
| GuardThreads.AssertionsFollowThePointer | include/epicsGuard.h:79-97 | in every interleaving assertIdenticalMutex passes if and only if the guard points to the mutex, and then the thread holds it and no other thread does; in all other cases, so whenever the guard is released, it fails |
| GuardThreads.GuardsExclude | include/epicsGuard.h:66-107 | code under a live unreleased guard on m never overlaps another thread's code under a guard on m |
| GuardThreads.ReleaseMakesAvailable | include/epicsGuard.h:86-100 | the unlock of a release makes m available to the others if and only if no other guard of the thread points to m; before it, m was not available |
| GuardProgress.RunsAreBounded | include/epicsGuard.h:66-107 | every step lowers the remaining weight, so no run is longer than the weight of its programs |
| GuardProgress.NoDeadlock | include/cacIO.h:316-318 | when every lock, by a guard constructor or by the end of a release, takes a mutex already held or one ranked above all held ones, some thread can step in every reachable state with work left, unless an assertion has failed that its program also fails alone |
| GuardProgress.MaximalRunsAreComplete | include/epicsGuard.h:66-107 | a run under the hierarchy that cannot go on has every thread finished, with no guard and no lock, and with the trace and exception its program has alone, unless an assertion has failed that its program also fails alone |
| GuardHierarchy.WaitingWhileHoldingDeadlocks | include/cacIO.h:316-318 | for every well nested program that, at any point of its execution, wants a mutex m it does not hold while it holds a, there is a program it can deadlock with; if m ranks below a, that program follows the hierarchy |
| GuardHierarchy.FollowingTheHierarchyIsNecessary | include/cacIO.h:316-318 | a program all of which is executed deadlocks with no program that follows the hierarchy if and only if it follows the hierarchy itself, in its guards and in its relocks |
| GuardHierarchy.RelockingOutOfOrderDeadlocks | include/epicsGuard.h:102-107 | so two programs whose guard constructors all follow the hierarchy can deadlock, when a release relocks the outer mutex while the inner one is held |
| GuardMeaning.MovesDoWhatTheProgramMeans | include/epicsGuard.h:66-107 | left alone, a thread of the interleaved machine comes to exactly the state and exception that the scoped meaning gives, or to the failed assertion or the null pointer it gives |
| GuardMeaning.ThreadsEndAsTheirProgramsMean | include/epicsGuard.h:66-107 | in every interleaving a finished thread has the guards, locks, trace and exception that its program has when it runs alone, and an assertion fails only if it fails alone |
| GuardMeaning.ThreadsDoTheirWork | include/epicsGuard.h:66-107 | in every interleaving a finished thread has done exactly the work of its program in order, and has thrown, as the program would without any guard |
| Residues.WrapsAlike | include/epicsAtomicDefault.h:92-129 | two numbers give the same word if and only if they are whole turns apart |
| AtomicTheorems.SubUndoesAdd | include/epicsAtomicDefault.h:34-129 | sub of what was added, and decr after incr, give back every word, over every overflow |
| AtomicDefault.AtomicIncr | include/epicsAtomicDefault.h:34-58 | adds 1 with wrap-around and returns the new value; the lock is free again |
| AtomicDefault.AtomicDecr | include/epicsAtomicDefault.h:63-87 | subtracts 1 with wrap-around and returns the new value; the lock is free again |
| AtomicDefault.AtomicAdd | include/epicsAtomicDefault.h:92-116 | adds delta with wrap-around and returns the new value; the lock is free again |
| AtomicDefault.AtomicSub | include/epicsAtomicDefault.h:118-129 | subtracts delta with wrap-around and returns the new value; the lock is free again |
| AtomicDefault.AtomicCmpAndSwap | include/epicsAtomicDefault.h:190-239 | returns the old word in both cases, and the new word is newval if the old one was oldval and unchanged otherwise; the lock is free again |
| AtomicDefault.AtomicSet | include/epicsAtomicDefault.h:134-157 | the word becomes newVal |
| AtomicDefault.AtomicGet | include/epicsAtomicDefault.h:162-185 | returns the word and leaves it |
| AtomicTheorems.AtomicsAreLinearizable | include/epicsAtomicDefault.h:34-239 | any number of threads, every interleaving of lock, load, store and unlock: the history is one of the atomic word, provided no set changes the word between another thread's load and store |
| AtomicTheorems.RunRefinesWithoutSet | include/epicsAtomicDefault.h:34-239 | incr, decr, add, sub, compare-and-swap and the unlocked get linearize without any condition |
| AtomicTheorems.AnswersDescribeTheWord | include/epicsAtomicDefault.h:34-239 | every returned call has one step inside it at which its answer is true of the bits in memory and which changes them as promised: plus or minus one or delta, newval after a match, nothing after a failed compare-and-swap, which still answers the bits |
| AtomicSets.SetsApartAreLinearizable | include/epicsAtomicDefault.h:134-157 | a condition on calls and returns alone: if no set is ever open together with a read-modify-write, every history linearizes |
| AtomicSets.SetAndPendingStoreHaveAnOrder | include/epicsAtomicDefault.h:134-157 | a set that falls between a load and a store can come after that operation if and only if it stores what the operation stores, and before it if and only if it stores what was there |
| AtomicSets.AClashIsLinearizableExactlyWhenHarmless | include/epicsAtomicDefault.h:34-239 | for every width, word, read-modify-write and value set between its load and its store: the run exists, and what its clients see, read back by a get, has a sequential explanation if and only if the set stores the value that was there or the value that the operation stores |
| AtomicCounting.CountingConserves | include/epicsAtomicDefault.h:34-129 | once all calls have returned, the word is its initial value plus the number of incrs less the number of decrs, plus all arguments of add less all arguments of sub, wrapped |
| AtomicCounting.IncrementsAreDistinct | include/epicsAtomicDefault.h:34-58 | with no more increments than the word has values, no two of them return the same value |
| AtomicCounting.ExactlyOneWinner | include/epicsAtomicDefault.h:190-239 | of any number of compare-and-swaps away from the initial value exactly one returns it, and the word is that call's newval |
| SingletonSpec.CountsStayRight | include/epicsSingleton.h:78-121 | after every sequence of constructions, copies, assignments and destructions each count is the number of live references, an instance exists exactly while the count is positive, and every instance built is current in one singleton or destroyed once |
| SingletonSpec.ArrowIsNeverNull | include/epicsSingleton.h:123-131 | operator-> on a live reference yields an instance that has not been destroyed |
| SingletonSpec.ArrowsMeetInOneSingleton | include/epicsSingleton.h:123-131 | after every sequence of operations two live references reach the same instance if and only if they point to the same singleton |
| SingletonSpec.OneInstanceWhileReferenced | include/epicsSingleton.h:40-43 | as long as a reference points to a singleton, that singleton's instance is one and the same |
| SingletonSpec.AssignmentIsSafe | include/epicsSingleton.h:106-121 | assignment moves the left reference, and no other, to the singleton of the right one; it never builds, changes nothing within one singleton, destroys exactly when the last reference leaves a singleton, and keeps the total of all counts |
| SingletonObjects.Reference.constructor | include/epicsSingleton.h:78-85 | the reference points to the singleton, whose count is one higher and which has an instance, built now only if the count was 0; the objects match the model |
| SingletonObjects.Reference.Copy | include/epicsSingleton.h:87-95 | both references point to one singleton, whose count is one higher; nothing is built; the objects match the model |
| SingletonObjects.Reference.Destroy | include/epicsSingleton.h:97-104 | the count of the singleton is one lower, and its instance is destroyed exactly if that leaves 0; the objects match the model |
| SingletonObjects.Reference.Assign | include/epicsSingleton.h:106-121 | the reference points to the singleton of the other one and nothing is built; the objects match the model, self-assignment and shared singletons included |
| SingletonObjects.Reference.Arrow | include/epicsSingleton.h:123-131 | returns the instance of the singleton that the reference points to, built and not destroyed |

## Left out

- Unlocked flush while a push or pop is under way, and unlocked observers in a third thread: the header claims nothing for them; the machine does not allow these calls.
- GuardProgram.ScopesBalance: says nothing about guards and locks after a failed assertIdenticalMutex, because the thread runs no destructors there.
- AtomicSets.AClashIsLinearizableExactlyWhenHarmless: decides histories of one pending operation, one set and a get; with further calls in the window, others may hide or repair a lost update, and AtomicTheorems.AtomicsAreLinearizable and AtomicSets.SetsApartAreLinearizable give sufficient conditions only.
- GuardHierarchy.FollowingTheHierarchyIsNecessary: is about programs without throw and try whose assertions hold, since code that is never executed cannot deadlock; GuardHierarchy.WaitingWhileHoldingDeadlocks covers the others.
- Several words under the one atomic lock: the model has a single word; threads on other words only make the lock busy longer.
- Weak memory models, compiler barriers, and the internals of spinlocks and mutexes.
- The thread safety of incrRefCount and decrRefCount: their definitions are not part of the header.
- Exceptions thrown by a lock, by an allocation or by the constructor of a singleton's instance; failure to create the spinlock.
- Overflow of the reference count, the destructor of SingletonUntyped, the operator* forms and the const overloads, which forward to the members modelled here.
- The destructor of the ring, tryLock and show, and the C wrappers around the ring.
- Generated record headers, Channel Access headers and headers that only declare functions.
