/**
  Register, cache, lease queue and the glue of atk-adaptor/object.c and atk-adaptor/event.c as one state
  machine over the application's objects: what holds in every run.
 */
module Lifetime {
  import opened Common
  import opened PathCodec
  import Traversal
  import Cache
  import Leasing
  import Register

  const NULL_PATH := "/org/a11y/atspi/null"

  // ---------------------------------------------------------------- the glue, as code

  /** spi_object_lease_if_needed */
  function LeaseIfNeeded(cache: Cache.CacheState, lease: Leasing.LeaseState, o: Obj, now: nat): Leasing.LeaseState {
    if o in cache.objects then lease else Leasing.Take(lease, o, now)
  }

  /** What spi_register_object_to_path does to the register. */
  function EnsurePath(reg: Register.RegState, o: Obj, root: Obj): Register.RegState {
    if o == NULL || o == root then reg else Register.EnsureRef(reg, o)
  }

  /** What the cache does when the object goes defunct: it hears of it only if the object had a reference. */
  function CacheDefunct(cache: Cache.CacheState, reg: Register.RegState, root: Obj, o: Obj): Cache.CacheState {
    if Register.ObjectToRef(EnsurePath(reg, o, root), o) == 0 then cache else Cache.RemoveObject(cache, o)
  }

  method LeaseObjectIfNeeded(cache: Cache.SpiCache, leasing: Leasing.SpiLeasing, o: Obj, now: nat)
    modifies leasing
    ensures leasing.State() == LeaseIfNeeded(cache.State(), old(leasing.State()), o, now)
  {
    var cached := cache.CacheIn(o);
    if !cached {
      leasing.TakeLease(o, now);
    }
  }

  /** spi_object_append_reference: the path written to the message. */
  method AppendReference(cache: Cache.SpiCache, leasing: Leasing.SpiLeasing, register: Register.SpiRegister,
                         o: Obj, onBus: bool, root: Obj, now: nat) returns (path: string)
    modifies leasing, register
    ensures o == NULL || !onBus ==>
              && path == NULL_PATH
              && leasing.State() == old(leasing.State()) && register.State() == old(register.State())
    ensures o != NULL && onBus ==>
              && leasing.State() == LeaseNext(cache.State(), old(leasing.State()), now, Export(o))
              && register.State() == RegNext(old(register.State()), root, Export(o))
              && path == if o == root then ROOT_PATH
                         else if Register.ObjectToRef(register.State(), o) == 0 then NULL_PATH
                         else RefToPath(Register.ObjectToRef(register.State(), o))
  {
    if o == NULL || !onBus { return NULL_PATH; }
    LeaseObjectIfNeeded(cache, leasing, o, now);
    var p, _ := register.ObjectToPath(o, root);
    path := if p.Some? then p.value else NULL_PATH;
  }

  /**
    state_event_listener for a state "defunct" being set: the event goes out, which the filter never stops
    (`Subscriptions.DefunctAlwaysSent`), then the object is dropped.
   */
  method DefunctListener(cache: Cache.SpiCache, leasing: Leasing.SpiLeasing, register: Register.SpiRegister,
                         o: Obj, root: Obj, now: nat)
    requires o != NULL
    modifies cache, leasing, register
    ensures register.State() == RegNext(old(register.State()), root, Defunct(o))
    ensures leasing.State() == LeaseNext(old(cache.State()), old(leasing.State()), now, Defunct(o))
    ensures cache.State() == CacheDefunct(old(cache.State()), old(register.State()), root, o)
    ensures Register.Linked(old(register.State())) && o != root ==>
              && o !in cache.State().objects
              && !Register.Registered(register.State(), o)
              && (o !in old(cache.State()).objects ==> Leasing.Leased(leasing.State(), o))
  {
    DefunctLeaves(cache.State(), register.State(), root, o);
    TakenIsLeased(leasing.State(), o, now);
    var _, _ := register.ObjectToPath(o, root);
    LeaseObjectIfNeeded(cache, leasing, o, now);
    var announced := register.DeregisterObject(o, true);
    if announced {
      var _ := cache.Remove(o);
    }
  }

  lemma TakenIsLeased(lease: Leasing.LeaseState, o: Obj, now: nat)
    ensures Leasing.Leased(Leasing.Take(lease, o, now), o)
  {
    var link := Leasing.Link(lease.nextLink, o, Leasing.ExpirySecond(now));
    assert link in Leasing.Take(lease, o, now).queue;
  }

  /**
    A defunct object other than the root leaves both the register and the cache; of its entries in the queue
    only one is taken, and none if it was cached.
   */
  lemma DefunctLeaves(cache: Cache.CacheState, reg: Register.RegState, root: Obj, o: Obj)
    requires o != NULL
    ensures Register.Linked(reg) && o != root ==>
              && o !in CacheDefunct(cache, reg, root, o).objects
              && !Register.Registered(Register.Deregister(EnsurePath(reg, o, root), o, true), o)
    ensures o == root && o !in reg.ids ==> CacheDefunct(cache, reg, root, o) == cache
  {
    if Register.Linked(reg) && o != root {
      Register.EnsureRefKeepsLinked(reg, o);
    }
  }

  // ---------------------------------------------------------------- the machine

  /** `held` counts the references the application itself holds on its objects. */
  datatype State = State(
    now: nat, root: Obj, live: set<Obj>, held: multiset<Obj>,
    cache: Cache.CacheState, lease: Leasing.LeaseState, reg: Register.RegState)

  datatype Step =
    | Tick(now: nat)
    | Create(o: Obj)
    | Hold(o: Obj)
    | LetGo(o: Obj)
    | Export(o: Obj)                       // spi_object_append_reference
    | Emit(o: Obj, childrenChanged: bool)  // emit_event, for an event that is needed
    | Defunct(o: Obj)                      // state_event_listener
    | ChildAdded(parent: Obj, detail: Option<string>, child: Obj)
    | ToplevelAdded(parent: Obj, added: Option<Obj>)
    | Activate(w: Traversal.World)         // spi_cache_init: add_subtree at the root
    | Batch(w: Traversal.World)            // add_pending_items
    | TimerFires                           // expiry_func
    | Destroy(o: Obj)                      // the last reference is gone

  function Init(root: Obj): State {
    State(0, root, {root}, multiset{root}, Cache.EMPTY, Leasing.EMPTY, Register.EMPTY)
  }

  /** All strong references on the object: the application's, the cache queue's and the lease queue's. */
  function StrongRefs(s: State, o: Obj): int {
    s.held[o] + s.lease.refs[o] + (multiset(s.cache.taken)[o] as int - multiset(s.cache.released)[o] as int)
  }

  /** The callbacks only ever return accessibles that exist. */
  ghost predicate Closed(w: Traversal.World, live: set<Obj>) {
    && NULL !in w
    && forall o, i :: o in w && 0 <= i < |w[o].child| && w[o].child[i].Some? ==> w[o].child[i].value in live
  }

  ghost predicate Enabled(s: State, step: Step) {
    match step
    case Tick(now) => s.now <= now
    case Create(o) => o != NULL && o !in s.live
    case Hold(o) => o in s.live
    case LetGo(o) => s.held[o] > 0
    case Export(o) => o in s.live
    case Emit(o, _) => o in s.live
    case Defunct(o) => o in s.live
    case ChildAdded(_, _, child) => child in s.live || child == NULL
    case ToplevelAdded(_, added) => added.Some? ==> added.value in s.live
    case Activate(w) => Closed(w, s.live) && Traversal.Acyclic(w, s.cache.objects, s.cache.queue + [s.root])
    case Batch(w) => s.cache.idle && Closed(w, s.live) && Traversal.Acyclic(w, s.cache.objects, s.cache.queue)
    case TimerFires => s.lease.timer.Some?
    case Destroy(o) => o in s.live && o != s.root && StrongRefs(s, o) == 0
  }

  /** Exports, events and the defunct event all ask for the object's path. */
  function RegPath(reg: Register.RegState, root: Obj, step: Step): Register.RegState {
    if step.Export? || step.Emit? || step.Defunct? then EnsurePath(reg, step.o, root) else reg
  }

  /** Going defunct and being destroyed end the object's registration. */
  function RegEnd(reg: Register.RegState, step: Step): Register.RegState {
    if step.Defunct? then Register.Deregister(reg, step.o, true)
    else if step.Destroy? then Register.Destroyed(reg, step.o)
    else reg
  }

  /** The register after a step. */
  function RegNext(reg: Register.RegState, root: Obj, step: Step): Register.RegState {
    RegEnd(RegPath(reg, root, step), step)
  }

  /** The lease queue after a step. */
  function LeaseNext(cache: Cache.CacheState, lease: Leasing.LeaseState, now: nat, step: Step): Leasing.LeaseState {
    match step
    case Export(o) => LeaseIfNeeded(cache, lease, o, now)
    case Emit(o, childrenChanged) => if childrenChanged then lease else LeaseIfNeeded(cache, lease, o, now)
    case Defunct(o) => LeaseIfNeeded(cache, lease, o, now)
    case TimerFires => Leasing.Fire(lease, now)
    case _ => lease
  }

  /** The object on which the step takes a lease, if it does. */
  function LeaseTaken(cache: Cache.CacheState, step: Step): Option<Obj> {
    if (step.Export? || (step.Emit? && !step.childrenChanged) || step.Defunct?) && step.o !in cache.objects
    then Some(step.o) else None
  }

  /** The cache after a step. */
  ghost function CacheNext(s: State, step: Step): Cache.CacheState
    requires Enabled(s, step)
  {
    match step
    case Defunct(o) => CacheDefunct(s.cache, s.reg, s.root, o)
    case ChildAdded(parent, detail, child) => Cache.ChildAdded(s.cache, parent, detail, child)
    case ToplevelAdded(parent, added) => Cache.ToplevelAdded(s.cache, parent, added)
    case Activate(w) => Cache.Batch(Cache.Enqueue(s.cache, s.root), w)
    case Batch(w) => Cache.Batch(s.cache, w)
    case Destroy(o) => Cache.Destroyed(s.cache, o)
    case _ => s.cache
  }

  function LiveNext(live: set<Obj>, step: Step): set<Obj> {
    match step
    case Create(o) => live + {o}
    case Destroy(o) => live - {o}
    case _ => live
  }

  function HeldNext(held: multiset<Obj>, step: Step): multiset<Obj> {
    match step
    case Create(o) => held + multiset{o}
    case Hold(o) => held + multiset{o}
    case LetGo(o) => held - multiset{o}
    case _ => held
  }

  ghost function Next(s: State, step: Step): State
    requires Enabled(s, step)
  {
    State(if step.Tick? then step.now else s.now, s.root, LiveNext(s.live, step), HeldNext(s.held, step),
          CacheNext(s, step), LeaseNext(s.cache, s.lease, s.now, step), RegNext(s.reg, s.root, step))
  }

  ghost predicate IsRun(s: State, steps: seq<Step>)
    decreases |steps|
  {
    steps != [] ==> Enabled(s, steps[0]) && IsRun(Next(s, steps[0]), steps[1..])
  }

  ghost function Run(s: State, steps: seq<Step>): State
    requires IsRun(s, steps)
    decreases |steps|
  {
    if steps == [] then s else Run(Next(s, steps[0]), steps[1..])
  }

  // ---------------------------------------------------------------- each part over every run

  /** Neither the clock nor the count of references ever goes back, so a bound at the end holds throughout. */
  lemma {:induction false} RunMonotone(s: State, steps: seq<Step>)
    requires IsRun(s, steps)
    ensures s.now <= Run(s, steps).now && s.reg.issued <= Run(s, steps).reg.issued
    decreases |steps|
  {
    if steps != [] {
      RunMonotone(Next(s, steps[0]), steps[1..]);
    }
  }

  lemma StepKeepsCache(s: State, step: Step)
    requires Cache.Valid(s.cache) && Enabled(s, step)
    ensures Cache.Valid(CacheNext(s, step))
  {
    if step.Defunct? {
      Cache.RemoveObjectKeepsValid(s.cache, step.o);
    } else if step.ChildAdded? {
      Cache.EnqueueKeepsValid(s.cache, step.child);
    } else if step.ToplevelAdded? {
      Cache.EnqueueKeepsValid(s.cache, if step.added.Some? then step.added.value else NULL);
    } else if step.Activate? {
      Cache.EnqueueKeepsValid(s.cache, s.root);
      Cache.BatchKeepsValid(Cache.Enqueue(s.cache, s.root), step.w);
    } else if step.Batch? {
      Cache.BatchKeepsValid(s.cache, step.w);
    } else if step.Destroy? {
      Cache.DestroyedKeepsValid(s.cache, step.o);
    }
  }

  /** Cache conservation over every run: weak references exact, no reference lost or released twice. */
  lemma {:induction false} RunKeepsCache(s: State, steps: seq<Step>)
    requires Cache.Valid(s.cache) && IsRun(s, steps)
    ensures Cache.Valid(Run(s, steps).cache)
    decreases |steps|
  {
    if steps != [] {
      StepKeepsCache(s, steps[0]);
      RunKeepsCache(Next(s, steps[0]), steps[1..]);
    }
  }

  lemma StepKeepsIndex(cache: Cache.CacheState, lease: Leasing.LeaseState, now: nat, step: Step)
    requires Leasing.IndexAgrees(lease)
    ensures Leasing.IndexAgrees(LeaseNext(cache, lease, now, step))
  {
    if step.Export? || step.Emit? || step.Defunct? {
      Leasing.TakeKeepsIndex(lease, step.o, now);
    } else if step.TimerFires? {
      Leasing.RevokeKeepsIndex(lease, Leasing.Secs(now));
    }
  }

  /** Over every run queue, hash and references of the leases agree. */
  lemma {:induction false} RunKeepsIndex(s: State, steps: seq<Step>)
    requires Leasing.IndexAgrees(s.lease) && IsRun(s, steps)
    ensures Leasing.IndexAgrees(Run(s, steps).lease)
    decreases |steps|
  {
    if steps != [] {
      StepKeepsIndex(s.cache, s.lease, s.now, steps[0]);
      RunKeepsIndex(Next(s, steps[0]), steps[1..]);
    }
  }

  /** Every lease the run takes on `o` is taken at a clock reading below the horizon. */
  ghost predicate LeasedInTime(s: State, steps: seq<Step>, o: Obj)
    requires IsRun(s, steps)
    decreases |steps|
  {
    steps != [] ==>
      && (LeaseTaken(s.cache, steps[0]) == Some(o) ==> s.now < Leasing.HORIZON_US)
      && LeasedInTime(Next(s, steps[0]), steps[1..], o)
  }

  /** In a run that ends below the horizon every lease is. */
  lemma {:induction false} EndsInTime(s: State, steps: seq<Step>, o: Obj)
    requires IsRun(s, steps) && Run(s, steps).now < Leasing.HORIZON_US
    ensures LeasedInTime(s, steps, o)
    decreases |steps|
  {
    if steps != [] {
      RunMonotone(s, steps);
      EndsInTime(Next(s, steps[0]), steps[1..], o);
    }
  }

  lemma StepKeepsLeases(cache: Cache.CacheState, lease: Leasing.LeaseState, now: nat, step: Step)
    requires Leasing.Valid(lease, now) && (LeaseTaken(cache, step).Some? ==> now < Leasing.HORIZON_US)
    ensures Leasing.Valid(LeaseNext(cache, lease, now, step), now)
  {
    if LeaseTaken(cache, step).Some? {
      Leasing.TakeKeepsValid(lease, step.o, now);
    } else if step.TimerFires? {
      Leasing.FireKeepsValid(lease, now);
    }
  }

  /** Over every run that takes its leases below the clock horizon they are also sorted and covered by a timer. */
  lemma {:induction false} RunKeepsLeases(s: State, steps: seq<Step>)
    requires Leasing.Valid(s.lease, s.now) && IsRun(s, steps) && forall o :: LeasedInTime(s, steps, o)
    ensures Leasing.Valid(Run(s, steps).lease, Run(s, steps).now)
    decreases |steps|
  {
    if steps != [] {
      var next := Next(s, steps[0]);
      forall o ensures LeasedInTime(next, steps[1..], o) {
        assert LeasedInTime(s, steps, o);
      }
      if LeaseTaken(s.cache, steps[0]).Some? {
        assert LeasedInTime(s, steps, steps[0].o);
      }
      StepKeepsLeases(s.cache, s.lease, s.now, steps[0]);
      Leasing.LaterStillValid(next.lease, s.now, next.now);
      RunKeepsLeases(next, steps[1..]);
    }
  }

  lemma StepKeepsRegister(reg: Register.RegState, root: Obj, step: Step)
    requires Register.Valid(reg) && RegPath(reg, root, step).issued <= Register.MAX_REFS
    ensures Register.Valid(RegPath(reg, root, step)) && Register.Valid(RegNext(reg, root, step))
  {
    var asked := RegPath(reg, root, step);
    if asked != reg {
      Register.EnsureRefKeepsValid(reg, step.o);
    }
    if step.Defunct? {
      Register.DeregisterKeepsValid(asked, step.o);
    } else if step.Destroy? {
      Register.DestroyedKeepsValid(asked, step.o);
    }
  }

  lemma StepKeepsCount(reg: Register.RegState, root: Obj, step: Step)
    requires Register.Counted(reg)
    ensures Register.Counted(RegNext(reg, root, step))
  {
    if step.Export? || step.Emit? || step.Defunct? {
      Register.EnsureRefKeepsCount(reg, step.o);
    }
    EndKeepsCount(RegPath(reg, root, step), step);
  }

  lemma EndKeepsCount(reg: Register.RegState, step: Step)
    ensures RegEnd(reg, step).counter == reg.counter && RegEnd(reg, step).issued == reg.issued
  {
  }

  /** Over every run the counter tells the number of registrations, as far as 32 bits can. */
  lemma {:induction false} RunKeepsCount(s: State, steps: seq<Step>)
    requires Register.Counted(s.reg) && IsRun(s, steps)
    ensures Register.Counted(Run(s, steps).reg)
    decreases |steps|
  {
    if steps != [] {
      StepKeepsCount(s.reg, s.root, steps[0]);
      RunKeepsCount(Next(s, steps[0]), steps[1..]);
    }
  }

  /** Over every run with at most 2^32 - 1 registrations ids and table are mutually inverse. */
  lemma {:induction false} RunKeepsRegister(s: State, steps: seq<Step>)
    requires Register.Valid(s.reg) && IsRun(s, steps) && Run(s, steps).reg.issued <= Register.MAX_REFS
    ensures Register.Valid(Run(s, steps).reg)
    decreases |steps|
  {
    if steps != [] {
      RunMonotone(Next(s, steps[0]), steps[1..]);
      StepKeepsRegister(s.reg, s.root, steps[0]);
      RunKeepsRegister(Next(s, steps[0]), steps[1..]);
    }
  }

  // ---------------------------------------------------------------- nothing dangles

  ghost predicate CacheWithin(cache: Cache.CacheState, live: set<Obj>) {
    cache.objects <= live && forall o :: o in cache.queue ==> o in live || o == NULL
  }

  ghost predicate LeasesWithin(lease: Leasing.LeaseState, live: set<Obj>) {
    forall l :: l in lease.queue ==> l.obj in live
  }

  ghost predicate RegisterWithin(reg: Register.RegState, live: set<Obj>) {
    reg.ids.Keys <= live && forall ref :: ref in reg.table ==> reg.table[ref] in live
  }

  /** Whatever the adaptor still points to exists, and its bookkeeping is consistent. */
  ghost predicate Safe(s: State) {
    && Cache.Valid(s.cache) && CacheWithin(s.cache, s.live)
    && Leasing.IndexAgrees(s.lease) && LeasesWithin(s.lease, s.live)
    && Register.Linked(s.reg) && RegisterWithin(s.reg, s.live)
    && NULL !in s.live && s.root in s.live
  }

  lemma {:induction false} ChildrenReturned(n: Traversal.Node, i: nat, o: Obj)
    requires o in Traversal.ChildrenFrom(n, i)
    ensures exists j :: 0 <= j < |n.child| && n.child[j] == Some(o)
    decreases n.childCount - i
  {
    if Traversal.ChildAt(n, i) != Some(o) {
      ChildrenReturned(n, i + 1, o);
    }
  }

  /** What a batch reaches and keeps is alive. */
  lemma ReachedIsLive(live: set<Obj>, cached: set<Obj>, queue: seq<Obj>, w: Traversal.World, o: Obj)
    requires Closed(w, live) && (forall q :: q in queue ==> q in live || q == NULL)
    requires Traversal.Kept(w, o) && Traversal.Reaches(w, cached, queue, o)
    ensures o in live
  {
    var p :| Traversal.PathFrom(w, cached, queue, p) && p[|p| - 1] == o;
    if |p| > 1 {
      var parent := p[|p| - 2];
      assert p[|p| - 2 + 1] in Traversal.Kids(w, cached, parent);
      ChildrenReturned(w[parent], 0, o);
    }
  }

  lemma BatchWithin(cache: Cache.CacheState, live: set<Obj>, w: Traversal.World)
    requires CacheWithin(cache, live) && Closed(w, live)
    requires Traversal.Acyclic(w, cache.objects, cache.queue)
    ensures CacheWithin(Cache.Batch(cache, w), live)
  {
    forall o | o in Cache.Batch(cache, w).objects ensures o in live {
      Cache.BatchClosure(cache, w, o);
      if o !in cache.objects {
        ReachedIsLive(live, cache.objects, cache.queue, w, o);
      }
    }
  }

  /** An object nobody references is in neither queue. */
  lemma UnreferencedNotQueued(s: State, o: Obj)
    requires Cache.RefsConserved(s.cache) && Leasing.IndexAgrees(s.lease) && StrongRefs(s, o) == 0
    ensures o !in s.cache.queue && forall l :: l in s.lease.queue ==> l.obj != o
  {
    assert multiset(s.cache.taken)[o] == multiset(s.cache.released)[o] + multiset(s.cache.queue)[o];
  }

  lemma StepCacheWithin(s: State, step: Step)
    requires Safe(s) && Enabled(s, step)
    ensures CacheWithin(CacheNext(s, step), LiveNext(s.live, step))
  {
    if step.Defunct? {
      Cache.RemoveObjectWithin(s.cache, step.o);
    } else if step.Activate? {
      BatchWithin(Cache.Enqueue(s.cache, s.root), s.live, step.w);
    } else if step.Batch? {
      BatchWithin(s.cache, s.live, step.w);
    } else if step.Destroy? {
      UnreferencedNotQueued(s, step.o);
      Cache.DestroyedKeepsValid(s.cache, step.o);
    }
  }

  lemma TakeWithin(lease: Leasing.LeaseState, live: set<Obj>, o: Obj, now: nat)
    requires Leasing.IndexAgrees(lease) && LeasesWithin(lease, live) && o in live
    ensures LeasesWithin(Leasing.Take(lease, o, now), live)
  {
    Leasing.TakeMovesToTail(lease, o, now);
  }

  lemma FireWithin(lease: Leasing.LeaseState, live: set<Obj>, now: nat)
    requires LeasesWithin(lease, live)
    ensures LeasesWithin(Leasing.Fire(lease, now), live)
  {
    forall l | l in Leasing.Fire(lease, now).queue ensures l.obj in live {
      Leasing.RevokeTakesDueOnly(lease, Leasing.Secs(now), l);
    }
  }

  lemma StepLeasesWithin(s: State, step: Step)
    requires Safe(s) && Enabled(s, step)
    ensures LeasesWithin(LeaseNext(s.cache, s.lease, s.now, step), LiveNext(s.live, step))
  {
    if step.Export? || step.Emit? || step.Defunct? {
      TakeWithin(s.lease, s.live, step.o, s.now);
    } else if step.TimerFires? {
      FireWithin(s.lease, s.live, s.now);
    } else if step.Destroy? {
      UnreferencedNotQueued(s, step.o);
    }
  }

  lemma StepRegisterWithin(reg: Register.RegState, root: Obj, live: set<Obj>, step: Step)
    requires Register.Linked(reg) && RegisterWithin(reg, live)
    requires step.Export? || step.Emit? || step.Defunct? ==> step.o in live
    ensures Register.Linked(RegNext(reg, root, step))
    ensures RegisterWithin(RegNext(reg, root, step), LiveNext(live, step))
  {
    var asked := RegPath(reg, root, step);
    if step.Export? || step.Emit? || step.Defunct? {
      Register.EnsureRefKeepsLinked(reg, step.o);
    }
    LinkedWithin(asked, live);
    if step.Defunct? {
      Register.DeregisterKeepsLinked(asked, step.o);
    } else if step.Destroy? {
      Register.DestroyedKeepsLinked(asked, step.o);
      LinkedWithin(RegNext(reg, root, step), live - {step.o});
    }
  }

  lemma LinkedWithin(reg: Register.RegState, live: set<Obj>)
    requires Register.Linked(reg) && reg.ids.Keys <= live
    ensures RegisterWithin(reg, live)
  {
  }

  lemma StepKeepsSafe(s: State, step: Step)
    requires Safe(s) && Enabled(s, step)
    ensures Safe(Next(s, step))
  {
    StepKeepsCache(s, step);
    StepCacheWithin(s, step);
    StepKeepsIndex(s.cache, s.lease, s.now, step);
    StepLeasesWithin(s, step);
    StepRegisterWithin(s.reg, s.root, s.live, step);
  }

  /** In no run, however long, does the adaptor keep a pointer to an object that is gone. */
  lemma {:induction false} RunKeepsSafe(s: State, steps: seq<Step>)
    requires Safe(s) && IsRun(s, steps)
    ensures Safe(Run(s, steps))
    decreases |steps|
  {
    if steps != [] {
      StepKeepsSafe(s, steps[0]);
      RunKeepsSafe(Next(s, steps[0]), steps[1..]);
    }
  }

  /** So every state the application can reach is safe, and each further invariant needs its own bound only. */
  lemma ReachableIsSafe(root: Obj, steps: seq<Step>)
    requires root != NULL && IsRun(Init(root), steps)
    ensures var end := Run(Init(root), steps);
            && Safe(end)
            && Register.Counted(end.reg)
            && ((forall o :: LeasedInTime(Init(root), steps, o)) ==> Leasing.Valid(end.lease, end.now))
            && (end.reg.issued <= Register.MAX_REFS ==> Register.Valid(end.reg))
  {
    RunKeepsSafe(Init(root), steps);
    RunKeepsCount(Init(root), steps);
    if forall o :: LeasedInTime(Init(root), steps, o) {
      RunKeepsLeases(Init(root), steps);
    }
    if Run(Init(root), steps).reg.issued <= Register.MAX_REFS {
      RunKeepsRegister(Init(root), steps);
    }
  }

  // ---------------------------------------------------------------- announced children

  predicate IsBatch(step: Step) {
    step.Batch? || step.Activate?
  }

  predicate IsDefunct(step: Step, o: Obj) {
    step.Defunct? && step.o == o
  }

  lemma StepKeepsQueued(s: State, step: Step, o: Obj)
    requires Enabled(s, step) && !IsBatch(step) && !IsDefunct(step, o)
    requires o in s.cache.queue && s.cache.idle
    ensures o in CacheNext(s, step).queue && CacheNext(s, step).idle
  {
    if step.Defunct? {
      Cache.RemoveObjectKeepsQueued(s.cache, step.o, o);
    }
  }

  /** A queued object stays queued, and a batch pending, until there is a batch or the object goes defunct. */
  lemma {:induction false} RunKeepsQueued(s: State, steps: seq<Step>, o: Obj)
    requires IsRun(s, steps) && o in s.cache.queue && s.cache.idle
    requires forall i :: 0 <= i < |steps| ==> !IsBatch(steps[i]) && !IsDefunct(steps[i], o)
    ensures o in Run(s, steps).cache.queue && Run(s, steps).cache.idle
    decreases |steps|
  {
    if steps != [] {
      StepKeepsQueued(s, steps[0], o);
      assert forall i :: 0 <= i < |steps[1..]| ==> steps[1..][i] == steps[i + 1];
      RunKeepsQueued(Next(s, steps[0]), steps[1..], o);
    }
  }

  /** The step announces the child through a cached parent. */
  predicate Announces(cache: Cache.CacheState, step: Step, child: Obj) {
    || (step.ChildAdded? && step.parent in cache.objects && step.child == child != NULL
        && step.detail.Some? && |step.detail.value| >= 3 && step.detail.value[..3] == "add")
    || (step.ToplevelAdded? && step.parent in cache.objects && step.added == Some(child))
  }

  /** Nothing else but such a step, or the initial traversal, puts an object on the queue. */
  lemma OnlyAnnouncedQueued(s: State, step: Step, o: Obj)
    requires Enabled(s, step) && o != NULL && o in CacheNext(s, step).queue && o !in s.cache.queue
    ensures Announces(s.cache, step, o)
  {
    if step.Defunct? {
      Cache.RemoveObjectWithin(s.cache, step.o);
    }
  }

  lemma BatchCachesQueued(s: State, batch: Step, o: Obj)
    requires Enabled(s, batch) && IsBatch(batch) && o in s.cache.queue
    ensures o in CacheNext(s, batch).objects <==> o in s.cache.objects || Traversal.Kept(batch.w, o)
  {
    var start := if batch.Batch? then s.cache else Cache.Enqueue(s.cache, s.root);
    assert Traversal.PathFrom(batch.w, start.objects, start.queue, [o]);
    Cache.BatchClosure(start, batch.w, o);
  }

  /**
    Over whole runs: a child or top-level that a cached parent announces waits in the queue with a batch
    pending, and the next batch caches it unless it is transient by then. Only going defunct takes it out before.
   */
  lemma AnnouncedChildGetsCached(s: State, steps: seq<Step>, child: Obj, batch: Step)
    requires IsRun(s, steps) && steps != [] && Announces(s.cache, steps[0], child)
    requires forall i :: 0 <= i < |steps| ==> !IsBatch(steps[i]) && !IsDefunct(steps[i], child)
    requires IsBatch(batch) && Enabled(Run(s, steps), batch)
    ensures var before := Run(s, steps);
            && child in before.cache.queue && before.cache.idle
            && (child in Next(before, batch).cache.objects <==>
                child in before.cache.objects || Traversal.Kept(batch.w, child))
  {
    assert forall i :: 0 <= i < |steps[1..]| ==> steps[1..][i] == steps[i + 1];
    assert steps[0].ChildAdded? && |steps[0].detail.value| >= 3 ==> steps[0].detail.value[..3] == "add";
    RunKeepsQueued(Next(s, steps[0]), steps[1..], child);
    BatchCachesQueued(Run(s, steps), batch, child);
  }

  /** What a batch caches, from the callbacks' answers: the initial traversal begins at the root as well. */
  lemma BatchStepCaches(s: State, batch: Step, o: Obj)
    requires Enabled(s, batch) && IsBatch(batch)
    ensures var w, queue := batch.w, if batch.Activate? then s.cache.queue + [s.root] else s.cache.queue;
            o in CacheNext(s, batch).objects <==>
            || o in s.cache.objects
            || (o in w && w[o].states.Some? && !w[o].states.value.transient
                && Traversal.IsBelow(w, s.cache.objects, queue, o))
  {
    Cache.BatchCachesBelow(if batch.Batch? then s.cache else Cache.Enqueue(s.cache, s.root), batch.w, o);
  }

  // ---------------------------------------------------------------- the lease is long enough

  /** A lease on `o` lasts beyond the lease time counted from `since`. */
  ghost predicate LeasedBeyond(lease: Leasing.LeaseState, o: Obj, since: nat) {
    exists l :: l in lease.queue && l.obj == o && Leasing.Outlasts(l.expiryS, since)
  }

  lemma TakeGivesLease(lease: Leasing.LeaseState, o: Obj, since: nat, now: nat)
    requires since <= now < Leasing.HORIZON_US
    ensures LeasedBeyond(Leasing.Take(lease, o, now), o, since)
  {
    Leasing.ExpiryOutlastsIff(now);
    var link := Leasing.Link(lease.nextLink, o, Leasing.ExpirySecond(now));
    assert link in Leasing.Take(lease, o, now).queue;
  }

  lemma TakeKeepsLease(lease: Leasing.LeaseState, p: Obj, o: Obj, since: nat, now: nat)
    requires Leasing.IndexAgrees(lease) && since <= now && LeasedBeyond(lease, o, since)
    requires p == o ==> now < Leasing.HORIZON_US
    ensures LeasedBeyond(Leasing.Take(lease, p, now), o, since)
  {
    if p == o {
      TakeGivesLease(lease, o, since, now);
    } else {
      Leasing.TakeMovesToTail(lease, p, now);
      var l :| l in lease.queue && l.obj == o && Leasing.Outlasts(l.expiryS, since);
      assert l in Leasing.Take(lease, p, now).queue;
    }
  }

  lemma FireKeepsLease(lease: Leasing.LeaseState, o: Obj, since: nat, now: nat)
    requires now <= since + Leasing.LEASE_TIME_US && LeasedBeyond(lease, o, since)
    ensures LeasedBeyond(Leasing.Fire(lease, now), o, since)
  {
    var l :| l in lease.queue && l.obj == o && Leasing.Outlasts(l.expiryS, since);
    Leasing.OutlastsIsLater(l.expiryS, since, now);
    Leasing.RevokeTakesDueOnly(lease, Leasing.Secs(now), l);
    assert l in Leasing.Fire(lease, now).queue;
  }

  lemma StepKeepsLease(cache: Cache.CacheState, lease: Leasing.LeaseState, step: Step, o: Obj, since: nat, now: nat)
    requires Leasing.IndexAgrees(lease) && LeasedBeyond(lease, o, since)
    requires since <= now <= since + Leasing.LEASE_TIME_US
    requires LeaseTaken(cache, step) == Some(o) ==> now < Leasing.HORIZON_US
    ensures LeasedBeyond(LeaseNext(cache, lease, now, step), o, since)
  {
    if LeaseTaken(cache, step).Some? {
      TakeKeepsLease(lease, step.o, o, since, now);
    } else if step.TimerFires? {
      FireKeepsLease(lease, o, since, now);
    }
  }

  lemma {:induction false} RunKeepsLease(s: State, steps: seq<Step>, o: Obj, since: nat)
    requires Leasing.IndexAgrees(s.lease) && IsRun(s, steps) && LeasedBeyond(s.lease, o, since)
    requires since <= s.now && Run(s, steps).now <= since + Leasing.LEASE_TIME_US && LeasedInTime(s, steps, o)
    ensures LeasedBeyond(Run(s, steps).lease, o, since)
    decreases |steps|
  {
    if steps != [] {
      RunMonotone(s, steps);
      StepKeepsIndex(s.cache, s.lease, s.now, steps[0]);
      StepKeepsLease(s.cache, s.lease, steps[0], o, since, s.now);
      RunKeepsLease(Next(s, steps[0]), steps[1..], o, since);
    }
  }

  /** A leased object is strongly referenced and exists. */
  lemma LeasedIsReferenced(s: State, o: Obj)
    requires Safe(s) && Leasing.Leased(s.lease, o)
    ensures s.lease.refs[o] == 1 && StrongRefs(s, o) >= 1 && o in s.live
  {
    Leasing.LeasedIffIndexed(s.lease);
    assert multiset(s.cache.taken)[o] >= multiset(s.cache.released)[o];
  }

  /** A run that begins with the export of an object that is not cached. */
  ghost predicate IsExportRun(s: State, o: Obj, steps: seq<Step>) {
    Safe(s) && o !in s.cache.objects && IsRun(s, steps) && steps != [] && steps[0] == Export(o)
  }

  /**
    Whole-run lifetime: an object that is not cached when its reference is exported is still leased,
    strongly referenced and alive after any run that ends within the lease time and takes no lease on it
    beyond the clock horizon, however many references were assigned and whenever timers ran.
   */
  lemma ExportedObjectLives(s: State, o: Obj, steps: seq<Step>)
    requires IsExportRun(s, o, steps)
    requires Run(s, steps).now <= s.now + Leasing.LEASE_TIME_US && LeasedInTime(s, steps, o)
    ensures var end := Run(s, steps);
            && Leasing.Leased(end.lease, o)
            && end.lease.refs[o] == 1 && StrongRefs(end, o) >= 1 && o in end.live
  {
    RunMonotone(s, steps);
    TakeGivesLease(s.lease, o, s.now, s.now);
    StepKeepsIndex(s.cache, s.lease, s.now, steps[0]);
    RunKeepsLease(Next(s, steps[0]), steps[1..], o, s.now);
    RunKeepsSafe(s, steps);
    LeasedIsReferenced(Run(s, steps), o);
  }

  /**
    When the lease time is a minimum: an export at `t` leases its object for the lease time, whatever else
    happens, if and only if the lease time ends below the horizon.
   */
  lemma LeaseTimeIsMinimumIff(t: nat)
    ensures (forall s, o, steps ::
               IsExportRun(s, o, steps) && s.now == t && Run(s, steps).now <= t + Leasing.LEASE_TIME_US
               ==> Leasing.Leased(Run(s, steps).lease, o))
            <==> t + Leasing.LEASE_TIME_US < Leasing.HORIZON_US
  {
    if t + Leasing.LEASE_TIME_US < Leasing.HORIZON_US {
      forall s, o, steps
        | IsExportRun(s, o, steps) && s.now == t && Run(s, steps).now <= t + Leasing.LEASE_TIME_US
        ensures Leasing.Leased(Run(s, steps).lease, o)
      {
        EndsInTime(s, steps, o);
        ExportedObjectLives(s, o, steps);
      }
    } else {
      var s, steps := LeaseCutShort(Ptr(1), Ptr(2), t, t + Leasing.LEASE_TIME_US);
      assert !Leasing.Leased(Run(s, steps).lease, Ptr(2));
    }
  }

  /**
    The failing runs: an object exported at `t`, before the horizon or after it, and once more beyond it.
    The second lease replaces the first and is due at once.
   */
  lemma LeaseCutShort(root: Obj, o: Obj, t: nat, u: nat) returns (s: State, steps: seq<Step>)
    requires root != NULL && o != NULL && o != root && t <= u && Leasing.HORIZON_US <= u
    ensures IsRun(Init(root), [Create(o), Tick(t)]) && s == Run(Init(root), [Create(o), Tick(t)])
    ensures IsExportRun(s, o, steps) && s.now == t && Run(s, steps).now == u
    ensures !Leasing.Leased(Run(s, steps).lease, o)
  {
    s := JustCreated(root, o, t);
    Leasing.RepeatedLeaseLost(o, t, u);
    var exported := Next(s, Export(o));
    var later := Next(exported, Tick(u));
    var again := Next(later, Export(o));
    OnlyStep(again, TimerFires);
    FirstStep(later, Export(o), [TimerFires]);
    FirstStep(exported, Tick(u), [Export(o), TimerFires]);
    FirstStep(s, Export(o), [Tick(u), Export(o), TimerFires]);
    steps := [Export(o)] + ([Tick(u)] + ([Export(o)] + [TimerFires]));
  }

  lemma JustCreated(root: Obj, o: Obj, t: nat) returns (s: State)
    requires root != NULL && o != NULL && o != root
    ensures IsRun(Init(root), [Create(o), Tick(t)]) && s == Run(Init(root), [Create(o), Tick(t)])
    ensures Safe(s) && s.now == t && o in s.live && s.cache == Cache.EMPTY && s.lease == Leasing.EMPTY
  {
    var created := Next(Init(root), Create(o));
    s := Next(created, Tick(t));
    OnlyStep(created, Tick(t));
    FirstStep(Init(root), Create(o), [Tick(t)]);
    assert [Create(o)] + [Tick(t)] == [Create(o), Tick(t)];
    ReachableIsSafe(root, [Create(o), Tick(t)]);
  }

  lemma OnlyStep(s: State, step: Step)
    requires Enabled(s, step)
    ensures IsRun(s, [step]) && Run(s, [step]) == Next(s, step)
  {
    assert [step][1..] == [];
  }

  lemma FirstStep(s: State, step: Step, rest: seq<Step>)
    requires Enabled(s, step) && IsRun(Next(s, step), rest)
    ensures IsRun(s, [step] + rest) && Run(s, [step] + rest) == Run(Next(s, step), rest)
  {
    assert ([step] + rest)[1..] == rest;
  }

  /** A cached object gains no lease by being exported: only the cache's own condition decides. */
  lemma ExportLeasesIffUncached(s: State, o: Obj)
    requires Leasing.IndexAgrees(s.lease) && o in s.live
    ensures Leasing.Leased(Next(s, Export(o)).lease, o) <==> Leasing.Leased(s.lease, o) || o !in s.cache.objects
  {
    if o !in s.cache.objects {
      Leasing.TakeMovesToTail(s.lease, o, s.now);
    }
  }

  /** What each step but the timer leases: exports, defunct objects and emitters of any but children events. */
  lemma StepLeasesIff(s: State, step: Step, o: Obj)
    requires Leasing.IndexAgrees(s.lease) && Enabled(s, step) && !step.TimerFires?
    ensures Leasing.Leased(Next(s, step).lease, o) <==>
            || Leasing.Leased(s.lease, o)
            || ((step.Export? || step.Defunct? || (step.Emit? && !step.childrenChanged))
                && step.o == o && o !in s.cache.objects)
  {
    if LeaseTaken(s.cache, step).Some? {
      Leasing.TakeMovesToTail(s.lease, step.o, s.now);
    }
  }

  /** The timer's step takes away exactly the leases that are due. */
  lemma FiringReleases(s: State)
    requires Leasing.Valid(s.lease, s.now) && Enabled(s, TimerFires)
    ensures forall l :: l in Next(s, TimerFires).lease.queue <==>
              l in s.lease.queue && l.expiryS > Leasing.Secs(s.now)
  {
    Leasing.FireReleasesDue(s.lease, s.now);
  }

  // ---------------------------------------------------------------- and not too long

  /** The clock has not passed the second at which the pending timer is due. */
  predicate OnTime(lease: Leasing.LeaseState, now: nat) {
    lease.timer.Some? ==> Leasing.Secs(now) <= lease.timer.value
  }

  /** No step of the run lets the clock pass a pending timer's second. */
  ghost predicate IsOnTimeRun(s: State, steps: seq<Step>)
    requires IsRun(s, steps)
    decreases |steps|
  {
    OnTime(s.lease, s.now) && (steps != [] ==> IsOnTimeRun(Next(s, steps[0]), steps[1..]))
  }

  /** Only the clock can make a timer late: every other step leaves it or arms it in time. */
  lemma OnlyTickCanBeLate(cache: Cache.CacheState, lease: Leasing.LeaseState, now: nat, step: Step)
    requires Leasing.Valid(lease, now) && OnTime(lease, now)
    requires LeaseTaken(cache, step).Some? ==> now < Leasing.HORIZON_US
    ensures OnTime(LeaseNext(cache, lease, now, step), now)
  {
    if LeaseTaken(cache, step).Some? {
      Leasing.BelowHorizon(now);
    } else {
      Leasing.FireKeepsValid(lease, now);
    }
  }

  /**
    No lease is stranded: when timers are served in their second, every lease still held is due no
    earlier than the present second, so each is revoked within its own expiry second, at most sixteen
    seconds ahead.
   */
  lemma NoLeaseOutlivesItsSecond(s: State, steps: seq<Step>, l: Leasing.Link)
    requires Leasing.Valid(s.lease, s.now)
    requires IsRun(s, steps) && IsOnTimeRun(s, steps) && forall o :: LeasedInTime(s, steps, o)
    requires l in Run(s, steps).lease.queue
    ensures var end := Run(s, steps);
            && end.lease.timer.Some?
            && Leasing.Secs(end.now) <= end.lease.timer.value <= l.expiryS
            && l.expiryS <= Leasing.Secs(end.now) + Leasing.EXPIRY_TIME_S
  {
    RunKeepsLeases(s, steps);
    OnTimeAtEnd(s, steps);
    TimerBeforeLeases(Run(s, steps).lease, l);
  }

  lemma TimerBeforeLeases(lease: Leasing.LeaseState, l: Leasing.Link)
    requires Leasing.TimerCovers(lease) && Leasing.SortedByExpiry(lease.queue) && l in lease.queue
    ensures lease.timer.Some? && lease.timer.value <= l.expiryS
  {
  }

  lemma {:induction false} OnTimeAtEnd(s: State, steps: seq<Step>)
    requires IsRun(s, steps) && IsOnTimeRun(s, steps)
    ensures OnTime(Run(s, steps).lease, Run(s, steps).now)
    decreases |steps|
  {
    if steps != [] {
      OnTimeAtEnd(Next(s, steps[0]), steps[1..]);
    }
  }

  // ---------------------------------------------------------------- issued paths

  /** The steps that end the meaning of an object's path. */
  predicate Ends(step: Step, o: Obj) {
    (step.Defunct? || step.Destroy?) && step.o == o
  }

  /** What an issued reference stands for after a step: only the end of its own object changes it. */
  function StatusNext(status: Register.Status, step: Step): Register.Status {
    if status.Leads? && Ends(step, status.o) then Register.Retired else status
  }

  lemma PathMeaning(reg: Register.RegState, root: Obj, step: Step, ref: nat)
    requires Register.Valid(reg) && RegPath(reg, root, step).issued <= Register.MAX_REFS
    requires Register.StatusOf(reg, ref) != Register.Unissued
    ensures Register.StatusOf(RegPath(reg, root, step), ref) == Register.StatusOf(reg, ref)
  {
    if RegPath(reg, root, step) != reg {
      Register.EnsureRefKeepsMeaning(reg, step.o, ref);
    }
  }

  lemma EndMeaning(reg: Register.RegState, step: Step, ref: nat)
    requires Register.Valid(reg)
    ensures Register.StatusOf(RegEnd(reg, step), ref) == StatusNext(Register.StatusOf(reg, ref), step)
  {
    if step.Defunct? || step.Destroy? {
      Register.EndingKeepsMeaning(reg, step.o, ref);
    }
  }

  /** A step leaves the meaning of an issued reference alone, unless it ends the reference's object. */
  lemma StepMeaning(reg: Register.RegState, root: Obj, step: Step, ref: nat)
    requires Register.Valid(reg) && RegPath(reg, root, step).issued <= Register.MAX_REFS
    requires Register.StatusOf(reg, ref) != Register.Unissued
    ensures Register.StatusOf(RegNext(reg, root, step), ref) == StatusNext(Register.StatusOf(reg, ref), step)
  {
    StepKeepsRegister(reg, root, step);
    PathMeaning(reg, root, step, ref);
    EndMeaning(RegPath(reg, root, step), step, ref);
  }

  /** Some step of the run ends the object. */
  predicate EndsIn(steps: seq<Step>, o: Obj) {
    steps != [] && (Ends(steps[0], o) || EndsIn(steps[1..], o))
  }

  lemma {:induction false} EndsInIff(steps: seq<Step>, o: Obj)
    ensures EndsIn(steps, o) <==> exists i :: 0 <= i < |steps| && Ends(steps[i], o)
  {
    if steps != [] {
      EndsInIff(steps[1..], o);
      if EndsIn(steps[1..], o) {
        var i :| 0 <= i < |steps[1..]| && Ends(steps[1..][i], o);
        assert Ends(steps[i + 1], o);
      }
      forall i | 0 <= i < |steps| && Ends(steps[i], o) ensures EndsIn(steps, o) {
        assert i > 0 ==> Ends(steps[1..][i - 1], o);
      }
    }
  }

  lemma {:induction false} RunMeaning(s: State, steps: seq<Step>, ref: nat)
    requires Register.Valid(s.reg) && IsRun(s, steps) && Run(s, steps).reg.issued <= Register.MAX_REFS
    requires Register.StatusOf(s.reg, ref) != Register.Unissued
    ensures var status := Register.StatusOf(s.reg, ref);
            Register.StatusOf(Run(s, steps).reg, ref) ==
            if status.Leads? && EndsIn(steps, status.o) then Register.Retired else status
    decreases |steps|
  {
    if steps != [] {
      RunMonotone(Next(s, steps[0]), steps[1..]);
      StepKeepsRegister(s.reg, s.root, steps[0]);
      StepMeaning(s.reg, s.root, steps[0], ref);
      RunMeaning(Next(s, steps[0]), steps[1..], ref);
    }
  }

  /** The reference of the m-th registration stays its holder's through the next 2^32 - 2 registrations. */
  lemma StepKeepsHolder(reg: Register.RegState, root: Obj, step: Step, m: nat, o: Obj, ended: bool)
    requires Register.Counted(reg) && 0 < m <= reg.issued
    requires RegPath(reg, root, step).issued < m + Register.MAX_REFS
    requires Register.Holds(reg, Register.NthRef(m), o, ended)
    ensures Register.Holds(RegNext(reg, root, step), Register.NthRef(m), o, ended || Ends(step, o))
  {
    Register.NextIsNthIff(reg, m);
    PathKeepsHolder(reg, root, step, Register.NthRef(m), o, ended);
    EndKeepsHolder(RegPath(reg, root, step), step, Register.NthRef(m), o, ended);
  }

  lemma PathKeepsHolder(reg: Register.RegState, root: Obj, step: Step, ref: nat, o: Obj, ended: bool)
    requires Register.Holds(reg, ref, o, ended) && ref != 0
    requires RegPath(reg, root, step).issued > reg.issued ==> Register.NextRef(reg.counter) != ref
    ensures Register.Holds(RegPath(reg, root, step), ref, o, ended)
  {
    if step.Export? || step.Emit? || step.Defunct? {
      if step.o != NULL && step.o != root {
        Register.EnsureRefKeepsHolder(reg, step.o, ref, o, ended);
      }
    }
  }

  lemma EndKeepsHolder(reg: Register.RegState, step: Step, ref: nat, o: Obj, ended: bool)
    requires Register.Holds(reg, ref, o, ended) && ref != 0
    ensures Register.Holds(RegEnd(reg, step), ref, o, ended || Ends(step, o))
  {
    if step.Defunct? || step.Destroy? {
      Register.EndingKeepsHolder(reg, step.o, ref, o, ended);
    }
  }

  lemma {:induction false} RunKeepsHolder(s: State, steps: seq<Step>, m: nat, o: Obj, ended: bool)
    requires Register.Counted(s.reg) && 0 < m <= s.reg.issued
    requires IsRun(s, steps) && Run(s, steps).reg.issued < m + Register.MAX_REFS
    requires Register.Holds(s.reg, Register.NthRef(m), o, ended)
    ensures Register.Holds(Run(s, steps).reg, Register.NthRef(m), o, ended || EndsIn(steps, o))
    decreases |steps|
  {
    if steps != [] {
      RunMonotone(Next(s, steps[0]), steps[1..]);
      StepKeepsCount(s.reg, s.root, steps[0]);
      StepKeepsHolder(s.reg, s.root, steps[0], m, o, ended);
      RunKeepsHolder(Next(s, steps[0]), steps[1..], m, o, ended || Ends(steps[0], o));
    }
  }

  /** The path that `o` has at the start leads to `o` until it ends, and then to nothing. */
  ghost predicate PathHolds(s: State, o: Obj, steps: seq<Step>)
    requires o in s.reg.ids && IsRun(s, steps)
  {
    Register.Resolve(Run(s, steps).reg, RefToPath(s.reg.ids[o]), s.root) ==
    if exists i :: 0 <= i < |steps| && Ends(steps[i], o) then None else Some(o)
  }

  /**
    Issued paths are safe over whole runs with fewer than 2^32 - 1 registrations since the object's own,
    however many came before and whatever the clock: the path printed for a registered object resolves to
    that object until it goes defunct or is destroyed, and from then on to nothing. It never resolves to
    another object, even if the address is used again.
   */
  lemma IssuedPathIsSafe(s: State, o: Obj, m: nat, steps: seq<Step>)
    requires Register.Owns(s.reg, o, m)
    requires IsRun(s, steps) && Run(s, steps).reg.issued < m + Register.MAX_REFS
    ensures PathHolds(s, o, steps)
  {
    RunKeepsHolder(s, steps, m, o, false);
    EndsInIff(steps, o);
    Register.NthRefAhead(m, 0);
    Register.ResolveIssued(Run(s, steps).reg, s.reg.ids[o], s.root);
  }

  /** The next registration takes the path exactly when it is the (2^32 - 1)-th since the object's own. */
  lemma NewcomerTakesPathIff(s: State, o: Obj, m: nat, newcomer: Obj)
    requires Register.Owns(s.reg, o, m) && s.reg.issued < m + Register.MAX_REFS
    requires newcomer in s.live && newcomer !in s.reg.ids && newcomer != NULL && newcomer != s.root
    ensures Register.Resolve(Next(s, Export(newcomer)).reg, RefToPath(s.reg.ids[o]), s.root) ==
            Some(if s.reg.issued + 1 == m + Register.MAX_REFS then newcomer else o)
  {
    Register.NextIsNthIff(s.reg, m);
    Register.WrappedCounterStealsPath(s.reg, s.reg.ids[o], o, newcomer, s.root);
  }

  /** A run during which no more than `n` references are assigned in all, for an object that owns the m-th. */
  ghost predicate IsPathRun(s: State, o: Obj, m: nat, steps: seq<Step>, n: nat) {
    Safe(s) && Register.Owns(s.reg, o, m) && IsRun(s, steps) && Run(s, steps).reg.issued <= n
  }

  /** The bound is exact: up to `n` registrations the path of the m-th is safe in every run iff n < m + 2^32 - 1. */
  lemma IssuedPathIsSafeIff(m: nat, n: nat)
    requires 0 < m
    ensures (forall s, o, steps :: IsPathRun(s, o, m, steps, n) ==> PathHolds(s, o, steps))
            <==> n < m + Register.MAX_REFS
  {
    if n < m + Register.MAX_REFS {
      forall s, o, steps | IsPathRun(s, o, m, steps, n) ensures PathHolds(s, o, steps) {
        IssuedPathIsSafe(s, o, m, steps);
      }
    } else {
      var s, o, newcomer := AboutToWrap(m);
      NewcomerTakesPathIff(s, o, m, newcomer);
      OnlyStep(s, Export(newcomer));
      assert IsPathRun(s, o, m, [Export(newcomer)], n) && !PathHolds(s, o, [Export(newcomer)]);
    }
  }

  /** One registration before the counter comes round to the m-th reference, whose owner is still there. */
  lemma AboutToWrap(m: nat) returns (s: State, o: Obj, newcomer: Obj)
    requires 0 < m
    ensures Safe(s) && Register.Owns(s.reg, o, m) && s.reg.issued + 1 == m + Register.MAX_REFS
    ensures newcomer in s.live && newcomer !in s.reg.ids && newcomer != s.root && newcomer != o
  {
    var root, count, ref := Ptr(1), m + Register.MAX_REFS - 1, Register.NthRef(m);
    o, newcomer := Ptr(2), Ptr(3);
    Register.NthRefAhead(m, 0);
    var reg := Register.RegState(Register.NthRef(count), map[ref := o], map[o := ref], multiset{o}, count);
    s := State(0, root, {root, o, newcomer}, multiset{root, o, newcomer}, Cache.EMPTY, Leasing.EMPTY, reg);
  }

  // ---------------------------------------------------------------- exported paths

  /** While an object is leased beyond the end of the run it is not destroyed. */
  lemma {:induction false} LeasedNotDestroyed(s: State, steps: seq<Step>, o: Obj, since: nat)
    requires Safe(s) && IsRun(s, steps) && LeasedBeyond(s.lease, o, since)
    requires since <= s.now && Run(s, steps).now <= since + Leasing.LEASE_TIME_US && LeasedInTime(s, steps, o)
    ensures forall i :: 0 <= i < |steps| ==> !(steps[i].Destroy? && steps[i].o == o)
    decreases |steps|
  {
    if steps != [] {
      RunMonotone(s, steps);
      LeasedIsReferenced(s, o);
      StepKeepsSafe(s, steps[0]);
      StepKeepsLease(s.cache, s.lease, steps[0], o, since, s.now);
      LeasedNotDestroyed(Next(s, steps[0]), steps[1..], o, since);
      NotDestroyedCons(steps, o);
    }
  }

  lemma NotDestroyedCons(steps: seq<Step>, o: Obj)
    requires steps != [] && !(steps[0].Destroy? && steps[0].o == o)
    requires forall i :: 0 <= i < |steps[1..]| ==> !(steps[1..][i].Destroy? && steps[1..][i].o == o)
    ensures forall i :: 0 <= i < |steps| ==> !(steps[i].Destroy? && steps[i].o == o)
  {
    assert forall i :: 0 < i < |steps| ==> steps[i] == steps[1..][i - 1];
  }

  /**
    What an export is for: the path written for an object that is not cached resolves to the object, which
    exists, in every run within the lease time, until the object goes defunct.
   */
  lemma ExportedPathResolves(s: State, o: Obj, m: nat, steps: seq<Step>)
    requires IsExportRun(s, o, steps) && o != s.root
    requires Run(s, steps).now <= s.now + Leasing.LEASE_TIME_US && LeasedInTime(s, steps, o)
    requires Register.Owns(EnsurePath(s.reg, o, s.root), o, m)
    requires Run(s, steps).reg.issued < m + Register.MAX_REFS
    ensures var path := RefToPath(Register.ObjectToRef(EnsurePath(s.reg, o, s.root), o));
            Register.Resolve(Run(s, steps).reg, path, s.root) ==
            if exists i :: 0 <= i < |steps| && IsDefunct(steps[i], o) then None else Some(o)
    ensures o in Run(s, steps).live
  {
    ExportedObjectLives(s, o, steps);
    ExportedNotDestroyed(s, o, steps);
    IssuedPathIsSafe(Next(s, steps[0]), o, m, steps[1..]);
    OnlyDefunctEnds(steps, o);
  }

  lemma ExportedNotDestroyed(s: State, o: Obj, steps: seq<Step>)
    requires IsExportRun(s, o, steps)
    requires Run(s, steps).now <= s.now + Leasing.LEASE_TIME_US && LeasedInTime(s, steps, o)
    ensures forall i :: 0 <= i < |steps[1..]| ==> !(steps[1..][i].Destroy? && steps[1..][i].o == o)
  {
    RunMonotone(s, steps);
    TakeGivesLease(s.lease, o, s.now, s.now);
    StepKeepsSafe(s, steps[0]);
    LeasedNotDestroyed(Next(s, steps[0]), steps[1..], o, s.now);
  }

  lemma OnlyDefunctEnds(steps: seq<Step>, o: Obj)
    requires steps != [] && steps[0].Export?
    requires forall i :: 0 <= i < |steps[1..]| ==> !(steps[1..][i].Destroy? && steps[1..][i].o == o)
    ensures (exists i :: 0 <= i < |steps[1..]| && Ends(steps[1..][i], o)) <==>
            (exists i :: 0 <= i < |steps| && IsDefunct(steps[i], o))
  {
    var rest := steps[1..];
    if i :| 0 <= i < |rest| && Ends(rest[i], o) {
      assert IsDefunct(steps[i + 1], o);
    }
    if i :| 0 <= i < |steps| && IsDefunct(steps[i], o) {
      assert Ends(rest[i - 1], o);
    }
  }

  /** Among the first 2^32 - 1 registrations an export gives every object not deregistered a path of its own. */
  lemma ExportOwns(reg: Register.RegState, root: Obj, o: Obj)
    requires Register.Valid(reg) && o != NULL && o != root && !Deregistered(reg, o)
    requires EnsurePath(reg, o, root).issued <= Register.MAX_REFS
    ensures var t := EnsurePath(reg, o, root);
            Register.Owns(t, o, Register.ObjectToRef(t, o))
  {
    Register.EnsureRefKeepsValid(reg, o);
    Register.ValidOwns(EnsurePath(reg, o, root), o);
  }

  // ---------------------------------------------------------------- printed paths

  /** The object carries an id but is no longer registered. */
  predicate Deregistered(reg: Register.RegState, o: Obj) {
    o in reg.ids && !Register.Registered(reg, o)
  }

  /** Asking for a path registers an object exactly unless it was deregistered before. */
  lemma ExportRegistersIff(reg: Register.RegState, root: Obj, o: Obj)
    requires Register.Linked(reg) && o != NULL && o != root
    ensures Register.Registered(EnsurePath(reg, o, root), o) <==> !Deregistered(reg, o)
  {
  }

  /** What a step does to `was`, whether the object now at this address has been deregistered. */
  predicate DeregisteredNext(was: bool, step: Step, o: Obj) {
    if IsDefunct(step, o) then true
    else if step.Destroy? && step.o == o then false
    else was
  }

  predicate DeregisteredAfter(was: bool, steps: seq<Step>, o: Obj)
    decreases |steps|
  {
    if steps == [] then was else DeregisteredAfter(DeregisteredNext(was, steps[0], o), steps[1..], o)
  }

  lemma AskingKeepsOthers(reg: Register.RegState, root: Obj, step: Step, o: Obj)
    requires Register.Valid(reg) && RegPath(reg, root, step).issued <= Register.MAX_REFS
    ensures Deregistered(RegPath(reg, root, step), o) <==> Deregistered(reg, o)
  {
    if RegPath(reg, root, step) != reg {
      Register.NextRefCases(reg.counter);
    }
  }

  lemma EndingDeregisters(reg: Register.RegState, step: Step, o: Obj)
    requires Register.Valid(reg)
    requires step.Defunct? && step.o == o ==> o in reg.ids
    ensures Deregistered(RegEnd(reg, step), o) <==> DeregisteredNext(Deregistered(reg, o), step, o)
  {
    if step.Defunct? {
      Register.DeregisterOnlyOne(reg, step.o, true);
    } else if step.Destroy? {
      Register.DestroyedOnlyOne(reg, step.o);
    }
  }

  lemma {:induction false} RunDeregisters(s: State, steps: seq<Step>, o: Obj)
    requires Register.Valid(s.reg) && o != NULL && o != s.root
    requires IsRun(s, steps) && Run(s, steps).reg.issued <= Register.MAX_REFS
    ensures Deregistered(Run(s, steps).reg, o) <==> DeregisteredAfter(Deregistered(s.reg, o), steps, o)
    decreases |steps|
  {
    if steps != [] {
      RunMonotone(Next(s, steps[0]), steps[1..]);
      StepKeepsRegister(s.reg, s.root, steps[0]);
      AskingKeepsOthers(s.reg, s.root, steps[0], o);
      EndingDeregisters(RegPath(s.reg, s.root, steps[0]), steps[0], o);
      RunDeregisters(Next(s, steps[0]), steps[1..], o);
    }
  }

  /**
    Exactly when a printed path is dead: after any run with at most 2^32 - 1 registrations, the path an
    object prints resolves to nothing if the object now at that address has gone defunct, and otherwise to
    the object.
   */
  lemma PrintedPathDeadIff(s: State, o: Obj, steps: seq<Step>)
    requires Register.Valid(s.reg) && o != NULL && o != s.root && IsRun(s, steps)
    requires Run(s, steps).reg.issued <= Register.MAX_REFS
    ensures var t := EnsurePath(Run(s, steps).reg, o, s.root);
            Register.Resolve(t, RefToPath(Register.ObjectToRef(t, o)), s.root) ==
            if DeregisteredAfter(Deregistered(s.reg, o), steps, o) then None else Some(o)
  {
    RunKeepsRegister(s, steps);
    RunDeregisters(s, steps, o);
    PrintedPathNow(Run(s, steps).reg, o, s.root);
  }

  lemma PrintedPathNow(reg: Register.RegState, o: Obj, root: Obj)
    requires Register.Valid(reg) && o != NULL && o != root
    ensures var t := EnsurePath(reg, o, root);
            Register.Resolve(t, RefToPath(Register.ObjectToRef(t, o)), root) ==
            if Deregistered(reg, o) then None else Some(o)
  {
    var t := EnsurePath(reg, o, root);
    Register.NextRefCases(reg.counter);
    Register.ResolveIssued(t, Register.ObjectToRef(t, o), root);
  }

  /** Read without recursion: the last of the object's endings in the run, if any, was going defunct. */
  lemma {:induction false} DeregisteredAfterIff(was: bool, steps: seq<Step>, o: Obj)
    ensures DeregisteredAfter(was, steps, o) <==>
            || (was && forall j :: 0 <= j < |steps| ==> !Ends(steps[j], o))
            || exists i :: 0 <= i < |steps| && steps[i].Defunct? && LastEnding(steps, i, o)
    decreases |steps|
  {
    if steps != [] {
      var rest, now := steps[1..], DeregisteredNext(was, steps[0], o);
      DeregisteredAfterIff(now, rest, o);
      assert forall j :: 0 <= j < |rest| ==> rest[j] == steps[j + 1];
      if exists i :: 0 <= i < |rest| && rest[i].Defunct? && LastEnding(rest, i, o) {
        var i :| 0 <= i < |rest| && rest[i].Defunct? && LastEnding(rest, i, o);
        LastEndingShift(steps, i, o);
      }
      if exists i :: 0 <= i < |steps| && steps[i].Defunct? && LastEnding(steps, i, o) {
        var i :| 0 <= i < |steps| && steps[i].Defunct? && LastEnding(steps, i, o);
        if i > 0 {
          LastEndingShift(steps, i - 1, o);
        }
      } else if now && !was {
        assert LastEnding(steps, 0, o) <==> forall j :: 0 <= j < |rest| ==> !Ends(rest[j], o);
      }
    }
  }

  /** The i-th step ends the object, and none after it does. */
  predicate LastEnding(steps: seq<Step>, i: nat, o: Obj)
    requires i < |steps|
  {
    Ends(steps[i], o) && forall j :: i < j < |steps| ==> !Ends(steps[j], o)
  }

  lemma LastEndingShift(steps: seq<Step>, i: nat, o: Obj)
    requires i + 1 < |steps|
    ensures LastEnding(steps[1..], i, o) <==> LastEnding(steps, i + 1, o)
  {
    var rest := steps[1..];
    assert forall j :: 0 <= j < |rest| ==> rest[j] == steps[j + 1];
    forall j | i + 1 < j < |steps| ensures steps[j] == rest[j - 1] {
    }
  }

  /** For an object first seen in the run and not destroyed in it: dead iff it went defunct in the run. */
  lemma NewObjectPathDeadIff(s: State, o: Obj, steps: seq<Step>)
    requires Register.Valid(s.reg) && o != NULL && o != s.root && o !in s.reg.ids && IsRun(s, steps)
    requires forall i :: 0 <= i < |steps| ==> !(steps[i].Destroy? && steps[i].o == o)
    requires Run(s, steps).reg.issued <= Register.MAX_REFS
    ensures var t := EnsurePath(Run(s, steps).reg, o, s.root);
            Register.Resolve(t, RefToPath(Register.ObjectToRef(t, o)), s.root) ==
            if exists i :: 0 <= i < |steps| && steps[i].Defunct? && steps[i].o == o then None else Some(o)
  {
    PrintedPathDeadIff(s, o, steps);
    UndestroyedDeregistered(false, steps, o);
  }

  lemma {:induction false} UndestroyedDeregistered(was: bool, steps: seq<Step>, o: Obj)
    requires forall i :: 0 <= i < |steps| ==> !(steps[i].Destroy? && steps[i].o == o)
    ensures DeregisteredAfter(was, steps, o) <==>
            was || exists i :: 0 <= i < |steps| && steps[i].Defunct? && steps[i].o == o
    decreases |steps|
  {
    if steps != [] {
      var rest := steps[1..];
      assert forall j :: 0 <= j < |rest| ==> rest[j] == steps[j + 1];
      UndestroyedDeregistered(DeregisteredNext(was, steps[0], o), rest, o);
    }
  }
}
