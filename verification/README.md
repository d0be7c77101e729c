# The accessibility bridge, modelled and proved in Dafny

at-spi2-core lets assistive technologies look into an application over D-Bus. This project models the parts
of its ATK libraries that keep state or compute something intricate, and proves what they are for.

**The life of an exported object** (`atk-adaptor/`). Four pieces decide how long a remote client may rely on
an object and on its path: the register (`Register.dfy`, `PathCodec.dfy`), the cache with its breadth-first
traversal (`Traversal.dfy`, `Cache.dfy`), the lease queue (`Leasing.dfy`), and the glue that leases whatever
the cache does not hold. `Lifetime.dfy` composes them into one state machine, with the application's
objects, their strong and weak references, their destruction and the reuse of their addresses, and proves
statements about every run: nothing dangles, an exported object outlives its 15 seconds, no lease is
stranded, a path never leads to another object. Each names its own bound, if it has one: leases taken at
clock readings below 2^32 - 16 seconds (the clock horizon), fewer than 2^32 - 1 registrations since the
object's own, or at most 2^32 - 1 in all. For the lease time and for the life of a path the bound is proved
to be exact.

**Text geometry** (`TextGeometry.dfy`). Bounding boxes of ranges, and the maximal runs of characters inside
a clip rectangle.

**Events** (`EventNames.dfy`, `Subscriptions.dfy`). The two name converters and when they agree; the list of
subscriptions and the filter that decides whether an event is sent.

**Relations and factories** (`Relations.dfy`, `FactoryRegistry.dfy`). Arrays of arrays with weak references
as a set of pairs; the resolution of factories through the type tree.

Each class of the source is a class here, with the fields its functions update. A method's contract equates
the new state with a function of the old one, and the lemmas are about those functions. `dafny verify
dfyconfig.toml` checks everything.

## How things are represented

- Times are microseconds of the monotonic clock, read once in each step. A pending timeout is known by the
  second it is due; running it is a step of its own, which may come late unless a theorem says otherwise.
- An object is its address. Strong references are counted where the code takes and releases them: by the
  application (`held`), by the cache (logs `taken` and `released`), by the lease queue (`refs`). Destruction
  is a separate step, possible once the counts sum to zero, and runs the weak callbacks. The code destroys
  at the last release, here any number of steps may come between. A release inside a batch, and what
  callbacks of a signal do while it is emitted, come after the one step that the batch or the signal is.
- What an implementor's callbacks answer is an argument: a `World` for the accessible tree, a `Text` for the
  text interface. Answers do not change during one call, and the callbacks do not call back in.
- A GList node has a number of its own, so that the lease hash can be seen to point at the right node.
- `atoi` is a 64-bit `strtol` cut to 32 bits; `toupper` is the C locale's.

## Where the code and its comments differ

The model follows the code.

- The comment at `atk-adaptor/accessible-leasing.c:172-178` calls the lease time a minimum. The expiry second
  is kept in 32 bits, so a lease taken at a clock reading `t` is sure to last its 15 seconds exactly if
  `t` + 15 s is below 2^32 - 16 s (`Lifetime.LeaseTimeIsMinimumIff`). From 2^32 - 16 s on a lease is due at
  once (`Leasing.ExpiryOutlastsIff`); in the 15 seconds before, a second lease on the object, taken after
  that reading, cuts the first one short (`Lifetime.LeaseCutShort`).
- `atk-adaptor/accessible-register.c:167-169` says the reference is zero for an object that is not registered.
  After deregistration the id stays; `Lifetime.PrintedPathDeadIff` says exactly when a printed path leads
  nowhere.
- `atk-adaptor/accessible-cache.c:271-274` names two kinds of leaf nodes. Defunct objects are leaves too, and
  membership is tested in the cache as it was when the batch began.
- `atk/atktext.c:677-678` promises -1 in all four places when extents are missing. The code turns the default
  width over, which gives (-2, -1, 1, -1) (`TextGeometry.ExtentsWidth`); for the same reason the test for
  width -1 at `atk/atktext.c:1369-1378` never succeeds inside the range extents.
- `atk/atktext.c:1132` promises the ranges in the rectangle. When both corners fall on offset zero nothing is
  returned (`TextGeometry.EarlyReturnLosesRuns`); the result is right exactly when that return is not taken
  or there is nothing to find (`TextGeometry.RealGetBoundedRanges`).
- References are unique for 2^32 - 1 registrations; the next one repeats the first (`Register.RefReusedIff`).
  So a path is safe until 2^32 - 1 registrations after its own, and that one takes it over
  (`Lifetime.IssuedPathIsSafeIff`, `Lifetime.NewcomerTakesPathIff`). After the counter has wrapped, a
  reference that an older object still carries is shared with it (`Register.RegistrationOwnsIff`,
  `Register.SharedReferenceDies`).

## Model

| member | source | states |
|---|---|---|
| `Traversal.ChildrenListed` | atk-adaptor/accessible-cache.c:248-265 | What is pushed for an object are all children the callback returns at indices below the child count, once for each index, in index order |
| `Traversal.KidsExact` | atk-adaptor/accessible-cache.c:300-313 | A visit appends that list for an uncached object with a state set holding none of transient, manages-descendants and defunct, and nothing for any other |
| `Traversal.AcyclicIff` | atk-adaptor/accessible-cache.c:295-322 | No cycle within reach means: no path of traversed objects and their children, by index, meets an object twice |
| `Traversal.TerminatesIffAcyclic` | atk-adaptor/accessible-cache.c:295-322 | The first loop of a batch ends if and only if no path down from the queue, through traversed objects and their children by index, meets an object twice |
| `Traversal.RoundTakesOne` | atk-adaptor/accessible-cache.c:295-322 | Each round takes exactly one off the sum of the unfolded subtree sizes of the queued objects, shared descendants counted each time |
| `Traversal.AcyclicFinishes` | atk-adaptor/accessible-cache.c:295-322 | On an acyclic graph the queue is empty after exactly that many rounds |
| `Traversal.CycleNeverFinishes` | atk-adaptor/accessible-cache.c:295-322 | With a cycle within reach the queue is non-empty after any number of rounds |
| `Traversal.VisitsExactlyReachable` | atk-adaptor/accessible-cache.c:295-313 | The objects popped are exactly those reachable from the queue through expandable objects |
| `Traversal.VisitsInQueueOrder` | atk-adaptor/accessible-cache.c:249-313 | First in, first out: the queued objects are visited in order, then every appended child in order |
| `Traversal.VisitsFollowParents` | atk-adaptor/accessible-cache.c:295-313 | Every visited object was queued at the start or is a child of an expandable object visited before it |
| `Cache.BatchClosure` | atk-adaptor/accessible-cache.c:249-335 | After a batch an object is cached iff it was cached or is non-transient and reachable through non-transient, uncached, non-defunct objects that do not manage descendants |
| `Cache.BatchCachesBelow` | atk-adaptor/accessible-cache.c:249-335 | From the callbacks' answers alone: an object is newly cached iff it has a state set, is not transient, and lies on a path of children from a queued object on which all before it are traversed |
| `Cache.AnnouncedOnceEach` | atk-adaptor/accessible-cache.c:197-216 | A batch emits object-added once for each newly cached object and for no other |
| `Cache.AnnouncedAfterParent` | atk-adaptor/accessible-cache.c:300-330 | Each announced object was pending at the start or has a parent announced earlier in the batch |
| `Cache.BatchKeepsValid` | atk-adaptor/accessible-cache.c:287-335 | A batch keeps: one cache weak reference for each cached object and none for others, and references taken = references released + queue entries |
| `Cache.EnqueueKeepsValid` | atk-adaptor/accessible-cache.c:376-380 | Queueing an object keeps the reference balance, and leaves an idle batch pending |
| `Cache.RemoveObjectKeepsValid` | atk-adaptor/accessible-cache.c:174-194 | Removal keeps the weak references exact and releases what it takes off the queue |
| `Cache.RemoveObjectDropsOne` | atk-adaptor/accessible-cache.c:179-193 | Removal drops the cached entry, or else one queued entry, never both, and no other object is affected |
| `Cache.QueueAfterRemoval` | atk-adaptor/accessible-cache.c:190-193 | Of an object queued more than once the first entry goes, and none if the object is cached |
| `Cache.DestroyedKeepsValid` | atk-adaptor/accessible-cache.c:136-142 | Destruction of an object takes it out of the cache through its weak reference |
| `Cache.AddedChildGetsCached` | atk-adaptor/accessible-cache.c:339-396 | A child added below a cached parent leaves a batch pending, and that batch caches it unless it is transient by then; below an uncached parent nothing happens |
| `Cache.SpiCache.AppendChildren` | atk-adaptor/accessible-cache.c:248-265 | The loop pushes all children returned at indices below the count, in index order, each with one reference |
| `Cache.SpiCache.VisitHead` | atk-adaptor/accessible-cache.c:297-321 | One round of the first loop: for a traversed head the list of its children is appended, for another nothing; what is kept and what is dropped, and the references |
| `Cache.SpiCache.Traverse` | atk-adaptor/accessible-cache.c:295-322 | The first loop empties the queue; the list to add and the references taken and dropped are those of the specified traversal |
| `Cache.SpiCache.AddObject` | atk-adaptor/accessible-cache.c:196-216 | An object is cached, weakly referenced and announced only if it was not cached |
| `Cache.SpiCache.AddAll` | atk-adaptor/accessible-cache.c:324-330 | The second loop caches and announces each new object once and gives back every reference of the list |
| `Cache.SpiCache.AddPendingItems` | atk-adaptor/accessible-cache.c:286-335 | The two loops cache exactly the non-transient objects at or below a queued one, announce each new one once, empty the queue and clear the pending idle |
| `Cache.SpiCache.AddSubtree` | atk-adaptor/accessible-cache.c:276-284 | The initial traversal: the root is queued with a reference and the batch runs at once, caching what lies below it |
| `Cache.SpiCache.ChildAddedListener` | atk-adaptor/accessible-cache.c:339-401 | State after a children-changed signal, including a missing detail, another detail and a null child |
| `Cache.SpiCache.ToplevelAddedListener` | atk-adaptor/accessible-cache.c:405-443 | State after a top-level is added, including a null entry when the parent returns no child |
| `Cache.SpiCache.Remove` | atk-adaptor/accessible-cache.c:174-194 | State after the register announces a deregistration; object-removed is emitted for a cached object only |
| `Leasing.TakeMovesToTail` | atk-adaptor/accessible-leasing.c:199-217 | A lease puts the object at the tail with its new expiry, keeps the other entries in order, touches no other lease and holds one reference however often repeated |
| `Leasing.TakeExact` | atk-adaptor/accessible-leasing.c:201-217 | Place by place: the object's earlier entry is cut out, the new one goes behind the rest |
| `Leasing.TakeTimer` | atk-adaptor/accessible-leasing.c:151-168 | A pending timer is left alone; on an idle queue one is armed for the second at which the lease is due |
| `Leasing.TakeKeepsIndex` | atk-adaptor/accessible-leasing.c:201-217 | After a lease each object occurs once in the queue, the hash maps it to its own link, and there is one reference for each entry |
| `Leasing.TakeKeepsValid` | atk-adaptor/accessible-leasing.c:182-227 | Below the horizon a lease also keeps the queue sorted by expiry and a timer pending that is due no later than the head |
| `Leasing.RevokeExact` | atk-adaptor/accessible-leasing.c:115-130 | The loop removes exactly the due leases, which are a prefix, and keeps the rest in order |
| `Leasing.RevokeTakesDueOnly` | atk-adaptor/accessible-leasing.c:115-130 | Whatever the order of the queue, the loop takes away no lease that is not yet due |
| `Leasing.RevokeKeepsIndex` | atk-adaptor/accessible-leasing.c:116-130 | The loop keeps queue, hash and references in agreement |
| `Leasing.FireReleasesDue` | atk-adaptor/accessible-leasing.c:107-136 | After the timer ran a lease is still there iff its expiry second lies in the future |
| `Leasing.FireKeepsValid` | atk-adaptor/accessible-leasing.c:107-168 | The timer keeps the whole invariant and is armed for exactly the head's second, 1 to 16 seconds ahead, so the unsigned interval does not wrap |
| `Leasing.ExpiryOutlastsIff` | atk-adaptor/accessible-leasing.c:172-199 | The stored expiry second outlasts the lease time iff the clock is below (2^32 - 16) seconds; from there on, narrowed, it is already past |
| `Leasing.ExpiryInNumbers` | atk-adaptor/accessible-leasing.c:179-199 | The expiry second is the clock in whole seconds plus 16, the lease time 15 seconds |
| `Leasing.LeaseLostBeyondHorizon` | atk-adaptor/accessible-leasing.c:196-219 | Beyond that clock reading a lease on an idle queue is gone as soon as the timer runs |
| `Leasing.RepeatedLeaseLost` | atk-adaptor/accessible-leasing.c:196-219 | So is a lease taken before and repeated beyond it: the later, narrowed expiry second replaces the earlier |
| `Leasing.SpiLeasing.AddExpiryTimeout` | atk-adaptor/accessible-leasing.c:151-168 | A timer is armed only if none is pending and the queue is non-empty, for the head |
| `Leasing.SpiLeasing.TakeLease` | atk-adaptor/accessible-leasing.c:182-227 | Queue, hash, timer and references after a lease or a re-lease |
| `Leasing.SpiLeasing.PopHead` | atk-adaptor/accessible-leasing.c:118-127 | One round of the revoking loop |
| `Leasing.SpiLeasing.ExpiryFunc` | atk-adaptor/accessible-leasing.c:107-136 | The loop and the re-arming leave exactly the specified state |
| `PathCodec.PathRoundTrip` | atk-adaptor/accessible-register.c:50-54 | Every non-zero 32-bit reference survives printing with "%d" and parsing with the prefix skip and atoi, also from 2^31 on |
| `PathCodec.NeverRootPath` | atk-adaptor/accessible-register.c:256-258 | No printed reference is the root path, and the root path parses as the root |
| `PathCodec.PathsDistinct` | atk-adaptor/accessible-register.c:179-183 | Two references have the same path iff they are equal |
| `PathCodec.AtoiExact` | atk-adaptor/accessible-register.c:254-262 | What is read from any text: white space, one sign and a decimal numeral count, nothing after them does |
| `PathCodec.DigitsNumeral` | atk-adaptor/accessible-register.c:179-183 | What is printed for a number is its decimal numeral without leading zeros |
| `PathCodec.PathsWritten` | atk-adaptor/accessible-register.c:50-54 | The root path, the path of reference 42 and that of 2^32 - 1, written out |
| `Register.EnsureRefKeepsValid` | atk-adaptor/accessible-register.c:217-234 | With at most 2^32 - 1 registrations ids stay unique and non-zero, the table inverts them, and exactly the registered objects carry the weak reference |
| `Register.DeregisterKeepsValid` | atk-adaptor/accessible-register.c:193-215 | Deregistration keeps that invariant |
| `Register.DeregisterOnlyOne` | atk-adaptor/accessible-register.c:193-215 | Deregistration unregisters the one object and no other |
| `Register.DestroyedOnlyOne` | atk-adaptor/accessible-register.c:120-126 | Destruction takes id and registration from the one object and from no other |
| `Register.DestroyedKeepsValid` | atk-adaptor/accessible-register.c:120-126 | Destruction keeps the invariant and removes exactly the entry of that object |
| `Register.EnsureRefKeepsLinked` | atk-adaptor/accessible-register.c:217-234 | Also after the counter has wrapped, a registration keeps every table entry leading to an object that carries its reference and a weak reference |
| `Register.DeregisterKeepsLinked` | atk-adaptor/accessible-register.c:193-215 | So does deregistration |
| `Register.DestroyedKeepsLinked` | atk-adaptor/accessible-register.c:120-126 | So does destruction, which leaves no entry for the object |
| `Register.EnsureRefKeepsMeaning` | atk-adaptor/accessible-register.c:281-303 | Further exports change nothing about a reference handed out |
| `Register.EndingKeepsMeaning` | atk-adaptor/accessible-register.c:194-215 | A reference is retired only by the end of its own object, and stays retired |
| `Register.ResolveIssued` | atk-adaptor/accessible-register.c:244-266 | The path of a reference resolves to the table entry, or to nothing |
| `Register.RootResolves` | atk-adaptor/accessible-register.c:243-258 | The root path leads to the root whatever is registered, a path without the prefix to nothing |
| `Register.ParseCases` | atk-adaptor/accessible-register.c:243-262 | A path is foreign iff it lacks the prefix, the root path iff it is that, and otherwise a number |
| `Register.RefReusedIff` | atk-adaptor/accessible-register.c:155-163 | The reference of the m-th registration is assigned again exactly 2^32 - 1 registrations later, not before |
| `Register.ValidOwns` | atk-adaptor/accessible-register.c:217-234 | Among the first 2^32 - 1 registrations every registered object has its reference to itself |
| `Register.RegistrationOwnsIff` | atk-adaptor/accessible-register.c:217-234 | At any count a registration gives the object a reference of its own iff no object still carries that reference from before |
| `Register.SharedReferenceDies` | atk-adaptor/accessible-register.c:193-234 | If one still does, the end of that object makes the newcomer's path lead nowhere |
| `Register.EnsureRefKeepsHolder` | atk-adaptor/accessible-register.c:217-234 | A registration takes a reference from its holder only when the counter has come round to it |
| `Register.EndingKeepsHolder` | atk-adaptor/accessible-register.c:193-215 | The end of an object ends its own reference and leaves a reference held by another alone |
| `Register.WrappedCounterStealsPath` | atk-adaptor/accessible-register.c:155-163 | Once the counter has come round to a reference still in use, the old path leads to the newcomer; otherwise it does not |
| `Register.SpiRegister.AssignReference` | atk-adaptor/accessible-register.c:155-163 | The wrapped counter, never zero |
| `Register.SpiRegister.RegisterObject` | atk-adaptor/accessible-register.c:217-234 | Counter, table, id and weak reference after a registration, which is announced |
| `Register.SpiRegister.DeregisterObject` | atk-adaptor/accessible-register.c:193-215 | State after deregistration, and when it is announced |
| `Register.SpiRegister.PathToObject` | atk-adaptor/accessible-register.c:243-266 | The root path gives the root, a path without the prefix nothing, any other the table entry of the number read after the prefix |
| `Register.SpiRegister.ObjectToPath` | atk-adaptor/accessible-register.c:280-303 | Null, the root, a known object and an unknown one, which alone is registered and announced |
| `Lifetime.LeaseObjectIfNeeded` | atk-adaptor/object.c:58-65 | Only an object that is not cached is leased |
| `Lifetime.AppendReference` | atk-adaptor/object.c:92-120 | The path written, and what exporting does to the lease queue and the register; a null object or no bus gives the null path and changes nothing |
| `Lifetime.DefunctListener` | atk-adaptor/event.c:735-756 | A defunct object is exported once more, then deregistered, and dropped by the cache |
| `Lifetime.DefunctLeaves` | atk-adaptor/accessible-cache.c:174-194 | A defunct object other than the root leaves both the register and the cache |
| `Lifetime.RunKeepsCache` | atk-adaptor/accessible-cache.c:128-335 | In every run, without any bound: weak references of the cache exact, references taken = references released + queue entries |
| `Lifetime.RunKeepsIndex` | atk-adaptor/accessible-leasing.c:107-227 | In every run, without any bound: lease queue, hash and references agree |
| `Lifetime.RunKeepsLeases` | atk-adaptor/accessible-leasing.c:107-227 | In every run that takes its leases below the clock horizon the leases are moreover sorted and a timer is pending, due no later than the head |
| `Lifetime.RunKeepsCount` | atk-adaptor/accessible-register.c:155-163 | In every run, without any bound: the counter is the reference of the last registration |
| `Lifetime.RunKeepsRegister` | atk-adaptor/accessible-register.c:193-303 | In every run with at most 2^32 - 1 registrations, whatever the clock, ids and table invert each other and exactly the registered objects carry the weak reference |
| `Lifetime.StepKeepsSafe` | atk-adaptor/object.c:58-120 | Every step keeps this: whatever cache, lease queue and register point to exists, except a queued null |
| `Lifetime.RunKeepsSafe` | atk-adaptor/object.c:58-120 | So does every run, without any bound |
| `Lifetime.ReachableIsSafe` | atk-adaptor/object.c:58-120 | So every state reached from the start is safe and its counter counts; if the run takes its leases below the clock horizon its leases, and with at most 2^32 - 1 registrations its register, are valid |
| `Lifetime.RunKeepsQueued` | atk-adaptor/accessible-cache.c:174-194 | In every run a queued object stays queued, with a batch pending, until a batch or until it goes defunct |
| `Lifetime.OnlyAnnouncedQueued` | atk-adaptor/accessible-cache.c:339-443 | Only a child announced with a detail beginning with "add", or a top-level, by a cached parent is ever queued |
| `Lifetime.BatchStepCaches` | atk-adaptor/accessible-cache.c:276-335 | A batch, and the initial traversal, which begins at the root as well, caches exactly what the callbacks' answers put below the queue |
| `Lifetime.AnnouncedChildGetsCached` | atk-adaptor/accessible-cache.c:286-443 | In every run a child or top-level announced by a cached parent that does not go defunct is cached by the next batch unless it is transient by then |
| `Lifetime.ExportedObjectLives` | atk-adaptor/object.c:58-105 | An object not cached when exported is leased, strongly referenced and alive after any run that ends within 15 seconds of the export and takes no lease on that object beyond the clock horizon, however many registrations it holds |
| `Lifetime.LeaseTimeIsMinimumIff` | atk-adaptor/accessible-leasing.c:172-227 | An object not cached when exported at t is leased at the end of every run from a safe state within the lease time iff t + 15 s lies below the clock horizon |
| `Lifetime.LeaseCutShort` | atk-adaptor/accessible-leasing.c:196-219 | From the start, an object exported at any t and again beyond the horizon is released by the timer at that very clock reading |
| `Lifetime.ExportLeasesIffUncached` | atk-adaptor/object.c:44-65 | An export leaves an object leased iff it already was or is not cached |
| `Lifetime.StepLeasesIff` | atk-adaptor/object.c:58-65 | Of all steps but the timer only exports, defunct objects and emissions other than children-changed lease, and only uncached objects |
| `Lifetime.FiringReleases` | atk-adaptor/accessible-leasing.c:107-136 | The timer's step takes away exactly the leases that are due |
| `Lifetime.OnlyTickCanBeLate` | atk-adaptor/accessible-leasing.c:152-168 | No step but the passing of time can make a pending timer late, as long as leases are taken below the clock horizon |
| `Lifetime.NoLeaseOutlivesItsSecond` | atk-adaptor/accessible-leasing.c:107-168 | In runs that take their leases below the clock horizon and serve timers in their second, every lease held has a timer due no later than it, and is due in the present second or the next sixteen |
| `Lifetime.UnreferencedNotQueued` | atk-adaptor/accessible-cache.c:295-330 | An object without strong references is in neither queue, so destroying it leaves nothing dangling |
| `Lifetime.StepMeaning` | atk-adaptor/accessible-register.c:193-303 | Within the first 2^32 - 1 registrations a step leaves an issued reference alone unless it ends its object |
| `Lifetime.RunMeaning` | atk-adaptor/accessible-register.c:193-303 | Over runs within the first 2^32 - 1 registrations a reference once retired stays retired, and one that leads to an object does so until that object ends |
| `Lifetime.RunKeepsHolder` | atk-adaptor/accessible-register.c:155-303 | Over every run with fewer than 2^32 - 1 registrations since the m-th, its reference leads to its holder until that ends, then to nothing, and no other object carries it |
| `Lifetime.IssuedPathIsSafe` | atk-adaptor/accessible-register.c:193-303 | In any run with fewer than 2^32 - 1 registrations since the object's own, however many before and whatever the clock, a path resolves to its own object until that object goes defunct or is destroyed, then to nothing, never to another object, even if the address is reused |
| `Lifetime.NewcomerTakesPathIff` | atk-adaptor/accessible-register.c:155-234 | The export of a new object takes the path over iff it is the (2^32 - 1)-th registration since the object's own |
| `Lifetime.IssuedPathIsSafeIff` | atk-adaptor/accessible-register.c:155-303 | For the m-th registration the path is safe in all runs from safe states with up to n registrations iff n < m + 2^32 - 1 |
| `Lifetime.ExportedPathResolves` | atk-adaptor/object.c:92-120 | The path written for an object not cached resolves to the object, which exists, in every run within the lease time (leases on it below the horizon, registrations since its own below 2^32 - 1) until the object goes defunct, then to nothing |
| `Lifetime.ExportOwns` | atk-adaptor/object.c:105-108 | Within the first 2^32 - 1 registrations the export of an object that was not deregistered gives it a reference of its own |
| `Lifetime.ExportRegistersIff` | atk-adaptor/object.c:105-108 | Exporting an object other than the root leaves it registered iff it does not already carry the id of an ended registration |
| `Lifetime.RunDeregisters` | atk-adaptor/accessible-register.c:193-215 | Over any run with at most 2^32 - 1 registrations an object is without registration but with an id exactly as its defunct and destroy steps say |
| `Lifetime.PrintedPathDeadIff` | atk-adaptor/accessible-register.c:167-215 | After any run with at most 2^32 - 1 registrations the path an object prints resolves to nothing iff the object now at that address was deregistered, and otherwise to the object |
| `Lifetime.DeregisteredAfterIff` | atk-adaptor/event.c:735-756 | That is so iff the last ending of the object in the run was going defunct, or it was so before and the run holds no ending of it |
| `Lifetime.NewObjectPathDeadIff` | atk-adaptor/accessible-register.c:167-215 | An object without an id at first and not destroyed in the run prints a dead path iff it went defunct in the run |
| `TextGeometry.ExtentsWidth` | atk/atktext.c:715-732 | At a proper offset the width is never negative; without an implementor the box is (-2, -1, 1, -1) |
| `TextGeometry.ExtentsKeepSides` | atk/atktext.c:725-732 | Turning over a negative width keeps both vertical sides in place |
| `TextGeometry.UnionMeaning` | atk/atktext.c:1356-1386 | A box of width -1 counts as none; the union of two others contains both and each of its sides is one of theirs |
| `TextGeometry.RectangleUnion` | atk/atktext.c:1356-1386 | The destination holds the union of the sources as they were, also when it is one of them |
| `TextGeometry.ExtentsTight` | atk/atktext.c:1495-1512 | The fold contains every character box and each of its sides touches one |
| `TextGeometry.ExtentsSplit` | atk/atktext.c:1485-1513 | The extents of [a,c) are the union of those of [a,b) and [b,c) |
| `TextGeometry.RealGetRangeExtents` | atk/atktext.c:1485-1513 | The in-place, aliased loop computes the fold |
| `TextGeometry.GetRangeExtents` | atk/atktext.c:1099-1122 | Within the guard the rectangle becomes the tight bounding box under the default implementation, -1 throughout when there is none, and the override's answer otherwise; outside the guard it is untouched |
| `TextGeometry.ClipMeaning` | atk/atktext.c:1388-1417 | For non-negative sizes a box passes iff it meets the clip rectangle and does not stick out on a side that is clipped against |
| `TextGeometry.ClipMeaningAnySize` | atk/atktext.c:1388-1417 | For all sizes, negative ones too: on each axis the box, between its two sides, reaches the clip rectangle, and a side clipped against keeps within |
| `TextGeometry.BothClipIffInside` | atk/atktext.c:1388-1417 | Clipped on both sides it passes iff it lies inside, whatever the sizes |
| `TextGeometry.StricterPassesFewer` | atk/atktext.c:1396-1416 | A stricter clip type lets a subset of the offsets pass |
| `TextGeometry.RealGetBoundedRanges` | atk/atktext.c:1515-1589 | The null-terminated array lists exactly the maximal runs of passing offsets between the line bounds, no array meaning none, iff the early return is not taken or no offset passes anyway; past the early return every passing offset of either corner line is found; each range has its text and extents; all writes stay inside the grown array |
| `TextGeometry.SearchSpansLines` | atk/atktext.c:1541-1550 | The search runs from the earlier beginning to the later end of the two corners' lines |
| `TextGeometry.GivesUpIff` | atk/atktext.c:1534-1539 | The search is given up iff both corners fall on offset zero |
| `TextGeometry.CallbacksOrDefaults` | atk/atktext.c:1534-1548 | Without an implementor the offset at a point is -1 and the line is (0, 0) |
| `TextGeometry.BothLinesFound` | atk/atktext.c:1541-1588 | Every passing offset of either corner's line lies in a range of the result, and no range leaves the span of the two lines |
| `TextGeometry.DescribedMeaning` | atk/atktext.c:1568-1574 | A range carries the implementor's text, if any, and by default its tight box |
| `TextGeometry.NothingIsRightIff` | atk/atktext.c:1537-1539 | To return nothing is right iff no offset between the bounds passes |
| `TextGeometry.RunEnd` | atk/atktext.c:1557-1566 | The inner loop stops at the end of the run of passing offsets |
| `TextGeometry.Append` | atk/atktext.c:1576-1582 | Appending grows the array when only the terminator's place is left and keeps what it holds |
| `TextGeometry.RunsUnique` | atk/atktext.c:1552-1588 | The description of the ranges fits one list of offsets only |
| `TextGeometry.ClippedBoundsInside` | atk/atktext.c:1557-1574 | Under clipping on both sides the default bounds of every range lie inside the clip rectangle |
| `TextGeometry.EarlyReturnLosesRuns` | atk/atktext.c:1537-1539 | A query whose corners both fall on offset zero and for which an offset passes: nothing is returned |
| `EventNames.UpperExact` | atk-adaptor/event.c:358-364 | The 26 letters are raised one by one, every other character stays |
| `EventNames.SignalNameExact` | atk-adaptor/event.c:351-366 | For every name: all characters but the dashes, in order, raised at the beginning and after a dash |
| `EventNames.ProperFormatExact` | atk-adaptor/event.c:372-401 | For every name: all characters but the dashes that are not about to be raised, in order, raised where the flag is set |
| `EventNames.SignalNameToDbus` | atk-adaptor/event.c:351-366 | The in-place loop ends with no dash left, holding exactly those characters and their terminator |
| `EventNames.RemoveDash` | atk-adaptor/event.c:360-364 | One round of the loop: the string without the dash at this place, the next character raised |
| `EventNames.DashRemoved` | atk-adaptor/event.c:360-364 | Such a round, at the first dash, does not change what the name compacts to |
| `EventNames.EnsureProperFormat` | atk-adaptor/event.c:372-401 | The one-pass converter computes exactly those characters, no more than the input has |
| `EventNames.NamesAgreeIff` | atk-adaptor/event.c:351-401 | The two converters agree iff no dash or colon-raised letter stands where the one-pass converter is about to raise a character |
| `EventNames.CleanNamesAgree` | atk-adaptor/event.c:351-401 | They agree on every name without leading dash, double dash and colon |
| `EventNames.WordsJoined` | atk-adaptor/event.c:368-371 | On names of the documented form, words joined by single dashes, both converters give the words joined with first letters raised |
| `EventNames.ConvertersDiffer` | atk-adaptor/event.c:351-401 | A leading dash is removed by the one and kept by the other |
| `EventNames.SignalNameHasNoDash` | atk-adaptor/event.c:544-549 | A signal name holds no dash, as the D-Bus Specification demands of member names |
| `Subscriptions.PiecesJoin` | atk-adaptor/bridge.c:72-72 | The pieces of a subscription joined by colons give it back |
| `Subscriptions.PiecesCount` | atk-adaptor/bridge.c:72-72 | There are at most three pieces, and only the last may hold a colon |
| `Subscriptions.SplitEventExact` | atk-adaptor/bridge.c:72-72 | A subscription is cut at its first two colons, if it has them; the empty one has no pieces |
| `Subscriptions.SpiEventIsSubtype` | atk-adaptor/event.c:1527-1538 | The loop decides whether the non-empty leading pieces of the subscription are a prefix of the event |
| `Subscriptions.MatchesExact` | atk-adaptor/event.c:1527-1538 | An event matches iff it has every piece of the subscription before the subscription's first empty one |
| `Subscriptions.MatchingIsPreorder` | atk-adaptor/event.c:1527-1538 | Matching is reflexive, transitive, and antisymmetric up to the part that is compared |
| `Subscriptions.RemainingExact` | atk-adaptor/bridge.c:830-852 | Exactly the sender's subscriptions below the pattern are removed |
| `Subscriptions.RemainingCount` | atk-adaptor/bridge.c:830-852 | A subscription of the sender below the pattern is gone; any other stays as often as it was there |
| `Subscriptions.RemainingConcat` | atk-adaptor/bridge.c:830-852 | What remains keeps its order |
| `Subscriptions.StandsIffSurvives` | atk-adaptor/bridge.c:818-855 | Over whole runs a subscription stands iff it was added and not removed since |
| `Subscriptions.ListenerIffSurvivor` | atk-adaptor/event.c:468-478 | After any run of additions and removals the scan finds a listener iff a subscription added and not removed since matches |
| `Subscriptions.ListenerGetsItsSignal` | atk-adaptor/event.c:437-478 | For a listener that names the signal, the signal sent has that name iff the two converters agree on it |
| `Subscriptions.DefunctAlwaysSent` | atk-adaptor/event.c:445-454 | Going defunct is let through whatever the object's states |
| `Subscriptions.SentByAtkName` | atk-adaptor/event.c:443-461 | With nobody subscribed: children-changed is sent iff defunct or the object does not manage its descendants, state-changed iff defunct or it is not transient, text-changed never |
| `Subscriptions.PropertySentByAtkName` | atk-adaptor/event.c:446-461 | With nobody subscribed property-change is sent iff the property is one of accessible-name, -description, -parent, -role and the object is not transient |
| `Subscriptions.SentUnaskedIff` | atk-adaptor/event.c:443-461 | The same for every name, by what it converts to |
| `Subscriptions.FormattedExact` | atk-adaptor/event.c:437-465 | Listeners see the interface name without its first 21 characters and the raised words of major and minor, the latter without what follows its colon |
| `Subscriptions.NewOnesExact` | atk-adaptor/event.c:403-423 | What is appended is each new property once |
| `Subscriptions.NewOnesConcat` | atk-adaptor/event.c:403-423 | New properties come in the order of their first occurrence |
| `Subscriptions.Bridge.AddClient` | atk-adaptor/bridge.c:1414-1430 | Clients stay distinct, the first one starts the ATK listeners |
| `Subscriptions.Bridge.RemoveClient` | atk-adaptor/bridge.c:1433-1457 | The client is gone, the order of the rest kept, and the last one stops the ATK listeners |
| `Subscriptions.Bridge.AddEvent` | atk-adaptor/bridge.c:64-82 | The subscription goes to the end of the list and its sender is a client |
| `Subscriptions.Bridge.RemoveEvents` | atk-adaptor/bridge.c:818-855 | The walk that deletes in place leaves exactly the remaining subscriptions |
| `Subscriptions.Bridge.AppendProperties` | atk-adaptor/event.c:403-423 | What was there stays in front; of the requested properties those not there yet follow, once each, in the order of their first occurrence |
| `Subscriptions.Bridge.MatchListeners` | atk-adaptor/event.c:468-478 | The scan succeeds iff some subscription matches, and collects what the matching ones request, once each, in list order |
| `Subscriptions.Bridge.SignalIsNeeded` | atk-adaptor/event.c:425-485 | An event is sent iff subscriptions are not yet known, or it updates caches and the states allow it, or a subscription matches |
| `Relations.SetAddExact` | atk/atkrelationset.c:184-214 | Adding a relation adds its pairs and no others, and keeps one relation for each type |
| `Relations.WithTargetsConcat` | atk/atkrelationset.c:203-213 | Targets are added in their order |
| `Relations.AddingMemberChangesNothing` | atk/atkrelationset.c:184-214 | Adding a relation that is a member already changes nothing |
| `Relations.SetRemoveExact` | atk/atkrelationset.c:155-168 | Removing a relation that is not a member removes its pairs and no others |
| `Relations.AddPairExact` | atk/atkobject.c:1661-1681 | Adding a relationship relates that pair and changes no other |
| `Relations.RemovePairExact` | atk/atkobject.c:1694-1715 | Removing a relationship unrelates that pair and changes no other |
| `Relations.RemovePairDropsEmptied` | atk/atkobject.c:1704-1713 | Afterwards there is a relation of the type iff another target was related, and it is not empty |
| `Relations.ObjectGoneExact` | atk/atkrelation.c:306-316 | A destroyed target is unrelated everywhere, and nothing else is |
| `Relations.TargetGoneGood` | atk/atkrelation.c:306-316 | The weak callbacks leave a relation as if the target had been removed |
| `Relations.RunRefines` | atk/atkobject.c:1661-1715 | Over all runs the relation set is a set of pairs, with one relation for each type, distinct targets and one weak reference for each |
| `Relations.RunNoneEmpty` | atk/atkobject.c:1661-1715 | Unless targets are destroyed no run leaves an empty relation |
| `Relations.AtkRelation.AddTarget` | atk/atkrelation.c:329-345 | The target goes to the end of the array, with its weak reference, unless present |
| `Relations.AtkRelation.RemoveTarget` | atk/atkrelation.c:357-374 | The target and its weak reference go, and the result tells whether it was there |
| `Relations.AtkRelation.DeleteObjectWhileInRelation` | atk/atkrelation.c:306-316 | The callback takes the object out of the array; one call leaves a good relation as the object's destruction does |
| `Relations.AtkRelationSet.GetRelationByType` | atk/atkrelationset.c:275-295 | The first relation of the type, or null |
| `Relations.AtkRelationSet.Contains` | atk/atkrelationset.c:107-127 | Whether there is a relation of the type |
| `Relations.AtkRelationSet.ContainsTarget` | atk/atkrelationset.c:373-408 | Whether the pair is related |
| `Relations.AtkRelationSet.Add` | atk/atkrelationset.c:183-214 | A relation of a new type becomes a member; otherwise its targets are added to the one there |
| `Relations.AtkRelationSet.Remove` | atk/atkrelationset.c:138-170 | A member is taken out; otherwise its targets are removed from the relation of its type |
| `Relations.AtkRelationSet.AddRelationByType` | atk/atkrelationset.c:334-357 | The same as adding a relation with the one target |
| `Relations.AddRelationship` | atk/atkobject.c:1660-1681 | Returns whether the pair was absent; afterwards it is related |
| `Relations.RemoveRelationship` | atk/atkobject.c:1693-1715 | Returns whether the pair was present; afterwards there is a relation of the type iff another target was related |
| `FactoryRegistry.AncestorIff` | atk/atkregistry.c:187-199 | Ancestors are what a climb by the type system's parents reaches |
| `FactoryRegistry.ResolveNearest` | atk/atkregistry.c:183-203 | Resolution gives the factory of the nearest registered ancestor-or-self, and none iff there is none |
| `FactoryRegistry.OverrideIsLocal` | atk/atkregistry.c:131-163 | Associating a factory with a type changes the answer exactly for the types whose nearest registered ancestor-or-self is then that type |
| `FactoryRegistry.BecomesNearestIff` | atk/atkregistry.c:131-163 | Those are the descendants with no registered type strictly between |
| `FactoryRegistry.AtkRegistry.SetFactoryType` | atk/atkregistry.c:131-163 | The table after an association, including a replaced one |
| `FactoryRegistry.AtkRegistry.GetFactoryType` | atk/atkregistry.c:176-203 | The loop climbs to the nearest registered ancestor-or-self |

## Left out

- D-Bus message building, pending calls, sockets, process inspection and main-context switching: plumbing around the modelled steps.
- Readiness of the subscription list (`atk-adaptor/bridge.c:86-99`): `eventsInitialized` is an input, because the counting of replies depends on the other side.
- ATK interface dispatchers, GType boilerplate, signal registration and the client library: no logic of their own beyond a table lookup.
- Role and state tables and the 64-bit state sets: finite enumerations.
- Threads: the cache's recursive mutex is taken to serialise its listeners, and each callback is one step.
- Disposal and finalisation of the lease queue, the cache and the register: the invariants hold up to there. In particular the wrong key removed at `atk-adaptor/accessible-leasing.c:95` is outside the model.
- The main loop's timer precision: GLib is not part of this model. `Lifetime.NoLeaseOutlivesItsSecond` assumes a timer served within its second; `Lifetime.ExportedObjectLives` assumes nothing about when timers run.
- The root object is never destroyed, and its pointer is not null.
- Two clock readings within one call: `expiry_func` and the timeout it arms each read the clock; one reading serves both.
- Overflow of screen coordinates, which is undefined in C: coordinates are unbounded.
- Relations created with the same target twice through the public constructor: `Relations.AtkRelationSet.Add` keeps distinctness only when the added relation has distinct targets, as all those of `atk/atkobject.c` have.
- The singleton factories of the registry and their invalidation: resolution of types is proved, not the life of instances.
- The session-bus owner handler (`atk-adaptor/bridge.c:1182-1206`) registers and deregisters the ATK listeners whatever the clients are. It breaks the listening half of `Subscriptions.Bridge.Valid`, which holds for the client operations alone.
- Destruction in the middle of a batch or of a signal's emission: a batch and a signal are one step each, so an object whose last reference they release is destroyed after them.
- Property definitions are pointers; looking up their functions by name (`atk-adaptor/bridge.c:129-187`) is not modelled.
- Cache.SpiCache.AddPendingItems: requires that no cycle is reachable, which is exactly when the loop ends (`Traversal.TerminatesIffAcyclic`).
- Subscriptions.Bridge.SignalIsNeeded: the interface name is empty or at least 21 characters long, because the code skips that many.
