/**
  The register of atk-adaptor/accessible-register.c: it gives every exported object a 32-bit reference
  and maps references back to objects.
 */
module Register {
  import opened Common
  import opened PathCodec

  /** The number of references handed out before the counter repeats itself. */
  const MAX_REFS := TWO_32 - 1

  /**
    `ids` is the "spi-dbus-id" data stored on each live object, `weak` the weak references held with the
    callback deregister_object, and `issued` how many references were ever assigned.
   */
  datatype RegState = RegState(
    counter: nat, table: map<nat, Obj>, ids: map<Obj, nat>, weak: multiset<Obj>, issued: nat)

  const EMPTY := RegState(0, map[], map[], multiset{}, 0)

  /** assign_reference: the counter wraps at 32 bits and skips zero. */
  function NextRef(counter: nat): nat {
    var c := Wrap32(counter + 1);
    if c == 0 then 1 else c
  }

  /** object_to_ref: zero when the object carries no id. */
  function ObjectToRef(s: RegState, o: Obj): nat {
    if o in s.ids then s.ids[o] else 0
  }

  /** register_object */
  function AddObject(s: RegState, o: Obj): RegState {
    var ref := NextRef(s.counter);
    RegState(ref, s.table[ref := o], s.ids[o := ref], s.weak + multiset{o}, s.issued + 1)
  }

  /** The state after spi_register_object_to_path for an object other than the root. */
  function EnsureRef(s: RegState, o: Obj): RegState {
    if ObjectToRef(s, o) == 0 then AddObject(s, o) else s
  }

  /** spi_register_deregister_object. The id stays on the object. */
  function Deregister(s: RegState, o: Obj, unref: bool): RegState {
    var ref := ObjectToRef(s, o);
    if ref == 0 then s
    else s.(table := s.table - {ref}, weak := if unref then s.weak - multiset{o} else s.weak)
  }

  /** The object is disposed of: its weak callbacks run, then its data disappears with it. */
  function Destroyed(s: RegState, o: Obj): RegState {
    var t := if s.weak[o] > 0 then Deregister(s, o, false) else s;
    t.(ids := t.ids - {o}, weak := t.weak[o := 0])
  }

  /** spi_register_path_to_object */
  function Resolve(s: RegState, path: string, root: Obj): Option<Obj> {
    match ParsePath(path)
    case Foreign => None
    case Root => Some(root)
    case Ref(ref) => if ref in s.table then Some(s.table[ref]) else None
  }

  // ---------------------------------------------------------------- invariant

  predicate Registered(s: RegState, o: Obj) {
    o in s.ids && s.ids[o] in s.table && s.table[s.ids[o]] == o
  }

  /** Ids are non-zero, were assigned, and no two live objects share one. */
  ghost predicate IdsUnique(s: RegState) {
    && (forall o :: o in s.ids ==> 1 <= s.ids[o] <= s.counter)
    && (forall o, p :: o in s.ids && p in s.ids && s.ids[o] == s.ids[p] ==> o == p)
  }

  /** The table inverts the ids of the objects it holds. */
  ghost predicate TableInverts(s: RegState) {
    forall ref :: ref in s.table ==> s.table[ref] in s.ids && s.ids[s.table[ref]] == ref
  }

  /** Exactly the registered objects carry the register's weak reference, one each. */
  ghost predicate WeakExact(s: RegState) {
    forall o :: s.weak[o] == if Registered(s, o) then 1 else 0
  }

  ghost predicate Valid(s: RegState) {
    && s.counter == s.issued <= MAX_REFS
    && IdsUnique(s)
    && TableInverts(s)
    && WeakExact(s)
  }

  /** The counter steps by one until it wraps to one. */
  lemma NextRefCases(counter: nat)
    requires counter <= MAX_REFS
    ensures NextRef(counter) == if counter < MAX_REFS then counter + 1 else 1
  {
  }

  lemma EnsureRefKeepsValid(s: RegState, o: Obj)
    requires Valid(s)
    requires EnsureRef(s, o).issued <= MAX_REFS
    ensures Valid(EnsureRef(s, o))
    ensures o in EnsureRef(s, o).ids
  {
    if o !in s.ids {
      NextRefCases(s.counter);
      var t := AddObject(s, o);
      forall p ensures t.weak[p] == if Registered(t, p) then 1 else 0 {
        assert s.weak[p] == if Registered(s, p) then 1 else 0;
      }
    }
  }

  /** Deregistering affects the one object only. */
  lemma DeregisterOnlyOne(s: RegState, o: Obj, unref: bool)
    requires IdsUnique(s)
    ensures !Registered(Deregister(s, o, unref), o)
    ensures forall p :: p != o ==> (Registered(Deregister(s, o, unref), p) <==> Registered(s, p))
  {
  }

  lemma DeregisterKeepsValid(s: RegState, o: Obj)
    requires Valid(s)
    ensures Valid(Deregister(s, o, true))
  {
    DeregisterOnlyOne(s, o, true);
    var t := Deregister(s, o, true);
    assert TableInverts(t);
    forall p ensures t.weak[p] == if Registered(t, p) then 1 else 0 {
      assert s.weak[p] == if Registered(s, p) then 1 else 0;
    }
  }

  /** Destroying an object affects that object only. */
  lemma DestroyedOnlyOne(s: RegState, o: Obj)
    requires IdsUnique(s)
    ensures o !in Destroyed(s, o).ids
    ensures forall p :: p != o ==> (p in Destroyed(s, o).ids <==> p in s.ids)
    ensures forall p :: p != o && p in s.ids ==> Destroyed(s, o).ids[p] == s.ids[p]
    ensures forall p :: p != o ==> (Registered(Destroyed(s, o), p) <==> Registered(s, p))
  {
  }

  lemma DestroyedKeepsValid(s: RegState, o: Obj)
    requires Valid(s)
    ensures Valid(Destroyed(s, o))
    ensures o !in Destroyed(s, o).ids
    ensures forall ref :: ref in Destroyed(s, o).table <==> ref in s.table && s.table[ref] != o
    ensures forall ref :: ref in Destroyed(s, o).table ==> Destroyed(s, o).table[ref] == s.table[ref]
  {
  }

  /**
    What holds even after the counter has wrapped: a table entry leads to an object that carries its
    reference and whose destruction the register will hear of.
   */
  ghost predicate Linked(s: RegState) {
    && TableInverts(s)
    && (forall o :: o in s.ids ==> s.ids[o] != 0)
    && (forall ref :: ref in s.table ==> s.weak[s.table[ref]] > 0)
  }

  lemma EnsureRefKeepsLinked(s: RegState, o: Obj)
    requires Linked(s)
    ensures Linked(EnsureRef(s, o))
    ensures EnsureRef(s, o).ids.Keys == s.ids.Keys + {o}
  {
  }

  lemma DeregisterKeepsLinked(s: RegState, o: Obj)
    requires Linked(s)
    ensures Linked(Deregister(s, o, true))
  {
  }

  lemma DestroyedKeepsLinked(s: RegState, o: Obj)
    requires Linked(s)
    ensures Linked(Destroyed(s, o))
    ensures Destroyed(s, o).ids.Keys == s.ids.Keys - {o}
  {
  }

  // ---------------------------------------------------------------- what a reference means

  /** A reference was never handed out, leads to an object, or was handed out and leads nowhere any more. */
  datatype Status = Unissued | Leads(o: Obj) | Retired

  function StatusOf(s: RegState, ref: nat): Status {
    if ref in s.table then Leads(s.table[ref])
    else if 1 <= ref <= s.counter then Retired
    else Unissued
  }

  /** Further exports change nothing about a reference already handed out. */
  lemma EnsureRefKeepsMeaning(s: RegState, p: Obj, ref: nat)
    requires Valid(s) && EnsureRef(s, p).issued <= MAX_REFS
    requires StatusOf(s, ref) != Unissued
    ensures StatusOf(EnsureRef(s, p), ref) == StatusOf(s, ref)
  {
    NextRefCases(s.counter);
    assert ref in s.table ==> s.ids[s.table[ref]] == ref;
  }

  /** The end of an object retires the reference that leads to it, and no other. */
  lemma EndingKeepsMeaning(s: RegState, p: Obj, ref: nat)
    requires Valid(s)
    ensures var after := if StatusOf(s, ref) == Leads(p) then Retired else StatusOf(s, ref);
            StatusOf(Deregister(s, p, true), ref) == after && StatusOf(Destroyed(s, p), ref) == after
  {
    assert ref in s.table ==> s.ids[s.table[ref]] == ref;
  }

  /** A path that is not below the prefix, the root path, and any other. */
  lemma ParseCases(path: string)
    ensures ParsePath(path) == Foreign <==> !(PREFIX <= path)
    ensures ParsePath(path) == Root <==> path == ROOT_PATH
    ensures PREFIX <= path && path != ROOT_PATH ==> ParsePath(path) == Ref(AtoiAsGuint(path[|PREFIX|..]))
  {
    if PREFIX <= path {
      assert path == PREFIX + path[|PREFIX|..];
      assert ROOT_PATH[|PREFIX|..] == ROOT;
    }
  }

  /** The path every client starts from leads to the root, whatever is registered; a foreign path nowhere. */
  lemma RootResolves(s: RegState, root: Obj, path: string)
    ensures Resolve(s, ROOT_PATH, root) == Some(root)
    ensures !(PREFIX <= path) ==> Resolve(s, path, root) == None
  {
    ParseCases(ROOT_PATH);
    ParseCases(path);
  }

  /** A path handed out resolves as its reference does. */
  lemma ResolveIssued(s: RegState, ref: nat, root: Obj)
    requires 0 < ref < TWO_32
    ensures Resolve(s, RefToPath(ref), root) == if ref in s.table then Some(s.table[ref]) else None
  {
    PathRoundTrip(ref);
  }

  // ---------------------------------------------------------------- after the counter wraps

  /** The reference given to the n-th registration, counting from one. */
  function NthRef(n: nat): nat {
    if n == 0 then 0 else NextRef(NthRef(n - 1))
  }

  lemma {:induction false} NthRefAhead(m: nat, j: nat)
    requires 0 < m && j <= MAX_REFS
    ensures 1 <= NthRef(m) <= MAX_REFS
    ensures NthRef(m + j) == if NthRef(m) + j <= MAX_REFS then NthRef(m) + j else NthRef(m) + j - MAX_REFS
    decreases m + j
  {
    if j > 0 {
      NthRefAhead(m, j - 1);
      NextRefCases(NthRef(m + j - 1));
    } else if m > 1 {
      NthRefAhead(m - 1, 0);
      NextRefCases(NthRef(m - 1));
    } else {
      NextRefCases(0);
    }
  }

  /** A reference is assigned again 2^32 - 1 registrations later, and not before. */
  lemma RefReusedIff(m: nat, j: nat)
    requires 0 < m && 0 < j <= MAX_REFS
    ensures NthRef(m + j) == NthRef(m) <==> j == MAX_REFS
  {
    NthRefAhead(m, j);
  }

  /** The counter is where that many registrations put it. */
  ghost predicate Counted(s: RegState) {
    s.counter == NthRef(s.issued)
  }

  lemma EnsureRefKeepsCount(s: RegState, o: Obj)
    requires Counted(s)
    ensures Counted(EnsureRef(s, o))
  {
    assert NthRef(s.issued + 1) == NextRef(NthRef(s.issued));
  }

  /** The next reference is the m-th again exactly when it is assigned 2^32 - 1 registrations later. */
  lemma NextIsNthIff(s: RegState, m: nat)
    requires Counted(s) && 0 < m <= s.issued < m + MAX_REFS
    ensures NextRef(s.counter) == NthRef(m) <==> s.issued + 1 == m + MAX_REFS
    ensures 0 < NthRef(m) < TWO_32
  {
    NthRefAhead(m, 0);
    RefReusedIff(m, s.issued + 1 - m);
    assert NthRef(s.issued + 1) == NextRef(s.counter);
  }

  lemma {:induction false} NthRefIsCount(n: nat)
    requires n <= MAX_REFS
    ensures NthRef(n) == n
  {
    if n > 0 {
      NthRefIsCount(n - 1);
      NextRefCases(n - 1);
    }
  }

  /** No object but `o` carries the reference, whether it is still registered under it or not. */
  ghost predicate SoleCarrier(s: RegState, ref: nat, o: Obj) {
    forall p :: p in s.ids && s.ids[p] == ref ==> p == o
  }

  /** The reference leads to `o` or, once `o` has ended, to nothing; and no other object carries it. */
  ghost predicate Holds(s: RegState, ref: nat, o: Obj, ended: bool) {
    && SoleCarrier(s, ref, o)
    && if ended then ref !in s.table else Registered(s, o) && s.ids[o] == ref && s.weak[o] > 0
  }

  /** The object has the reference of the m-th registration to itself. */
  ghost predicate Owns(s: RegState, o: Obj, m: nat) {
    && Counted(s) && 0 < m <= s.issued
    && Holds(s, NthRef(m), o, false)
  }

  /** Among the first 2^32 - 1 registrations every registered object has its reference to itself. */
  lemma ValidOwns(s: RegState, o: Obj)
    requires Valid(s) && Registered(s, o)
    ensures Owns(s, o, s.ids[o])
  {
    NthRefIsCount(s.issued);
    NthRefIsCount(s.ids[o]);
    assert s.weak[o] == 1;
  }

  /** Later a registration gives it one exactly when no object is left that carries it from before. */
  lemma RegistrationOwnsIff(s: RegState, o: Obj)
    requires Counted(s) && o !in s.ids
    ensures Owns(EnsureRef(s, o), o, s.issued + 1) <==> forall p :: p in s.ids ==> s.ids[p] != NextRef(s.counter)
  {
    var t := EnsureRef(s, o);
    assert NthRef(s.issued + 1) == NextRef(s.counter) == t.ids[o];
    if Owns(t, o, s.issued + 1) {
      forall p | p in s.ids ensures s.ids[p] != NextRef(s.counter) {
        assert p in t.ids && (p != o ==> t.ids[p] == s.ids[p]);
      }
    }
  }

  /** If one is left, its end makes the newcomer's path lead nowhere. */
  lemma SharedReferenceDies(s: RegState, o: Obj, p: Obj, root: Obj)
    requires o !in s.ids && p in s.ids && s.ids[p] == NextRef(s.counter) < TWO_32
    ensures var t := EnsureRef(s, o);
            && Resolve(t, RefToPath(t.ids[o]), root) == Some(o)
            && Resolve(Deregister(t, p, true), RefToPath(t.ids[o]), root) == None
  {
    var t := EnsureRef(s, o);
    ResolveIssued(t, t.ids[o], root);
    ResolveIssued(Deregister(t, p, true), t.ids[o], root);
  }

  /** Registering takes a reference away from its holder only when the counter has come round to it. */
  lemma EnsureRefKeepsHolder(s: RegState, p: Obj, ref: nat, o: Obj, ended: bool)
    requires Holds(s, ref, o, ended) && ref != 0
    requires EnsureRef(s, p).issued > s.issued ==> NextRef(s.counter) != ref
    ensures Holds(EnsureRef(s, p), ref, o, ended)
  {
  }

  /** The end of an object ends what its own reference stands for, and nothing else. */
  lemma EndingKeepsHolder(s: RegState, p: Obj, ref: nat, o: Obj, ended: bool)
    requires Holds(s, ref, o, ended) && ref != 0
    ensures Holds(Deregister(s, p, true), ref, o, ended || p == o)
    ensures Holds(Destroyed(s, p), ref, o, ended || p == o)
  {
  }

  /**
    So the bound on registrations is needed: once the counter has come round to a reference still in
    use, that reference's old path leads to the newcomer.
   */
  lemma WrappedCounterStealsPath(s: RegState, ref: nat, o: Obj, newcomer: Obj, root: Obj)
    requires 0 < ref < TWO_32 && StatusOf(s, ref) == Leads(o) && newcomer != o
    requires newcomer !in s.ids
    ensures Resolve(s, RefToPath(ref), root) == Some(o)
    ensures Resolve(EnsureRef(s, newcomer), RefToPath(ref), root) ==
            Some(if NextRef(s.counter) == ref then newcomer else o)
  {
    ResolveIssued(s, ref, root);
    ResolveIssued(EnsureRef(s, newcomer), ref, root);
  }

  // ---------------------------------------------------------------- the object

  class SpiRegister {
    var referenceCounter: nat
    var ref2ptr: map<nat, Obj>
    var spiDbusId: map<Obj, nat>
    ghost var weak: multiset<Obj>
    ghost var issued: nat

    ghost function State(): RegState
      reads this
    {
      RegState(referenceCounter, ref2ptr, spiDbusId, weak, issued)
    }

    constructor ()
      ensures State() == EMPTY
    {
      referenceCounter, ref2ptr, spiDbusId, weak, issued := 0, map[], map[], multiset{}, 0;
    }

    method AssignReference() returns (ref: nat)
      modifies this`referenceCounter
      ensures ref == referenceCounter == NextRef(old(referenceCounter))
      ensures old(referenceCounter) < TWO_32 ==> 0 < ref < TWO_32
    {
      referenceCounter := Wrap32(referenceCounter + 1);
      if referenceCounter == 0 {
        referenceCounter := referenceCounter + 1;
      }
      ref := referenceCounter;
    }

    /** `announced` is true when the signal object-registered was emitted. */
    method RegisterObject(o: Obj) returns (announced: bool)
      modifies this
      ensures State() == AddObject(old(State()), o)
      ensures ref2ptr == old(ref2ptr)[referenceCounter := o] && spiDbusId == old(spiDbusId)[o := referenceCounter]
      ensures announced
    {
      var ref := AssignReference();
      ref2ptr := ref2ptr[ref := o];
      spiDbusId := spiDbusId[o := ref];
      weak := weak + multiset{o};
      issued := issued + 1;
      announced := true;
    }

    /** `announced` is true when the signal object-deregistered was emitted. */
    method DeregisterObject(o: Obj, unref: bool) returns (announced: bool)
      modifies this
      ensures State() == Deregister(old(State()), o, unref)
      ensures spiDbusId == old(spiDbusId)
      ensures ref2ptr == if o in spiDbusId && spiDbusId[o] != 0 then old(ref2ptr) - {spiDbusId[o]} else old(ref2ptr)
      ensures announced <==> unref && ObjectToRef(old(State()), o) != 0
    {
      var ref := if o in spiDbusId then spiDbusId[o] else 0;
      announced := false;
      if ref != 0 {
        if unref {
          announced := true;
          weak := weak - multiset{o};
        }
        ref2ptr := ref2ptr - {ref};
      }
    }

    method PathToObject(path: string, root: Obj) returns (o: Option<Obj>)
      ensures o == Resolve(State(), path, root)
      ensures path == ROOT_PATH ==> o == Some(root)
      ensures !(PREFIX <= path) ==> o == None
      ensures PREFIX <= path && path != ROOT_PATH ==>
                var index := AtoiAsGuint(path[|PREFIX|..]);
                o == if index in ref2ptr then Some(ref2ptr[index]) else None
    {
      ParseCases(path);
      match ParsePath(path)
      case Foreign => return None;
      case Root => return Some(root);
      case Ref(index) => return if index in ref2ptr then Some(ref2ptr[index]) else None;
    }

    /** `announced` is true when asking for the path registered the object. */
    method ObjectToPath(o: Obj, root: Obj) returns (path: Option<string>, announced: bool)
      modifies this
      ensures o == NULL ==> path == None
      ensures o == NULL || o == root ==> State() == old(State())
      ensures o == root && o != NULL ==> path == Some(ROOT_PATH)
      ensures o != NULL && o != root ==>
                && State() == EnsureRef(old(State()), o)
                && path == if State().ids[o] == 0 then None else Some(RefToPath(State().ids[o]))
      ensures announced <==> o != NULL && o != root && !(o in old(spiDbusId) && old(spiDbusId)[o] != 0)
      ensures !announced ==> State() == old(State())
      ensures o == root && o != NULL ==> Resolve(State(), path.value, root) == Some(root)
    {
      announced := false;
      RootResolves(State(), root, ROOT_PATH);
      if o == NULL { return None, announced; }
      if o == root { return Some(ROOT_PATH), announced; }
      var ref := if o in spiDbusId then spiDbusId[o] else 0;
      if ref == 0 {
        announced := RegisterObject(o);
        ref := spiDbusId[o];
      }
      path := if ref == 0 then None else Some(RefToPath(ref));
    }
  }
}
