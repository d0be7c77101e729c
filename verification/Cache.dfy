/**
  The cache of atk-adaptor/accessible-cache.c: a weakly held set of accessible objects, and the queue of
  strongly held ones that the next idle batch will traverse.
 */
module Cache {
  import opened Common
  import opened Traversal

  /**
    `idle` is true when `add_pending_idle` is non-zero. `weak` counts the weak references with the
    callback cache_weak_ref; `taken` and `released` log every strong reference the cache ever took and
    gave back.
   */
  datatype CacheState = CacheState(
    objects: set<Obj>, queue: seq<Obj>, idle: bool,
    weak: multiset<Obj>, taken: seq<Obj>, released: seq<Obj>)

  const EMPTY := CacheState({}, [], false, multiset{}, [], [])

  /** Queues an object whose reference the cache has just taken. */
  function Enqueue(s: CacheState, o: Obj): CacheState {
    s.(queue := s.queue + [o], taken := s.taken + [o], idle := true)
  }

  /** child_added_listener */
  function ChildAdded(s: CacheState, parent: Obj, detail: Option<string>, child: Obj): CacheState {
    if parent in s.objects && detail.Some? && "add" <= detail.value && child != NULL
    then Enqueue(s, child) else s
  }

  /**
    toplevel_added_listener: `child` is the signal's argument, or, when that is not an accessible, what
    the parent returned for the index, possibly nothing.
   */
  function ToplevelAdded(s: CacheState, parent: Obj, child: Option<Obj>): CacheState {
    if parent in s.objects then Enqueue(s, if child.Some? then child.value else NULL) else s
  }

  /** remove_object: drops the cached entry, or else one queued entry, never both. */
  function RemoveObject(s: CacheState, o: Obj): CacheState {
    if o in s.objects then s.(objects := s.objects - {o}, weak := s.weak - multiset{o})
    else if o in s.queue then s.(queue := RemoveFirst(s.queue, o), released := s.released + [o])
    else s
  }

  /** The object is disposed of: the weak callback runs once for each weak reference. */
  function Destroyed(s: CacheState, o: Obj): CacheState {
    s.(objects := if s.weak[o] > 0 then s.objects - {o} else s.objects, weak := s.weak[o := 0])
  }

  /** The visited objects that are passed on to be added. */
  function Keep(w: World, visits: seq<Obj>): seq<Obj> {
    if visits == [] then []
    else (if Kept(w, visits[0]) then [visits[0]] else []) + Keep(w, visits[1..])
  }

  /** The visited objects whose reference is dropped at once. */
  function Dropped(w: World, visits: seq<Obj>): seq<Obj> {
    if visits == [] then []
    else (if Kept(w, visits[0]) then [] else [visits[0]]) + Dropped(w, visits[1..])
  }

  /** The object-added signals for these visits, in order, when `known` is already cached. */
  function Announced(w: World, visits: seq<Obj>, known: set<Obj>): seq<Obj> {
    if visits == [] then []
    else if Kept(w, visits[0]) && visits[0] !in known then
      [visits[0]] + Announced(w, visits[1..], known + {visits[0]})
    else Announced(w, visits[1..], known)
  }

  /** add_pending_items */
  ghost function Batch(s: CacheState, w: World): CacheState
    requires Acyclic(w, s.objects, s.queue)
  {
    var visits := Visits(w, s.objects, s.queue);
    var added := Announced(w, visits, s.objects);
    CacheState(s.objects + (set o | o in added), [], false, s.weak + multiset(added),
               s.taken + Pushes(w, s.objects, s.queue), s.released + Dropped(w, visits) + Keep(w, visits))
  }

  /** What the batch announces. */
  ghost function BatchSignals(s: CacheState, w: World): seq<Obj>
    requires Acyclic(w, s.objects, s.queue)
  {
    Announced(w, Visits(w, s.objects, s.queue), s.objects)
  }

  // ---------------------------------------------------------------- invariant

  /** Every cached object carries exactly one weak reference of the cache, every other object none. */
  ghost predicate WeakExact(s: CacheState) {
    forall o :: s.weak[o] == if o in s.objects then 1 else 0
  }

  /** Every reference taken was released once or is held by one entry of the queue. */
  ghost predicate RefsConserved(s: CacheState) {
    multiset(s.taken) == multiset(s.released) + multiset(s.queue)
  }

  ghost predicate Valid(s: CacheState) {
    && WeakExact(s)
    && RefsConserved(s)
    && (s.queue != [] ==> s.idle)
  }

  lemma EnqueueKeepsValid(s: CacheState, o: Obj)
    requires Valid(s)
    ensures Valid(Enqueue(s, o))
  {
  }

  lemma RemoveObjectKeepsValid(s: CacheState, o: Obj)
    requires Valid(s)
    ensures Valid(RemoveObject(s, o))
  {
    RemoveObjectConserves(s, o);
    RemoveObjectWithin(s, o);
  }

  lemma RemoveObjectConserves(s: CacheState, o: Obj)
    requires RefsConserved(s)
    ensures RefsConserved(RemoveObject(s, o))
  {
    if o in s.queue {
      assert multiset(s.queue) == multiset(RemoveFirst(s.queue, o)) + multiset{o};
    }
  }

  lemma RemoveObjectWithin(s: CacheState, o: Obj)
    ensures RemoveObject(s, o).objects <= s.objects
    ensures forall q :: q in RemoveObject(s, o).queue ==> q in s.queue
  {
    RemoveFirstWithin(s.queue, o);
  }

  /** Removing one object leaves the queue entries of the others. */
  lemma RemoveObjectKeepsQueued(s: CacheState, p: Obj, o: Obj)
    requires p != o && o in s.queue
    ensures o in RemoveObject(s, p).queue && RemoveObject(s, p).idle == s.idle
  {
    assert multiset(RemoveFirst(s.queue, p))[o] == multiset(s.queue)[o];
  }

  /** If the object is not cached, its first entry is the one that goes. */
  lemma QueueAfterRemoval(s: CacheState, o: Obj)
    ensures forall i :: 0 <= i < |s.queue| && s.queue[i] == o && o !in s.queue[..i] ==>
              RemoveObject(s, o).queue == if o in s.objects then s.queue else s.queue[..i] + s.queue[i + 1..]
  {
    forall i | 0 <= i < |s.queue| && s.queue[i] == o && o !in s.queue[..i] {
      RemoveFirstDrops(s.queue, i);
    }
  }

  /** Afterwards the object is not cached, and it lost its cached entry or one queued entry, never both. */
  lemma RemoveObjectDropsOne(s: CacheState, o: Obj)
    requires WeakExact(s)
    ensures var t := RemoveObject(s, o);
            && t.objects == s.objects - {o} && t.weak[o] == 0
            && multiset(t.queue) == (if o in s.objects then multiset(s.queue) else multiset(s.queue) - multiset{o})
            && |s.released| + |s.queue| == |t.released| + |t.queue|
            && forall x :: x != o ==> t.weak[x] == s.weak[x]
  {
    if o !in s.objects && o in s.queue {
      RemoveFirstShorter(s.queue, o);
    }
  }

  lemma {:induction false} RemoveFirstShorter(s: seq<Obj>, x: Obj)
    requires x in s
    ensures |RemoveFirst(s, x)| == |s| - 1
  {
    if s[0] != x {
      RemoveFirstShorter(s[1..], x);
    }
  }

  lemma DestroyedKeepsValid(s: CacheState, o: Obj)
    requires Valid(s)
    ensures Valid(Destroyed(s, o))
    ensures Destroyed(s, o) == s.(objects := s.objects - {o}, weak := s.weak - multiset{o})
  {
  }

  // ---------------------------------------------------------------- the batch

  lemma {:induction false} AnnouncedExact(w: World, visits: seq<Obj>, known: set<Obj>)
    ensures Distinct(Announced(w, visits, known))
    ensures forall o :: o in Announced(w, visits, known) <==> o in visits && Kept(w, o) && o !in known
  {
    if visits != [] {
      var v, rest := visits[0], visits[1..];
      assert visits == [v] + rest;
      AnnouncedExact(w, rest, known);
      AnnouncedExact(w, rest, known + {v});
    }
  }

  /** Announcing only what is kept announces the same. */
  lemma {:induction false} AnnouncedKeep(w: World, visits: seq<Obj>, known: set<Obj>)
    ensures Announced(w, Keep(w, visits), known) == Announced(w, visits, known)
  {
    if visits != [] {
      var v, rest := visits[0], visits[1..];
      AnnouncedKeep(w, rest, known);
      AnnouncedKeep(w, rest, known + {v});
      if Kept(w, v) {
        assert Keep(w, visits)[1..] == Keep(w, rest);
      } else {
        assert Keep(w, visits) == Keep(w, rest);
      }
    }
  }

  /** The batch as its two loops make it: first the visits, then the kept ones in order. */
  lemma BatchInTwoLoops(s: CacheState, w: World)
    requires Acyclic(w, s.objects, s.queue)
    ensures var visits := Visits(w, s.objects, s.queue);
            var added := Announced(w, Keep(w, visits), s.objects);
            && BatchSignals(s, w) == added
            && Batch(s, w) == CacheState(s.objects + (set o | o in added), [], false, s.weak + multiset(added),
                                         s.taken + Pushes(w, s.objects, s.queue),
                                         s.released + Dropped(w, visits) + Keep(w, visits))
  {
    AnnouncedKeep(w, Visits(w, s.objects, s.queue), s.objects);
  }

  lemma {:induction false} AnnouncedSnoc(w: World, visits: seq<Obj>, o: Obj, known: set<Obj>)
    ensures var a := Announced(w, visits, known);
            Announced(w, visits + [o], known) ==
            if Kept(w, o) && o !in known && o !in a then a + [o] else a
  {
    if visits == [] {
      assert [o][1..] == [];
    } else {
      assert (visits + [o])[1..] == visits[1..] + [o];
      AnnouncedSnoc(w, visits[1..], o, known);
      AnnouncedSnoc(w, visits[1..], o, known + {visits[0]});
    }
  }

  lemma {:induction false} KeepOrDropped(w: World, visits: seq<Obj>)
    ensures multiset(Dropped(w, visits) + Keep(w, visits)) == multiset(visits)
  {
    if visits != [] {
      KeepOrDropped(w, visits[1..]);
      assert visits == [visits[0]] + visits[1..];
    }
  }

  /**
    Traversal closure: after a batch the cache holds what it held before and every non-transient object
    reachable from the pending queue through objects that are non-transient, were not cached when the
    batch began, do not manage their descendants and are not defunct. Nothing else.
   */
  lemma BatchClosure(s: CacheState, w: World, o: Obj)
    requires Acyclic(w, s.objects, s.queue)
    ensures o in Batch(s, w).objects <==>
            o in s.objects || (Kept(w, o) && Reaches(w, s.objects, s.queue, o))
  {
    VisitsExactlyReachable(w, s.objects, s.queue, o);
    AnnouncedExact(w, Visits(w, s.objects, s.queue), s.objects);
  }

  /**
    The same from the callbacks' answers alone: an object is newly cached exactly when it is not transient
    and lies below a queued one.
   */
  lemma BatchCachesBelow(s: CacheState, w: World, o: Obj)
    requires Acyclic(w, s.objects, s.queue)
    ensures o in Batch(s, w).objects <==>
            || o in s.objects
            || (o in w && w[o].states.Some? && !w[o].states.value.transient && IsBelow(w, s.objects, s.queue, o))
  {
    BatchClosure(s, w, o);
    ReachesIff(w, s.objects, s.queue, o);
  }

  lemma BatchKeepsValid(s: CacheState, w: World)
    requires Valid(s) && Acyclic(w, s.objects, s.queue)
    ensures Valid(Batch(s, w))
  {
    var visits := Visits(w, s.objects, s.queue);
    AnnouncedExact(w, visits, s.objects);
    AddKeepsWeakExact(s.objects, s.weak, Announced(w, visits, s.objects));
    KeepOrDropped(w, visits);
    VisitsInQueueOrder(w, s.objects, s.queue);
    BatchConserves(s.taken, s.released, s.queue, Pushes(w, s.objects, s.queue),
                   Dropped(w, visits), Keep(w, visits), visits);
  }

  lemma AddKeepsWeakExact(objects: set<Obj>, weak: multiset<Obj>, added: seq<Obj>)
    requires forall o :: weak[o] == if o in objects then 1 else 0
    requires Distinct(added) && forall o :: o in added ==> o !in objects
    ensures forall o :: (weak + multiset(added))[o] == if o in objects + (set o | o in added) then 1 else 0
  {
    forall o ensures multiset(added)[o] == if o in added then 1 else 0 {
      DistinctCount(added, o);
    }
  }

  lemma BatchConserves(taken: seq<Obj>, released: seq<Obj>, queue: seq<Obj>,
                       pushes: seq<Obj>, dropped: seq<Obj>, kept: seq<Obj>, visits: seq<Obj>)
    requires multiset(taken) == multiset(released) + multiset(queue)
    requires queue + pushes == visits
    requires multiset(dropped + kept) == multiset(visits)
    ensures multiset(taken + pushes) == multiset(released + dropped + kept)
  {
    assert released + dropped + kept == released + (dropped + kept);
  }

  lemma {:induction false} DistinctCount<T>(s: seq<T>, x: T)
    requires Distinct(s)
    ensures multiset(s)[x] == if x in s then 1 else 0
  {
    if s != [] {
      var rest := s[1..];
      assert s == [s[0]] + rest;
      assert forall i :: 0 <= i < |rest| ==> rest[i] == s[i + 1];
      DistinctCount(rest, x);
    }
  }

  /** Each newly cached object is announced once, and nothing else is. */
  lemma AnnouncedOnceEach(s: CacheState, w: World)
    requires Acyclic(w, s.objects, s.queue)
    ensures Distinct(BatchSignals(s, w))
    ensures forall o :: o in BatchSignals(s, w) <==> o in Batch(s, w).objects && o !in s.objects
  {
    AnnouncedExact(w, Visits(w, s.objects, s.queue), s.objects);
  }

  /**
    A child announced by a cached parent is in the cache after the next batch unless it is transient by
    then, and the batch is pending; news from parents that are not cached are ignored.
   */
  lemma AddedChildGetsCached(s: CacheState, w: World, parent: Obj, detail: string, child: Obj)
    requires child != NULL && "add" <= detail
    requires Acyclic(w, s.objects, s.queue + [child])
    ensures var t := ChildAdded(s, parent, Some(detail), child);
            if parent in s.objects
            then t.idle && (child in Batch(t, w).objects <==> child in s.objects || Kept(w, child))
            else t == s
  {
    if parent in s.objects {
      var t := ChildAdded(s, parent, Some(detail), child);
      assert PathFrom(w, t.objects, t.queue, [child]);
      BatchClosure(t, w, child);
    }
  }

  /** Where the k-th signal comes from, and what was announced before it. */
  lemma {:induction false} SignalOrigin(w: World, visits: seq<Obj>, known: set<Obj>, k: nat) returns (m: nat)
    requires k < |Announced(w, visits, known)|
    ensures m < |visits| && visits[m] == Announced(w, visits, known)[k]
    ensures Announced(w, visits[..m], known) == Announced(w, visits, known)[..k]
  {
    var v, rest := visits[0], visits[1..];
    if Kept(w, v) && v !in known {
      if k == 0 {
        m := 0;
      } else {
        var m' := SignalOrigin(w, rest, known + {v}, k - 1);
        m := m' + 1;
        assert visits[..m][1..] == rest[..m'];
      }
    } else {
      var m' := SignalOrigin(w, rest, known, k);
      m := m' + 1;
      assert visits[..m][1..] == rest[..m'];
    }
  }

  /** Announcement order: each announced object was pending, or has a parent announced before it. */
  lemma AnnouncedAfterParent(s: CacheState, w: World, k: nat)
    requires Acyclic(w, s.objects, s.queue)
    requires k < |BatchSignals(s, w)|
    ensures var o := BatchSignals(s, w)[k];
            o in s.queue
            || exists j :: 0 <= j < k && o in Kids(w, s.objects, BatchSignals(s, w)[j])
  {
    var visits := Visits(w, s.objects, s.queue);
    var m := SignalOrigin(w, visits, s.objects, k);
    VisitsFollowParents(w, s.objects, s.queue, [], s.queue, visits, m);
    if visits[m] !in s.queue {
      var i :| 0 <= i < m <= |visits| && visits[m] in Kids(w, s.objects, visits[i]);
      var j := ParentAnnounced(w, visits, s.objects, m, k, i);
    }
  }

  /** A visited object with children was announced before whatever is announced after its visit. */
  lemma ParentAnnounced(w: World, visits: seq<Obj>, known: set<Obj>, m: nat, k: nat, i: nat) returns (j: nat)
    requires i < m < |visits| && k < |Announced(w, visits, known)|
    requires Announced(w, visits[..m], known) == Announced(w, visits, known)[..k]
    requires Kids(w, known, visits[i]) != []
    ensures j < k && Announced(w, visits, known)[j] == visits[i]
  {
    j := PositionOf(w, visits[..m], known, i);
    assert Announced(w, visits, known)[j] == Announced(w, visits, known)[..k][j];
  }

  /** Where a visited object that is kept and was not cached is announced. */
  lemma PositionOf(w: World, visits: seq<Obj>, known: set<Obj>, i: nat) returns (j: nat)
    requires i < |visits| && Kept(w, visits[i]) && visits[i] !in known
    ensures j < |Announced(w, visits, known)| && Announced(w, visits, known)[j] == visits[i]
  {
    AnnouncedExact(w, visits, known);
    j :| 0 <= j < |Announced(w, visits, known)| && Announced(w, visits, known)[j] == visits[i];
  }

  // ---------------------------------------------------------------- the object

  class SpiCache {
    var objects: set<Obj>
    var addTraversal: seq<Obj>
    var addPendingIdle: bool
    ghost var weak: multiset<Obj>
    ghost var taken: seq<Obj>
    ghost var released: seq<Obj>

    ghost function State(): CacheState
      reads this
    {
      CacheState(objects, addTraversal, addPendingIdle, weak, taken, released)
    }

    constructor ()
      ensures State() == EMPTY
    {
      objects, addTraversal, addPendingIdle := {}, [], false;
      weak, taken, released := multiset{}, [], [];
    }

    method CacheIn(o: Obj) returns (r: bool)
      ensures r <==> o in State().objects
    {
      r := o in objects;
    }

    method ChildAddedListener(parent: Obj, detail: Option<string>, child: Obj)
      modifies this
      ensures State() == ChildAdded(old(State()), parent, detail, child)
      ensures var news := if parent in objects && detail.Some? && "add" <= detail.value && child != NULL
                          then [child] else [];
              && addTraversal == old(addTraversal) + news && taken == old(taken) + news
              && (addPendingIdle <==> old(addPendingIdle) || news != [])
    {
      if parent in objects {
        if detail.Some? && "add" <= detail.value {
          if child == NULL { return; }
          addTraversal := addTraversal + [child];
          taken := taken + [child];
          addPendingIdle := true;
        }
      }
    }

    method ToplevelAddedListener(parent: Obj, child: Option<Obj>)
      modifies this
      ensures State() == ToplevelAdded(old(State()), parent, child)
      ensures var news := if parent !in objects then [] else if child.Some? then [child.value] else [NULL];
              && addTraversal == old(addTraversal) + news && taken == old(taken) + news
              && (addPendingIdle <==> old(addPendingIdle) || news != [])
    {
      if parent in objects {
        var added := if child.Some? then child.value else NULL;
        addTraversal := addTraversal + [added];
        taken := taken + [added];
        addPendingIdle := true;
      }
    }

    /** `announced` lists the signals object-removed. */
    method Remove(o: Obj) returns (announced: seq<Obj>)
      modifies this
      ensures State() == RemoveObject(old(State()), o)
      ensures announced == if o in old(objects) then [o] else []
      ensures objects == old(objects) - {o}
    {
      announced := [];
      if o in objects {
        announced := [o];
        weak := weak - multiset{o};
        objects := objects - {o};
      } else if o in addTraversal {
        addTraversal := RemoveFirst(addTraversal, o);
        released := released + [o];
      }
    }

    method AddObject(o: Obj) returns (announced: seq<Obj>)
      modifies this`objects, this`weak
      ensures announced == if o in old(objects) then [] else [o]
      ensures objects == old(objects) + {o}
      ensures weak == old(weak) + multiset(announced)
    {
      if o in objects { return []; }
      objects := objects + {o};
      weak := weak + multiset{o};
      announced := [o];
    }

    method AppendChildren(n: Node)
      modifies this`addTraversal, this`taken
      ensures addTraversal == old(addTraversal) + ChildrenFrom(n, 0)
      ensures taken == old(taken) + ChildrenFrom(n, 0)
      ensures exists pos :: ListsChildren(n, 0, addTraversal[|old(addTraversal)|..], pos)
    {
      var count := if n.childCount < 0 then 0 else n.childCount;
      ghost var pushed: seq<Obj> := [];
      for i := 0 to count
        invariant pushed + ChildrenFrom(n, i) == ChildrenFrom(n, 0)
        invariant addTraversal == old(addTraversal) + pushed
        invariant taken == old(taken) + pushed
      {
        var current := ChildAt(n, i);
        if current.Some? {
          addTraversal := addTraversal + [current.value];
          taken := taken + [current.value];
          pushed := pushed + [current.value];
        }
      }
      assert pushed == ChildrenFrom(n, 0);
      assert addTraversal[|old(addTraversal)|..] == pushed;
      ghost var pos := ChildrenListed(n, 0);
    }

    /** One round of the first loop: pops the head and either keeps it and its children, or drops it. */
    method VisitHead(w: World) returns (current: Obj, kept: bool)
      requires addTraversal != []
      modifies this`addTraversal, this`taken, this`released
      ensures current == old(addTraversal)[0] && kept == Kept(w, current)
      ensures addTraversal == Round(w, objects, old(addTraversal))
      ensures kept <==> current in w && w[current].states.Some? && !w[current].states.value.transient
      ensures old(addTraversal)[1..] <= addTraversal
      ensures var added := addTraversal[|old(addTraversal)| - 1..];
              if IsTraversed(w, objects, current) then exists pos :: ListsChildren(w[current], 0, added, pos)
              else added == []
      ensures taken == old(taken) + Kids(w, objects, current)
      ensures released == if kept then old(released) else old(released) + [current]
    {
      current := addTraversal[0];
      KidsExact(w, objects, current);
      addTraversal := addTraversal[1..];
      var states := StateSet(w, current);
      kept := states.Some? && !states.value.transient;
      if kept {
        if current !in objects && !states.value.managesDescendants && !states.value.defunct {
          AppendChildren(w[current]);
        }
      } else {
        released := released + [current];
      }
      assert addTraversal[|old(addTraversal)| - 1..] == Kids(w, objects, current);
    }

    /** The first loop: empties the queue into the list of objects to add. */
    method Traverse(w: World) returns (toAdd: seq<Obj>)
      requires Acyclic(w, objects, addTraversal)
      modifies this`addTraversal, this`taken, this`released
      ensures addTraversal == []
      ensures var visits := Visits(w, objects, old(addTraversal));
              toAdd == Keep(w, visits) && released == old(released) + Dropped(w, visits)
      ensures taken == old(taken) + Pushes(w, objects, old(addTraversal))
    {
      toAdd := [];
      ghost var start := addTraversal;
      while |addTraversal| > 0
        invariant Acyclic(w, objects, addTraversal)
        invariant toAdd + Keep(w, Visits(w, objects, addTraversal)) == Keep(w, Visits(w, objects, start))
        invariant released + Dropped(w, Visits(w, objects, addTraversal))
                  == old(released) + Dropped(w, Visits(w, objects, start))
        invariant taken + Pushes(w, objects, addTraversal) == old(taken) + Pushes(w, objects, start)
        decreases Work(w, objects, addTraversal)
      {
        RoundSplits(w, objects, addTraversal, toAdd, released, taken);
        var current, kept := VisitHead(w);
        if kept {
          toAdd := toAdd + [current];
        }
      }
    }

    /** The second loop: caches each object and gives back the reference the list held. */
    method AddAll(ghost w: World, toAdd: seq<Obj>) returns (announced: seq<Obj>)
      requires forall o :: o in toAdd ==> Kept(w, o)
      modifies this`objects, this`weak, this`released
      ensures announced == Announced(w, toAdd, old(objects))
      ensures objects == old(objects) + (set o | o in announced)
      ensures weak == old(weak) + multiset(announced)
      ensures released == old(released) + toAdd
    {
      announced := [];
      for i := 0 to |toAdd|
        invariant AddedSoFar(w, old(State()), toAdd[..i], announced, objects, weak, released)
      {
        var current := toAdd[i];
        PrefixSnoc(toAdd, i);
        AddOneMore(w, old(State()), toAdd[..i], announced, State(), current);
        var news := AddObject(current);
        announced := announced + news;
        released := released + [current];
      }
      assert toAdd[..|toAdd|] == toAdd;
    }

    method AddPendingItems(w: World) returns (announced: seq<Obj>)
      requires Acyclic(w, objects, addTraversal)
      modifies this
      ensures State() == Batch(old(State()), w)
      ensures announced == BatchSignals(old(State()), w)
      ensures addTraversal == [] && !addPendingIdle
      ensures forall o :: o in objects <==>
                || o in old(objects)
                || (o in w && w[o].states.Some? && !w[o].states.value.transient
                    && IsBelow(w, old(objects), old(addTraversal), o))
      ensures Distinct(announced) && forall o :: o in announced <==> o in objects && o !in old(objects)
    {
      BatchExact(State(), w);
      ghost var visits := Visits(w, objects, addTraversal);
      BatchInTwoLoops(State(), w);
      var toAdd := Traverse(w);
      KeepAllKept(w, visits);
      announced := AddAll(w, toAdd);
      addPendingIdle := false;
    }

    /** The traversal begun when the cache is created, at the application's root object. */
    method AddSubtree(w: World, root: Obj) returns (announced: seq<Obj>)
      requires Acyclic(w, objects, addTraversal + [root])
      modifies this
      ensures State() == Batch(Enqueue(old(State()), root), w)
      ensures announced == BatchSignals(Enqueue(old(State()), root), w)
      ensures forall o :: o in objects <==>
                || o in old(objects)
                || (o in w && w[o].states.Some? && !w[o].states.value.transient
                    && IsBelow(w, old(objects), old(addTraversal) + [root], o))
    {
      addTraversal := addTraversal + [root];
      taken := taken + [root];
      assert State().(idle := true) == Enqueue(old(State()), root);
      announced := AddPendingItems(w);
    }
  }

  lemma BatchExact(s: CacheState, w: World)
    requires Acyclic(w, s.objects, s.queue)
    ensures forall o :: o in Batch(s, w).objects <==>
              || o in s.objects
              || (o in w && w[o].states.Some? && !w[o].states.value.transient && IsBelow(w, s.objects, s.queue, o))
    ensures Distinct(BatchSignals(s, w))
    ensures forall o :: o in BatchSignals(s, w) <==> o in Batch(s, w).objects && o !in s.objects
  {
    AnnouncedOnceEach(s, w);
    forall o {
      BatchCachesBelow(s, w, o);
    }
  }

  /** How one round divides what is still to be kept, dropped and pushed. */
  lemma RoundSplits(w: World, cached: set<Obj>, queue: seq<Obj>, kept: seq<Obj>, dropped: seq<Obj>, pushed: seq<Obj>)
    requires queue != [] && Acyclic(w, cached, queue)
    ensures var o, next := queue[0], Round(w, cached, queue);
            && Acyclic(w, cached, next) && Work(w, cached, next) < Work(w, cached, queue)
            && kept + Keep(w, Visits(w, cached, queue))
               == (if Kept(w, o) then kept + [o] else kept) + Keep(w, Visits(w, cached, next))
            && dropped + Dropped(w, Visits(w, cached, queue))
               == (if Kept(w, o) then dropped else dropped + [o]) + Dropped(w, Visits(w, cached, next))
            && pushed + Pushes(w, cached, queue) == (pushed + Kids(w, cached, o)) + Pushes(w, cached, next)
  {
    OneRound(w, cached, queue);
    var o, later := queue[0], Visits(w, cached, Round(w, cached, queue));
    HeadSplits(w, o, later);
    Shift(kept, [o], Keep(w, later));
    Shift(dropped, [o], Dropped(w, later));
    Shift(pushed, Kids(w, cached, o), Pushes(w, cached, Round(w, cached, queue)));
  }

  lemma HeadSplits(w: World, o: Obj, later: seq<Obj>)
    ensures Keep(w, [o] + later) == if Kept(w, o) then [o] + Keep(w, later) else Keep(w, later)
    ensures Dropped(w, [o] + later) == if Kept(w, o) then Dropped(w, later) else [o] + Dropped(w, later)
  {
    assert ([o] + later)[1..] == later;
  }

  /** The effect of the second loop on a part of its list. */
  ghost predicate AddedSoFar(w: World, start: CacheState, part: seq<Obj>, announced: seq<Obj>,
                             objects: set<Obj>, weak: multiset<Obj>, released: seq<Obj>)
  {
    && announced == Announced(w, part, start.objects)
    && objects == start.objects + (set o | o in announced)
    && weak == start.weak + multiset(announced)
    && released == start.released + part
  }

  lemma AddOneMore(w: World, start: CacheState, part: seq<Obj>, announced: seq<Obj>, s: CacheState, o: Obj)
    requires AddedSoFar(w, start, part, announced, s.objects, s.weak, s.released) && Kept(w, o)
    ensures var news := if o in s.objects then [] else [o];
            AddedSoFar(w, start, part + [o], announced + news, s.objects + {o}, s.weak + multiset(news),
                       s.released + [o])
  {
    AnnouncedSnoc(w, part, o, start.objects);
    Shift(start.released, part, [o]);
    AddedTogether(start.objects, announced, o, if o in s.objects then [] else [o]);
  }

  lemma AddedTogether(objects: set<Obj>, added: seq<Obj>, o: Obj, news: seq<Obj>)
    requires news == if o in objects + (set x | x in added) then [] else [o]
    ensures objects + (set x | x in added) + {o} == objects + (set x | x in added + news)
    ensures multiset(added + news) == multiset(added) + multiset(news)
    ensures news == if o in objects || o in added then [] else [o]
  {
  }

  lemma PrefixSnoc(s: seq<Obj>, i: nat)
    requires i < |s|
    ensures s[..i + 1] == s[..i] + [s[i]]
  {
  }

  lemma Shift(a: seq<Obj>, b: seq<Obj>, c: seq<Obj>)
    ensures a + (b + c) == (a + b) + c
  {
  }

  lemma {:induction false} KeepAllKept(w: World, visits: seq<Obj>)
    ensures forall o :: o in Keep(w, visits) ==> Kept(w, o)
  {
    if visits != [] {
      KeepAllKept(w, visits[1..]);
    }
  }
}
