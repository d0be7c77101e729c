/**
  The traversal of accessible objects in add_pending_items (atk-adaptor/accessible-cache.c), apart from
  the cache it feeds: when it terminates, what it visits, and in which order.
 */
module Traversal {
  import opened Common

  datatype States = States(transient: bool, managesDescendants: bool, defunct: bool)

  /**
    What the implementor's callbacks answer for one object: no state set at all, or the states and the
    children. A child may be missing, and the child count is whatever the callback returns.
   */
  datatype Node = Node(states: Option<States>, childCount: int, child: seq<Option<Obj>>)

  /** An address outside the map is not an accessible object. */
  type World = map<Obj, Node>

  /** atk_object_ref_state_set */
  function StateSet(w: World, o: Obj): Option<States> {
    if o in w then w[o].states else None
  }

  /** atk_object_ref_accessible_child */
  function ChildAt(n: Node, i: nat): Option<Obj> {
    if i < |n.child| then n.child[i] else None
  }

  /** The children from index `i` on that append_children pushes. */
  function ChildrenFrom(n: Node, i: nat): seq<Obj>
    decreases n.childCount - i
  {
    if i >= n.childCount then []
    else (if ChildAt(n, i).Some? then [ChildAt(n, i).value] else []) + ChildrenFrom(n, i + 1)
  }

  /** The object is passed on to the cache. */
  predicate Kept(w: World, o: Obj) {
    StateSet(w, o).Some? && !StateSet(w, o).value.transient
  }

  /** The object's children are traversed; `cached` is the cache as it was when the batch began. */
  predicate Expandable(w: World, cached: set<Obj>, o: Obj) {
    && Kept(w, o)
    && o !in cached
    && !StateSet(w, o).value.managesDescendants
    && !StateSet(w, o).value.defunct
  }

  /** What visiting `o` appends to the queue. */
  function Kids(w: World, cached: set<Obj>, o: Obj): seq<Obj> {
    if Expandable(w, cached, o) then ChildrenFrom(w[o], 0) else []
  }

  /** One round of the first loop, on the queue alone. */
  function Round(w: World, cached: set<Obj>, queue: seq<Obj>): seq<Obj> {
    if queue == [] then [] else queue[1..] + Kids(w, cached, queue[0])
  }

  function Rounds(w: World, cached: set<Obj>, queue: seq<Obj>, n: nat): seq<Obj>
    decreases n
  {
    if n == 0 then queue else Rounds(w, cached, Round(w, cached, queue), n - 1)
  }

  // ---------------------------------------------------------------- children, by index

  /** `cs` are the children that the callbacks return from index `from` on, at the increasing indices `pos`. */
  ghost predicate ListsChildren(n: Node, from: nat, cs: seq<Obj>, pos: seq<nat>) {
    && |pos| == |cs|
    && (forall k :: 0 <= k < |pos| ==>
          from <= pos[k] < n.childCount && pos[k] < |n.child| && n.child[pos[k]] == Some(cs[k]))
    && (forall j, k :: 0 <= j < k < |pos| ==> pos[j] < pos[k])
    && (forall i :: from <= i < n.childCount && i < |n.child| && n.child[i].Some? ==> i in pos)
  }

  /** The children pushed are all those the callbacks return, each once for its index, in index order. */
  lemma {:induction false} ChildrenListed(n: Node, from: nat) returns (pos: seq<nat>)
    ensures ListsChildren(n, from, ChildrenFrom(n, from), pos)
    decreases n.childCount - from
  {
    if from >= n.childCount {
      pos := [];
    } else {
      pos := ChildrenListed(n, from + 1);
      if from < |n.child| && n.child[from].Some? {
        ListsOneMore(n, from, ChildrenFrom(n, from + 1), pos);
        pos := [from] + pos;
      } else {
        ListsNoMore(n, from, ChildrenFrom(n, from + 1), pos);
        assert ChildrenFrom(n, from) == ChildrenFrom(n, from + 1);
      }
    }
  }

  lemma ListsOneMore(n: Node, from: nat, cs: seq<Obj>, pos: seq<nat>)
    requires from < n.childCount && from < |n.child| && n.child[from].Some?
    requires ListsChildren(n, from + 1, cs, pos)
    ensures ListsChildren(n, from, [n.child[from].value] + cs, [from] + pos)
  {
  }

  lemma ListsNoMore(n: Node, from: nat, cs: seq<Obj>, pos: seq<nat>)
    requires from < |n.child| ==> n.child[from].None?
    requires ListsChildren(n, from + 1, cs, pos)
    ensures ListsChildren(n, from, cs, pos)
  {
  }

  /** One of the indices below the child count holds this child. */
  ghost predicate IsChild(w: World, parent: Obj, child: Obj) {
    && parent in w
    && exists i :: 0 <= i < w[parent].childCount && i < |w[parent].child| && w[parent].child[i] == Some(child)
  }

  /** The object has a state set with none of the three states, and was not cached. */
  predicate IsTraversed(w: World, cached: set<Obj>, o: Obj) {
    o in w && w[o].states == Some(States(false, false, false)) && o !in cached
  }

  /** What a visit appends: for a traversed object its children in index order, otherwise nothing. */
  lemma KidsExact(w: World, cached: set<Obj>, o: Obj)
    ensures if IsTraversed(w, cached, o) then exists pos :: ListsChildren(w[o], 0, Kids(w, cached, o), pos)
            else Kids(w, cached, o) == []
    ensures forall c :: c in Kids(w, cached, o) <==> IsTraversed(w, cached, o) && IsChild(w, o, c)
  {
    if IsTraversed(w, cached, o) {
      var pos := ChildrenListed(w[o], 0);
      ListedAreChildren(w, o, Kids(w, cached, o), pos);
    }
  }

  lemma ListedAreChildren(w: World, o: Obj, cs: seq<Obj>, pos: seq<nat>)
    requires o in w && ListsChildren(w[o], 0, cs, pos)
    ensures forall c :: c in cs <==> IsChild(w, o, c)
  {
    forall c | c in cs ensures IsChild(w, o, c) {
      var k :| 0 <= k < |cs| && cs[k] == c;
      assert w[o].child[pos[k]] == Some(c);
    }
    forall c | IsChild(w, o, c) ensures c in cs {
      var i :| 0 <= i < w[o].childCount && i < |w[o].child| && w[o].child[i] == Some(c);
      var k :| 0 <= k < |pos| && pos[k] == i;
      assert cs[k] == c;
    }
  }

  // ---------------------------------------------------------------- paths

  /** Each object of the path is among the traversed children of the one before it. */
  ghost predicate IsPath(w: World, cached: set<Obj>, p: seq<Obj>) {
    && p != []
    && forall i :: 0 <= i < |p| - 1 ==> p[i + 1] in Kids(w, cached, p[i])
  }

  ghost predicate PathFrom(w: World, cached: set<Obj>, queue: seq<Obj>, p: seq<Obj>) {
    IsPath(w, cached, p) && p[0] in queue
  }

  /** No path from the queue meets an object twice: the expandable objects it reaches form no cycle. */
  ghost predicate Acyclic(w: World, cached: set<Obj>, queue: seq<Obj>) {
    forall p :: PathFrom(w, cached, queue, p) ==> Distinct(p)
  }

  ghost predicate Reaches(w: World, cached: set<Obj>, queue: seq<Obj>, o: Obj) {
    exists p :: PathFrom(w, cached, queue, p) && p[|p| - 1] == o
  }

  /** A path down from a queued object: all but the last are traversed, and each is a child of the one before. */
  ghost predicate IsChildPath(w: World, cached: set<Obj>, queue: seq<Obj>, p: seq<Obj>) {
    && p != [] && p[0] in queue
    && forall i :: 0 <= i < |p| - 1 ==> IsTraversed(w, cached, p[i]) && IsChild(w, p[i], p[i + 1])
  }

  lemma PathFromIff(w: World, cached: set<Obj>, queue: seq<Obj>, p: seq<Obj>)
    ensures PathFrom(w, cached, queue, p) <==> IsChildPath(w, cached, queue, p)
  {
    if PathFrom(w, cached, queue, p) {
      forall i | 0 <= i < |p| - 1 ensures IsTraversed(w, cached, p[i]) && IsChild(w, p[i], p[i + 1]) {
        KidsExact(w, cached, p[i]);
        assert p[i + 1] in Kids(w, cached, p[i]);
      }
    }
    if IsChildPath(w, cached, queue, p) {
      forall i | 0 <= i < |p| - 1 ensures p[i + 1] in Kids(w, cached, p[i]) {
        KidsExact(w, cached, p[i]);
        assert IsChild(w, p[i], p[i + 1]);
      }
    }
  }

  /** A queued object, or one below it. */
  ghost predicate IsBelow(w: World, cached: set<Obj>, queue: seq<Obj>, o: Obj) {
    exists p :: IsChildPath(w, cached, queue, p) && p[|p| - 1] == o
  }

  lemma ReachesIff(w: World, cached: set<Obj>, queue: seq<Obj>, o: Obj)
    ensures Reaches(w, cached, queue, o) <==> IsBelow(w, cached, queue, o)
  {
    forall p ensures PathFrom(w, cached, queue, p) <==> IsChildPath(w, cached, queue, p) {
      PathFromIff(w, cached, queue, p);
    }
  }

  lemma AcyclicIff(w: World, cached: set<Obj>, queue: seq<Obj>)
    ensures Acyclic(w, cached, queue) <==> forall p :: IsChildPath(w, cached, queue, p) ==> Distinct(p)
  {
    forall p ensures PathFrom(w, cached, queue, p) <==> IsChildPath(w, cached, queue, p) {
      PathFromIff(w, cached, queue, p);
    }
  }

  lemma PathExtend(w: World, cached: set<Obj>, p: seq<Obj>, o: Obj)
    requires IsPath(w, cached, p) && o in Kids(w, cached, p[|p| - 1])
    ensures IsPath(w, cached, p + [o])
  {
    var q := p + [o];
    forall i | 0 <= i < |q| - 1 ensures q[i + 1] in Kids(w, cached, q[i]) {
      if i < |p| - 1 {
        assert q[i] == p[i] && q[i + 1] == p[i + 1];
      }
    }
  }

  lemma PathPrepend(w: World, cached: set<Obj>, o: Obj, p: seq<Obj>)
    requires IsPath(w, cached, p) && p[0] in Kids(w, cached, o)
    ensures IsPath(w, cached, [o] + p)
  {
    var q := [o] + p;
    forall i | 0 <= i < |q| - 1 ensures q[i + 1] in Kids(w, cached, q[i]) {
      if i > 0 {
        assert p[i - 1 + 1] in Kids(w, cached, p[i - 1]);
      }
    }
  }

  lemma PathTail(w: World, cached: set<Obj>, p: seq<Obj>)
    requires IsPath(w, cached, p) && |p| > 1
    ensures IsPath(w, cached, p[1..]) && p[1] in Kids(w, cached, p[0])
  {
    var q := p[1..];
    assert p == [p[0]] + q;
    forall i | 0 <= i < |q| - 1 ensures q[i + 1] in Kids(w, cached, q[i]) {
      assert p[i + 1 + 1] in Kids(w, cached, p[i + 1]);
    }
  }

  lemma DistinctRest(o: Obj, p: seq<Obj>)
    requires Distinct([o] + p)
    ensures Distinct(p)
  {
    var whole := [o] + p;
    forall i, j | 0 <= i < j < |p| ensures p[i] != p[j] {
      assert whole[i + 1] == p[i] && whole[j + 1] == p[j];
    }
  }

  /** An acyclic queue stays acyclic. */
  lemma RoundKeepsAcyclic(w: World, cached: set<Obj>, queue: seq<Obj>)
    requires queue != [] && Acyclic(w, cached, queue)
    ensures Acyclic(w, cached, Round(w, cached, queue))
  {
    forall p | PathFrom(w, cached, Round(w, cached, queue), p) ensures Distinct(p) {
      if p[0] in Kids(w, cached, queue[0]) {
        var whole := [queue[0]] + p;
        PathPrepend(w, cached, queue[0], p);
        assert PathFrom(w, cached, queue, whole);
        DistinctRest(queue[0], p);
      } else {
        assert PathFrom(w, cached, queue, p);
      }
    }
  }

  // ---------------------------------------------------------------- termination

  /** The size of the tree unfolded below `o`, cut off at depth `fuel`. */
  ghost function Size(w: World, cached: set<Obj>, o: Obj, fuel: nat): nat
    decreases fuel, 0
  {
    if fuel == 0 then 1 else 1 + SizeAll(w, cached, Kids(w, cached, o), fuel - 1)
  }

  ghost function SizeAll(w: World, cached: set<Obj>, s: seq<Obj>, fuel: nat): nat
    decreases fuel, |s|
  {
    if s == [] then 0 else Size(w, cached, s[0], fuel) + SizeAll(w, cached, s[1..], fuel)
  }

  /** The rounds left: the unfolded subtree sizes of the queued objects, summed. */
  ghost function Work(w: World, cached: set<Obj>, queue: seq<Obj>): nat {
    SizeAll(w, cached, queue, |w|)
  }

  lemma {:induction false} SizeAllConcat(w: World, cached: set<Obj>, a: seq<Obj>, b: seq<Obj>, fuel: nat)
    ensures SizeAll(w, cached, a + b, fuel) == SizeAll(w, cached, a, fuel) + SizeAll(w, cached, b, fuel)
  {
    if a == [] {
      assert a + b == b;
    } else {
      assert (a + b)[1..] == a[1..] + b;
      SizeAllConcat(w, cached, a[1..], b, fuel);
    }
  }

  /** A path that never repeats itself and has used up the world ends in a leaf. */
  lemma LongPathEnds(w: World, cached: set<Obj>, p: seq<Obj>)
    requires IsPath(w, cached, p) && Distinct(p) && |p| > |w|
    ensures Kids(w, cached, p[|p| - 1]) == []
  {
    if Kids(w, cached, p[|p| - 1]) != [] {
      forall o | o in p ensures o in w.Keys {
        var i :| 0 <= i < |p| && p[i] == o;
        assert i < |p| - 1 ==> p[i + 1] in Kids(w, cached, p[i]);
      }
      DistinctWithin(p, w.Keys);
    }
  }

  /** Below the end of a non-repeating path, cutting off at the remaining depth cuts nothing off. */
  lemma {:induction false} SizeSettles(w: World, cached: set<Obj>, queue: seq<Obj>, p: seq<Obj>, fuel: nat)
    requires Acyclic(w, cached, queue) && PathFrom(w, cached, queue, p)
    requires fuel + |p| > |w|
    ensures Size(w, cached, p[|p| - 1], fuel) == Size(w, cached, p[|p| - 1], fuel + 1)
    decreases fuel, 1, 0
  {
    if fuel == 0 {
      LongPathEnds(w, cached, p);
    } else {
      SizesSettle(w, cached, queue, p, Kids(w, cached, p[|p| - 1]), fuel - 1);
    }
  }

  lemma {:induction false} SizesSettle(
      w: World, cached: set<Obj>, queue: seq<Obj>, p: seq<Obj>, kids: seq<Obj>, fuel: nat)
    requires Acyclic(w, cached, queue) && PathFrom(w, cached, queue, p)
    requires forall k :: k in kids ==> k in Kids(w, cached, p[|p| - 1])
    requires fuel + 1 + |p| > |w|
    ensures SizeAll(w, cached, kids, fuel) == SizeAll(w, cached, kids, fuel + 1)
    decreases fuel, 2, |kids|
  {
    if kids != [] {
      assert kids[0] in kids;
      assert kids[0] in Kids(w, cached, p[|p| - 1]);
      assert forall k :: k in kids[1..] ==> k in kids;
      PathExtend(w, cached, p, kids[0]);
      SizeSettles(w, cached, queue, p + [kids[0]], fuel);
      SizesSettle(w, cached, queue, p, kids[1..], fuel);
    }
  }

  /** Each round takes exactly one unit off the work that is left. */
  lemma RoundTakesOne(w: World, cached: set<Obj>, queue: seq<Obj>)
    requires queue != [] && Acyclic(w, cached, queue)
    ensures Work(w, cached, Round(w, cached, queue)) == Work(w, cached, queue) - 1
  {
    var o, kids := queue[0], Kids(w, cached, queue[0]);
    SizeAllConcat(w, cached, queue[1..], kids, |w|);
    if kids != [] {
      assert o in w.Keys;
      assert PathFrom(w, cached, queue, [o]);
      SizesSettle(w, cached, queue, [o], kids, |w| - 1);
    }
    assert Size(w, cached, o, |w|) == 1 + SizeAll(w, cached, kids, |w|);
  }

  lemma {:induction false} AcyclicFinishes(w: World, cached: set<Obj>, queue: seq<Obj>)
    requires Acyclic(w, cached, queue)
    ensures Rounds(w, cached, queue, Work(w, cached, queue)) == []
    decreases Work(w, cached, queue)
  {
    if queue != [] {
      RoundTakesOne(w, cached, queue);
      RoundKeepsAcyclic(w, cached, queue);
      AcyclicFinishes(w, cached, Round(w, cached, queue));
    }
  }

  /** Round a cycle through its first object, one step further. */
  lemma RotateCycle(w: World, cached: set<Obj>, p: seq<Obj>, j: nat) returns (r: seq<Obj>)
    requires IsPath(w, cached, p) && 0 < j < |p| && p[0] == p[j]
    ensures IsPath(w, cached, r) && r[0] == p[1] && !Distinct(r)
  {
    PathTail(w, cached, p);
    var q := p[1..][..j];
    assert forall i :: 0 <= i < |q| ==> q[i] == p[1..][i];
    assert q[j - 1] == p[j];
    PathExtend(w, cached, q, p[1]);
    r := q + [p[1]];
    assert r[0] == r[j];
  }

  /** A repeating path from the queue survives every round, so the queue never runs empty. */
  lemma RoundKeepsCycle(w: World, cached: set<Obj>, queue: seq<Obj>)
    requires !Acyclic(w, cached, queue)
    ensures !Acyclic(w, cached, Round(w, cached, queue))
  {
    var p :| PathFrom(w, cached, queue, p) && !Distinct(p);
    var next := Round(w, cached, queue);
    if p[0] != queue[0] {
      assert PathFrom(w, cached, next, p);
    } else {
      var i, j :| 0 <= i < j < |p| && p[i] == p[j];
      PathTail(w, cached, p);
      var q := p[1..];
      if i == 0 {
        q := RotateCycle(w, cached, p, j);
      } else {
        assert q[i - 1] == q[j - 1];
      }
      assert PathFrom(w, cached, next, q) && !Distinct(q);
    }
  }

  lemma {:induction false} CycleNeverFinishes(w: World, cached: set<Obj>, queue: seq<Obj>, n: nat)
    requires !Acyclic(w, cached, queue)
    ensures Rounds(w, cached, queue, n) != []
    decreases n
  {
    if n > 0 {
      RoundKeepsCycle(w, cached, queue);
      CycleNeverFinishes(w, cached, Round(w, cached, queue), n - 1);
    }
  }

  /** The first loop of add_pending_items ends exactly when no path down from the queue meets an object twice. */
  lemma TerminatesIffAcyclic(w: World, cached: set<Obj>, queue: seq<Obj>)
    ensures (exists n :: Rounds(w, cached, queue, n) == []) <==> Acyclic(w, cached, queue)
    ensures (exists n :: Rounds(w, cached, queue, n) == []) <==>
            forall p :: IsChildPath(w, cached, queue, p) ==> Distinct(p)
  {
    AcyclicIff(w, cached, queue);
    if Acyclic(w, cached, queue) {
      AcyclicFinishes(w, cached, queue);
    } else {
      forall n ensures Rounds(w, cached, queue, n) != [] {
        CycleNeverFinishes(w, cached, queue, n);
      }
    }
  }

  // ---------------------------------------------------------------- what is visited

  /** The objects popped by the first loop, in order; an object reached twice is popped twice. */
  ghost function Visits(w: World, cached: set<Obj>, queue: seq<Obj>): seq<Obj>
    requires Acyclic(w, cached, queue)
    decreases Work(w, cached, queue)
  {
    if queue == [] then []
    else
      RoundTakesOne(w, cached, queue);
      RoundKeepsAcyclic(w, cached, queue);
      [queue[0]] + Visits(w, cached, Round(w, cached, queue))
  }

  /** The objects appended to the queue while the loop runs, in order. */
  ghost function Pushes(w: World, cached: set<Obj>, queue: seq<Obj>): seq<Obj>
    requires Acyclic(w, cached, queue)
    decreases Work(w, cached, queue)
  {
    if queue == [] then []
    else
      RoundTakesOne(w, cached, queue);
      RoundKeepsAcyclic(w, cached, queue);
      Kids(w, cached, queue[0]) + Pushes(w, cached, Round(w, cached, queue))
  }

  lemma OneRound(w: World, cached: set<Obj>, queue: seq<Obj>)
    requires queue != [] && Acyclic(w, cached, queue)
    ensures Acyclic(w, cached, Round(w, cached, queue))
    ensures Work(w, cached, Round(w, cached, queue)) < Work(w, cached, queue)
    ensures Visits(w, cached, queue) == [queue[0]] + Visits(w, cached, Round(w, cached, queue))
    ensures Pushes(w, cached, queue) == Kids(w, cached, queue[0]) + Pushes(w, cached, Round(w, cached, queue))
  {
    RoundTakesOne(w, cached, queue);
    RoundKeepsAcyclic(w, cached, queue);
  }

  /** First in, first out: the queue is visited in order, then everything that was appended to it. */
  lemma {:induction false} VisitsInQueueOrder(w: World, cached: set<Obj>, queue: seq<Obj>)
    requires Acyclic(w, cached, queue)
    ensures Visits(w, cached, queue) == queue + Pushes(w, cached, queue)
    decreases Work(w, cached, queue)
  {
    if queue != [] {
      OneRound(w, cached, queue);
      VisitsInQueueOrder(w, cached, Round(w, cached, queue));
      Reassociate(queue, Kids(w, cached, queue[0]), Pushes(w, cached, Round(w, cached, queue)));
    }
  }

  lemma Reassociate(queue: seq<Obj>, kids: seq<Obj>, later: seq<Obj>)
    requires queue != []
    ensures [queue[0]] + ((queue[1..] + kids) + later) == queue + (kids + later)
  {
  }

  lemma ReachesAfterRound(w: World, cached: set<Obj>, queue: seq<Obj>, p: seq<Obj>)
    requires queue != [] && PathFrom(w, cached, queue, p)
    ensures p[|p| - 1] == queue[0] || Reaches(w, cached, Round(w, cached, queue), p[|p| - 1])
  {
    var next := Round(w, cached, queue);
    if p[0] == queue[0] && |p| > 1 {
      PathTail(w, cached, p);
      var q := p[1..];
      assert q[|q| - 1] == p[|p| - 1];
      assert PathFrom(w, cached, next, q);
    } else if p[0] != queue[0] {
      assert PathFrom(w, cached, next, p);
    }
  }

  lemma ReachesBeforeRound(w: World, cached: set<Obj>, queue: seq<Obj>, p: seq<Obj>)
    requires queue != [] && PathFrom(w, cached, Round(w, cached, queue), p)
    ensures Reaches(w, cached, queue, p[|p| - 1])
  {
    if p[0] in queue {
      assert PathFrom(w, cached, queue, p);
    } else {
      var q := [queue[0]] + p;
      PathPrepend(w, cached, queue[0], p);
      assert q[|q| - 1] == p[|p| - 1] && q[0] in queue;
      assert PathFrom(w, cached, queue, q);
    }
  }

  lemma ReachesRound(w: World, cached: set<Obj>, queue: seq<Obj>, o: Obj)
    requires queue != []
    ensures Reaches(w, cached, queue, o) <==> o == queue[0] || Reaches(w, cached, Round(w, cached, queue), o)
  {
    if Reaches(w, cached, queue, o) {
      var p :| PathFrom(w, cached, queue, p) && p[|p| - 1] == o;
      ReachesAfterRound(w, cached, queue, p);
    }
    if Reaches(w, cached, Round(w, cached, queue), o) {
      var p :| PathFrom(w, cached, Round(w, cached, queue), p) && p[|p| - 1] == o;
      ReachesBeforeRound(w, cached, queue, p);
    }
    if o == queue[0] {
      assert PathFrom(w, cached, queue, [o]);
    }
  }

  /** The loop visits exactly the objects reachable from the queue through expandable ones. */
  lemma {:induction false} VisitsExactlyReachable(w: World, cached: set<Obj>, queue: seq<Obj>, o: Obj)
    requires Acyclic(w, cached, queue)
    ensures o in Visits(w, cached, queue) <==> Reaches(w, cached, queue, o)
    decreases Work(w, cached, queue)
  {
    if queue != [] {
      RoundTakesOne(w, cached, queue);
      RoundKeepsAcyclic(w, cached, queue);
      VisitsExactlyReachable(w, cached, Round(w, cached, queue), o);
      ReachesRound(w, cached, queue, o);
    }
  }

  /** `o` is a traversed child of one of the first `n` objects of `s`. */
  ghost predicate ChildOfEarlier(w: World, cached: set<Obj>, s: seq<Obj>, n: nat, o: Obj) {
    exists i :: 0 <= i < n <= |s| && o in Kids(w, cached, s[i])
  }

  lemma ChildOfEarlierGrows(w: World, cached: set<Obj>, s: seq<Obj>, n: nat, t: seq<Obj>, m: nat, o: Obj)
    requires ChildOfEarlier(w, cached, s, n, o)
    requires n <= m <= |t| && s[..n] == t[..n]
    ensures ChildOfEarlier(w, cached, t, m, o)
  {
    var i :| 0 <= i < n && o in Kids(w, cached, s[i]);
    assert t[..n][i] == s[i];
  }

  /** Everything pending was queued at the start, or has an expandable parent among those done. */
  ghost predicate Justified(w: World, cached: set<Obj>, queue: seq<Obj>, done: seq<Obj>, pending: seq<Obj>) {
    forall o :: o in pending ==> o in queue || ChildOfEarlier(w, cached, done, |done|, o)
  }

  /** Every visit is of an object queued at the start, or of a child of an expandable one visited before. */
  lemma {:induction false} VisitsFollowParents(w: World, cached: set<Obj>, queue: seq<Obj>,
                                               done: seq<Obj>, pending: seq<Obj>, all: seq<Obj>, n: nat)
    requires Acyclic(w, cached, pending) && all == done + Visits(w, cached, pending)
    requires Justified(w, cached, queue, done, pending)
    requires |done| <= n < |all|
    ensures all[n] in queue || ChildOfEarlier(w, cached, all, n, all[n])
    decreases n - |done|
  {
    OneRound(w, cached, pending);
    if n == |done| {
      assert all[n] == pending[0];
      HeadHasParent(w, cached, queue, done, pending, all);
    } else {
      RoundKeepsJustified(w, cached, queue, done, pending);
      Regroup(done, pending[0], Visits(w, cached, Round(w, cached, pending)), all);
      VisitsFollowParents(w, cached, queue, done + [pending[0]], Round(w, cached, pending), all, n);
    }
  }

  lemma RoundKeepsJustified(w: World, cached: set<Obj>, queue: seq<Obj>, done: seq<Obj>, pending: seq<Obj>)
    requires pending != [] && Justified(w, cached, queue, done, pending)
    ensures Justified(w, cached, queue, done + [pending[0]], Round(w, cached, pending))
  {
    forall x | x in Round(w, cached, pending) && x !in queue
      ensures ChildOfEarlier(w, cached, done + [pending[0]], |done| + 1, x)
    {
      NextPendingHasParent(w, cached, queue, done, pending, x);
    }
  }

  lemma Regroup(done: seq<Obj>, o: Obj, later: seq<Obj>, all: seq<Obj>)
    requires all == done + ([o] + later)
    ensures all == (done + [o]) + later
  {
  }

  lemma HeadHasParent(
      w: World, cached: set<Obj>, queue: seq<Obj>, done: seq<Obj>, pending: seq<Obj>, all: seq<Obj>)
    requires pending != [] && done <= all
    requires Justified(w, cached, queue, done, pending)
    ensures pending[0] in queue || ChildOfEarlier(w, cached, all, |done|, pending[0])
  {
    if pending[0] !in queue {
      assert all[..|done|] == done == done[..|done|];
      ChildOfEarlierGrows(w, cached, done, |done|, all, |done|, pending[0]);
    }
  }

  lemma NextPendingHasParent(
      w: World, cached: set<Obj>, queue: seq<Obj>, done: seq<Obj>, pending: seq<Obj>, x: Obj)
    requires pending != [] && x in Round(w, cached, pending) && x !in queue
    requires Justified(w, cached, queue, done, pending)
    ensures ChildOfEarlier(w, cached, done + [pending[0]], |done| + 1, x)
  {
    var done' := done + [pending[0]];
    if x in Kids(w, cached, pending[0]) {
      assert done'[|done|] == pending[0];
    } else {
      assert x in pending;
      assert done'[..|done|] == done == done[..|done|];
      ChildOfEarlierGrows(w, cached, done, |done|, done', |done'|, x);
    }
  }
}
