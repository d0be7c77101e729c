/**
  The lease queue of atk-adaptor/accessible-leasing.c.

  Times are microseconds of the monotonic clock. `GList` nodes are named by a number, so that the hash
  table's pointer to a node can be told apart from a pointer to an earlier node for the same obj.
 */
module Leasing {
  import opened Common

  const US_PER_S := 1_000_000
  const LEASE_TIME_S := 15
  const LEASE_TIME_US := LEASE_TIME_S * US_PER_S
  const EXPIRY_TIME_S := LEASE_TIME_S + 1

  /** The first instant at which an expiry second no longer fits 32 bits. */
  const HORIZON_US := (TWO_32 - EXPIRY_TIME_S) * US_PER_S

  /** The whole seconds of a clock reading. */
  function Secs(us: nat): (secs: nat)
    ensures secs * US_PER_S <= us < (secs + 1) * US_PER_S
  {
    us / US_PER_S
  }

  datatype Link = Link(id: nat, obj: Obj, expiryS: int)

  /**
    `timer` is `None` when `expiry_func_id` is zero, and otherwise the second at which the pending
    source is due. `refs` counts the strong references the queue has taken and not yet released.
   */
  datatype LeaseState = LeaseState(
    queue: seq<Link>, index: map<Obj, nat>, timer: Option<int>, nextLink: nat, refs: multiset<Obj>)

  const EMPTY := LeaseState([], map[], None, 0, multiset{})

  /** g_queue_delete_link: unlinks the node named `id`. */
  function DeleteLink(q: seq<Link>, id: nat): seq<Link> {
    if q == [] then []
    else if q[0].id == id then q[1..]
    else [q[0]] + DeleteLink(q[1..], id)
  }

  /** The expiry second given to a lease taken at `now`, narrowed to a guint. */
  function ExpirySecond(now: nat): nat {
    Wrap32(Secs(now) + EXPIRY_TIME_S)
  }

  /** The guint interval handed to the timeout source. */
  function Interval(expiryS: int, now: nat): nat {
    Wrap32(expiryS - Secs(now))
  }

  /** add_expiry_timeout */
  function Arm(s: LeaseState, now: nat): LeaseState {
    if s.timer.Some? || s.queue == [] then s
    else s.(timer := Some(Secs(now) + Interval(s.queue[0].expiryS, now)))
  }

  /** The queue without the entry that `obj` may have. */
  function Others(s: LeaseState, obj: Obj): seq<Link> {
    if obj in s.index then DeleteLink(s.queue, s.index[obj]) else s.queue
  }

  /** spi_leasing_take */
  function Take(s: LeaseState, obj: Obj, now: nat): LeaseState {
    Arm(LeaseState(Others(s, obj) + [Link(s.nextLink, obj, ExpirySecond(now))],
                   s.index[obj := s.nextLink], s.timer, s.nextLink + 1,
                   if obj in s.index then s.refs else s.refs + multiset{obj}), now)
  }

  /** One round of the loop of expiry_func. */
  function RevokeHead(s: LeaseState): LeaseState
    requires s.queue != []
  {
    var head := s.queue[0];
    s.(queue := s.queue[1..], index := s.index - {head.obj}, refs := s.refs - multiset{head.obj})
  }

  /** The loop of expiry_func: releases heads until one is not yet due. */
  function Revoke(s: LeaseState, secs: nat): LeaseState
    decreases |s.queue|
  {
    if s.queue == [] || s.queue[0].expiryS > secs then s
    else Revoke(RevokeHead(s), secs)
  }

  /** expiry_func */
  function Fire(s: LeaseState, now: nat): LeaseState {
    Arm(Revoke(s, Secs(now)).(timer := None), now)
  }

  /** The object has an entry in the queue. */
  predicate Leased(s: LeaseState, o: Obj) {
    exists l :: l in s.queue && l.obj == o
  }

  // ---------------------------------------------------------------- invariant

  ghost predicate OneLinkEach(q: seq<Link>) {
    forall i, j :: 0 <= i < j < |q| ==> q[i].obj != q[j].obj && q[i].id != q[j].id
  }

  /** Every entry's object is hashed to that entry's own node. */
  ghost predicate Indexed(q: seq<Link>, index: map<Obj, nat>) {
    forall l :: l in q ==> l.obj in index && index[l.obj] == l.id
  }

  /** Nothing is hashed that has no entry. */
  ghost predicate NoStrayKey(q: seq<Link>, index: map<Obj, nat>) {
    forall o :: o in index ==> exists l :: l in q && l.obj == o
  }

  /** One strong reference for each entry, and no other. */
  ghost predicate OneRefEach(index: map<Obj, nat>, refs: multiset<Obj>) {
    forall o :: refs[o] == if o in index then 1 else 0
  }

  /** The hash table, the queue and the references held describe the same leases. */
  ghost predicate IndexAgrees(s: LeaseState) {
    && OneLinkEach(s.queue)
    && Indexed(s.queue, s.index)
    && NoStrayKey(s.queue, s.index)
    && OneRefEach(s.index, s.refs)
    && (forall l :: l in s.queue ==> l.id < s.nextLink)
  }

  ghost predicate SortedByExpiry(q: seq<Link>) {
    forall i, j :: 0 <= i < j < |q| ==> q[i].expiryS <= q[j].expiryS
  }

  /** A timer is pending exactly when something is leased, and it is due no later than the head. */
  ghost predicate TimerCovers(s: LeaseState) {
    && (s.timer.Some? <==> s.queue != [])
    && (s.queue != [] ==> s.timer.value <= s.queue[0].expiryS)
  }

  /** What every step keeps, at clock reading `now`. */
  ghost predicate Valid(s: LeaseState, now: nat) {
    && IndexAgrees(s)
    && SortedByExpiry(s.queue)
    && TimerCovers(s)
    && (forall l :: l in s.queue ==> l.expiryS <= Secs(now) + EXPIRY_TIME_S)
  }

  lemma {:induction false} DeleteLinkAt(q: seq<Link>, k: nat)
    requires k < |q|
    requires OneLinkEach(q)
    ensures DeleteLink(q, q[k].id) == q[..k] + q[k + 1..]
  {
    if k > 0 {
      DeleteLinkAt(q[1..], k - 1);
      assert q[1..][..k - 1] == q[1..k];
      assert [q[0]] + q[1..k] == q[..k];
    }
  }

  lemma OthersSkipOne(s: LeaseState, obj: Obj) returns (k: nat)
    requires IndexAgrees(s)
    ensures if obj in s.index then k < |s.queue| && s.queue[k].obj == obj
              && Others(s, obj) == s.queue[..k] + s.queue[k + 1..]
            else k == |s.queue| && Others(s, obj) == s.queue
  {
    if obj in s.index {
      var l :| l in s.queue && l.obj == obj;
      k :| 0 <= k < |s.queue| && s.queue[k] == l;
      DeleteLinkAt(s.queue, k);
    } else {
      k := |s.queue|;
    }
  }

  lemma OthersExact(s: LeaseState, obj: Obj)
    requires IndexAgrees(s)
    ensures forall l :: l in Others(s, obj) <==> l in s.queue && l.obj != obj
  {
    var k := OthersSkipOne(s, obj);
  }

  lemma DropOneLinkEach(q: seq<Link>, k: nat)
    requires k < |q| && OneLinkEach(q)
    ensures OneLinkEach(q[..k] + q[k + 1..])
  {
    var r := q[..k] + q[k + 1..];
    forall i, j | 0 <= i < j < |r| ensures r[i].obj != r[j].obj && r[i].id != r[j].id {
      assert r[i] == q[if i < k then i else i + 1] && r[j] == q[if j < k then j else j + 1];
    }
  }

  lemma DropOneSorted(q: seq<Link>, k: nat)
    requires k < |q| && SortedByExpiry(q)
    ensures SortedByExpiry(q[..k] + q[k + 1..])
  {
    var r := q[..k] + q[k + 1..];
    forall i, j | 0 <= i < j < |r| ensures r[i].expiryS <= r[j].expiryS {
      assert r[i] == q[if i < k then i else i + 1] && r[j] == q[if j < k then j else j + 1];
    }
  }

  lemma OthersInOrder(s: LeaseState, obj: Obj)
    requires IndexAgrees(s)
    ensures OneLinkEach(Others(s, obj))
    ensures SortedByExpiry(s.queue) ==> SortedByExpiry(Others(s, obj))
  {
    var k := OthersSkipOne(s, obj);
    if k < |s.queue| {
      DropOneLinkEach(s.queue, k);
      if SortedByExpiry(s.queue) {
        DropOneSorted(s.queue, k);
      }
    }
  }

  lemma TakeKeepsIndex(s: LeaseState, obj: Obj, now: nat)
    requires IndexAgrees(s)
    ensures IndexAgrees(Take(s, obj, now))
  {
    var rest, link := Others(s, obj), Link(s.nextLink, obj, ExpirySecond(now));
    OthersExact(s, obj);
    OthersInOrder(s, obj);
    AppendOneLinkEach(rest, link);
    TailKeepsKeys(s.queue, s.index, rest, link);
    assert Take(s, obj, now).queue == rest + [link];
  }

  lemma AppendOneLinkEach(q: seq<Link>, link: Link)
    requires OneLinkEach(q)
    requires forall l :: l in q ==> l.obj != link.obj && l.id != link.id
    ensures OneLinkEach(q + [link])
  {
  }

  lemma TailKeepsKeys(q: seq<Link>, index: map<Obj, nat>, rest: seq<Link>, link: Link)
    requires Indexed(q, index) && NoStrayKey(q, index)
    requires forall l :: l in rest <==> l in q && l.obj != link.obj
    ensures Indexed(rest + [link], index[link.obj := link.id])
    ensures NoStrayKey(rest + [link], index[link.obj := link.id])
  {
    assert link in rest + [link];
    forall o | o in index && o != link.obj ensures exists l :: l in rest + [link] && l.obj == o {
      var l :| l in q && l.obj == o;
      assert l in rest + [link];
    }
  }

  /**
    Taking a lease puts the object at the tail with a new expiry and keeps the other entries in order.
    Nobody else's lease is touched, and one reference is held however often the lease is repeated.
   */
  lemma TakeMovesToTail(s: LeaseState, obj: Obj, now: nat)
    requires IndexAgrees(s)
    ensures var t := Take(s, obj, now);
            && t.queue == Others(s, obj) + [Link(s.nextLink, obj, ExpirySecond(now))]
            && (forall l :: l in Others(s, obj) <==> l in s.queue && l.obj != obj)
            && (forall o :: Leased(t, o) <==> Leased(s, o) || o == obj)
            && t.refs[obj] == 1
            && (forall o :: o != obj ==> t.refs[o] == s.refs[o])
  {
    OthersExact(s, obj);
    TakeKeepsIndex(s, obj, now);
    LeasedIffIndexed(s);
    LeasedIffIndexed(Take(s, obj, now));
  }

  /** Place by place: the object's earlier entry, if any, is cut out, and the new one goes behind the rest. */
  lemma TakeExact(s: LeaseState, obj: Obj, now: nat)
    requires IndexAgrees(s)
    ensures var q, link := Take(s, obj, now).queue, Link(s.nextLink, obj, ExpirySecond(now));
            && (!Leased(s, obj) ==> q == s.queue + [link])
            && (forall k :: 0 <= k < |s.queue| && s.queue[k].obj == obj ==>
                  q == s.queue[..k] + s.queue[k + 1..] + [link])
  {
    var k := OthersSkipOne(s, obj);
    LeasedIffIndexed(s);
    forall j | 0 <= j < |s.queue| && s.queue[j].obj == obj ensures j == k {
      assert s.queue[j] in s.queue;
    }
  }

  /** A pending timer is left alone; otherwise one is armed for the second at which the lease is due. */
  lemma TakeTimer(s: LeaseState, obj: Obj, now: nat)
    requires Valid(s, now) && now < HORIZON_US
    ensures Take(s, obj, now).timer ==
            if s.queue != [] then s.timer else Some(Secs(now) + EXPIRY_TIME_S)
  {
    BelowHorizon(now);
    OthersExact(s, obj);
    if s.queue == [] {
      assert Take(s, obj, now).queue == [Link(s.nextLink, obj, ExpirySecond(now))];
    }
  }

  lemma LeasedIffIndexed(s: LeaseState)
    requires IndexAgrees(s)
    ensures forall o :: Leased(s, o) <==> o in s.index
  {
  }

  lemma BelowHorizon(now: nat)
    requires now < HORIZON_US
    ensures ExpirySecond(now) == Secs(now) + EXPIRY_TIME_S
  {
  }

  lemma AppendSorted(q: seq<Link>, link: Link)
    requires SortedByExpiry(q) && forall l :: l in q ==> l.expiryS <= link.expiryS
    ensures SortedByExpiry(q + [link])
  {
  }

  lemma TakeKeepsTimer(s: LeaseState, obj: Obj, now: nat)
    requires IndexAgrees(s) && SortedByExpiry(s.queue) && TimerCovers(s)
    requires ExpirySecond(now) == Secs(now) + EXPIRY_TIME_S
    requires forall l :: l in s.queue ==> l.expiryS <= Secs(now) + EXPIRY_TIME_S
    ensures TimerCovers(Take(s, obj, now))
  {
    OthersExact(s, obj);
    if s.queue != [] {
      assert s.queue[0].expiryS <= ExpirySecond(now);
      if Others(s, obj) != [] {
        assert Others(s, obj)[0] in s.queue;
      }
    } else {
      assert Others(s, obj) == [];
    }
  }

  lemma TakeKeepsValid(s: LeaseState, obj: Obj, now: nat)
    requires Valid(s, now)
    requires now < HORIZON_US
    ensures Valid(Take(s, obj, now), now)
  {
    BelowHorizon(now);
    TakeKeepsIndex(s, obj, now);
    TakeKeepsTimer(s, obj, now);
    OthersExact(s, obj);
    OthersInOrder(s, obj);
    AppendSorted(Others(s, obj), Link(s.nextLink, obj, ExpirySecond(now)));
  }

  // ---------------------------------------------------------------- revoking

  lemma {:induction false} RevokeKeepsIndex(s: LeaseState, secs: nat)
    requires IndexAgrees(s)
    ensures IndexAgrees(Revoke(s, secs))
    ensures Revoke(s, secs).timer == s.timer && Revoke(s, secs).nextLink == s.nextLink
    decreases |s.queue|
  {
    if s.queue != [] && s.queue[0].expiryS <= secs {
      RevokeHeadKeepsIndex(s);
      RevokeKeepsIndex(RevokeHead(s), secs);
    }
  }

  /** Whatever the order of the queue, the loop takes away due leases only. */
  lemma {:induction false} RevokeTakesDueOnly(s: LeaseState, secs: nat, l: Link)
    ensures l in Revoke(s, secs).queue ==> l in s.queue
    ensures l in s.queue && l.expiryS > secs ==> l in Revoke(s, secs).queue
    decreases |s.queue|
  {
    if s.queue != [] && s.queue[0].expiryS <= secs {
      assert s.queue == [s.queue[0]] + s.queue[1..];
      RevokeTakesDueOnly(RevokeHead(s), secs, l);
    }
  }

  /** The loop removes exactly the leases that are due, a prefix of length `k`, and keeps the rest in order. */
  lemma {:induction false} RevokeExact(s: LeaseState, secs: nat) returns (k: nat)
    requires SortedByExpiry(s.queue)
    ensures 0 <= k <= |s.queue|
    ensures Revoke(s, secs).queue == s.queue[k..]
    ensures forall l :: l in s.queue[..k] ==> l.expiryS <= secs
    ensures forall l :: l in s.queue[k..] ==> l.expiryS > secs
    decreases |s.queue|
  {
    if s.queue == [] || s.queue[0].expiryS > secs {
      k := 0;
      assert s.queue[k..] == s.queue;
    } else {
      SortedTail(s.queue);
      var k' := RevokeExact(RevokeHead(s), secs);
      k := k' + 1;
      SplitTail(s.queue, k');
      forall l | l in s.queue[..k] ensures l.expiryS <= secs {
        assert l == s.queue[0] || l in s.queue[1..][..k'];
      }
    }
  }

  lemma SplitTail(q: seq<Link>, k: nat)
    requires k < |q|
    ensures q[1..][k..] == q[k + 1..]
    ensures q[..k + 1] == [q[0]] + q[1..][..k]
  {
  }

  lemma SortedTail(q: seq<Link>)
    requires q != [] && SortedByExpiry(q)
    ensures SortedByExpiry(q[1..])
  {
  }

  lemma SplitMembers(q: seq<Link>, k: nat)
    requires k <= |q|
    ensures forall l :: l in q <==> l in q[..k] || l in q[k..]
  {
    assert q == q[..k] + q[k..];
  }

  lemma RevokeHeadKeepsIndex(s: LeaseState)
    requires IndexAgrees(s) && s.queue != []
    ensures IndexAgrees(RevokeHead(s))
  {
    TailOneLinkEach(s.queue);
    TailIndexed(s.queue, s.index);
    TailNoStrayKey(s.queue, s.index);
    assert OneRefEach(RevokeHead(s).index, RevokeHead(s).refs);
  }

  lemma TailOneLinkEach(q: seq<Link>)
    requires q != [] && OneLinkEach(q)
    ensures OneLinkEach(q[1..])
    ensures forall l :: l in q[1..] ==> l.obj != q[0].obj
  {
  }

  lemma TailIndexed(q: seq<Link>, index: map<Obj, nat>)
    requires q != [] && Indexed(q, index)
    requires forall l :: l in q[1..] ==> l.obj != q[0].obj
    ensures Indexed(q[1..], index - {q[0].obj})
  {
  }

  lemma TailNoStrayKey(q: seq<Link>, index: map<Obj, nat>)
    requires q != [] && NoStrayKey(q, index)
    ensures NoStrayKey(q[1..], index - {q[0].obj})
  {
    assert q == [q[0]] + q[1..];
  }

  /** A firing timer leaves a lease in place exactly when it is not yet due. */
  lemma FireReleasesDue(s: LeaseState, now: nat)
    requires Valid(s, now)
    ensures forall l :: l in Fire(s, now).queue <==> l in s.queue && l.expiryS > Secs(now)
  {
    var k := RevokeExact(s, Secs(now));
    SplitMembers(s.queue, k);
  }

  /**
    A firing timer keeps the invariant and is armed again for precisely the head's expiry second, one
    to sixteen seconds ahead: the unsigned subtraction never wraps.
   */
  lemma FireKeepsValid(s: LeaseState, now: nat)
    requires Valid(s, now)
    ensures Valid(Fire(s, now), now)
    ensures var t := Fire(s, now);
            t.queue != [] ==> 1 <= Interval(t.queue[0].expiryS, now) <= EXPIRY_TIME_S
                              && t.timer == Some(t.queue[0].expiryS)
  {
    FireReleasesDue(s, now);
    RevokeKeepsIndex(s, Secs(now));
    var k := RevokeExact(s, Secs(now));
    SortedSuffix(s.queue, k);
    var r := Revoke(s, Secs(now)).(timer := None);
    if r.queue != [] { assert r.queue[0] in Fire(s, now).queue; }
    ArmExact(r, now);
  }

  lemma SortedSuffix(q: seq<Link>, k: nat)
    requires k <= |q| && SortedByExpiry(q)
    ensures SortedByExpiry(q[k..])
  {
  }

  lemma ArmExact(s: LeaseState, now: nat)
    requires s.timer.None?
    requires s.queue != [] ==> Secs(now) < s.queue[0].expiryS <= Secs(now) + EXPIRY_TIME_S
    ensures Arm(s, now) == s.(timer := if s.queue == [] then None else Some(s.queue[0].expiryS))
    ensures s.queue != [] ==> Interval(s.queue[0].expiryS, now) == s.queue[0].expiryS - Secs(now)
  {
  }

  /** Waiting keeps the invariant. */
  lemma LaterStillValid(s: LeaseState, now: nat, later: nat)
    requires Valid(s, now) && now <= later
    ensures Valid(s, later)
  {
    assert Secs(now) <= Secs(later);
  }

  // ---------------------------------------------------------------- the promised minimum

  /** In numbers: sixteen whole seconds on, while that fits 32 bits; the lease time is fifteen seconds. */
  lemma ExpiryInNumbers(now: nat)
    ensures now < 4_294_967_280_000_000 ==> ExpirySecond(now) == now / 1_000_000 + 16
    ensures HORIZON_US == 4_294_967_280_000_000 && LEASE_TIME_US == 15_000_000
  {
  }

  /** A lease with this expiry second lasts for more than the lease time counted from `since`. */
  predicate Outlasts(expiryS: int, since: nat) {
    expiryS * US_PER_S > since + LEASE_TIME_US
  }

  /**
    The expiry second outlasts the lease time exactly below the horizon; from the horizon on, narrowed, it
    has already passed, so the very next firing of the timer may release the lease.
   */
  lemma ExpiryOutlastsIff(now: nat)
    ensures now < HORIZON_US <==> Outlasts(ExpirySecond(now), now)
    ensures now >= HORIZON_US <==> ExpirySecond(now) <= Secs(now)
    ensures now < HORIZON_US ==> ExpirySecond(now) * US_PER_S <= now + EXPIRY_TIME_S * US_PER_S
  {
  }

  /** Within the lease time such a lease is not yet due. */
  lemma OutlastsIsLater(expiryS: int, since: nat, now: nat)
    requires Outlasts(expiryS, since) && now <= since + LEASE_TIME_US
    ensures expiryS > Secs(now)
  {
  }

  /** Beyond the horizon a lease on an idle queue is gone the moment the timer runs. */
  lemma LeaseLostBeyondHorizon(now: nat, obj: Obj)
    requires now >= HORIZON_US
    ensures Leased(Take(EMPTY, obj, now), obj)
    ensures !Leased(Fire(Take(EMPTY, obj, now), now), obj)
  {
    ExpiryOutlastsIff(now);
    var s := Take(EMPTY, obj, now);
    assert s.queue == [Link(0, obj, ExpirySecond(now))];
    assert Revoke(s, Secs(now)).queue == [];
  }

  /** So is a lease taken in time but repeated beyond the horizon: the later expiry second replaces it. */
  lemma RepeatedLeaseLost(obj: Obj, since: nat, now: nat)
    requires now >= HORIZON_US
    ensures var s := Take(Take(EMPTY, obj, since), obj, now);
            s.timer.Some? && !Leased(Fire(s, now), obj)
  {
    ExpiryOutlastsIff(now);
    var first := Take(EMPTY, obj, since);
    var s := Take(first, obj, now);
    assert first.queue == [Link(0, obj, ExpirySecond(since))];
    assert Others(first, obj) == [];
    assert s.queue == [Link(1, obj, ExpirySecond(now))];
    assert Revoke(s, Secs(now)).queue == [];
  }

  // ---------------------------------------------------------------- the object

  class SpiLeasing {
    var expiryQueue: seq<Link>
    var expiryQueueHash: map<Obj, nat>
    var expiryFunc: Option<int>
    var linkCount: nat
    ghost var refs: multiset<Obj>

    ghost function State(): LeaseState
      reads this
    {
      LeaseState(expiryQueue, expiryQueueHash, expiryFunc, linkCount, refs)
    }

    constructor ()
      ensures State() == EMPTY
    {
      expiryQueue, expiryQueueHash, expiryFunc, linkCount := [], map[], None, 0;
      refs := multiset{};
    }

    method AddExpiryTimeout(now: nat)
      modifies this
      ensures State() == Arm(old(State()), now)
    {
      if expiryFunc.Some? { return; }
      if |expiryQueue| == 0 { return; }
      var nextExpiry := Interval(expiryQueue[0].expiryS, now);
      expiryFunc := Some(Secs(now) + nextExpiry);
    }

    method TakeLease(obj: Obj, now: nat)
      modifies this
      ensures State() == Take(old(State()), obj, now)
    {
      var expiryS := ExpirySecond(now);
      if obj in expiryQueueHash {
        expiryQueue := DeleteLink(expiryQueue, expiryQueueHash[obj]);
      } else {
        refs := refs + multiset{obj};
      }
      expiryQueue := expiryQueue + [Link(linkCount, obj, expiryS)];
      expiryQueueHash := expiryQueueHash[obj := linkCount];
      linkCount := linkCount + 1;
      assert Take(old(State()), obj, now) == Arm(State(), now);
      AddExpiryTimeout(now);
    }

    method ExpiryFunc(now: nat)
      modifies this
      ensures State() == Fire(old(State()), now)
    {
      var secs := Secs(now);
      ghost var revoked := Revoke(State(), secs);
      while |expiryQueue| > 0 && expiryQueue[0].expiryS <= secs
        invariant Revoke(State(), secs) == revoked
        decreases |expiryQueue|
      {
        PopHead();
      }
      expiryFunc := None;
      AddExpiryTimeout(now);
    }

    /** One round of the loop: pops the head, drops its key and releases its object. */
    method PopHead()
      requires expiryQueue != []
      modifies this
      ensures State() == RevokeHead(old(State()))
    {
      var current := expiryQueue[0];
      expiryQueue := expiryQueue[1..];
      expiryQueueHash := expiryQueueHash - {current.obj};
      refs := refs - multiset{current.obj};
    }
  }
}
