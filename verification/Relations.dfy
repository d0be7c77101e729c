/**
  Relations between accessible objects: the array of relations in atk/atkrelationset.c, each with its array
  of weakly referenced targets in atk/atkrelation.c, and the operations on pairs in atk/atkobject.c.
 */
module Relations {
  import opened Common

  /** `weak` counts the weak references this relation's target array holds. */
  datatype Rel = Rel(kind: nat, targets: seq<Obj>, weak: multiset<Obj>)

  // ---------------------------------------------------------------- one relation

  /** atk_relation_add_target */
  function WithTarget(r: Rel, t: Obj): Rel {
    if t in r.targets then r else r.(targets := r.targets + [t], weak := r.weak + multiset{t})
  }

  /** The targets of another relation added one after the other. */
  function WithTargets(r: Rel, ts: seq<Obj>): Rel {
    if ts == [] then r else WithTarget(WithTargets(r, ts[..|ts| - 1]), ts[|ts| - 1])
  }

  /** atk_relation_remove_target */
  function WithoutTarget(r: Rel, t: Obj): Rel {
    if t in r.targets then r.(targets := RemoveFirst(r.targets, t), weak := r.weak - multiset{t}) else r
  }

  function WithoutTargets(r: Rel, ts: seq<Obj>): Rel {
    if ts == [] then r else WithoutTarget(WithoutTargets(r, ts[..|ts| - 1]), ts[|ts| - 1])
  }

  /** The object is destroyed: delete_object_while_in_relation runs once for each weak reference. */
  function TargetGone(r: Rel, t: Obj): Rel
    decreases r.weak[t]
  {
    if r.weak[t] == 0 then r
    else TargetGone(r.(targets := RemoveFirst(r.targets, t), weak := r.weak - multiset{t}), t)
  }

  /** Targets are distinct, and the weak references are exactly theirs. */
  ghost predicate Good(r: Rel) {
    Distinct(r.targets) && forall t :: r.weak[t] == if t in r.targets then 1 else 0
  }

  lemma WithTargetGood(r: Rel, t: Obj)
    requires Good(r)
    ensures Good(WithTarget(r, t)) && WithTarget(r, t).kind == r.kind
    ensures forall x :: x in WithTarget(r, t).targets <==> x in r.targets || x == t
  {
  }

  lemma {:induction false} WithTargetsGood(r: Rel, ts: seq<Obj>)
    requires Good(r)
    ensures Good(WithTargets(r, ts)) && WithTargets(r, ts).kind == r.kind
    ensures forall x :: x in WithTargets(r, ts).targets <==> x in r.targets || x in ts
  {
    if ts != [] {
      var front, last := ts[..|ts| - 1], ts[|ts| - 1];
      assert ts == front + [last];
      WithTargetsGood(r, front);
      WithTargetGood(WithTargets(r, front), last);
    }
  }

  lemma WithTargetsOne(r: Rel, t: Obj)
    ensures WithTargets(r, [t]) == WithTarget(r, t)
  {
    assert [t][..0] == [];
  }

  /** Targets are added in their order, whatever is there already. */
  lemma {:induction false} WithTargetsConcat(r: Rel, a: seq<Obj>, b: seq<Obj>)
    ensures WithTargets(r, a + b) == WithTargets(WithTargets(r, a), b)
  {
    if b == [] {
      assert a + b == a;
    } else {
      var front, last := b[..|b| - 1], b[|b| - 1];
      WithTargetsConcat(r, a, front);
      assert (a + b)[..|a + b| - 1] == a + front && (a + b)[|a + b| - 1] == last;
    }
  }

  lemma WithoutTargetGood(r: Rel, t: Obj)
    requires Good(r)
    ensures Good(WithoutTarget(r, t)) && WithoutTarget(r, t).kind == r.kind
    ensures forall x :: x in WithoutTarget(r, t).targets <==> x in r.targets && x != t
  {
    RemoveFirstDistinct(r.targets, t);
  }

  lemma {:induction false} WithoutTargetsGood(r: Rel, ts: seq<Obj>)
    requires Good(r)
    ensures Good(WithoutTargets(r, ts)) && WithoutTargets(r, ts).kind == r.kind
    ensures forall x :: x in WithoutTargets(r, ts).targets <==> x in r.targets && x !in ts
  {
    if ts != [] {
      var front, last := ts[..|ts| - 1], ts[|ts| - 1];
      assert ts == front + [last];
      WithoutTargetsGood(r, front);
      WithoutTargetGood(WithoutTargets(r, front), last);
    }
  }

  lemma {:induction false} WithTargetsPresent(r: Rel, ts: seq<Obj>)
    requires forall t :: t in ts ==> t in r.targets
    ensures WithTargets(r, ts) == r
  {
    if ts != [] {
      assert ts == ts[..|ts| - 1] + [ts[|ts| - 1]];
      WithTargetsPresent(r, ts[..|ts| - 1]);
    }
  }

  /** A destroyed target leaves a good relation just as if it had been removed. */
  lemma TargetGoneGood(r: Rel, t: Obj)
    requires Good(r)
    ensures TargetGone(r, t) == WithoutTarget(r, t)
  {
    if t in r.targets {
      assert TargetGone(r, t) == TargetGone(WithoutTarget(r, t), t);
    }
  }

  // ---------------------------------------------------------------- the set of relations

  /** The position of the relation of this type, or the length when there is none. */
  function Find(rels: seq<Rel>, kind: nat): (i: nat)
    ensures i <= |rels|
    ensures i < |rels| ==> rels[i].kind == kind
    ensures forall j :: 0 <= j < i ==> rels[j].kind != kind
  {
    if rels == [] || rels[0].kind == kind then 0 else 1 + Find(rels[1..], kind)
  }

  /** There is a relation of this type, with or without targets. */
  ghost predicate HasKind(rels: seq<Rel>, kind: nat) {
    exists i :: 0 <= i < |rels| && rels[i].kind == kind
  }

  /** Some relation of this type has this target. */
  predicate Has(rels: seq<Rel>, kind: nat, t: Obj) {
    exists i :: 0 <= i < |rels| && rels[i].kind == kind && t in rels[i].targets
  }

  /** The type relates the object to some other target than this one. */
  ghost predicate HasOther(rels: seq<Rel>, kind: nat, t: Obj) {
    exists t' :: t' != t && Has(rels, kind, t')
  }

  /** At most one relation for each type. */
  ghost predicate OneOfEachKind(rels: seq<Rel>) {
    forall i, j :: 0 <= i < j < |rels| ==> rels[i].kind != rels[j].kind
  }

  ghost predicate Valid(rels: seq<Rel>) {
    OneOfEachKind(rels) && forall i :: 0 <= i < |rels| ==> Good(rels[i])
  }

  /** atk_relation_set_add */
  function SetAdd(rels: seq<Rel>, rel: Rel): seq<Rel> {
    var i := Find(rels, rel.kind);
    if i == |rels| then rels + [rel] else rels[i := WithTargets(rels[i], rel.targets)]
  }

  /** atk_relation_set_remove, for a relation that is not itself in the set */
  function SetRemove(rels: seq<Rel>, rel: Rel): seq<Rel> {
    var i := Find(rels, rel.kind);
    if i == |rels| then rels else rels[i := WithoutTargets(rels[i], rel.targets)]
  }

  function NewRel(kind: nat, t: Obj): Rel {
    Rel(kind, [t], multiset{t})
  }

  /** atk_object_add_relationship */
  function AddPair(rels: seq<Rel>, kind: nat, t: Obj): seq<Rel> {
    if Has(rels, kind, t) then rels else SetAdd(rels, NewRel(kind, t))
  }

  /** atk_object_remove_relationship: a relation left without targets is dropped. */
  function RemovePair(rels: seq<Rel>, kind: nat, t: Obj): seq<Rel> {
    var i := Find(rels, kind);
    if i == |rels| then rels
    else
      var r := WithoutTarget(rels[i], t);
      if r.targets == [] then rels[..i] + rels[i + 1..] else rels[i := r]
  }

  /** A target is destroyed: every relation loses it. Emptied relations stay. */
  function ObjectGone(rels: seq<Rel>, t: Obj): (r: seq<Rel>)
    ensures |r| == |rels|
    ensures forall i :: 0 <= i < |rels| ==> r[i] == TargetGone(rels[i], t)
  {
    if rels == [] then [] else [TargetGone(rels[0], t)] + ObjectGone(rels[1..], t)
  }

  // ---------------------------------------------------------------- refinement of a set of pairs

  /** The pair is related exactly when the one relation of its type has the target. */
  lemma HasIffFound(rels: seq<Rel>, kind: nat, t: Obj)
    requires OneOfEachKind(rels)
    ensures Has(rels, kind, t) <==> Find(rels, kind) < |rels| && t in rels[Find(rels, kind)].targets
  {
    var i := Find(rels, kind);
    forall j | 0 <= j < |rels| && rels[j].kind == kind ensures j == i {
    }
  }

  lemma UpdateKeepsValid(rels: seq<Rel>, i: nat, r: Rel)
    requires Valid(rels) && i < |rels| && Good(r) && r.kind == rels[i].kind
    ensures Valid(rels[i := r])
  {
  }

  lemma UpdateHas(rels: seq<Rel>, i: nat, r: Rel, kind: nat, t: Obj)
    requires OneOfEachKind(rels) && i < |rels| && r.kind == rels[i].kind
    ensures Has(rels[i := r], kind, t) <==> if kind == r.kind then t in r.targets else Has(rels, kind, t)
  {
    var all := rels[i := r];
    if kind == r.kind {
      assert t in r.targets ==> all[i].kind == kind;
    } else {
      forall j | 0 <= j < |rels| && rels[j].kind == kind && t in rels[j].targets ensures Has(all, kind, t) {
        assert all[j] == rels[j];
      }
    }
  }

  lemma AppendKeepsValid(rels: seq<Rel>, r: Rel)
    requires Valid(rels) && Good(r) && Find(rels, r.kind) == |rels|
    ensures Valid(rels + [r])
  {
  }

  lemma AppendHas(rels: seq<Rel>, r: Rel, kind: nat, t: Obj)
    ensures Has(rels + [r], kind, t) <==> Has(rels, kind, t) || (kind == r.kind && t in r.targets)
  {
    var all := rels + [r];
    assert all[|rels|] == r;
    forall j | 0 <= j < |rels| && rels[j].kind == kind && t in rels[j].targets ensures Has(all, kind, t) {
      assert all[j] == rels[j];
    }
  }

  lemma DropKeepsValid(rels: seq<Rel>, i: nat)
    requires Valid(rels) && i < |rels|
    ensures Valid(rels[..i] + rels[i + 1..])
  {
    var all := rels[..i] + rels[i + 1..];
    assert forall j :: 0 <= j < |all| ==> all[j] == rels[if j < i then j else j + 1];
  }

  lemma DropHas(rels: seq<Rel>, i: nat, kind: nat, t: Obj)
    requires OneOfEachKind(rels) && i < |rels|
    ensures Has(rels[..i] + rels[i + 1..], kind, t) <==> kind != rels[i].kind && Has(rels, kind, t)
  {
    var all := rels[..i] + rels[i + 1..];
    forall j | 0 <= j < |rels| && j != i && rels[j].kind == kind && t in rels[j].targets ensures Has(all, kind, t) {
      assert all[if j < i then j else j - 1] == rels[j];
    }
    if Has(all, kind, t) {
      var j :| 0 <= j < |all| && all[j].kind == kind && t in all[j].targets;
      assert all[j] == rels[if j < i then j else j + 1];
    }
  }

  /** Adding a relation adds its pairs and no others. */
  lemma SetAddExact(rels: seq<Rel>, rel: Rel, kind: nat, t: Obj)
    requires Valid(rels) && Good(rel)
    ensures Valid(SetAdd(rels, rel))
    ensures Has(SetAdd(rels, rel), kind, t) <==> Has(rels, kind, t) || (kind == rel.kind && t in rel.targets)
  {
    var i := Find(rels, rel.kind);
    if i == |rels| {
      AppendKeepsValid(rels, rel);
      AppendHas(rels, rel, kind, t);
    } else {
      WithTargetsGood(rels[i], rel.targets);
      UpdateKeepsValid(rels, i, WithTargets(rels[i], rel.targets));
      UpdateHas(rels, i, WithTargets(rels[i], rel.targets), kind, t);
      HasIffFound(rels, kind, t);
    }
  }

  /** Adding a relation that is in the set already changes nothing. */
  lemma AddingMemberChangesNothing(rels: seq<Rel>, i: nat)
    requires Valid(rels) && i < |rels|
    ensures SetAdd(rels, rels[i]) == rels
  {
    assert Find(rels, rels[i].kind) == i;
    WithTargetsPresent(rels[i], rels[i].targets);
  }

  /** Removing a relation that is not a member removes its pairs and no others. */
  lemma SetRemoveExact(rels: seq<Rel>, rel: Rel, kind: nat, t: Obj)
    requires Valid(rels)
    ensures Valid(SetRemove(rels, rel))
    ensures Has(SetRemove(rels, rel), kind, t) <==> Has(rels, kind, t) && !(kind == rel.kind && t in rel.targets)
  {
    var i := Find(rels, rel.kind);
    HasIffFound(rels, kind, t);
    if i < |rels| {
      WithoutTargetsGood(rels[i], rel.targets);
      UpdateKeepsValid(rels, i, WithoutTargets(rels[i], rel.targets));
      UpdateHas(rels, i, WithoutTargets(rels[i], rel.targets), kind, t);
    }
  }

  lemma AddPairExact(rels: seq<Rel>, kind: nat, t: Obj, kind': nat, t': Obj)
    requires Valid(rels)
    ensures Valid(AddPair(rels, kind, t))
    ensures Has(AddPair(rels, kind, t), kind', t') <==> Has(rels, kind', t') || (kind', t') == (kind, t)
  {
    assert Good(NewRel(kind, t));
    if !Has(rels, kind, t) {
      SetAddExact(rels, NewRel(kind, t), kind', t');
    }
  }

  lemma AddPairKeepsValid(rels: seq<Rel>, kind: nat, t: Obj)
    requires Valid(rels)
    ensures Valid(AddPair(rels, kind, t))
  {
    AddPairExact(rels, kind, t, kind, t);
  }

  lemma RemovePairExact(rels: seq<Rel>, kind: nat, t: Obj, kind': nat, t': Obj)
    requires Valid(rels)
    ensures Valid(RemovePair(rels, kind, t))
    ensures Has(RemovePair(rels, kind, t), kind', t') <==> Has(rels, kind', t') && (kind', t') != (kind, t)
  {
    var i := Find(rels, kind);
    HasIffFound(rels, kind', t');
    if i < |rels| {
      var r := WithoutTarget(rels[i], t);
      WithoutTargetGood(rels[i], t);
      if r.targets == [] {
        DropKeepsValid(rels, i);
        DropHas(rels, i, kind', t');
      } else {
        UpdateKeepsValid(rels, i, r);
        UpdateHas(rels, i, r, kind', t');
      }
    }
  }

  /**
    After the removal there is a relation of the type exactly when another target was related, and it is
    not empty.
   */
  lemma RemovePairDropsEmptied(rels: seq<Rel>, kind: nat, t: Obj)
    requires Valid(rels)
    ensures HasKind(RemovePair(rels, kind, t), kind) <==> HasOther(rels, kind, t)
    ensures forall i :: 0 <= i < |RemovePair(rels, kind, t)| && RemovePair(rels, kind, t)[i].kind == kind ==>
              RemovePair(rels, kind, t)[i].targets != []
  {
    var all := RemovePair(rels, kind, t);
    RemovePairExact(rels, kind, t, kind, t);
    NoneEmptyOfKind(rels, kind, t);
    forall t' | t' != t && Has(rels, kind, t') ensures HasKind(all, kind) {
      RemovePairExact(rels, kind, t, kind, t');
      var i :| 0 <= i < |all| && all[i].kind == kind && t' in all[i].targets;
    }
    if HasKind(all, kind) {
      var i :| 0 <= i < |all| && all[i].kind == kind;
      var t' := all[i].targets[0];
      assert t' in all[i].targets;
      RemovePairExact(rels, kind, t, kind, t');
    }
  }

  lemma NoneEmptyOfKind(rels: seq<Rel>, kind: nat, t: Obj)
    requires Valid(rels)
    ensures forall i :: 0 <= i < |RemovePair(rels, kind, t)| && RemovePair(rels, kind, t)[i].kind == kind ==>
              RemovePair(rels, kind, t)[i].targets != []
  {
    var i := Find(rels, kind);
    if i < |rels| {
      if WithoutTarget(rels[i], t).targets == [] {
        NoneLeft(rels, i);
      } else {
        OnlyOneOfKind(rels, i, WithoutTarget(rels[i], t));
      }
    }
  }

  lemma NoneLeft(rels: seq<Rel>, i: nat)
    requires OneOfEachKind(rels) && i < |rels|
    ensures forall r :: r in rels[..i] + rels[i + 1..] ==> r.kind != rels[i].kind
  {
    var all := rels[..i] + rels[i + 1..];
    forall j | 0 <= j < |all| ensures all[j].kind != rels[i].kind {
      assert all[j] == rels[if j < i then j else j + 1];
    }
  }

  lemma OnlyOneOfKind(rels: seq<Rel>, i: nat, r: Rel)
    requires OneOfEachKind(rels) && i < |rels| && r.kind == rels[i].kind
    ensures forall x :: x in rels[i := r] && x.kind == r.kind ==> x == r
  {
  }

  lemma ObjectGoneExact(rels: seq<Rel>, t: Obj, kind': nat, t': Obj)
    requires Valid(rels)
    ensures Valid(ObjectGone(rels, t))
    ensures Has(ObjectGone(rels, t), kind', t') <==> Has(rels, kind', t') && t' != t
  {
    var all := ObjectGone(rels, t);
    forall i | 0 <= i < |rels|
      ensures Good(all[i]) && all[i].kind == rels[i].kind
      ensures t' in all[i].targets <==> t' in rels[i].targets && t' != t
    {
      TargetGoneGood(rels[i], t);
      WithoutTargetGood(rels[i], t);
    }
    if Has(rels, kind', t') && t' != t {
      var i :| 0 <= i < |rels| && rels[i].kind == kind' && t' in rels[i].targets;
      assert all[i].kind == kind' && t' in all[i].targets;
    }
  }

  datatype Op = Add(kind: nat, t: Obj) | Remove(kind: nat, t: Obj) | Destroy(t: Obj)

  function Apply(rels: seq<Rel>, op: Op): seq<Rel> {
    match op
    case Add(kind, t) => AddPair(rels, kind, t)
    case Remove(kind, t) => RemovePair(rels, kind, t)
    case Destroy(t) => ObjectGone(rels, t)
  }

  /** The same operation on a plain set of pairs. */
  function ApplyToSet(pairs: set<(nat, Obj)>, op: Op): set<(nat, Obj)> {
    match op
    case Add(kind, t) => pairs + {(kind, t)}
    case Remove(kind, t) => pairs - {(kind, t)}
    case Destroy(t) => set p | p in pairs && p.1 != t
  }

  function Run(rels: seq<Rel>, ops: seq<Op>): seq<Rel> {
    if ops == [] then rels else Apply(Run(rels, ops[..|ops| - 1]), ops[|ops| - 1])
  }

  function RunOnSet(pairs: set<(nat, Obj)>, ops: seq<Op>): set<(nat, Obj)> {
    if ops == [] then pairs else ApplyToSet(RunOnSet(pairs, ops[..|ops| - 1]), ops[|ops| - 1])
  }

  /** The two-level array stands for the set of pairs. */
  ghost predicate StandsFor(rels: seq<Rel>, pairs: set<(nat, Obj)>) {
    forall kind: nat, t :: Has(rels, kind, t) <==> (kind, t) in pairs
  }

  lemma ApplyRefines(rels: seq<Rel>, pairs: set<(nat, Obj)>, op: Op)
    requires Valid(rels) && StandsFor(rels, pairs)
    ensures Valid(Apply(rels, op)) && StandsFor(Apply(rels, op), ApplyToSet(pairs, op))
  {
    ApplyKeepsValid(rels, op);
    forall kind: nat, t ensures Has(Apply(rels, op), kind, t) <==> (kind, t) in ApplyToSet(pairs, op) {
      match op
      case Add(k, x) => AddPairExact(rels, k, x, kind, t);
      case Remove(k, x) => RemovePairExact(rels, k, x, kind, t);
      case Destroy(x) => ObjectGoneExact(rels, x, kind, t);
    }
  }

  lemma ApplyKeepsValid(rels: seq<Rel>, op: Op)
    requires Valid(rels)
    ensures Valid(Apply(rels, op))
  {
    match op
    case Add(k, x) => AddPairExact(rels, k, x, k, x);
    case Remove(k, x) => RemovePairExact(rels, k, x, k, x);
    case Destroy(x) => ObjectGoneExact(rels, x, 0, x);
  }

  /**
    Over all runs of adding and removing relationships and of targets being destroyed, the relation set is
    a set of pairs: one relation for each type, distinct targets, and one weak reference for each.
   */
  lemma {:induction false} RunRefines(ops: seq<Op>)
    ensures Valid(Run([], ops)) && StandsFor(Run([], ops), RunOnSet({}, ops))
  {
    if ops != [] {
      RunRefines(ops[..|ops| - 1]);
      ApplyRefines(Run([], ops[..|ops| - 1]), RunOnSet({}, ops[..|ops| - 1]), ops[|ops| - 1]);
    }
  }

  ghost predicate NoneEmpty(rels: seq<Rel>) {
    forall i :: 0 <= i < |rels| ==> rels[i].targets != []
  }

  lemma ApplyKeepsNoneEmpty(rels: seq<Rel>, op: Op)
    requires Valid(rels) && NoneEmpty(rels) && !op.Destroy?
    ensures NoneEmpty(Apply(rels, op))
  {
    if op.Remove? {
      RemoveKeepsNoneEmpty(rels, op.kind, op.t);
    } else {
      AddKeepsNoneEmpty(rels, op.kind, op.t);
    }
  }

  lemma RemoveKeepsNoneEmpty(rels: seq<Rel>, kind: nat, t: Obj)
    requires NoneEmpty(rels)
    ensures NoneEmpty(RemovePair(rels, kind, t))
  {
    var i, all := Find(rels, kind), RemovePair(rels, kind, t);
    if i < |rels| && WithoutTarget(rels[i], t).targets == [] {
      assert forall j :: 0 <= j < |all| ==> all[j] == rels[if j < i then j else j + 1];
    }
  }

  lemma AddKeepsNoneEmpty(rels: seq<Rel>, kind: nat, t: Obj)
    requires NoneEmpty(rels)
    ensures NoneEmpty(AddPair(rels, kind, t))
  {
    var i := Find(rels, kind);
    if i < |rels| {
      WithTargetsOne(rels[i], t);
    }
  }

  /** Unless targets are destroyed no relation is ever left empty. */
  lemma {:induction false} RunNoneEmpty(ops: seq<Op>)
    requires forall i :: 0 <= i < |ops| ==> !ops[i].Destroy?
    ensures NoneEmpty(Run([], ops))
  {
    if ops != [] {
      RunNoneEmpty(ops[..|ops| - 1]);
      RunRefines(ops[..|ops| - 1]);
      ApplyKeepsNoneEmpty(Run([], ops[..|ops| - 1]), ops[|ops| - 1]);
    }
  }

  // ---------------------------------------------------------------- the objects

  class AtkRelation {
    var relationship: nat
    var target: seq<Obj>
    ghost var weak: multiset<Obj>

    ghost function State(): Rel
      reads this
    {
      Rel(relationship, target, weak)
    }

    constructor (targets: seq<Obj>, kind: nat)
      ensures State() == Rel(kind, targets, multiset(targets))
    {
      relationship, target, weak := kind, targets, multiset(targets);
    }

    method AddTarget(t: Obj)
      modifies this
      ensures State() == WithTarget(old(State()), t)
      ensures target == if t in old(target) then old(target) else old(target) + [t]
      ensures weak == if t in old(target) then old(weak) else old(weak) + multiset{t}
    {
      var i := 0;
      while i < |target|
        invariant 0 <= i <= |target| && t !in target[..i]
      {
        if target[i] == t { return; }
        i := i + 1;
      }
      assert t !in target;
      target := target + [t];
      weak := weak + multiset{t};
    }

    method RemoveTarget(t: Obj) returns (ret: bool)
      modifies this
      ensures State() == WithoutTarget(old(State()), t)
      ensures ret <==> t in old(target)
      ensures !ret ==> State() == old(State())
      ensures ret ==> weak == old(weak) - multiset{t}
      ensures forall i :: 0 <= i < |old(target)| && old(target)[i] == t && t !in old(target)[..i] ==>
                target == old(target)[..i] + old(target)[i + 1..]
    {
      forall i | 0 <= i < |target| && target[i] == t && t !in target[..i] {
        RemoveFirstDrops(target, i);
      }
      ret := t in target;
      if ret {
        target := RemoveFirst(target, t);
        weak := weak - multiset{t};
      }
    }

    /** The loop of atk_relation_set_add over another relation's targets. */
    method AddTargets(targets: seq<Obj>)
      modifies this
      ensures State() == WithTargets(old(State()), targets)
    {
      for k := 0 to |targets|
        invariant State() == WithTargets(old(State()), targets[..k])
      {
        assert targets[..k + 1][..k] == targets[..k];
        AddTarget(targets[k]);
      }
      assert targets[..|targets|] == targets;
    }

    /** The loop of atk_relation_set_remove. */
    method RemoveTargets(targets: seq<Obj>)
      modifies this
      ensures State() == WithoutTargets(old(State()), targets)
    {
      for k := 0 to |targets|
        invariant State() == WithoutTargets(old(State()), targets[..k])
      {
        assert targets[..k + 1][..k] == targets[..k];
        var _ := RemoveTarget(targets[k]);
      }
      assert targets[..|targets|] == targets;
    }

    /** The weak callback. */
    method DeleteObjectWhileInRelation(whereTheObjectWas: Obj)
      modifies this
      ensures State() == old(State()).(targets := RemoveFirst(old(target), whereTheObjectWas),
                                       weak := old(weak) - multiset{whereTheObjectWas})
      ensures Good(old(State())) && whereTheObjectWas in old(target) ==>
                State() == TargetGone(old(State()), whereTheObjectWas)
    {
      if Good(State()) {
        TargetGoneGood(State(), whereTheObjectWas);
      }
      target := RemoveFirst(target, whereTheObjectWas);
      weak := weak - multiset{whereTheObjectWas};
    }
  }

  ghost function Views(rs: seq<AtkRelation>): (v: seq<Rel>)
    reads rs
    ensures |v| == |rs| && forall i :: 0 <= i < |rs| ==> v[i] == rs[i].State()
  {
    seq(|rs|, i requires 0 <= i < |rs| reads rs => rs[i].State())
  }

  class AtkRelationSet {
    var relations: seq<AtkRelation>

    ghost function View(): seq<Rel>
      reads this, relations
    {
      Views(relations)
    }

    constructor ()
      ensures relations == [] && View() == []
    {
      relations := [];
    }

    /** atk_relation_set_get_relation_by_type; the position is what the loop stopped at. */
    method GetRelationByType(kind: nat) returns (r: AtkRelation?, i: nat)
      ensures i == Find(View(), kind)
      ensures r == if i < |relations| then relations[i] else null
    {
      i := 0;
      while i < |relations|
        invariant 0 <= i <= |relations|
        invariant forall j :: 0 <= j < i ==> View()[j].kind != kind
      {
        if relations[i].relationship == kind { return relations[i], i; }
        i := i + 1;
      }
      r := null;
    }

    method Contains(kind: nat) returns (found: bool)
      ensures found <==> HasKind(View(), kind)
    {
      var _, i := GetRelationByType(kind);
      found := i < |relations|;
    }

    method ContainsTarget(kind: nat, t: Obj) returns (found: bool)
      ensures found <==> Has(View(), kind, t)
    {
      for i := 0 to |relations|
        invariant forall j :: 0 <= j < i ==> !(View()[j].kind == kind && t in View()[j].targets)
      {
        if relations[i].relationship == kind {
          var targets := relations[i].target;
          for c := 0 to |targets|
            invariant t !in targets[..c]
          {
            if targets[c] == t {
              assert t in View()[i].targets;
              return true;
            }
          }
          assert targets[..|targets|] == targets;
        }
      }
      return false;
    }

    /** atk_relation_set_add */
    method Add(relation: AtkRelation)
      requires Valid(View())
      modifies this, relations
      ensures View() == SetAdd(old(View()), old(relation.State()))
      ensures relations == if HasKind(old(View()), old(relation.relationship)) then old(relations)
                           else old(relations) + [relation]
    {
      ghost var before, rel := View(), relation.State();
      var exist, i := GetRelationByType(relation.relationship);
      if exist == null {
        relations := relations + [relation];
        ViewsAre(relations, before + [rel]);
      } else {
        DistinctMembers(before, relations, i);
        exist.AddTargets(relation.target);
        ViewsAre(relations, before[i := WithTargets(before[i], rel.targets)]);
      }
    }

    /** atk_relation_set_remove */
    method Remove(relation: AtkRelation)
      requires Valid(View())
      modifies this, relations
      ensures forall i :: 0 <= i < |old(relations)| && old(relations)[i] == relation ==>
                && relations == old(relations)[..i] + old(relations)[i + 1..]
                && View() == old(View())[..i] + old(View())[i + 1..]
      ensures relation !in old(relations) ==>
                relations == old(relations) && View() == SetRemove(old(View()), old(relation.State()))
    {
      if relation in relations {
        ghost var i :| 0 <= i < |relations| && relations[i] == relation;
        MembersDistinct(View(), relations);
        RemoveMember(relation, i);
        assert forall j :: 0 <= j < |old(relations)| && old(relations)[j] == relation ==> j == i;
      } else {
        RemoveTargetsOf(relation);
      }
    }

    method RemoveMember(relation: AtkRelation, ghost i: nat)
      requires Valid(View()) && i < |relations| && relations[i] == relation
      modifies this`relations
      ensures relations == old(relations)[..i] + old(relations)[i + 1..]
      ensures View() == old(View())[..i] + old(View())[i + 1..]
    {
      ghost var before := View();
      MembersDistinct(before, relations);
      RemoveFirstDrops(relations, i);
      ViewsDrop(relations, i);
      relations := RemoveFirst(relations, relation);
    }

    method RemoveTargetsOf(relation: AtkRelation)
      requires Valid(View()) && relation !in relations
      modifies relations
      ensures View() == SetRemove(old(View()), old(relation.State()))
    {
      ghost var before, rel := View(), relation.State();
      var exist, i := GetRelationByType(relation.relationship);
      if exist != null {
        DistinctMembers(before, relations, i);
        exist.RemoveTargets(relation.target);
        ViewsAre(relations, before[i := WithoutTargets(before[i], rel.targets)]);
      }
    }

    /** Adds one target to the relation at `i`. */
    method AddTargetAt(relation: AtkRelation, ghost i: nat, t: Obj)
      requires Valid(View()) && i < |relations| && relations[i] == relation
      modifies relation
      ensures View() == old(View())[i := WithTarget(old(View())[i], t)]
    {
      ghost var before := View();
      DistinctMembers(before, relations, i);
      relation.AddTarget(t);
      ViewsAre(relations, before[i := WithTarget(before[i], t)]);
    }

    /** Takes one target out of the relation at `i`. */
    method RemoveTargetAt(relation: AtkRelation, ghost i: nat, t: Obj) returns (removed: bool)
      requires Valid(View()) && i < |relations| && relations[i] == relation
      modifies relation
      ensures removed <==> t in old(View())[i].targets
      ensures View() == old(View())[i := WithoutTarget(old(View())[i], t)]
      ensures Valid(View())
    {
      ghost var before := View();
      DistinctMembers(before, relations, i);
      WithoutTargetGood(before[i], t);
      UpdateKeepsValid(before, i, WithoutTarget(before[i], t));
      removed := relation.RemoveTarget(t);
      ViewsAre(relations, before[i := WithoutTarget(before[i], t)]);
    }

    /** Drops the relation at `i` if it has no targets left. */
    method DropEmptied(relation: AtkRelation, ghost i: nat)
      requires Valid(View()) && i < |relations| && relations[i] == relation
      modifies this, relations
      ensures View() == if old(View())[i].targets == [] then old(View())[..i] + old(View())[i + 1..] else old(View())
    {
      if |relation.target| == 0 {
        Remove(relation);
      }
    }

    /** Takes one target out of the relation at `i`, and the relation out of the set if that was the last. */
    method RemovePairAt(relation: AtkRelation, ghost kind: nat, ghost i: nat, t: Obj) returns (removed: bool)
      requires Valid(View()) && i == Find(View(), kind) < |relations| && relations[i] == relation
      modifies this, relations
      ensures removed <==> t in old(View())[i].targets
      ensures View() == RemovePair(old(View()), kind, t)
    {
      UpdateThenDrop(View(), i, WithoutTarget(View()[i], t));
      removed := RemoveTargetAt(relation, i, t);
      DropEmptied(relation, i);
    }

    method AddRelationByType(kind: nat, t: Obj)
      requires Valid(View())
      modifies this, relations
      ensures View() == SetAdd(old(View()), NewRel(kind, t))
    {
      var relation, i := GetRelationByType(kind);
      if relation != null {
        WithTargetsOne(View()[i], t);
        AddTargetAt(relation, i, t);
      } else {
        var created := new AtkRelation([t], kind);
        assert created.State() == NewRel(kind, t);
        Add(created);
      }
    }
  }

  lemma UpdateThenDrop(rels: seq<Rel>, i: nat, r: Rel)
    requires i < |rels|
    ensures var t := rels[i := r]; t[..i] + t[i + 1..] == rels[..i] + rels[i + 1..]
  {
  }

  lemma ViewsAre(rs: seq<AtkRelation>, v: seq<Rel>)
    requires |v| == |rs| && forall i :: 0 <= i < |rs| ==> rs[i].State() == v[i]
    ensures Views(rs) == v
  {
  }

  lemma {:induction false} ViewsConcat(a: seq<AtkRelation>, b: seq<AtkRelation>)
    ensures Views(a + b) == Views(a) + Views(b)
  {
    if a == [] {
      assert a + b == b;
    } else {
      assert (a + b)[1..] == a[1..] + b;
      ViewsConcat(a[1..], b);
    }
  }

  lemma ViewsSlice(rs: seq<AtkRelation>, i: nat, j: nat)
    requires i <= j <= |rs|
    ensures Views(rs[i..j]) == Views(rs)[i..j]
  {
  }

  lemma ViewsDrop(rs: seq<AtkRelation>, i: nat)
    requires i < |rs|
    ensures Views(rs[..i] + rs[i + 1..]) == Views(rs)[..i] + Views(rs)[i + 1..]
  {
    ViewsConcat(rs[..i], rs[i + 1..]);
    ViewsSlice(rs, 0, i);
    ViewsSlice(rs, i + 1, |rs|);
  }

  /** Relations of different types are different objects. */
  lemma MembersDistinct(v: seq<Rel>, rs: seq<AtkRelation>)
    requires v == Views(rs) && OneOfEachKind(v)
    ensures Distinct(rs)
  {
    forall i, j | 0 <= i < j < |rs| ensures rs[i] != rs[j] {
      assert v[i].kind != v[j].kind;
    }
  }

  lemma DistinctMembers(v: seq<Rel>, rs: seq<AtkRelation>, i: nat)
    requires |v| == |rs| && i < |rs| && OneOfEachKind(v)
    requires forall j :: 0 <= j < |rs| ==> rs[j].relationship == v[j].kind
    ensures forall j :: 0 <= j < |rs| && j != i ==> rs[j] != rs[i]
  {
    forall j | 0 <= j < |rs| && j != i ensures rs[j] != rs[i] {
      assert v[Min(i, j)].kind != v[Max(i, j)].kind;
    }
  }

  /** atk_object_add_relationship: true when the pair was absent. */
  method AddRelationship(relationSet: AtkRelationSet, kind: nat, t: Obj) returns (added: bool)
    requires Valid(relationSet.View())
    modifies relationSet, relationSet.relations
    ensures added <==> !Has(old(relationSet.View()), kind, t)
    ensures relationSet.View() == AddPair(old(relationSet.View()), kind, t)
    ensures Valid(relationSet.View())
  {
    AddPairKeepsValid(relationSet.View(), kind, t);
    var present := relationSet.ContainsTarget(kind, t);
    if present { return false; }
    var relation := new AtkRelation([t], kind);
    assert relation.State() == NewRel(kind, t);
    relationSet.Add(relation);
    return true;
  }

  /** atk_object_remove_relationship: true when the pair was present. */
  method RemoveRelationship(relationSet: AtkRelationSet, kind: nat, t: Obj) returns (removed: bool)
    requires Valid(relationSet.View())
    modifies relationSet, relationSet.relations
    ensures removed <==> Has(old(relationSet.View()), kind, t)
    ensures relationSet.View() == RemovePair(old(relationSet.View()), kind, t)
    ensures HasKind(relationSet.View(), kind) <==> HasOther(old(relationSet.View()), kind, t)
    ensures Valid(relationSet.View())
  {
    ghost var before := relationSet.View();
    removed := false;
    var relation, i := relationSet.GetRelationByType(kind);
    if relation != null {
      removed := relationSet.RemovePairAt(relation, kind, i, t);
    }
    assert relationSet.View() == RemovePair(before, kind, t);
    RemovePairKnown(before, kind, t);
  }

  /** What removing a pair is known to do, from where the pair's relation stands. */
  lemma RemovePairKnown(rels: seq<Rel>, kind: nat, t: Obj)
    requires Valid(rels)
    ensures Valid(RemovePair(rels, kind, t))
    ensures Has(rels, kind, t) <==> Find(rels, kind) < |rels| && t in rels[Find(rels, kind)].targets
    ensures HasKind(RemovePair(rels, kind, t), kind) <==> HasOther(rels, kind, t)
  {
    RemovePairDropsEmptied(rels, kind, t);
    RemovePairExact(rels, kind, t, kind, t);
    HasIffFound(rels, kind, t);
  }
}
