/**
  Factory resolution of atk/atkregistry.c: which factory type serves a type, by inheritance through the
  type tree.
 */
module FactoryRegistry {

  const INVALID: nat := 0

  /**
    `parents[t]` is g_type_parent(t). Types are numbered in the order they were registered with the type
    system, which demands that a type's parent be registered before it; zero is G_TYPE_INVALID.
   */
  type TypeTree = parents: seq<nat> | forall t :: 0 < t < |parents| ==> parents[t] < t witness []

  function Parent(tree: TypeTree, t: nat): (p: nat)
    ensures p == INVALID || p < t
  {
    if 0 < t < |tree| then tree[t] else INVALID
  }

  /** A lookup in factory_type_registry; a missing entry reads as zero. */
  function Lookup(registered: map<nat, nat>, t: nat): nat {
    if t in registered then registered[t] else INVALID
  }

  /** The factory types resolved by climbing from `t`, the type itself first. */
  function Resolve(tree: TypeTree, registered: map<nat, nat>, t: nat): nat
    decreases t
  {
    if Lookup(registered, t) != INVALID || Parent(tree, t) == INVALID then Lookup(registered, t)
    else Resolve(tree, registered, Parent(tree, t))
  }

  /** `a` is `t` or one of its ancestors. */
  predicate AncestorOrSelf(tree: TypeTree, a: nat, t: nat)
    decreases t
  {
    a == t || (Parent(tree, t) != INVALID && AncestorOrSelf(tree, a, Parent(tree, t)))
  }

  /** `p` climbs from `t` to `a` by the type system's own parents; zero is no parent. */
  predicate IsClimb(tree: TypeTree, p: seq<nat>, t: nat, a: nat) {
    && p != [] && p[0] == t
    && if |p| == 1 then t == a else 0 < t < |tree| && tree[t] != 0 && IsClimb(tree, p[1..], tree[t], a)
  }

  lemma {:induction false} ClimbsToAncestor(tree: TypeTree, p: seq<nat>, t: nat, a: nat)
    requires IsClimb(tree, p, t, a)
    ensures AncestorOrSelf(tree, a, t)
    decreases |p|
  {
    if |p| > 1 {
      ClimbsToAncestor(tree, p[1..], tree[t], a);
      assert Parent(tree, t) == tree[t];
    }
  }

  lemma {:induction false} ClimbTo(tree: TypeTree, a: nat, t: nat) returns (p: seq<nat>)
    requires AncestorOrSelf(tree, a, t)
    ensures IsClimb(tree, p, t, a)
    decreases t
  {
    if a == t {
      p := [t];
    } else {
      var rest := ClimbTo(tree, a, Parent(tree, t));
      p := [t] + rest;
      assert p[1..] == rest;
    }
  }

  lemma AncestorIff(tree: TypeTree, a: nat, t: nat)
    ensures AncestorOrSelf(tree, a, t) ==> exists p :: IsClimb(tree, p, t, a)
    ensures (exists p :: IsClimb(tree, p, t, a)) ==> AncestorOrSelf(tree, a, t)
  {
    if AncestorOrSelf(tree, a, t) {
      var p := ClimbTo(tree, a, t);
      assert IsClimb(tree, p, t, a);
    }
    if exists p :: IsClimb(tree, p, t, a) {
      var p :| IsClimb(tree, p, t, a);
      ClimbsToAncestor(tree, p, t, a);
    }
  }

  /** `a` is the nearest ancestor-or-self of `t` with a factory. */
  ghost predicate IsNearest(tree: TypeTree, registered: map<nat, nat>, a: nat, t: nat) {
    && AncestorOrSelf(tree, a, t)
    && Lookup(registered, a) != INVALID
    && forall b :: AncestorOrSelf(tree, b, t) && Lookup(registered, b) != INVALID ==> AncestorOrSelf(tree, b, a)
  }

  lemma {:induction false} AncestorsPrecede(tree: TypeTree, a: nat, t: nat)
    requires AncestorOrSelf(tree, a, t)
    ensures a <= t && (a != t ==> AncestorOrSelf(tree, a, Parent(tree, t)))
    decreases t
  {
    if a != t {
      AncestorsPrecede(tree, a, Parent(tree, t));
    }
  }

  lemma NearestUnique(tree: TypeTree, registered: map<nat, nat>, a: nat, b: nat, t: nat)
    requires IsNearest(tree, registered, a, t) && IsNearest(tree, registered, b, t)
    ensures a == b
  {
    AncestorsPrecede(tree, a, b);
    AncestorsPrecede(tree, b, a);
  }

  /** The nearest registered ancestor of the parent is also the type's own, when the type has no factory. */
  lemma NearestInherited(tree: TypeTree, registered: map<nat, nat>, a: nat, t: nat)
    requires Lookup(registered, t) == INVALID && Parent(tree, t) != INVALID
    ensures IsNearest(tree, registered, a, Parent(tree, t)) <==> IsNearest(tree, registered, a, t)
  {
  }

  /**
    Resolution gives the factory of the nearest registered ancestor-or-self, and nothing exactly when there
    is none.
   */
  lemma {:induction false} ResolveNearest(tree: TypeTree, registered: map<nat, nat>, t: nat)
    ensures forall a :: IsNearest(tree, registered, a, t) ==> Resolve(tree, registered, t) == registered[a]
    ensures Resolve(tree, registered, t) == INVALID <==> !exists a :: IsNearest(tree, registered, a, t)
    decreases t
  {
    var p := Parent(tree, t);
    if Lookup(registered, t) != INVALID {
      SelfIsNearest(tree, registered, t);
      forall a | IsNearest(tree, registered, a, t) ensures a == t {
        NearestUnique(tree, registered, a, t, t);
      }
    } else if p != INVALID {
      ResolveNearest(tree, registered, p);
      forall a ensures IsNearest(tree, registered, a, p) <==> IsNearest(tree, registered, a, t) {
        NearestInherited(tree, registered, a, t);
      }
    }
  }

  lemma SelfIsNearest(tree: TypeTree, registered: map<nat, nat>, t: nat)
    requires Lookup(registered, t) != INVALID
    ensures IsNearest(tree, registered, t, t)
  {
  }

  /** What atk_registry_set_factory_type leaves in the table. */
  function Associate(registered: map<nat, nat>, t: nat, factory: nat): map<nat, nat> {
    registered[t := factory]
  }

  /**
    Override locality: a factory associated with `t` becomes the answer exactly for the types whose nearest
    registered ancestor-or-self is then `t`, and every other answer stays.
   */
  lemma {:induction false} OverrideIsLocal(tree: TypeTree, registered: map<nat, nat>, t: nat, factory: nat, u: nat)
    requires factory != INVALID
    ensures var after := Associate(registered, t, factory);
            Resolve(tree, after, u) ==
            if IsNearest(tree, after, t, u) then factory else Resolve(tree, registered, u)
    decreases u
  {
    var after := Associate(registered, t, factory);
    if u == t {
      SelfIsNearest(tree, after, t);
    } else if Lookup(after, u) != INVALID {
      SelfIsNearest(tree, after, u);
      if IsNearest(tree, after, t, u) {
        NearestUnique(tree, after, t, u, u);
      }
    } else if Parent(tree, u) != INVALID {
      OverrideIsLocal(tree, registered, t, factory, Parent(tree, u));
      NearestInherited(tree, after, t, u);
    }
  }

  /** Whether `t` is then nearest can be told beforehand: no registered type lies strictly between. */
  lemma BecomesNearestIff(tree: TypeTree, registered: map<nat, nat>, t: nat, factory: nat, u: nat)
    requires factory != INVALID
    ensures IsNearest(tree, Associate(registered, t, factory), t, u) <==>
            && AncestorOrSelf(tree, t, u)
            && forall b :: AncestorOrSelf(tree, b, u) && Lookup(registered, b) != INVALID ==> AncestorOrSelf(tree, b, t)
  {
    var after := Associate(registered, t, factory);
    forall b ensures b != t ==> Lookup(after, b) == Lookup(registered, b) {
    }
  }

  class AtkRegistry {
    var factoryTypeRegistry: map<nat, nat>

    constructor ()
      ensures factoryTypeRegistry == map[]
    {
      factoryTypeRegistry := map[];
    }

    method SetFactoryType(t: nat, factoryType: nat)
      modifies this
      ensures factoryTypeRegistry == Associate(old(factoryTypeRegistry), t, factoryType)
      ensures factoryTypeRegistry == old(factoryTypeRegistry)[t := factoryType]
    {
      var oldType := Lookup(factoryTypeRegistry, t);
      if oldType != INVALID && oldType != factoryType {
        factoryTypeRegistry := factoryTypeRegistry - {t};
      }
      factoryTypeRegistry := factoryTypeRegistry[t := factoryType];
    }

    /** The loop looks up before it climbs, so a root type's own entry counts. */
    method GetFactoryType(tree: TypeTree, t: nat) returns (factoryType: nat)
      ensures factoryType == Resolve(tree, factoryTypeRegistry, t)
      ensures forall a :: IsNearest(tree, factoryTypeRegistry, a, t) ==> factoryType == factoryTypeRegistry[a]
      ensures factoryType == INVALID <==> !exists a :: IsNearest(tree, factoryTypeRegistry, a, t)
    {
      ResolveNearest(tree, factoryTypeRegistry, t);
      var current: nat := t;
      factoryType := Lookup(factoryTypeRegistry, current);
      current := Parent(tree, current);
      while current != INVALID && factoryType == INVALID
        invariant Resolve(tree, factoryTypeRegistry, t) ==
                  if factoryType != INVALID || current == INVALID then factoryType
                  else Resolve(tree, factoryTypeRegistry, current)
        decreases current
      {
        factoryType := Lookup(factoryTypeRegistry, current);
        current := Parent(tree, current);
      }
    }
  }
}
