/**
  Reference semantics of the civil kinship degree (`degre_parente_civil`).

  Individuals live in an arena indexed by position. `roles[k]` is the role of
  individual `k` and `rep[k]` the index of the individual `k` represents, so
  the representation relation is a function on the arena (it may contain
  cycles and self-references; nothing forces it to be a forest).
 */
module Kinship {
  import opened Roles

  /** Degree given to every individual whose chain never reaches a deceased. */
  const Unresolved: int := -9999

  /** Every represented index lies inside the arena (negative or too large
      indices, which numpy would wrap or reject, are excluded). */
  predicate ValidArena(roles: seq<Role>, rep: seq<int>) {
    |roles| == |rep| && forall k :: 0 <= k < |rep| ==> 0 <= rep[k] < |rep|
  }

  /** The degree of `k` as determined by representation chains of at most
      `fuel` child/parent links: a deceased is 0, the spouse of a deceased is
      -1, a child or parent is one more than the individual it represents,
      and everything else is `Unresolved`. */
  function BoundedDegree(roles: seq<Role>, rep: seq<int>, k: nat, fuel: nat): (r: int)
    requires ValidArena(roles, rep) && k < |roles|
    ensures r == Unresolved || -1 <= r <= fuel
    ensures r >= 1 ==> IsLineal(roles[k])
    decreases fuel
  {
    match roles[k]
    case Decede => 0
    case Epoux => if roles[rep[k]] == Decede then -1 else Unresolved
    case Other => Unresolved
    case _ =>
      if fuel == 0 then Unresolved
      else
        var up := BoundedDegree(roles, rep, rep[k], fuel - 1);
        if up >= 0 then up + 1 else Unresolved
  }

  /** All bounded degrees of the arena for one amount of fuel. */
  function Degrees(roles: seq<Role>, rep: seq<int>, fuel: nat): seq<int>
    requires ValidArena(roles, rep)
  {
    seq(|roles|, k requires 0 <= k < |roles| => BoundedDegree(roles, rep, k, fuel))
  }

  /** `k` reaches a deceased individual through exactly `links` child/parent
      links (a deceased reaches itself through none). */
  predicate ChainToDeceased(roles: seq<Role>, rep: seq<int>, k: nat, links: nat)
    requires ValidArena(roles, rep) && k < |roles|
    decreases links
  {
    if links == 0 then roles[k] == Decede
    else IsLineal(roles[k]) && ChainToDeceased(roles, rep, rep[k], links - 1)
  }

  /** The relaxation rule of `k`, without the pass threshold, read from `d`. */
  function Rule(roles: seq<Role>, rep: seq<int>, d: seq<int>, k: nat): int
    requires ValidArena(roles, rep) && |d| == |roles| && k < |roles|
  {
    match roles[k]
    case Decede => 0
    case Epoux => if roles[rep[k]] == Decede then -1 else Unresolved
    case Other => Unresolved
    case _ => if d[rep[k]] >= 0 then d[rep[k]] + 1 else Unresolved
  }

  /** `d` is left unchanged by every relaxation rule. */
  predicate IsFixedPoint(roles: seq<Role>, rep: seq<int>, d: seq<int>)
    requires ValidArena(roles, rep)
  {
    |d| == |roles| && forall k: nat :: k < |d| ==> d[k] == Rule(roles, rep, d, k)
  }

  /** The functional representation relation gives each individual at most
      one chain length to a deceased. */
  lemma {:induction false} ChainLengthUnique(roles: seq<Role>, rep: seq<int>, k: nat, m1: nat, m2: nat)
    requires ValidArena(roles, rep) && k < |roles|
    requires ChainToDeceased(roles, rep, k, m1) && ChainToDeceased(roles, rep, k, m2)
    ensures m1 == m2
    decreases m1
  {
    if m1 != 0 && m2 != 0 {
      ChainLengthUnique(roles, rep, rep[k], m1 - 1, m2 - 1);
    }
  }

  /** More fuel never changes a degree that is already resolved. */
  lemma {:induction false} BoundedDegreeMonotone(roles: seq<Role>, rep: seq<int>, k: nat, fuel: nat)
    requires ValidArena(roles, rep) && k < |roles|
    requires BoundedDegree(roles, rep, k, fuel) != Unresolved
    ensures BoundedDegree(roles, rep, k, fuel + 1) == BoundedDegree(roles, rep, k, fuel)
    decreases fuel
  {
    if IsLineal(roles[k]) {
      BoundedDegreeMonotone(roles, rep, rep[k], fuel - 1);
    }
  }

  /** A degree `v` resolved with fuel `fuel + 1` needs only `v` links, so
      it is already resolved with fuel `fuel` when `v <= fuel`. */
  lemma {:induction false} BoundedDegreeSettled(roles: seq<Role>, rep: seq<int>, k: nat, fuel: nat)
    requires ValidArena(roles, rep) && k < |roles|
    requires 0 <= BoundedDegree(roles, rep, k, fuel + 1) <= fuel
    ensures BoundedDegree(roles, rep, k, fuel) == BoundedDegree(roles, rep, k, fuel + 1)
    decreases fuel
  {
    if IsLineal(roles[k]) {
      BoundedDegreeSettled(roles, rep, rep[k], fuel - 1);
    }
  }

  /** A resolved non-negative degree is the length of a chain to a deceased. */
  lemma {:induction false} BoundedDegreeIsChain(roles: seq<Role>, rep: seq<int>, k: nat, fuel: nat)
    requires ValidArena(roles, rep) && k < |roles|
    requires BoundedDegree(roles, rep, k, fuel) >= 0
    ensures ChainToDeceased(roles, rep, k, BoundedDegree(roles, rep, k, fuel))
    decreases fuel
  {
    if IsLineal(roles[k]) {
      BoundedDegreeIsChain(roles, rep, rep[k], fuel - 1);
    }
  }

  /** A chain of `links` links is found by any fuel of at least `links`. */
  lemma {:induction false} ChainIsBoundedDegree(roles: seq<Role>, rep: seq<int>, k: nat, links: nat, fuel: nat)
    requires ValidArena(roles, rep) && k < |roles|
    requires ChainToDeceased(roles, rep, k, links) && links <= fuel
    ensures BoundedDegree(roles, rep, k, fuel) == links
    decreases links
  {
    if links != 0 {
      ChainIsBoundedDegree(roles, rep, rep[k], links - 1, fuel - 1);
    }
  }

  /** Once one more link of fuel changes nothing, no amount of fuel does. */
  lemma {:induction false} SettledForever(roles: seq<Role>, rep: seq<int>, fuel: nat, more: nat)
    requires ValidArena(roles, rep)
    requires Degrees(roles, rep, fuel + 1) == Degrees(roles, rep, fuel)
    requires fuel <= more
    ensures Degrees(roles, rep, more) == Degrees(roles, rep, fuel)
    decreases more - fuel
  {
    if more > fuel + 1 {
      SettledForever(roles, rep, fuel, more - 1);
      forall k: nat | k < |roles|
        ensures BoundedDegree(roles, rep, k, more) == BoundedDegree(roles, rep, k, more - 1)
      {
        assert Degrees(roles, rep, more - 1)[k] == Degrees(roles, rep, fuel)[k];
        if IsLineal(roles[k]) {
          assert Degrees(roles, rep, more - 2)[rep[k]] == Degrees(roles, rep, fuel)[rep[k]] by {
            SettledForever(roles, rep, fuel, more - 2);
          }
          assert Degrees(roles, rep, more - 1)[rep[k]] == Degrees(roles, rep, fuel)[rep[k]];
        }
      }
    }
  }

  /** In a fixed point, every non-negative degree is a chain length. */
  lemma {:induction false} FixedPointIsChain(roles: seq<Role>, rep: seq<int>, d: seq<int>, k: nat)
    requires ValidArena(roles, rep) && IsFixedPoint(roles, rep, d) && k < |roles|
    requires d[k] >= 0
    ensures ChainToDeceased(roles, rep, k, d[k])
    decreases d[k]
  {
    assert d[k] == Rule(roles, rep, d, k);
    if IsLineal(roles[k]) {
      FixedPointIsChain(roles, rep, d, rep[k]);
    }
  }

  /** In a fixed point, every chain length is the degree. */
  lemma {:induction false} ChainIsFixedPoint(roles: seq<Role>, rep: seq<int>, d: seq<int>, k: nat, links: nat)
    requires ValidArena(roles, rep) && IsFixedPoint(roles, rep, d) && k < |roles|
    requires ChainToDeceased(roles, rep, k, links)
    ensures d[k] == links
    decreases links
  {
    assert d[k] == Rule(roles, rep, d, k);
    if links != 0 {
      ChainIsFixedPoint(roles, rep, d, rep[k], links - 1);
    }
  }

  /** The relaxation rules have exactly one fixed point. */
  lemma FixedPointUnique(roles: seq<Role>, rep: seq<int>, d1: seq<int>, d2: seq<int>)
    requires ValidArena(roles, rep)
    requires IsFixedPoint(roles, rep, d1) && IsFixedPoint(roles, rep, d2)
    ensures d1 == d2
  {
    forall k: nat | k < |roles|
      ensures d1[k] == d2[k]
    {
      assert d1[k] == Rule(roles, rep, d1, k);
      assert d2[k] == Rule(roles, rep, d2, k);
      if d1[k] >= 0 {
        FixedPointIsChain(roles, rep, d1, k);
        ChainIsFixedPoint(roles, rep, d2, k, d1[k]);
      } else if d2[k] >= 0 {
        FixedPointIsChain(roles, rep, d2, k);
        ChainIsFixedPoint(roles, rep, d1, k, d2[k]);
      }
    }
  }

  /** A deceased, a spouse, a child and a grandchild by representation:
      degrees 0, -1, 1 and 2. */
  lemma GrandchildCaseDegrees(d: seq<int>)
    requires IsFixedPoint([Decede, Epoux, Enfant, Enfant], [0, 0, 0, 2], d)
    ensures d == [0, -1, 1, 2]
  {
  }

  /** Two children representing each other, a parent representing itself and
      a child representing a spouse never reach the deceased: they keep the
      sentinel, and no error is raised. */
  lemma UnreachableCaseDegrees(d: seq<int>)
    requires IsFixedPoint([Decede, Enfant, Enfant, Parent, Epoux, Enfant], [0, 2, 1, 3, 0, 4], d)
    ensures d == [0, Unresolved, Unresolved, Unresolved, -1, Unresolved]
  {
  }
}

