/**
  The relaxation loop of `degre_parente_civil.formula`: an integer array of
  degrees, initialised to the sentinel, then deceased, then spouses, then
  passes over children and parents read from a snapshot, until a pass
  changes nothing.
 */
module Resolver {
  import opened Roles
  import opened Kinship

  /** New degree of `k` in pass `i`, read from the snapshot `d` taken at the
      start of the pass: a child or parent whose represented individual has
      degree at least `i` takes that degree plus one. */
  function Step(roles: seq<Role>, rep: seq<int>, d: seq<int>, i: nat, k: nat): int
    requires ValidArena(roles, rep) && |d| == |roles| && k < |d|
  {
    if IsLineal(roles[k]) && d[rep[k]] >= i then d[rep[k]] + 1 else d[k]
  }

  /** One whole pass of the loop, every entry read from the same snapshot. */
  function Pass(roles: seq<Role>, rep: seq<int>, d: seq<int>, i: nat): seq<int>
    requires ValidArena(roles, rep) && |d| == |roles|
  {
    seq(|d|, k requires 0 <= k < |d| => Step(roles, rep, d, i, k))
  }

  /** Number of entries still at the sentinel. */
  function CountUnresolved(d: seq<int>): (r: nat)
    ensures r <= |d|
  {
    if |d| == 0 then 0
    else (if d[0] == Unresolved then 1 else 0) + CountUnresolved(d[1..])
  }

  /** Pass `i` applied to the degrees reachable within `i` links yields the
      degrees reachable within `i + 1` links: the threshold `>= i` never
      holds back an entry that could be resolved. */
  lemma PassAdvancesLevel(roles: seq<Role>, rep: seq<int>, i: nat)
    requires ValidArena(roles, rep)
    ensures Pass(roles, rep, Degrees(roles, rep, i), i) == Degrees(roles, rep, i + 1)
  {
    var d := Degrees(roles, rep, i);
    forall k: nat | k < |roles|
      ensures Step(roles, rep, d, i, k) == BoundedDegree(roles, rep, k, i + 1)
    {
      if IsLineal(roles[k]) {
        var r: nat := rep[k];
        var up := BoundedDegree(roles, rep, r, i);
        if 0 <= up < i {
          BoundedDegreeSettled(roles, rep, r, i - 1);
        } else if up < 0 && i > 0 && BoundedDegree(roles, rep, r, i - 1) != Unresolved {
          BoundedDegreeMonotone(roles, rep, r, i - 1);
        }
      }
    }
  }

  /** A pass never changes an entry that is already resolved. */
  lemma PassKeepsResolved(roles: seq<Role>, rep: seq<int>, i: nat)
    requires ValidArena(roles, rep)
    ensures forall k :: 0 <= k < |roles| && Degrees(roles, rep, i)[k] != Unresolved ==>
      Pass(roles, rep, Degrees(roles, rep, i), i)[k] == Degrees(roles, rep, i)[k]
  {
    PassAdvancesLevel(roles, rep, i);
    forall k: nat | k < |roles| && BoundedDegree(roles, rep, k, i) != Unresolved
      ensures BoundedDegree(roles, rep, k, i + 1) == BoundedDegree(roles, rep, k, i)
    {
      BoundedDegreeMonotone(roles, rep, k, i);
    }
  }

  /** Changing only sentinel entries, and at least one of them, lowers the
      sentinel count. */
  lemma {:induction false} CountDecreases(d: seq<int>, e: seq<int>)
    requires |d| == |e|
    requires forall k :: 0 <= k < |d| && d[k] != Unresolved ==> e[k] == d[k]
    ensures CountUnresolved(e) <= CountUnresolved(d)
    ensures e != d ==> CountUnresolved(e) < CountUnresolved(d)
  {
    if |d| != 0 {
      CountDecreases(d[1..], e[1..]);
      if e != d && e[1..] == d[1..] {
        assert e == [e[0]] + e[1..] && d == [d[0]] + d[1..];
      }
    }
  }

  /** Each pass that changes something turns at least one sentinel into a
      resolved degree, so the loop runs at most `n + 1` passes. */
  lemma PassProgress(roles: seq<Role>, rep: seq<int>, i: nat)
    requires ValidArena(roles, rep)
    requires Degrees(roles, rep, i + 1) != Degrees(roles, rep, i)
    ensures CountUnresolved(Degrees(roles, rep, i + 1)) < CountUnresolved(Degrees(roles, rep, i))
  {
    PassAdvancesLevel(roles, rep, i);
    PassKeepsResolved(roles, rep, i);
    CountDecreases(Degrees(roles, rep, i), Degrees(roles, rep, i + 1));
  }

  /** Once a pass changes nothing, the degrees are the fixed point: each one
      is the length of the chain to a deceased, and more passes keep them. */
  lemma SettledDegrees(roles: seq<Role>, rep: seq<int>, i: nat)
    requires ValidArena(roles, rep)
    requires Degrees(roles, rep, i + 1) == Degrees(roles, rep, i)
    ensures IsFixedPoint(roles, rep, Degrees(roles, rep, i))
    ensures forall k: nat :: k < |roles| && Degrees(roles, rep, i)[k] >= 0 ==>
      ChainToDeceased(roles, rep, k, Degrees(roles, rep, i)[k])
    ensures forall k: nat, links: nat :: k < |roles| && ChainToDeceased(roles, rep, k, links) ==>
      Degrees(roles, rep, i)[k] == links
    ensures forall k: nat, fuel: nat :: k < |roles| && i <= fuel ==>
      Degrees(roles, rep, i)[k] == BoundedDegree(roles, rep, k, fuel)
  {
    var d := Degrees(roles, rep, i);
    forall k: nat | k < |roles|
      ensures d[k] == Rule(roles, rep, d, k)
    {
      assert d[k] == Degrees(roles, rep, i + 1)[k];
    }
    forall k: nat | k < |roles| && d[k] >= 0
      ensures ChainToDeceased(roles, rep, k, d[k])
    {
      BoundedDegreeIsChain(roles, rep, k, i);
    }
    forall k: nat, links: nat | k < |roles| && ChainToDeceased(roles, rep, k, links)
      ensures d[k] == links
    {
      var fuel := if links <= i then i else links;
      ChainIsBoundedDegree(roles, rep, k, links, fuel);
      SettledForever(roles, rep, i, fuel);
      assert Degrees(roles, rep, fuel)[k] == d[k];
    }
    forall k: nat, fuel: nat | k < |roles| && i <= fuel
      ensures d[k] == BoundedDegree(roles, rep, k, fuel)
    {
      SettledForever(roles, rep, i, fuel);
      assert Degrees(roles, rep, fuel)[k] == d[k];
    }
  }

  /** The array before the loop: sentinel everywhere, 0 for the deceased,
      -1 for spouses of an individual already at a degree >= 0. */
  method InitialDegrees(roles: seq<Role>, rep: seq<int>) returns (d: array<int>)
    requires ValidArena(roles, rep)
    ensures fresh(d)
    ensures d[..] == Degrees(roles, rep, 0)
  {
    var n := |roles|;
    d := new int[n];

    // Every individual starts at the sentinel.
    var k := 0;
    while k < n
      invariant 0 <= k <= n
      invariant forall j :: 0 <= j < k ==> d[j] == Unresolved
    {
      d[k] := Unresolved;
      k := k + 1;
    }

    // Deceased individuals are at degree 0.
    k := 0;
    while k < n
      invariant 0 <= k <= n
      invariant forall j :: 0 <= j < n ==> d[j] == (if j < k && roles[j] == Decede then 0 else Unresolved)
    {
      if roles[k] == Decede {
        d[k] := 0;
      }
      k := k + 1;
    }

    // Spouses of an individual already at a degree >= 0 are at -1.
    var snapshot := d[..];
    k := 0;
    while k < n
      invariant 0 <= k <= n
      invariant forall j :: 0 <= j < n ==>
        d[j] == (if j < k && roles[j] == Epoux && snapshot[rep[j]] >= 0 then -1 else snapshot[j])
    {
      if roles[k] == Epoux && snapshot[rep[k]] >= 0 {
        d[k] := -1;
      }
      k := k + 1;
    }
    assert d[..] == Degrees(roles, rep, 0);

  }

  /** One pass of the loop, in place: every entry is read from the snapshot
      the array held when the pass started. */
  method RelaxPass(roles: seq<Role>, rep: seq<int>, d: array<int>, i: nat)
    requires ValidArena(roles, rep) && d.Length == |roles|
    modifies d
    ensures d[..] == Pass(roles, rep, old(d[..]), i)
  {
    var n := |roles|;
    var previous := d[..];
    var k := 0;
    while k < n
      invariant 0 <= k <= n
      invariant forall j :: 0 <= j < n ==> d[j] == (if j < k then Step(roles, rep, previous, i, j) else previous[j])
    {
      if IsLineal(roles[k]) && previous[rep[k]] >= i {
        d[k] := previous[rep[k]] + 1;
      }
      k := k + 1;
    }
  }

  /** What the rules say about each role, read off any fixed point. */
  lemma FixedPointRoles(roles: seq<Role>, rep: seq<int>, d: seq<int>)
    requires ValidArena(roles, rep) && IsFixedPoint(roles, rep, d)
    ensures forall k :: 0 <= k < |roles| && roles[k] == Decede ==> d[k] == 0
    ensures forall k :: 0 <= k < |roles| && roles[k] == Epoux ==>
      (d[k] == -1 <==> roles[rep[k]] == Decede) && (d[k] == -1 || d[k] == Unresolved)
    ensures forall k :: 0 <= k < |roles| && roles[k] == Other ==> d[k] == Unresolved
    ensures forall k :: 0 <= k < |roles| && IsLineal(roles[k]) ==>
      d[k] == (if d[rep[k]] >= 0 then d[rep[k]] + 1 else Unresolved)
    ensures forall k :: 0 <= k < |roles| && IsLineal(roles[k]) ==> d[k] == Unresolved || d[k] >= 1
  {
  }

  /** Runs the relaxation passes over children and parents until one leaves
      the degrees unchanged; `passes` counts the passes, the last included. */
  method RunPasses(roles: seq<Role>, rep: seq<int>) returns (degree: seq<int>, passes: nat)
    requires ValidArena(roles, rep)
    ensures 1 <= passes <= |roles| + 1
    ensures degree == Degrees(roles, rep, passes - 1)
    ensures Degrees(roles, rep, passes) == Degrees(roles, rep, passes - 1)
    ensures forall j: nat :: j + 1 < passes ==> Degrees(roles, rep, j + 1) != Degrees(roles, rep, j)
  {
    var n := |roles|;
    var d := InitialDegrees(roles, rep);
    var i: nat := 0;
    while true
      invariant d[..] == Degrees(roles, rep, i)
      invariant i + CountUnresolved(d[..]) <= n
      invariant forall j: nat :: j < i ==> Degrees(roles, rep, j + 1) != Degrees(roles, rep, j)
      decreases CountUnresolved(d[..])
    {
      var previous := d[..];
      RelaxPass(roles, rep, d, i);
      PassAdvancesLevel(roles, rep, i);
      if d[..] == previous {
        passes := i + 1;
        break;
      }
      PassProgress(roles, rep, i);
      i := i + 1;
    }
    degree := d[..];
  }

  /** Computes the degree of kinship of every individual with the deceased.
      `passes` is the number of relaxation passes the loop ran: the last one
      is the first that leaves the degrees unchanged. */
  method Resolve(roles: seq<Role>, rep: seq<int>) returns (degree: seq<int>, passes: nat)
    requires ValidArena(roles, rep)
    ensures |degree| == |roles|
    ensures 1 <= passes <= |roles| + 1
    ensures Degrees(roles, rep, passes) == Degrees(roles, rep, passes - 1)
    ensures forall j: nat :: j + 1 < passes ==> Degrees(roles, rep, j + 1) != Degrees(roles, rep, j)
    ensures IsFixedPoint(roles, rep, degree)
    ensures forall k :: 0 <= k < |roles| && roles[k] == Decede ==> degree[k] == 0
    ensures forall k :: 0 <= k < |roles| && roles[k] == Epoux ==>
      (degree[k] == -1 <==> roles[rep[k]] == Decede) && (degree[k] == -1 || degree[k] == Unresolved)
    ensures forall k :: 0 <= k < |roles| && roles[k] == Other ==> degree[k] == Unresolved
    ensures forall k :: 0 <= k < |roles| && IsLineal(roles[k]) ==>
      degree[k] == (if degree[rep[k]] >= 0 then degree[rep[k]] + 1 else Unresolved)
    ensures forall k :: 0 <= k < |roles| && IsLineal(roles[k]) ==> degree[k] == Unresolved || degree[k] >= 1
    ensures forall k: nat :: k < |roles| && degree[k] >= 0 ==> ChainToDeceased(roles, rep, k, degree[k])
    ensures forall k: nat, links: nat :: k < |roles| && ChainToDeceased(roles, rep, k, links) ==> degree[k] == links
    ensures forall k: nat, fuel: nat :: k < |roles| && passes <= fuel ==> degree[k] == BoundedDegree(roles, rep, k, fuel)
  {
    degree, passes := RunPasses(roles, rep);
    SettledDegrees(roles, rep, passes - 1);
    FixedPointRoles(roles, rep, degree);
  }
}
