/**
  Sum of a per-individual value over the members of one case
  (`succession.sum(succession.members(...))`). The membership relation is an
  explicit array: `caseOf[k]` is the index of the case individual `k`
  belongs to.
 */
module Aggregation {

  /** Sum of `values` over the members of case `c`. */
  function SumMembers(values: seq<real>, caseOf: seq<nat>, c: nat): (r: real)
    requires |values| == |caseOf|
    ensures (forall k :: 0 <= k < |caseOf| ==> caseOf[k] != c) ==> r == 0.0
    decreases |values|
  {
    if |values| == 0 then 0.0
    else
      var last := |values| - 1;
      SumMembers(values[..last], caseOf[..last], c) + (if caseOf[last] == c then values[last] else 0.0)
  }

  /** Sum of `values` over every individual, whatever its case. */
  function Total(values: seq<real>): real
    decreases |values|
  {
    if |values| == 0 then 0.0 else Total(values[..|values| - 1]) + values[|values| - 1]
  }

  /** Sum of the case sums of cases `0 .. cases - 1`. */
  function SumOverCases(values: seq<real>, caseOf: seq<nat>, cases: nat): real
    requires |values| == |caseOf|
  {
    if cases == 0 then 0.0 else SumOverCases(values, caseOf, cases - 1) + SumMembers(values, caseOf, cases - 1)
  }

  /** Individuals `k` with `flags[k]` that belong to case `c`. */
  function MembersWhere(flags: seq<bool>, caseOf: seq<nat>, c: nat): set<nat>
    requires |flags| == |caseOf|
  {
    set k: nat | k < |flags| && caseOf[k] == c && flags[k]
  }

  /** 1.0 where the flag holds, 0.0 elsewhere (a boolean summed as a float). */
  function Indicator(flags: seq<bool>): seq<real> {
    seq(|flags|, k requires 0 <= k < |flags| => if flags[k] then 1.0 else 0.0)
  }

  /** `amount` added `count` times. */
  function Repeat(count: nat, amount: real): real {
    if count == 0 then 0.0 else Repeat(count - 1, amount) + amount
  }

  /** The case sum reads only the values of the case's own members. */
  lemma {:induction false} SumMembersLocal(values: seq<real>, other: seq<real>, caseOf: seq<nat>, c: nat)
    requires |values| == |caseOf| == |other|
    requires forall k :: 0 <= k < |caseOf| && caseOf[k] == c ==> values[k] == other[k]
    ensures SumMembers(values, caseOf, c) == SumMembers(other, caseOf, c)
    decreases |values|
  {
    if |values| != 0 {
      var last := |values| - 1;
      SumMembersLocal(values[..last], other[..last], caseOf[..last], c);
    }
  }

  /** When every member of case `c` carries `amount` where its flag holds and
      0 elsewhere, the case sum is `amount` once per flagged member. */
  lemma {:induction false} SumFlaggedAmount(values: seq<real>, flags: seq<bool>, caseOf: seq<nat>, c: nat, amount: real)
    requires |values| == |flags| == |caseOf|
    requires forall k :: 0 <= k < |caseOf| && caseOf[k] == c ==> values[k] == (if flags[k] then amount else 0.0)
    ensures SumMembers(values, caseOf, c) == Repeat(|MembersWhere(flags, caseOf, c)|, amount)
    decreases |values|
  {
    if |values| == 0 {
      assert MembersWhere(flags, caseOf, c) == {};
    } else {
      var last := |values| - 1;
      SumFlaggedAmount(values[..last], flags[..last], caseOf[..last], c, amount);
      var before := MembersWhere(flags[..last], caseOf[..last], c);
      if caseOf[last] == c && flags[last] {
        assert MembersWhere(flags, caseOf, c) == before + {last};
        assert last !in before;
      } else {
        assert MembersWhere(flags, caseOf, c) == before;
      }
    }
  }

  /** Adding 1 `count` times gives `count`. */
  lemma {:induction false} RepeatOne(count: nat)
    ensures Repeat(count, 1.0) == count as real
  {
    if count != 0 {
      RepeatOne(count - 1);
    }
  }

  /** Adding `amount` `count` times is multiplying it by `count`. */
  lemma {:induction false} RepeatIsProduct(count: nat, amount: real)
    ensures Repeat(count, amount) == count as real * amount
  {
    if count != 0 {
      RepeatIsProduct(count - 1, amount);
      assert count as real * amount == (count - 1) as real * amount + amount;
    }
  }

  /** Appending one individual to case `c0` adds its value to the sum of
      every range of cases that contains `c0`, and to no other. */
  lemma {:induction false} SumOverCasesAppend(values: seq<real>, caseOf: seq<nat>, v: real, c0: nat, cases: nat)
    requires |values| == |caseOf|
    ensures SumOverCases(values + [v], caseOf + [c0], cases)
      == SumOverCases(values, caseOf, cases) + (if c0 < cases then v else 0.0)
  {
    if cases != 0 {
      SumOverCasesAppend(values, caseOf, v, c0, cases - 1);
      assert (values + [v])[..|values|] == values;
      assert (caseOf + [c0])[..|caseOf|] == caseOf;
    }
  }

  /** When every individual belongs to one of cases `0 .. cases - 1`, the case
      sums add up to the total: no value is lost or counted twice. */
  lemma {:induction false} SumOverCasesIsTotal(values: seq<real>, caseOf: seq<nat>, cases: nat)
    requires |values| == |caseOf|
    requires forall k :: 0 <= k < |caseOf| ==> caseOf[k] < cases
    ensures SumOverCases(values, caseOf, cases) == Total(values)
    decreases |values|
  {
    if |values| == 0 {
      SumOverCasesEmpty(values, caseOf, cases);
    } else {
      var last := |values| - 1;
      SumOverCasesIsTotal(values[..last], caseOf[..last], cases);
      SumOverCasesAppend(values[..last], caseOf[..last], values[last], caseOf[last], cases);
      assert values[..last] + [values[last]] == values;
      assert caseOf[..last] + [caseOf[last]] == caseOf;
    }
  }

  /** With nobody in the arena every case sum is zero. */
  lemma {:induction false} SumOverCasesEmpty(values: seq<real>, caseOf: seq<nat>, cases: nat)
    requires |values| == |caseOf| == 0
    ensures SumOverCases(values, caseOf, cases) == 0.0
  {
    if cases != 0 {
      SumOverCasesEmpty(values, caseOf, cases - 1);
    }
  }

  /** Summing a boolean flag over a case counts the members where it holds. */
  lemma SumIndicatorCounts(flags: seq<bool>, caseOf: seq<nat>, c: nat)
    requires |flags| == |caseOf|
    ensures SumMembers(Indicator(flags), caseOf, c) == |MembersWhere(flags, caseOf, c)| as real
  {
    SumFlaggedAmount(Indicator(flags), flags, caseOf, c, 1.0);
    RepeatOne(|MembersWhere(flags, caseOf, c)|);
  }
}
