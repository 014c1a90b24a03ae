// Variable activities (`update_vsids_activity`) and the choice they drive
// (the selection in `make_decision`).
module Vsids {
  import opened Basics
  import opened Cnf
  import opened Clauses

  const INT64_MAX: int := 0x7fff_ffff_ffff_ffff
  const NORMALIZATION_FACTOR := 1000000.0

  // Row v is free, no free row is more active, and no equally active one comes before it.
  ghost predicate FirstMostActive(assign: seq<Assignment>, activity: seq<int>, v: nat) {
    && |activity| == |assign| && Free(assign, v)
    && forall u: nat :: Free(assign, u) ==> activity[u] < activity[v] || (activity[u] == activity[v] && v <= u)
  }

  // The first unassigned row of highest activity among the first n.
  function MostActive(assign: seq<Assignment>, activity: seq<int>, n: nat): (r: Option<nat>)
    requires n <= |assign| == |activity|
    ensures r.None? <==> forall v :: 0 <= v < n ==> !Free(assign, v)
    ensures r.Some? ==> r.value < n && Free(assign, r.value)
    ensures r.Some? ==> forall v :: 0 <= v < n && Free(assign, v) ==>
      activity[v] < activity[r.value] || (activity[v] == activity[r.value] && r.value <= v)
  {
    if n == 0 then None
    else
      var best := MostActive(assign, activity, n - 1);
      if Free(assign, n - 1) && (best.None? || activity[best.value] < activity[n - 1]) then Some(n - 1) else best
  }

  // Dividing an integer activity by a real and truncating toward zero.
  function Scaled(a: int, ratio: real): int
    requires ratio != 0.0
  {
    var q := a as real / ratio;
    if q >= 0.0 then q.Floor else -((-q).Floor)
  }

  function ScaledAll(activity: seq<int>, ratio: real): (r: seq<int>)
    requires ratio != 0.0
    ensures |r| == |activity| && forall v :: 0 <= v < |r| ==> r[v] == Scaled(activity[v], ratio)
  {
    seq(|activity|, v requires 0 <= v < |activity| => Scaled(activity[v], ratio))
  }

  // One increment for each literal of the clause.
  function Bumped(activity: seq<int>, c: Clause, increment: int): (r: seq<int>)
    requires forall p :: 0 <= p < |c| ==> c[p].id < |activity|
    ensures |r| == |activity|
  {
    if c == [] then activity
    else
      var r := Bumped(activity, c[..|c| - 1], increment);
      var v := c[|c| - 1].id;
      r[v := r[v] + increment]
  }

  predicate NearOverflow(activity: seq<int>, c: Clause, increment: int)
    requires forall p :: 0 <= p < |c| ==> c[p].id < |activity|
  {
    exists p :: 0 <= p < |c| && activity[c[p].id] >= INT64_MAX - increment
  }

  function Updated(activity: seq<int>, c: Clause, conf: Configuration, conflicts: nat): (r: seq<int>)
    requires ConfigurationWf(conf) && forall p :: 0 <= p < |c| ==> c[p].id < |activity|
    ensures |r| == |activity|
  {
    var normalized :=
      if NearOverflow(activity, c, conf.vsidsIncrement) then ScaledAll(activity, NORMALIZATION_FACTOR) else activity;
    var bumped := Bumped(normalized, c, conf.vsidsIncrement);
    if conflicts % conf.decayInterval == 0 then ScaledAll(bumped, conf.vsidsDecayRatio) else bumped
  }

  ghost predicate ActivityBumped(before: seq<int>, after: seq<int>, c: Clause, conf: Configuration, conflicts: nat) {
    && ConfigurationWf(conf) && (forall p :: 0 <= p < |c| ==> c[p].id < |before|)
    && after == Updated(before, c, conf, conflicts)
  }

  // On a clause with distinct variables, exactly its variables are bumped, once each.
  lemma {:induction false} BumpedOnce(activity: seq<int>, c: Clause, increment: int, v: nat)
    requires DistinctVariables(c) && v < |activity| && forall p :: 0 <= p < |c| ==> c[p].id < |activity|
    ensures Bumped(activity, c, increment)[v] ==
      activity[v] + (if exists p :: 0 <= p < |c| && c[p].id == v then increment else 0)
  {
    if c == [] {
    } else {
      var front := c[..|c| - 1];
      BumpedOnce(activity, front, increment, v);
      assert forall p :: 0 <= p < |front| ==> front[p] == c[p];
      assert c[|c| - 1].id == v || (exists p :: 0 <= p < |front| && front[p].id == v) <==>
        (exists p :: 0 <= p < |c| && c[p].id == v);
    }
  }

  // q is the integer between zero and a / ratio that is less than one from it.
  ghost predicate Truncates(a: int, ratio: real, q: int)
    requires ratio != 0.0
  {
    var x := a as real / ratio;
    if x >= 0.0 then 0 <= q && q as real <= x < q as real + 1.0 else q <= 0 && q as real - 1.0 < x <= q as real
  }

  lemma ScaledTruncates(a: int, ratio: real)
    requires ratio != 0.0
    ensures Truncates(a, ratio, Scaled(a, ratio))
  {
  }

  // The positions at which the clause holds variable row v.
  ghost function PositionsOf(c: Clause, v: nat): set<nat> { set p | 0 <= p < |c| && c[p].id == v }

  lemma OneMore(a: int, n: nat)
    ensures a * (n + 1) == a * n + a
  {
  }

  lemma {:induction false} BumpedByPositions(activity: seq<int>, c: Clause, increment: int, v: nat)
    requires v < |activity| && forall p :: 0 <= p < |c| ==> c[p].id < |activity|
    ensures Bumped(activity, c, increment)[v] == activity[v] + increment * |PositionsOf(c, v)|
  {
    if c == [] {
      assert PositionsOf(c, v) == {};
    } else {
      var n := |c| - 1;
      BumpedByPositions(activity, c[..n], increment, v);
      assert PositionsOf(c, v) == PositionsOf(c[..n], v) + (if c[n].id == v then {n} else {});
      hide PositionsOf;
      OneMore(increment, |PositionsOf(c[..n], v)|);
    }
  }

  // What an update does to row v. If an activity of the clause is within an increment of the
  // 64-bit maximum, all are first divided by a million; then the row gains one increment for
  // each position in the clause; then, if the decay interval divides the count of conflicts,
  // all are divided by the decay ratio.
  ghost predicate RowUpdated(
      before: seq<int>, after: seq<int>, c: Clause, conf: Configuration, conflicts: nat, v: nat)
    requires ConfigurationWf(conf) && v < |before| == |after|
    requires forall p :: 0 <= p < |c| ==> c[p].id < |before|
  {
    exists n :: RowFrom(before, after, c, conf, conflicts, v, n)
  }

  // The same, with the activity n that row v has before the increments.
  ghost predicate RowFrom(
      before: seq<int>, after: seq<int>, c: Clause, conf: Configuration, conflicts: nat, v: nat, n: int)
    requires ConfigurationWf(conf) && v < |before| == |after|
    requires forall p :: 0 <= p < |c| ==> c[p].id < |before|
  {
    && (if exists p :: 0 <= p < |c| && before[c[p].id] >= 0x7fff_ffff_ffff_ffff - conf.vsidsIncrement
        then Truncates(before[v], 1000000.0, n) else n == before[v])
    && var b := n + conf.vsidsIncrement * |PositionsOf(c, v)|;
       if conflicts % conf.decayInterval == 0 then Truncates(b, conf.vsidsDecayRatio, after[v]) else after[v] == b
  }

  lemma UpdatedRow(activity: seq<int>, c: Clause, conf: Configuration, conflicts: nat, v: nat)
    requires ConfigurationWf(conf) && v < |activity| && forall p :: 0 <= p < |c| ==> c[p].id < |activity|
    ensures RowUpdated(activity, Updated(activity, c, conf, conflicts), c, conf, conflicts, v)
  {
    var normalized :=
      if NearOverflow(activity, c, conf.vsidsIncrement) then ScaledAll(activity, NORMALIZATION_FACTOR) else activity;
    var bumped := Bumped(normalized, c, conf.vsidsIncrement);
    BumpedByPositions(normalized, c, conf.vsidsIncrement, v);
    ScaledTruncates(activity[v], NORMALIZATION_FACTOR);
    ScaledTruncates(bumped[v], conf.vsidsDecayRatio);
    hide Scaled, Truncates, Bumped, PositionsOf;
    assert RowFrom(activity, Updated(activity, c, conf, conflicts), c, conf, conflicts, v, normalized[v]);
  }

  // Scaling by a positive ratio never inverts two activities, so it cannot turn a less
  // active variable into the more active one.
  lemma ScalingKeepsOrder(a: int, b: int, ratio: real)
    requires ratio > 0.0 && a <= b
    ensures Scaled(a, ratio) <= Scaled(b, ratio)
  {
    var p, q := a as real / ratio, b as real / ratio;
    assert p <= q by { assert p * ratio == a as real && q * ratio == b as real; }
    if p >= 0.0 { assert p.Floor <= q.Floor; } else if q < 0.0 { assert (-q).Floor <= (-p).Floor; }
  }

  // When dividing by the decay ratio lowers an activity: a positive activity is lowered
  // exactly by a ratio above one, which the default 0.95 is not, and a negative one exactly
  // when the quotient is at least one unit further from zero.
  lemma DecayLowers(a: int, ratio: real)
    requires ratio > 0.0
    ensures Scaled(a, ratio) < a <==>
      if a >= 0 then a > 0 && ratio > 1.0 else (1 - a) as real * ratio <= (-a) as real
  {
    var q := a as real / ratio;
    assert q * ratio == a as real;
    if a >= 0 {
      QuotientBelow(q, a as real, ratio);
    } else {
      QuotientReaches(-q, (-a) as real, ratio, (1 - a) as real);
    }
  }

  lemma QuotientBelow(q: real, x: real, ratio: real)
    requires ratio > 0.0 && x >= 0.0 && q * ratio == x
    ensures q >= 0.0 && (q < x <==> x > 0.0 && ratio > 1.0)
  {
    assert q >= 0.0;
    if ratio <= 1.0 {
      assert q * (1.0 - ratio) >= 0.0;
    } else if x > 0.0 {
      assert q * (ratio - 1.0) > 0.0;
    }
  }

  lemma QuotientReaches(q: real, x: real, ratio: real, bound: real)
    requires ratio > 0.0 && x > 0.0 && q * ratio == x
    ensures q > 0.0 && (q >= bound <==> bound * ratio <= x)
  {
    assert q > 0.0;
    assert (q - bound) * ratio == x - bound * ratio;
  }
}
