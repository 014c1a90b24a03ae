// What a pass over the clause table does, said of the trail it leaves: which clause added
// each entry, and what every other clause looked like when the pass came to it.
module Passes {
  import opened Basics
  import opened Clauses
  import opened Search
  import opened Sweeps

  // The assignment when the trail held its first m entries.
  ghost function AssignAt(t: State, m: nat): (r: seq<Assignment>)
    requires m <= |t.trail|
    ensures |r| == |t.assign|
  {
    seq(|t.assign|, v requires 0 <= v < |t.assign| => if v in t.trail[..m] then t.assign[v] else NotAssigned)
  }

  // The clause that added trail entry k.
  ghost function AddedBy(t: State, k: nat): Option<nat> {
    if k < |t.trail| && t.trail[k] < |t.reason| then t.reason[t.trail[k]] else None
  }

  // The pass looked at clause i when the trail held its first m entries: those it had added
  // by then came from earlier clauses, the rest come from clause i or later ones.
  ghost predicate LookedAt(t: State, a: nat, b: nat, i: nat, m: nat) {
    && a <= m <= b
    && (forall k :: a <= k < m ==> AddedBy(t, k).Some? && AddedBy(t, k).value < i)
    && (forall k :: m <= k < b ==> AddedBy(t, k).Some? && AddedBy(t, k).value >= i)
  }

  // Under the first m entries every literal of the clause but one was false and that one was
  // unassigned; entry m makes it true.
  ghost predicate UnitThen(t: State, c: Clause, m: nat)
    requires m < |t.trail|
  {
    exists p ::
      && 0 <= p < |c| && c[p].id == t.trail[m] && LitTrue(t.assign, c[p]) && Free(AssignAt(t, m), c[p].id)
      && forall q :: 0 <= q < |c| && q != p ==> LitFalse(AssignAt(t, m), c[q])
  }

  // What became of clause i: it added entry m, or it was satisfied or had two open positions.
  ghost predicate Treated(t: State, a: nat, b: nat, i: nat, m: nat) {
    && LookedAt(t, a, b, i, m) && b <= |t.trail| && i < |t.clauses|
    && if m < b && AddedBy(t, m) == Some(i) then UnitThen(t, t.clauses[i], m)
       else Settled(AssignAt(t, m), t.clauses[i])
  }

  ghost predicate GoneThrough(t: State, a: nat, b: nat, i: nat) {
    exists m :: Treated(t, a, b, i, m)
  }

  // A pass from clause `from` on has added the trail entries a to b, in the order of the
  // clauses, and gone through every clause, or up to the first false one.
  ghost predicate PassOver(t: State, from: nat, a: nat, b: nat, conflict: Option<nat>) {
    var end := if conflict.Some? then conflict.value else |t.clauses|;
    && a <= b <= |t.trail| && from <= end
    && (forall k :: a <= k < b ==> AddedBy(t, k).Some? && from <= AddedBy(t, k).value < end)
    && (forall k, l :: a <= k < l < b ==> AddedBy(t, k).value < AddedBy(t, l).value)
    && (forall i :: from <= i < end ==> GoneThrough(t, a, b, i))
    && (conflict.Some? ==> end < |t.clauses| && Falsified(AssignAt(t, b), t.clauses[end]))
  }

  // t has the trail of s and more, and has changed nothing that s assigned.
  ghost predicate Continues(s: State, t: State) {
    && t.clauses == s.clauses && |t.assign| == |s.assign| && |t.reason| == |s.reason|
    && |s.trail| <= |t.trail| && t.trail[..|s.trail|] == s.trail
    && forall v :: v in s.trail && v < |s.assign| && v < |s.reason| ==>
         t.assign[v] == s.assign[v] && t.reason[v] == s.reason[v]
  }

  lemma NowIsTrail(s: State)
    requires Inv(s)
    ensures AssignAt(s, |s.trail|) == s.assign
  {
    assert s.trail[..|s.trail|] == s.trail;
  }

  lemma AssignKept(s: State, t: State, m: nat)
    requires Continues(s, t) && m <= |s.trail| && |s.assign| == |s.reason|
    ensures AssignAt(t, m) == AssignAt(s, m)
  {
    assert t.trail[..m] == s.trail[..m];
  }

  lemma ImplyContinues(s: State, i: nat)
    requires Inv(s) && Shaped(s) && i < |s.clauses| && ScanOf(s.assign, s.clauses[i]) == Implied
    ensures Continues(s, Imply(s, i)) && Inv(Imply(s, i))
    ensures AddedBy(Imply(s, i), |s.trail|) == Some(i)
    ensures UnitThen(Imply(s, i), s.clauses[i], |s.trail|)
  {
    var p := ImplyPropagates(s, i);
    PropagateKeeps(s, i, p);
    var t := Imply(s, i);
    var c := s.clauses[i];
    assert t.trail[..|s.trail|] == s.trail;
    assert Continues(s, t);
    NowIsTrail(s);
    AssignKept(s, t, |s.trail|);
    hide Inv, AssignAt;
    assert c[p].id == t.trail[|s.trail|] && LitTrue(t.assign, c[p]);
  }

  lemma ContinuesOn(s: State, t: State, u: State)
    requires Continues(s, t) && Continues(t, u) && |s.assign| == |s.reason|
    requires forall v :: v in s.trail ==> v < |s.assign|
    ensures Continues(s, u)
  {
    forall v | v in s.trail ensures v in t.trail {
      var k :| 0 <= k < |s.trail| && s.trail[k] == v;
      assert t.trail[..|s.trail|][k] == t.trail[k];
    }
    assert u.trail[..|s.trail|] == u.trail[..|t.trail|][..|s.trail|];
  }

  lemma UnitKept(s: State, t: State, c: Clause, m: nat)
    requires Continues(s, t) && m < |s.trail| && |s.assign| == |s.reason| && s.trail[m] < |s.assign|
    requires UnitThen(s, c, m)
    ensures UnitThen(t, c, m)
  {
    AssignKept(s, t, m);
    hide AssignAt;
    var p :| 0 <= p < |c| && c[p].id == s.trail[m] && LitTrue(s.assign, c[p]) && Free(AssignAt(s, m), c[p].id)
      && forall q :: 0 <= q < |c| && q != p ==> LitFalse(AssignAt(s, m), c[q]);
    assert t.trail[..|s.trail|][m] == t.trail[m];
    assert s.trail[m] in s.trail;
    assert LitTrue(t.assign, c[p]);
  }

  lemma AddedKept(s: State, t: State, k: nat)
    requires Continues(s, t) && k < |s.trail| && |s.assign| == |s.reason|
    ensures AddedBy(t, k) == AddedBy(s, k)
  {
    assert t.trail[..|s.trail|][k] == t.trail[k];
    assert s.trail[k] in s.trail;
  }

  // Later entries do not change what an earlier pass was.
  lemma PassKept(s: State, t: State, from: nat, a: nat, b: nat, conflict: Option<nat>)
    requires Continues(s, t) && PassOver(s, from, a, b, conflict) && InRange(s)
    ensures PassOver(t, from, a, b, conflict)
  {
    var end := if conflict.Some? then conflict.value else |s.clauses|;
    forall k | a <= k < b ensures AddedBy(t, k) == AddedBy(s, k) { AddedKept(s, t, k); }
    forall i | from <= i < end ensures GoneThrough(t, a, b, i) {
      assert GoneThrough(s, a, b, i);
      var m :| Treated(s, a, b, i, m);
      TreatedKept(s, t, a, b, i, m);
    }
    if conflict.Some? { AssignKept(s, t, b); }
  }

  lemma TreatedKept(s: State, t: State, a: nat, b: nat, i: nat, m: nat)
    requires Continues(s, t) && Treated(s, a, b, i, m) && InRange(s)
    ensures Treated(t, a, b, i, m)
  {
    forall k | a <= k < b ensures AddedBy(t, k) == AddedBy(s, k) { AddedKept(s, t, k); }
    AssignKept(s, t, m);
    hide UnitThen, Settled, AssignAt, AddedBy;
    if m < b && AddedBy(s, m) == Some(i) { UnitKept(s, t, s.clauses[i], m); }
  }

  lemma PassIdle(t: State, i: nat, a: nat, b: nat, conflict: Option<nat>)
    requires PassOver(t, i + 1, a, b, conflict) && i < |t.clauses|
    requires Settled(AssignAt(t, a), t.clauses[i])
    ensures PassOver(t, i, a, b, conflict)
  {
    hide Settled, UnitThen, AssignAt, AddedBy, Falsified;
    assert Treated(t, a, b, i, a);
    assert GoneThrough(t, a, b, i);
  }

  lemma PassImplied(t: State, i: nat, a: nat, b: nat, conflict: Option<nat>)
    requires PassOver(t, i + 1, a + 1, b, conflict) && i < |t.clauses|
    requires AddedBy(t, a) == Some(i) && UnitThen(t, t.clauses[i], a)
    ensures PassOver(t, i, a, b, conflict)
  {
    hide Settled, UnitThen, AssignAt, AddedBy, Falsified;
    assert Treated(t, a, b, i, a);
    assert GoneThrough(t, a, b, i);
    var end := if conflict.Some? then conflict.value else |t.clauses|;
    forall j | i < j < end ensures GoneThrough(t, a, b, j) {
      assert GoneThrough(t, a + 1, b, j);
      var m :| Treated(t, a + 1, b, j, m);
      assert Treated(t, a, b, j, m);
    }
  }

  lemma PassStart(s: State, t: State)
    requires Inv(s) && Continues(s, t)
    ensures AssignAt(t, |s.trail|) == s.assign
  {
    NowIsTrail(s);
    AssignKept(s, t, |s.trail|);
  }

  // Every pass is one over the table as above.
  lemma {:induction false} SweepPasses(s: State, i: nat)
    requires Inv(s) && Shaped(s) && i <= |s.clauses|
    ensures var r := Sweep(s, i);
      && Continues(s, r.state) && PassOver(r.state, i, |s.trail|, |r.state.trail|, r.conflict)
    decreases |s.clauses| - i
  {
    hide Inv, PassOver, Continues, ScanOf, Imply;
    var r := Sweep(s, i);
    if i == |s.clauses| {
      NothingPassed(s, i, None);
    } else {
      ScanMeaning(s, i);
      match ScanOf(s.assign, s.clauses[i])
      case Idle =>
        SweepPasses(s, i + 1);
        IdlePass(s, i, r);
      case Clash =>
        NothingPassed(s, i, Some(i));
      case Implied =>
        ImplyContinues(s, i);
        SweepPasses(Imply(s, i), i + 1);
        ImpliedPass(s, i, r);
    }
  }

  lemma NothingPassed(s: State, i: nat, conflict: Option<nat>)
    requires Inv(s) && i <= |s.clauses|
    requires if i == |s.clauses| then conflict == None else conflict == Some(i) && Falsified(s.assign, s.clauses[i])
    ensures Continues(s, s) && PassOver(s, i, |s.trail|, |s.trail|, conflict)
  {
    NowIsTrail(s);
    assert s.trail[..|s.trail|] == s.trail;
  }

  lemma IdlePass(s: State, i: nat, r: Swept)
    requires Inv(s) && i < |s.clauses| && Settled(s.assign, s.clauses[i])
    requires Continues(s, r.state) && PassOver(r.state, i + 1, |s.trail|, |r.state.trail|, r.conflict)
    ensures PassOver(r.state, i, |s.trail|, |r.state.trail|, r.conflict)
  {
    NowIsTrail(s);
    AssignKept(s, r.state, |s.trail|);
    hide Inv, PassOver;
    PassIdle(r.state, i, |s.trail|, |r.state.trail|, r.conflict);
  }

  lemma ImpliedPass(s: State, i: nat, r: Swept)
    requires Inv(s) && Shaped(s) && i < |s.clauses| && ScanOf(s.assign, s.clauses[i]) == Implied
    requires Continues(Imply(s, i), r.state)
    requires PassOver(r.state, i + 1, |s.trail| + 1, |r.state.trail|, r.conflict)
    ensures Continues(s, r.state) && PassOver(r.state, i, |s.trail|, |r.state.trail|, r.conflict)
  {
    ImplyContinues(s, i);
    assert InRange(s) && InRange(Imply(s, i));
    ContinuesOn(s, Imply(s, i), r.state);
    UnitKept(Imply(s, i), r.state, s.clauses[i], |s.trail|);
    AddedKept(Imply(s, i), r.state, |s.trail|);
    hide Inv, UnitThen, PassOver, AddedBy, Imply, ScanOf;
    PassImplied(r.state, i, |s.trail|, |r.state.trail|, r.conflict);
  }

  // ---- Passes one after the other ----

  // Pass k added the entries from marks[k] on. Every pass but the last added some and met no
  // false clause; the last met one or added nothing.
  ghost predicate PassesOver(t: State, marks: seq<nat>, conflict: Option<nat>) {
    && |marks| >= 2 && marks[|marks| - 1] == |t.trail|
    && (forall k :: 0 <= k < |marks| - 2 ==> marks[k] < marks[k + 1] && PassOver(t, 0, marks[k], marks[k + 1], None))
    && PassOver(t, 0, marks[|marks| - 2], marks[|marks| - 1], conflict)
    && (conflict.Some? || marks[|marks| - 2] == marks[|marks| - 1])
  }

  lemma OnePass(s: State, t: State)
    requires Inv(s) && Shaped(s) && GoesOn(s) && t == Sweep(s, 0).state
    ensures Inv(t) && Continues(s, t) && |s.trail| < |t.trail| && PassOver(t, 0, |s.trail|, |t.trail|, None)
  {
    hide Inv, PassOver, Continues, Settled, Falsified;
    SweepOutcome(s, 0);
    SweepKeeps(s, 0);
    SweepPasses(s, 0);
  }

  lemma {:induction false} EarlierPasses(s: State, n: nat) returns (marks: seq<nat>)
    requires Inv(s) && Shaped(s) && forall m :: 0 <= m < n ==> GoesOn(AfterSweeps(s, m))
    ensures Inv(AfterSweeps(s, n)) && Continues(s, AfterSweeps(s, n))
    ensures |marks| == n + 1 && marks[0] == |s.trail| && marks[n] == |AfterSweeps(s, n).trail|
    ensures forall k :: 0 <= k < n ==>
      marks[k] < marks[k + 1] && PassOver(AfterSweeps(s, n), 0, marks[k], marks[k + 1], None)
  {
    hide Inv, PassOver, Continues, Sweep, GoesOn;
    if n == 0 {
      assert AfterSweeps(s, 0) == s;
      NothingPassed(s, |s.clauses|, None);
      marks := [|s.trail|];
    } else {
      var before, after := AfterSweeps(s, n - 1), AfterSweeps(s, n);
      var earlier := EarlierPasses(s, n - 1);
      OnePass(before, after);
      marks := earlier + [|after.trail|];
      InvInRange(s);
      InvInRange(before);
      hide AfterSweeps;
      ContinuesOn(s, before, after);
      forall k | 0 <= k < n - 1 ensures PassOver(after, 0, earlier[k], earlier[k + 1], None) {
        PassKept(before, after, 0, earlier[k], earlier[k + 1], None);
      }
    }
  }

  lemma InvInRange(s: State)
    requires Inv(s)
    ensures InRange(s) && forall v :: v in s.trail ==> v < |s.assign|
  {
  }

  lemma LastPass(s: State, t: State, conflict: Option<nat>)
    requires Inv(s) && Shaped(s) && !GoesOn(s) && t == Sweep(s, 0).state && conflict == Sweep(s, 0).conflict
    ensures Continues(s, t) && PassOver(t, 0, |s.trail|, |t.trail|, conflict)
    ensures conflict.Some? || |s.trail| == |t.trail|
  {
    hide Inv, PassOver, Continues, Settled, Falsified;
    SweepOutcome(s, 0);
    SweepPasses(s, 0);
  }

  lemma PropagationPasses(s: State, t: State, conflict: Option<nat>, n: nat) returns (marks: seq<nat>)
    requires Inv(s) && PropagatesTo(s, t, conflict, n)
    ensures Continues(s, t) && PassesOver(t, marks, conflict)
    ensures marks[0] == |s.trail| && marks[|marks| - 2] == |AfterSweeps(s, n).trail|
  {
    hide Inv, PassOver, Continues, Sweep, GoesOn, AfterSweeps;
    var before := AfterSweeps(s, n);
    var earlier := EarlierPasses(s, n);
    LastPass(before, t, conflict);
    marks := earlier + [|t.trail|];
    InvInRange(s);
    InvInRange(before);
    ContinuesOn(s, before, t);
    forall k | 0 <= k < n ensures PassOver(t, 0, earlier[k], earlier[k + 1], None) {
      PassKept(before, t, 0, earlier[k], earlier[k + 1], None);
    }
  }
}
