// Clauses bound to the solver's variable table (`clause`), and their reading under a
// partial assignment.
module Clauses {
  import opened Cnf

  datatype Assignment = On | Off | NotAssigned

  // A clause literal together with the row of the variable table that it refers to.
  datatype Bound = Bound(lit: Literal, id: nat)

  type Clause = seq<Bound>

  predicate BoundWf(vars: seq<Literal>, b: Bound) {
    b.id < |vars| && b.lit.raw != 0 && b.lit.Value() == vars[b.id].Value()
  }

  predicate ClauseWf(vars: seq<Literal>, c: Clause) {
    forall p :: 0 <= p < |c| ==> BoundWf(vars, c[p])
  }

  predicate DistinctVariables(c: Clause) {
    forall p, q :: 0 <= p < q < |c| ==> c[p].id != c[q].id
  }

  // The variable stands at two positions of the clause.
  ghost predicate Repeated(c: Clause, v: nat) {
    exists p, q :: 0 <= p < q < |c| && c[p].id == v && c[q].id == v
  }

  ghost predicate SatisfiesBound(tau: Valuation, c: Clause) {
    exists p :: 0 <= p < |c| && Holds(tau, c[p].lit)
  }

  ghost predicate SatisfiesTable(tau: Valuation, table: seq<Clause>) {
    forall i :: 0 <= i < |table| ==> SatisfiesBound(tau, table[i])
  }

  ghost predicate Entails(table: seq<Clause>, c: Clause) {
    forall tau :: SatisfiesTable(tau, table) ==> SatisfiesBound(tau, c)
  }

  predicate LitTrue(assign: seq<Assignment>, b: Bound) {
    b.id < |assign| && ((b.lit.IsOn() && assign[b.id] == On) || (b.lit.IsOff() && assign[b.id] == Off))
  }

  predicate LitFalse(assign: seq<Assignment>, b: Bound) {
    b.id < |assign| && ((b.lit.IsOn() && assign[b.id] == Off) || (b.lit.IsOff() && assign[b.id] == On))
  }

  predicate Free(assign: seq<Assignment>, v: nat) {
    v < |assign| && assign[v] == NotAssigned
  }

  predicate ClauseSatisfied(assign: seq<Assignment>, c: Clause) {
    exists p :: 0 <= p < |c| && LitTrue(assign, c[p])
  }

  predicate Falsified(assign: seq<Assignment>, c: Clause) {
    forall p :: 0 <= p < |c| ==> LitFalse(assign, c[p])
  }

  ghost predicate TwoFree(assign: seq<Assignment>, c: Clause) {
    exists p, q :: 0 <= p < q < |c| && Free(assign, c[p].id) && Free(assign, c[q].id)
  }

  // Neither unit nor falsified: propagation has nothing left to do for this clause.
  ghost predicate Settled(assign: seq<Assignment>, c: Clause) {
    ClauseSatisfied(assign, c) || TwoFree(assign, c)
  }

  // The clause literals whose variable is not assigned, in clause order and with repetition.
  function UnassignedOf(assign: seq<Assignment>, c: Clause): (u: Clause)
    ensures |u| <= |c|
    ensures forall k :: 0 <= k < |u| ==> u[k] in c && Free(assign, u[k].id)
  {
    if c == [] then []
    else if Free(assign, c[0].id) then [c[0]] + UnassignedOf(assign, c[1..])
    else UnassignedOf(assign, c[1..])
  }

  lemma {:induction false} NoneUnassigned(assign: seq<Assignment>, c: Clause)
    ensures UnassignedOf(assign, c) == [] <==> forall p :: 0 <= p < |c| ==> !Free(assign, c[p].id)
  {
    if c == [] {
    } else {
      NoneUnassigned(assign, c[1..]);
      if UnassignedOf(assign, c) == [] {
        forall p | 0 <= p < |c| ensures !Free(assign, c[p].id) {
          if p > 0 { assert c[p] == c[1..][p - 1]; }
        }
      } else if !Free(assign, c[0].id) {
        var q :| 0 <= q < |c[1..]| && Free(assign, c[1..][q].id);
        assert c[q + 1] == c[1..][q];
      }
    }
  }

  // What the length of the scan's result says about the clause.
  lemma {:induction false} OneUnassigned(assign: seq<Assignment>, c: Clause) returns (p: nat)
    requires |UnassignedOf(assign, c)| == 1
    ensures p < |c| && Free(assign, c[p].id) && UnassignedOf(assign, c)[0] == c[p]
    ensures forall q :: 0 <= q < |c| && q != p ==> !Free(assign, c[q].id)
  {
    if Free(assign, c[0].id) {
      p := 0;
      NoneUnassigned(assign, c[1..]);
      forall q | 0 <= q < |c| && q != p ensures !Free(assign, c[q].id) {
        assert c[q] == c[1..][q - 1];
      }
    } else {
      var r := OneUnassigned(assign, c[1..]);
      p := r + 1;
      forall q | 0 <= q < |c| && q != p ensures !Free(assign, c[q].id) {
        if q > 0 { assert c[q] == c[1..][q - 1]; }
      }
    }
  }

  lemma {:induction false} SeveralUnassigned(assign: seq<Assignment>, c: Clause)
    ensures |UnassignedOf(assign, c)| >= 2 <==> TwoFree(assign, c)
  {
    if c == [] {
    } else {
      var rest := c[1..];
      SeveralUnassigned(assign, rest);
      NoneUnassigned(assign, rest);
      if TwoFree(assign, rest) {
        var p, q :| 0 <= p < q < |rest| && Free(assign, rest[p].id) && Free(assign, rest[q].id);
        assert c[p + 1] == rest[p] && c[q + 1] == rest[q];
      }
      if Free(assign, c[0].id) && UnassignedOf(assign, rest) != [] {
        var q :| 0 <= q < |rest| && Free(assign, rest[q].id);
        assert c[q + 1] == rest[q];
      }
      if TwoFree(assign, c) {
        var p, q :| 0 <= p < q < |c| && Free(assign, c[p].id) && Free(assign, c[q].id);
        assert c[q] == rest[q - 1];
        if p > 0 { assert c[p] == rest[p - 1]; }
      }
    }
  }

  // A clause with a free literal is unit exactly when it has no other.
  lemma OnlyFree(assign: seq<Assignment>, c: Clause, q: nat)
    requires q < |c| && Free(assign, c[q].id)
    ensures |UnassignedOf(assign, c)| == 1 <==> forall p :: 0 <= p < |c| && p != q ==> !Free(assign, c[p].id)
  {
    hide UnassignedOf;
    NoneUnassigned(assign, c);
    SeveralUnassigned(assign, c);
    if p :| 0 <= p < |c| && p != q && Free(assign, c[p].id) {
      assert Free(assign, c[if p < q then p else q].id) && Free(assign, c[if p < q then q else p].id);
    }
  }

  // ---- The sorting and deduplication that close a conflict analysis ----

  predicate SortedByVariable(c: Clause) {
    forall p, q :: 0 <= p < q < |c| ==> c[p].lit.Value() <= c[q].lit.Value()
  }

  predicate StrictlySorted(c: Clause) {
    forall p, q :: 0 <= p < q < |c| ==> c[p].lit.Value() < c[q].lit.Value()
  }

  ghost function LitSet(c: Clause): set<Bound> { set p | 0 <= p < |c| :: c[p] }

  function InsertByVariable(b: Bound, c: Clause): (r: Clause)
    requires SortedByVariable(c)
    ensures SortedByVariable(r)
    ensures forall x :: x in r <==> x == b || x in c
  {
    if c == [] || b.lit.Value() <= c[0].lit.Value() then [b] + c
    else
      var tail := InsertByVariable(b, c[1..]);
      assert forall x :: x in c[1..] ==> x in c;
      assert forall x :: x in tail ==> c[0].lit.Value() <= x.lit.Value();
      assert forall p :: 0 <= p < |tail| ==> tail[p] in tail;
      [c[0]] + tail
  }

  function SortByVariable(c: Clause): (r: Clause)
    ensures SortedByVariable(r)
    ensures forall x :: x in r <==> x in c
  {
    if c == [] then [] else InsertByVariable(c[0], SortByVariable(c[1..]))
  }

  // Keeps the first of every run of literals over one variable.
  function UniqueByVariable(c: Clause): (r: Clause)
    requires SortedByVariable(c)
    ensures StrictlySorted(r)
    ensures if c == [] then r == [] else r != [] && r[0] == c[0]
  {
    if |c| <= 1 then c
    else
      var tail := UniqueByVariable(c[1..]);
      if c[0].lit.Value() == c[1].lit.Value() then [c[0]] + tail[1..] else [c[0]] + tail
  }

  lemma {:induction false} UniqueIsSubset(c: Clause, x: Bound)
    requires SortedByVariable(c) && x in UniqueByVariable(c)
    ensures x in c
  {
    if |c| <= 1 || x == c[0] {
    } else {
      assert x in UniqueByVariable(c[1..]);
      UniqueIsSubset(c[1..], x);
    }
  }

  // No variable is lost by the deduplication.
  lemma {:induction false} UniqueKeepsVariables(c: Clause, x: Bound) returns (k: nat)
    requires SortedByVariable(c) && x in c
    ensures k < |UniqueByVariable(c)| && UniqueByVariable(c)[k].lit.Value() == x.lit.Value()
  {
    if |c| <= 1 || x == c[0] {
      k := 0;
    } else {
      assert x in c[1..];
      var m := UniqueKeepsVariables(c[1..], x);
      if c[0].lit.Value() == c[1].lit.Value() { k := m; } else { k := m + 1; }
    }
  }

  // Strictly sorted clauses with the same literals are the same clause.
  lemma {:induction false} SortedOnce(c: Clause, d: Clause)
    requires StrictlySorted(c) && StrictlySorted(d)
    requires forall x :: x in c <==> x in d
    ensures c == d
  {
    EmptyTogether(c, d);
    if c == [] {
    } else {
      assert c[0] in d;
      HeadsMeet(c, d);
      forall x ensures x in c[1..] <==> x in d[1..] {
        InTail(c, x);
        InTail(d, x);
      }
      SortedOnce(c[1..], d[1..]);
    }
  }

  lemma EmptyTogether(c: Clause, d: Clause)
    requires forall x :: x in c <==> x in d
    ensures c == [] <==> d == []
  {
    if c != [] { assert c[0] in d; }
    if d != [] { assert d[0] in c; }
  }

  lemma HeadsMeet(c: Clause, d: Clause)
    requires StrictlySorted(c) && StrictlySorted(d) && c != [] && d != []
    requires c[0] in d && d[0] in c
    ensures c[0] == d[0]
  {
    var i :| 0 <= i < |d| && d[i] == c[0];
    var j :| 0 <= j < |c| && c[j] == d[0];
  }

  lemma InTail(c: Clause, x: Bound)
    requires StrictlySorted(c) && c != []
    ensures x in c[1..] <==> x in c && x != c[0]
  {
    if x in c && x != c[0] {
      var i :| 0 <= i < |c| && c[i] == x;
      assert c[1..][i - 1] == x;
    }
    if x in c[1..] {
      var i :| 0 <= i < |c| - 1 && c[1..][i] == x;
      assert c[i + 1] == x;
    }
  }
}
