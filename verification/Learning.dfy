// The clause that a conflict teaches: it is new, it can be added without harm, and the
// jump that follows undoes the conflict.
module Learning {
  import opened Basics
  import opened Cnf
  import opened Clauses
  import opened Search
  import opened Analysis

  // u is a unique implication point, it is not a propagated variable that the conflict
  // clause repeats, and every later one is.
  ghost predicate StopsAt(s: State, conflict: Clause, u: nat)
    requires InRange(s)
  {
    && IsUip(s, conflict, u)
    && (IsDecisionAt(s, u) || !Repeated(conflict, s.trail[u]))
    && (forall w :: u < w < |s.trail| && IsUip(s, conflict, w) ==> Repeated(conflict, s.trail[w]))
  }

  // The outcome of a conflict analysis above level zero: `learned` is exactly the
  // conflict resolved with the reasons of every position after u that leads to it, u is
  // its only current-level variable, and `k` is the level to jump to.
  ghost predicate Analysed(s: State, conflict: Clause, learned: Clause, k: nat, u: nat)
    requires InRange(s)
  {
    && AtCur(s, u)
    && StrictlySorted(learned)
    && IsFrontier(s, conflict, u, learned)
    && OccursIn(learned, s.trail[u])
    && (forall x :: x in learned && x.id < |s.vars| && s.level[x.id] == s.cur ==> x.id == s.trail[u])
    && StopsAt(s, conflict, u)
    && JumpLevel(s, conflict, learned, k)
  }

  // Which unique implication point the analysis stops at: the first one f, unless f was
  // propagated and the conflict clause holds its variable twice.
  lemma StopsAtFirstUip(s: State, conflict: Clause, u: nat, f: nat)
    requires Graph(s) && StopsAt(s, conflict, u) && IsFirstUip(s, conflict, f)
    ensures u == f <==> IsDecisionAt(s, f) || !Repeated(conflict, s.trail[f])
  {
    if u < f && IsDecisionAt(s, f) {
      LevelsAscend(s, u, f);
      assert false;
    }
  }

  lemma DistinctStopsAtFirstUip(s: State, conflict: Clause, u: nat)
    requires InRange(s) && StopsAt(s, conflict, u) && DistinctVariables(conflict)
    ensures IsFirstUip(s, conflict, u)
  {
  }

  // A conflict has one analysis: where it stops, what it learns and where it jumps to are
  // determined by the state and the conflict clause.
  lemma AnalysedOnce(s: State, conflict: Clause, learned: Clause, k: nat, u: nat, learned': Clause, k': nat, u': nat)
    requires Graph(s)
    requires Analysed(s, conflict, learned, k, u) && Analysed(s, conflict, learned', k', u')
    ensures learned == learned' && k == k' && u == u'
  {
    hide StrictlySorted;
    if u < u' { StopsOnce(s, conflict, u, u'); }
    if u' < u { StopsOnce(s, conflict, u', u); }
    SortedOnce(learned, learned');
  }

  // Of two stops, the later is a decision, and a level has no second one.
  lemma StopsOnce(s: State, conflict: Clause, u: nat, u': nat)
    requires Graph(s) && StopsAt(s, conflict, u) && StopsAt(s, conflict, u')
    ensures !(u < u')
  {
    if u < u' { LevelsAscend(s, u, u'); }
  }

  // What the rest of the conflict step needs of a learned clause: it is sorted and false, its
  // one current-level variable is the one at trail position u, and the jump level k is below
  // the current one and, above zero, the level of another of its literals.
  ghost predicate Teaches(s: State, learned: Clause, k: nat, u: nat) {
    && InRange(s) && AtCur(s, u)
    && StrictlySorted(learned) && ClauseWf(s.vars, learned) && Falsified(s.assign, learned)
    && OccursIn(learned, s.trail[u])
    && (forall x :: x in learned ==> x.id < |s.vars| && (x.id == s.trail[u] || s.level[x.id] < s.cur))
    && k < s.cur
    && (k == 0 || exists x :: x in learned && x.id < |s.vars| && x.id != s.trail[u] && s.level[x.id] == k)
  }

  lemma AnalysisTeaches(s: State, conflict: Clause, learned: Clause, k: nat, u: nat)
    requires InConflict(s, conflict) && s.cur >= 1 && Analysed(s, conflict, learned, k, u)
    ensures Teaches(s, learned, k, u) && KeepsLower(s, conflict, learned)
  {
    forall x | x in learned
      ensures BoundWf(s.vars, x) && LitFalse(s.assign, x) && (x.id == s.trail[u] || s.level[x.id] < s.cur)
    {
      FrontierFalse(s, conflict, Reached(s, conflict, u), x);
    }
    forall x | x in conflict && x.id < |s.level| && s.level[x.id] != s.cur ensures x in learned {
      LowerKept(s, conflict, u, x);
    }
    JumpIsBelow(s, conflict, learned, k, u);
  }

  // The jump goes strictly down, and never past every other learned literal's level.
  lemma JumpIsBelow(s: State, conflict: Clause, learned: Clause, k: nat, u: nat)
    requires InRange(s) && s.cur >= 1 && AtCur(s, u) && JumpLevel(s, conflict, learned, k)
    ensures k < s.cur
    ensures k == 0 || exists x :: x in learned && x.id < |s.vars| && x.id != s.trail[u] && s.level[x.id] == k
  {
    if k > 0 {
      var x :| x in learned && x.id < |s.vars| && s.level[x.id] == k < s.cur && !OccursIn(conflict, x.id);
      assert x.id != s.trail[u];
    }
  }

  // A table clause with the learned clause's literals repeats the implication point's
  // variable: any other one would have been propagated by the level below.
  lemma LearnedIsNew(s: State, learned: Clause, k: nat, u: nat, i: nat)
    requires Inv(s) && Teaches(s, learned, k, u)
    requires i < |s.clauses| && LitSet(s.clauses[i]) == LitSet(learned)
    ensures Repeated(s.clauses[i], s.trail[u])
  {
    var c := s.clauses[i];
    forall p | 0 <= p < |c| ensures c[p] in learned {
      assert c[p] in LitSet(c);
    }
    var p, q := TwoAtCur(s, c);
    assert c[p] in learned && c[q] in learned;
  }

  // The clause has distinct variables, and no clause of the table with distinct variables
  // has its literals.
  ghost predicate NewAmong(table: seq<Clause>, c: Clause) {
    && DistinctVariables(c)
    && forall i :: 0 <= i < |table| && DistinctVariables(table[i]) ==> LitSet(table[i]) != LitSet(c)
  }

  lemma LearnedAmong(s: State, learned: Clause, k: nat, u: nat)
    requires Inv(s) && Teaches(s, learned, k, u)
    ensures NewAmong(s.clauses, learned)
  {
    assert DistinctVariables(learned) by {
      assert forall p :: 0 <= p < |learned| ==> BoundWf(s.vars, learned[p]);
    }
    hide Inv, Teaches, DistinctVariables;
    forall i | 0 <= i < |s.clauses| && DistinctVariables(s.clauses[i]) && LitSet(s.clauses[i]) == LitSet(learned)
      ensures false
    {
      LearnedIsNew(s, learned, k, u, i);
      NotRepeated(s.clauses[i], s.trail[u]);
    }
  }

  lemma NotRepeated(c: Clause, v: nat)
    requires DistinctVariables(c)
    ensures !Repeated(c, v)
  {
  }

  // Every clause from n on was new among those before it.
  ghost predicate LearnedApart(table: seq<Clause>, n: nat) {
    forall j :: n <= j < |table| ==> NewAmong(table[..j], table[j])
  }

  lemma ApartGrows(table: seq<Clause>, c: Clause, n: nat)
    requires LearnedApart(table, n) && NewAmong(table, c)
    ensures LearnedApart(table + [c], n)
  {
    hide NewAmong;
    forall j | n <= j < |table + [c]| ensures NewAmong((table + [c])[..j], (table + [c])[j]) {
      if j < |table| {
        assert (table + [c])[..j] == table[..j];
      } else {
        assert (table + [c])[..j] == table;
      }
    }
  }

  // So the learned clauses are pairwise different as sets of literals.
  lemma LearnedDiffer(table: seq<Clause>, n: nat, i: nat, j: nat)
    requires LearnedApart(table, n) && n <= j < |table| && i < j && (n <= i || DistinctVariables(table[i]))
    ensures LitSet(table[i]) != LitSet(table[j])
  {
    assert NewAmong(table[..j], table[j]) && table[..j][i] == table[i];
    if n <= i { assert NewAmong(table[..i], table[i]); }
  }

  lemma LearnKeepsGraph(s: State, c: Clause)
    requires Graph(s) && c != [] && ClauseWf(s.vars, c)
    ensures Graph(Learn(s, c))
    ensures LevelBefore(Learn(s, c), |s.trail|) == LevelBefore(s, |s.trail|)
  {
    var t := Learn(s, c);
    forall i | 0 <= i < |t.trail| ensures LevelStep(t, i) && Justified(t, i) {
      assert LevelStep(s, i) && Justified(s, i);
      if s.reason[s.trail[i]].Some? {
        var j := s.reason[s.trail[i]].value;
        var p :| UnitAt(s, s.clauses[j], i, p);
        assert t.clauses[j] == s.clauses[j];
        assert UnitAt(t, t.clauses[j], i, p);
      }
    }
  }

  // Below the jump level the learned clause is quiet: its unique current-level variable
  // and a literal at the jump level are both open there.
  lemma LearnedQuiet(s: State, learned: Clause, k: nat, u: nat, j: nat)
    requires Teaches(s, learned, k, u) && j < k
    ensures TwoOpen(s, learned, j)
  {
    var x :| x in learned && x.id < |s.vars| && x.id != s.trail[u] && s.level[x.id] == k;
    var p :| 0 <= p < |learned| && learned[p] == x;
    var q :| 0 <= q < |learned| && learned[q].id == s.trail[u];
    assert !Fixed(s, learned[p].id, j) && !Fixed(s, learned[q].id, j);
    if q < p {
      assert !Fixed(s, learned[q].id, j) && !Fixed(s, learned[p].id, j);
    }
  }

  lemma LearnKeepsQuiet(s: State, learned: Clause, k: nat, u: nat)
    requires Inv(s) && Teaches(s, learned, k, u)
    ensures QuietBelow(Learn(s, learned), k)
  {
    assert InRange(s) && k < s.cur;
    hide Teaches, Quiet, Graph;
    var l := Learn(s, learned);
    forall j, i | 0 <= j < k && 0 <= i < |l.clauses| ensures Quiet(l, l.clauses[i], j) {
      if i == |s.clauses| {
        LearnedQuiet(s, learned, k, u, j);
        OpenIsQuiet(s, learned, j);
      } else {
        assert Quiet(s, s.clauses[i], j);
      }
      QuietTransfers(s, l, l.clauses[i], j);
    }
  }

  lemma OpenIsQuiet(s: State, c: Clause, j: nat)
    requires TwoOpen(s, c, j)
    ensures Quiet(s, c, j)
  {
  }

  // Learning and then jumping restores the invariant; the conflict is gone.
  lemma JumpKeeps(s: State, learned: Clause, k: nat, u: nat)
    requires Inv(s) && Teaches(s, learned, k, u)
    ensures var t := BackTo(Learn(s, learned), k);
      Inv(t) && Free(t.assign, s.trail[u]) && !Falsified(t.assign, learned)
  {
    hide Graph, QuietBelow;
    var l := Learn(s, learned);
    LearnKeepsGraph(s, learned);
    LearnKeepsQuiet(s, learned, k, u);
    BackToKeeps(l, k);
    BackToExact(l, k);
    var q :| 0 <= q < |learned| && learned[q].id == s.trail[u];
    assert !Fixed(l, learned[q].id, k);
    assert !LitFalse(BackTo(l, k).assign, learned[q]);
  }

  // After the jump, the free literals of the learned clause are those above the jump level.
  lemma FreeAfterJump(s: State, learned: Clause, k: nat, u: nat, x: Bound)
    requires Inv(s) && Teaches(s, learned, k, u) && x in learned
    ensures Free(BackTo(Learn(s, learned), k).assign, x.id) <==> s.level[x.id] > k
  {
    var l := Learn(s, learned);
    LearnKeepsGraph(s, learned);
    BackToExact(l, k);
    assert Fixed(l, x.id, k) <==> s.level[x.id] <= k;
    assert LitFalse(s.assign, x);
  }

  // The conflict clause's own lower-level literals are no higher than the jump level.
  ghost predicate ConflictIsLow(s: State, conflict: Clause, k: nat) {
    forall x :: x in conflict && x.id < |s.level| && s.level[x.id] < s.cur ==> s.level[x.id] <= k
  }

  // Each conflict literal strictly between level zero and the current one is matched by a
  // literal that the reasons resolved after u bring in, at no lower a level and below the
  // current one.
  ghost predicate CoveredByReasons(s: State, conflict: Clause, u: nat)
    requires InRange(s)
  {
    forall x :: x in conflict && x.id < |s.level| && 0 < s.level[x.id] < s.cur ==>
      Covered(s, conflict, u, s.level[x.id])
  }

  ghost predicate Covered(s: State, conflict: Clause, u: nat, level: nat)
    requires InRange(s)
  {
    exists y ::
      && InReasons(s, Reached(s, conflict, u), y) && !OccursIn(conflict, y.id)
      && y.id < |s.level| && level <= s.level[y.id] < s.cur
  }

  lemma LowIsCovered(s: State, conflict: Clause, learned: Clause, k: nat, u: nat)
    requires InRange(s) && IsFrontier(s, conflict, u, learned) && JumpLevel(s, conflict, learned, k)
    ensures ConflictIsLow(s, conflict, k) <==> CoveredByReasons(s, conflict, u)
  {
    var r := Reached(s, conflict, u);
    if ConflictIsLow(s, conflict, k) {
      forall x | x in conflict && x.id < |s.level| && 0 < s.level[x.id] < s.cur
        ensures Covered(s, conflict, u, s.level[x.id])
      {
        var y :| y in learned && y.id < |s.vars| && s.level[y.id] == k < s.cur && !OccursIn(conflict, y.id);
        assert FrontierLit(s, conflict, r, y);
        MemberOccurs(conflict, y);
        assert InReasons(s, r, y);
      }
    }
    if CoveredByReasons(s, conflict, u) {
      forall x | x in conflict && x.id < |s.level| && 0 < s.level[x.id] < s.cur ensures s.level[x.id] <= k {
        assert Covered(s, conflict, u, s.level[x.id]);
        var y :| InReasons(s, r, y) && !OccursIn(conflict, y.id)
          && y.id < |s.level| && s.level[x.id] <= s.level[y.id] < s.cur;
        assert FrontierLit(s, conflict, r, y);
        assert y in learned;
      }
    }
  }

  lemma MemberOccurs(c: Clause, x: Bound)
    ensures x in c ==> OccursIn(c, x.id)
  {
    if x in c {
      var p :| 0 <= p < |c| && c[p] == x;
    }
  }

  // When the learned clause drives a propagation right after the jump: exactly when the
  // conflict clause's own lower-level literals are covered by the resolved reasons.
  lemma UnitAfterJump(s: State, conflict: Clause, learned: Clause, k: nat, u: nat)
    requires Inv(s) && Teaches(s, learned, k, u) && KeepsLower(s, conflict, learned)
    requires IsFrontier(s, conflict, u, learned) && JumpLevel(s, conflict, learned, k)
    ensures |UnassignedOf(BackTo(Learn(s, learned), k).assign, learned)| == 1 <==> CoveredByReasons(s, conflict, u)
  {
    LowIsCovered(s, conflict, learned, k, u);
    hide Inv, Teaches, IsFrontier, JumpLevel, KeepsLower;
    UnitWhenLow(s, conflict, learned, k, u);
  }

  lemma UnitWhenLow(s: State, conflict: Clause, learned: Clause, k: nat, u: nat)
    requires Inv(s) && Teaches(s, learned, k, u)
    requires KeepsLower(s, conflict, learned) && JumpLevel(s, conflict, learned, k)
    ensures |UnassignedOf(BackTo(Learn(s, learned), k).assign, learned)| == 1 <==> ConflictIsLow(s, conflict, k)
  {
    JumpInRange(s, learned);
    hide Inv, BackTo, Falsified, ClauseWf, StrictlySorted, JumpLevel, UnassignedOf, Free;
    var assign := BackTo(Learn(s, learned), k).assign;
    var q :| 0 <= q < |learned| && learned[q].id == s.trail[u];
    FreeAfterJump(s, learned, k, u, learned[q]);
    OnlyFree(assign, learned, q);
    forall p | 0 <= p < |learned| ensures Free(assign, learned[p].id) <==> s.level[learned[p].id] > k {
      FreeAfterJump(s, learned, k, u, learned[p]);
    }
    if ConflictIsLow(s, conflict, k) {
      forall p | 0 <= p < |learned| && p != q ensures !Free(assign, learned[p].id) {
        LowLearnedLit(s, conflict, learned, k, u, learned[p], p, q);
      }
    } else {
      var x :| x in conflict && x.id < |s.level| && k < s.level[x.id] < s.cur;
      var p :| 0 <= p < |learned| && learned[p] == x;
      assert p != q;
    }
  }

  lemma JumpInRange(s: State, learned: Clause)
    requires Inv(s)
    ensures InRange(s) && InRange(Learn(s, learned)) && VariablesWf(s.vars)
  {
  }

  lemma LowLearnedLit(s: State, conflict: Clause, learned: Clause, k: nat, u: nat, x: Bound, p: nat, q: nat)
    requires Teaches(s, learned, k, u) && JumpLevel(s, conflict, learned, k) && ConflictIsLow(s, conflict, k)
    requires VariablesWf(s.vars) && p < |learned| && q < |learned| && p != q
    requires x == learned[p] && learned[q].id == s.trail[u]
    ensures s.level[x.id] <= k
  {
    assert x.id != s.trail[u];
    if OccursIn(conflict, x.id) {
      var m :| 0 <= m < |conflict| && conflict[m].id == x.id;
      assert conflict[m] in conflict;
    }
  }

  ghost predicate KeepsLower(s: State, conflict: Clause, c: Clause) {
    forall x :: x in conflict && x.id < |s.level| && s.level[x.id] != s.cur ==> x in c
  }

  // Literals of the conflict below the current level are never resolved away.
  lemma LowerKept(s: State, conflict: Clause, t: int, x: Bound)
    requires InConflict(s, conflict) && x in conflict && x.id < |s.level| && s.level[x.id] != s.cur
    ensures FrontierLit(s, conflict, Reached(s, conflict, t), x)
  {
  }

  // ---- The termination measure of learning ----

  ghost function Universe(vars: seq<Literal>): set<Bound> {
    (set v | 0 <= v < |vars| :: Bound(Literal(vars[v].Value() as int), v))
    + (set v | 0 <= v < |vars| :: Bound(Literal(-(vars[v].Value() as int)), v))
  }

  // The literal sets of the repetition-free clauses in the table.
  ghost function Known(clauses: seq<Clause>): set<set<Bound>> {
    set i | 0 <= i < |clauses| && DistinctVariables(clauses[i]) :: LitSet(clauses[i])
  }

  ghost function Subsets<T>(a: set<T>): set<set<T>> { set c: set<T> | c <= a }

  // The literal sets that could still be learned.
  ghost function Unknown(vars: seq<Literal>, clauses: seq<Clause>): set<set<Bound>> {
    Subsets(Universe(vars)) - Known(clauses)
  }

  lemma InUniverse(vars: seq<Literal>, b: Bound)
    requires BoundWf(vars, b)
    ensures b in Universe(vars)
  {
    var v := vars[b.id].Value() as int;
    assert b == Bound(Literal(v), b.id) || b == Bound(Literal(-v), b.id);
  }

  lemma SmallerSet<T>(a: set<T>, b: set<T>, x: T)
    requires a <= b && x in b && x !in a
    ensures |a| < |b|
  {
    assert a <= b - {x};
    SubsetSize(a, b - {x});
  }

  lemma {:induction false} SubsetSize<T>(a: set<T>, b: set<T>)
    requires a <= b
    ensures |a| <= |b|
  {
    if a == {} {
    } else {
      var x :| x in a;
      SubsetSize(a - {x}, b - {x});
    }
  }

  ghost function WithEach<T>(s: set<set<T>>, x: T): set<set<T>> { set c | c in s :: c + {x} }

  lemma {:induction false} SubsetCount<T>(a: set<T>)
    ensures |Subsets(a)| == TwoTo(|a|)
  {
    if a == {} {
      EmptySubsets(a);
    } else {
      var x :| x in a;
      SubsetsSplit(a, x);
      SubsetCount(a - {x});
      hide Subsets, WithEach;
      assert |a - {x}| == |a| - 1;
    }
  }

  lemma EmptySubsets<T>(a: set<T>)
    requires a == {}
    ensures |Subsets(a)| == 1
  {
    var one: set<set<T>> := {a};
    forall c | c in Subsets(a) ensures c in one { assert c == a; }
    assert Subsets(a) == one;
  }

  lemma SubsetsSplit<T>(a: set<T>, x: T)
    requires x in a
    ensures Subsets(a) == Subsets(a - {x}) + WithEach(Subsets(a - {x}), x)
    ensures |Subsets(a)| == 2 * |Subsets(a - {x})|
  {
    WithEachSize(Subsets(a - {x}), x);
    assert Subsets(a - {x}) !! WithEach(Subsets(a - {x}), x);
    forall c | c in Subsets(a) && x in c ensures c in WithEach(Subsets(a - {x}), x) {
      assert c == (c - {x}) + {x} && c - {x} in Subsets(a - {x});
    }
    forall c | c in Subsets(a) && x !in c ensures c in Subsets(a - {x}) {}
  }

  lemma SameRest<T>(c: set<T>, d: set<T>, x: T)
    requires x !in c && x !in d && c + {x} == d + {x}
    ensures c == d
  {
    assert c == (c + {x}) - {x} && d == (d + {x}) - {x};
  }

  lemma {:induction false} WithEachSize<T>(s: set<set<T>>, x: T)
    requires forall c :: c in s ==> x !in c
    ensures |WithEach(s, x)| == |s|
  {
    if s == {} {
      assert WithEach(s, x) == {};
    } else {
      var c :| c in s;
      WithEachSize(s - {c}, x);
      assert WithEach(s, x) == WithEach(s - {c}, x) + {c + {x}};
      forall d | d in s - {c} ensures d + {x} != c + {x} {
        if d + {x} == c + {x} { SameRest(c, d, x); }
      }
    }
  }

  lemma {:induction false} UniverseSize(vars: seq<Literal>)
    ensures |Universe(vars)| <= 2 * |vars|
  {
    if vars == [] {
      assert Universe(vars) == {};
    } else {
      var n := |vars| - 1;
      UniverseSize(vars[..n]);
      UniverseGrows(vars, n);
    }
  }

  lemma UniverseGrows(vars: seq<Literal>, n: nat)
    requires |vars| == n + 1
    ensures |Universe(vars)| <= |Universe(vars[..n])| + 2
  {
    var x := vars[n].Value() as int;
    forall b | b in Universe(vars) ensures b in Universe(vars[..n]) + {Bound(Literal(x), n)} + {Bound(Literal(-x), n)} {
      if b.id != n { assert vars[..n][b.id] == vars[b.id]; }
    }
    hide Universe;
    TwoMore(Universe(vars), Universe(vars[..n]), Bound(Literal(x), n), Bound(Literal(-x), n));
  }

  lemma TwoMore<T>(a: set<T>, b: set<T>, x: T, y: T)
    requires a <= b + {x} + {y}
    ensures |a| <= |b| + 2
  {
    SubsetSize(a, b + {x} + {y});
  }

  lemma {:induction false} TwoToRises(d: nat, e: nat)
    requires d <= e
    ensures TwoTo(d) <= TwoTo(e)
  {
    if d == e {
    } else {
      TwoToRises(d, e - 1);
    }
  }

  lemma UnknownBounded(vars: seq<Literal>, clauses: seq<Clause>)
    ensures |Unknown(vars, clauses)| <= TwoTo(2 * |vars|)
  {
    UniverseSize(vars);
    SubsetCount(Universe(vars));
    SubsetSize(Unknown(vars, clauses), Subsets(Universe(vars)));
    TwoToRises(|Universe(vars)|, 2 * |vars|);
  }

  // Every conflict above level zero uses up one of finitely many clauses.
  lemma LearningShrinks(s: State, learned: Clause, k: nat, u: nat)
    requires Inv(s) && Teaches(s, learned, k, u)
    ensures |Unknown(s.vars, s.clauses + [learned])| < |Unknown(s.vars, s.clauses)|
  {
    var table := s.clauses + [learned];
    var lits := LitSet(learned);
    forall b | b in lits ensures b in Universe(s.vars) { InUniverse(s.vars, b); }
    LearnedAmong(s, learned, k, u);
    assert lits in Unknown(s.vars, s.clauses);
    assert lits in Known(table) by { assert table[|s.clauses|] == learned; }
    forall c | c in Known(s.clauses) ensures c in Known(table) {
      var i :| 0 <= i < |s.clauses| && DistinctVariables(s.clauses[i]) && LitSet(s.clauses[i]) == c;
      assert table[i] == s.clauses[i];
    }
    SmallerSet(Unknown(s.vars, table), Unknown(s.vars, s.clauses), lits);
  }

  // ---- The whole conflict step ----

  // t is s with the clause that conflict i teaches added to the table, after the jump.
  ghost predicate LearnedFrom(s: State, t: State, i: nat) {
    && InRange(s) && i < |s.clauses|
    && |t.clauses| == |s.clauses| + 1
    && var learned := t.clauses[|s.clauses|];
      Entails(s.clauses, learned) && InRange(Learn(s, learned)) &&
      exists k, u :: Analysed(s, s.clauses[i], learned, k, u) && t == BackTo(Learn(s, learned), k)
  }

  lemma ConflictLearned(s: State, i: nat, learned: Clause, k: nat, u: nat)
    requires Inv(s) && s.cur >= 1 && i < |s.clauses| && Falsified(s.assign, s.clauses[i])
    requires InRange(s) && Analysed(s, s.clauses[i], learned, k, u) && Entails(s.clauses, learned)
    ensures learned != [] && k < s.cur && NewAmong(s.clauses, learned)
    ensures forall p :: 0 <= p < |learned| ==> learned[p].id < |s.vars|
    ensures InRange(Learn(s, learned)) && Inv(BackTo(Learn(s, learned), k))
    ensures var t := BackTo(Learn(s, learned), k);
      t.vars == s.vars && t.clauses == s.clauses + [learned] && t.cur == k && LearnedFrom(s, t, i)
      && |Unknown(s.vars, t.clauses)| < |Unknown(s.vars, s.clauses)|
      && (|UnassignedOf(t.assign, learned)| == 1 <==> CoveredByReasons(s, s.clauses[i], u))
  {
    ConflictHere(s, i);
    AnalysisTeaches(s, s.clauses[i], learned, k, u);
    JumpKeeps(s, learned, k, u);
    LearnedAmong(s, learned, k, u);
    LearningShrinks(s, learned, k, u);
    UnitAfterJump(s, s.clauses[i], learned, k, u);
    LearnKeepsGraph(s, learned);
    BackToExact(Learn(s, learned), k);
    var t := BackTo(Learn(s, learned), k);
    assert t.clauses[|s.clauses|] == learned;
  }

  // An outcome of the analysis is the one that the step learns and jumps by.
  lemma LearnedIs(s: State, t: State, i: nat, learned: Clause, k: nat, u: nat)
    requires Graph(s) && LearnedFrom(s, t, i) && Analysed(s, s.clauses[i], learned, k, u)
    ensures InRange(Learn(s, learned)) && t == BackTo(Learn(s, learned), k)
    ensures t.clauses[|s.clauses|] == learned
  {
    hide Analysed, BackTo, Entails;
    var learned' := t.clauses[|s.clauses|];
    var k', u' :| Analysed(s, s.clauses[i], learned', k', u') && t == BackTo(Learn(s, learned'), k');
    AnalysedOnce(s, s.clauses[i], learned, k, u, learned', k', u');
  }

  lemma LearnedOnce(s: State, t: State, t': State, i: nat)
    requires Graph(s) && LearnedFrom(s, t, i) && LearnedFrom(s, t', i)
    ensures t == t'
  {
    hide Analysed, BackTo, Entails;
    var learned := t.clauses[|s.clauses|];
    var k, u :| Analysed(s, s.clauses[i], learned, k, u) && t == BackTo(Learn(s, learned), k);
    LearnedIs(s, t', i, learned, k, u);
  }
}
