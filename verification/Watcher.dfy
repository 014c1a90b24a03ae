// The two watched variables of a clause (`clause_watcher`), against the full scan of the
// clause that unit propagation does.
module Watcher {
  import opened Basics
  import opened Cnf
  import opened Clauses

  // Reading an empty slot raises `std::bad_optional_access`.
  datatype WatchError = BadOptionalAccess

  datatype Watch = Watch(first: Option<nat>, second: Option<nat>) {
    function Size(): nat {
      (if first.Some? then 1 else 0) + (if second.Some? then 1 else 0)
    }
  }

  // The first two unassigned occurrences, in clause order.
  function Select(assign: seq<Assignment>, c: Clause): Watch {
    var free := UnassignedOf(assign, c);
    Watch(if |free| >= 1 then Some(free[0].id) else None, if |free| >= 2 then Some(free[1].id) else None)
  }

  // The first unassigned variable of the clause other than `skip`.
  function FirstFree(assign: seq<Assignment>, c: Clause, skip: Option<nat>): (r: Option<nat>)
    ensures Refills(r, assign, c, skip)
    ensures r.Some? ==> exists p :: 0 <= p < |c| && c[p].id == r.value && Free(assign, r.value) && skip != r
    ensures r.None? ==> forall p :: 0 <= p < |c| && Free(assign, c[p].id) ==> skip == Some(c[p].id)
  {
    if c == [] then None
    else if Eligible(assign, c, skip, 0) then
      assert NoneEligible(assign, c, skip, 0);
      Some(c[0].id)
    else
      var r := FirstFree(assign, c[1..], skip);
      assert forall p :: 0 <= p < |c[1..]| ==> c[1..][p] == c[p + 1];
      assert forall p :: 0 < p < |c| ==> c[p] == c[1..][p - 1];
      assert forall p :: 0 <= p < |c[1..]| ==>
        (Eligible(assign, c[1..], skip, p) <==> Eligible(assign, c, skip, p + 1));
      assert forall p :: 0 < p < |c| ==> (Eligible(assign, c, skip, p) <==> Eligible(assign, c[1..], skip, p - 1));
      assert forall p :: 0 <= p < |c[1..]| && NoneEligible(assign, c[1..], skip, p) ==>
        NoneEligible(assign, c, skip, p + 1);
      r
  }

  // Position p holds an unassigned variable other than the one in the other slot.
  predicate Eligible(assign: seq<Assignment>, c: Clause, other: Option<nat>, p: nat) {
    p < |c| && Free(assign, c[p].id) && other != Some(c[p].id)
  }

  ghost predicate NoneEligible(assign: seq<Assignment>, c: Clause, other: Option<nat>, end: nat) {
    forall p :: 0 <= p < end ==> !Eligible(assign, c, other, p)
  }

  // The slot holds the variable at the first eligible position, if there is one.
  ghost predicate Refills(slot: Option<nat>, assign: seq<Assignment>, c: Clause, other: Option<nat>) {
    if slot.None? then NoneEligible(assign, c, other, |c|)
    else exists p: nat ::
      Eligible(assign, c, other, p) && NoneEligible(assign, c, other, p) && c[p].id == slot.value
  }

  function Replaced(w: Watch, assign: seq<Assignment>, c: Clause, v: nat): Result<Watch, WatchError> {
    if w.first != Some(v) && w.second != Some(v) then Ok(w)
    else if w.first.None? then Err(BadOptionalAccess)
    else if w.first == Some(v) then Ok(Watch(FirstFree(assign, c, w.second), w.second))
    else Ok(Watch(w.first, FirstFree(assign, c, w.first)))
  }

  ghost predicate NoneFree(assign: seq<Assignment>, c: Clause, from: nat, to: nat) {
    forall p :: from <= p < to && p < |c| ==> !Free(assign, c[p].id)
  }

  // Position p holds the first unassigned literal from position `from` on.
  ghost predicate FirstFreeAt(assign: seq<Assignment>, c: Clause, from: nat, p: nat) {
    from <= p < |c| && Free(assign, c[p].id) && NoneFree(assign, c, from, p)
  }

  // The slots hold the first unassigned literal and the next one after it, as far as there are any.
  ghost predicate TakesFirst(w: Watch, assign: seq<Assignment>, c: Clause) {
    if w.first.None? then w.second.None? && NoneFree(assign, c, 0, |c|)
    else exists p: nat :: FirstFreeAt(assign, c, 0, p) && c[p].id == w.first.value && TakesNext(w, assign, c, p)
  }

  ghost predicate TakesNext(w: Watch, assign: seq<Assignment>, c: Clause, p: nat) {
    if w.second.None? then NoneFree(assign, c, p + 1, |c|)
    else exists q: nat :: FirstFreeAt(assign, c, p + 1, q) && c[q].id == w.second.value
  }

  class ClauseWatcher {
    var slots: Watch

    // The clause is not empty: the debug build asserts it.
    constructor (assign: seq<Assignment>, c: Clause)
      requires c != []
      ensures TakesFirst(slots, assign, c) && slots == Select(assign, c)
      ensures DistinctVariables(c) ==> Watches(slots, assign, c)
    {
      SelectTakesFirst(assign, c);
      if DistinctVariables(c) { SelectWatches(assign, c); }
      var filtered := UnassignedOf(assign, c);
      if filtered == [] {
        slots := Watch(None, None);
      } else if |filtered| == 1 {
        slots := Watch(Some(filtered[0].id), None);
      } else {
        slots := Watch(Some(filtered[0].id), Some(filtered[1].id));
      }
    }

    // Between `before` and the assignment given here, v has been assigned.
    method Replace(assign: seq<Assignment>, c: Clause, v: nat, ghost before: seq<Assignment>) returns (thrown: bool)
      modifies this
      ensures thrown <==> old(slots).first.None? && old(slots).second == Some(v)
      ensures thrown ==> slots == old(slots)
      ensures !thrown ==> Replaced(old(slots), assign, c, v) == Ok(slots)
      ensures !thrown && old(slots).first == Some(v) ==>
        slots.second == old(slots).second && Refills(slots.first, assign, c, slots.second)
      ensures !thrown && old(slots).first != Some(v) && old(slots).second == Some(v) ==>
        slots.first == old(slots).first && Refills(slots.second, assign, c, slots.first)
      ensures old(slots).first != Some(v) && old(slots).second != Some(v) ==> slots == old(slots)
      ensures !thrown && DistinctVariables(c) && Watches(old(slots), before, c) && Assigns(before, assign, v) ==>
        Watches(slots, assign, c)
      ensures !thrown && DistinctVariables(c) && Watches(old(slots), assign, c) ==> Watches(slots, assign, c)
    {
      hide Watches, Assigns, FirstFree;
      ghost var w := slots;
      if DistinctVariables(c) {
        if Watches(w, before, c) && Assigns(before, assign, v) { ReplacedWatches(w, before, assign, c, v); }
        if Watches(w, assign, c) { ReplacedUnassigned(w, assign, c, v); }
      }
      if slots.first != Some(v) && slots.second != Some(v) { return false; }
      if slots.first.None? { return true; }
      if slots.first == Some(v) {
        slots := slots.(first := None);
        var found := FirstFree(assign, c, slots.second);
        if found.Some? { slots := slots.(first := found); }
      } else {
        slots := slots.(second := None);
        var found := FirstFree(assign, c, slots.first);
        if found.Some? { slots := slots.(second := found); }
      }
      thrown := false;
    }
  }

  // ---- Agreement with the scan ----

  ghost predicate FreeMember(assign: seq<Assignment>, c: Clause, slot: Option<nat>) {
    slot.Some? ==> exists p :: 0 <= p < |c| && c[p].id == slot.value && Free(assign, slot.value)
  }

  // The slots hold distinct unassigned members of the clause, as many as there are up to two.
  ghost predicate Watches(w: Watch, assign: seq<Assignment>, c: Clause) {
    && FreeMember(assign, c, w.first)
    && FreeMember(assign, c, w.second)
    && (w.first.Some? && w.second.Some? ==> w.first != w.second)
    && w.Size() == (if |UnassignedOf(assign, c)| >= 2 then 2 else |UnassignedOf(assign, c)|)
  }

  lemma {:induction false} UnassignedDistinct(assign: seq<Assignment>, c: Clause)
    requires DistinctVariables(c) && |UnassignedOf(assign, c)| >= 2
    ensures UnassignedOf(assign, c)[0].id != UnassignedOf(assign, c)[1].id
  {
    if Free(assign, c[0].id) {
      var b := UnassignedOf(assign, c[1..])[0];
      var p :| 0 <= p < |c[1..]| && c[1..][p] == b;
      assert c[p + 1] == b;
    } else {
      UnassignedDistinct(assign, c[1..]);
    }
  }

  lemma SelectWatches(assign: seq<Assignment>, c: Clause)
    requires DistinctVariables(c)
    ensures Watches(Select(assign, c), assign, c)
  {
    var free := UnassignedOf(assign, c);
    if |free| >= 2 { UnassignedDistinct(assign, c); }
    forall k | 0 <= k < |free| ensures FreeMember(assign, c, Some(free[k].id)) {
      var p :| 0 <= p < |c| && c[p] == free[k];
    }
  }

  lemma SelectTakesFirst(assign: seq<Assignment>, c: Clause)
    ensures TakesFirst(Select(assign, c), assign, c)
  {
    var w := Select(assign, c);
    if UnassignedOf(assign, c) == [] {
      NoneUnassigned(assign, c);
    } else {
      var p := FirstUnassigned(assign, c);
      if |UnassignedOf(assign, c)| == 1 {
        NoneUnassigned(assign, c[p + 1..]);
        assert forall j :: p < j < |c| ==> c[j] == c[p + 1..][j - p - 1];
      } else {
        var q := FirstUnassigned(assign, c[p + 1..]);
        assert forall j :: p < j < |c| ==> c[j] == c[p + 1..][j - p - 1];
        assert FirstFreeAt(assign, c, p + 1, p + 1 + q);
      }
      assert TakesNext(w, assign, c, p);
    }
  }

  lemma {:induction false} FirstUnassigned(assign: seq<Assignment>, c: Clause) returns (p: nat)
    requires UnassignedOf(assign, c) != []
    ensures FirstFreeAt(assign, c, 0, p) && UnassignedOf(assign, c) == [c[p]] + UnassignedOf(assign, c[p + 1..])
  {
    if Free(assign, c[0].id) {
      p := 0;
    } else {
      var r := FirstUnassigned(assign, c[1..]);
      p := r + 1;
      assert c[1..][r + 1..] == c[p + 1..];
      assert forall j :: 0 < j < |c| ==> c[j] == c[1..][j - 1];
    }
  }

  // A watcher built over a falsified clause watches nothing.
  lemma FalsifiedUnwatched(assign: seq<Assignment>, c: Clause)
    requires Falsified(assign, c)
    ensures Select(assign, c) == Watch(None, None)
  {
    NoneUnassigned(assign, c);
  }

  // Without the restriction to distinct variables the constructor may watch one twice.
  lemma RepeatedVariableWatchedTwice()
    ensures var c := [Bound(Literal(1), 0), Bound(Literal(1), 0)];
      Select([NotAssigned], c) == Watch(Some(0), Some(0)) && !Watches(Select([NotAssigned], c), [NotAssigned], c)
  {
    var c := [Bound(Literal(1), 0), Bound(Literal(1), 0)];
    assert c[1..] == [Bound(Literal(1), 0)];
    assert UnassignedOf([NotAssigned], c[1..]) == [Bound(Literal(1), 0)];
  }

  // A slot count tells what propagation would find by scanning.
  lemma SizeMatchesScan(w: Watch, assign: seq<Assignment>, c: Clause)
    requires Watches(w, assign, c)
    ensures w.Size() == 2 <==> TwoFree(assign, c)
    ensures w.Size() == 1 <==> |UnassignedOf(assign, c)| == 1
    ensures w.Size() == 0 <==> forall p :: 0 <= p < |c| ==> !Free(assign, c[p].id)
  {
    SeveralUnassigned(assign, c);
    NoneUnassigned(assign, c);
  }

  // Only v has been assigned between the two assignments.
  ghost predicate Assigns(assign: seq<Assignment>, after: seq<Assignment>, v: nat) {
    Free(assign, v) && forall u: nat :: Free(after, u) <==> Free(assign, u) && u != v
  }

  // An unwatched variable is assigned: what is watched stays free, and no more is.
  lemma UnwatchedStays(w: Watch, assign: seq<Assignment>, after: seq<Assignment>, c: Clause, v: nat)
    requires Watches(w, assign, c) && Assigns(assign, after, v) && DistinctVariables(c)
    requires w.first != Some(v) && w.second != Some(v)
    ensures Watches(w, after, c)
  {
    hide UnassignedOf;
    SeveralUnassigned(assign, c);
    SeveralUnassigned(after, c);
    NoneUnassigned(assign, c);
    NoneUnassigned(after, c);
    if w.Size() == 2 {
      var p :| 0 <= p < |c| && c[p].id == w.first.value && Free(assign, w.first.value);
      var q :| 0 <= q < |c| && c[q].id == w.second.value && Free(assign, w.second.value);
      FreePairIsTwoFree(after, c, p, q);
    }
  }

  // The slot that held v is filled again from what is left beside the other slot.
  lemma SlotRefilled(
      w: Watch, assign: seq<Assignment>, after: seq<Assignment>, c: Clause, v: nat, other: Option<nat>, refilled: Watch)
    requires Watches(w, assign, c) && Assigns(assign, after, v) && DistinctVariables(c)
    requires (w.first == Some(v) && other == w.second && refilled == Watch(FirstFree(after, c, other), other))
          || (w.second == Some(v) && other == w.first && refilled == Watch(other, FirstFree(after, c, other)))
    ensures Watches(refilled, after, c)
  {
    hide UnassignedOf, FirstFree;
    SeveralUnassigned(assign, c);
    SeveralUnassigned(after, c);
    NoneUnassigned(assign, c);
    NoneUnassigned(after, c);
    var found := FirstFree(after, c, other);
    if found.Some? && other.Some? {
      var p :| 0 <= p < |c| && c[p].id == found.value && Free(after, found.value);
      var q :| 0 <= q < |c| && c[q].id == other.value && Free(assign, other.value);
      FreePairIsTwoFree(after, c, p, q);
    }
  }

  // Replacing a variable that is still unassigned keeps the agreement as well.
  lemma ReplacedUnassigned(w: Watch, assign: seq<Assignment>, c: Clause, v: nat)
    requires DistinctVariables(c) && Watches(w, assign, c)
    ensures var r := Replaced(w, assign, c, v); r.Ok? ==> Watches(r.value, assign, c)
  {
    hide UnassignedOf, FirstFree;
  }

  lemma ReplacedWatches(w: Watch, assign: seq<Assignment>, after: seq<Assignment>, c: Clause, v: nat)
    requires DistinctVariables(c) && Watches(w, assign, c) && Assigns(assign, after, v)
    ensures var r := Replaced(w, after, c, v);
      && (r.Err? <==> w.first.None? && w.second == Some(v))
      && (r.Ok? ==> Watches(r.value, after, c))
  {
    hide FirstFree, Watches, Assigns;
    if w.first == Some(v) {
      SlotRefilled(w, assign, after, c, v, w.second, Watch(FirstFree(after, c, w.second), w.second));
    } else if w.second == Some(v) {
      SlotRefilled(w, assign, after, c, v, w.first, Watch(w.first, FirstFree(after, c, w.first)));
    } else {
      UnwatchedStays(w, assign, after, c, v);
    }
  }

  // Assigning a variable and then replacing it keeps the agreement, unless the one call
  // that reads an empty first slot is made.
  lemma ReplaceWatches(w: Watch, assign: seq<Assignment>, c: Clause, v: nat, value: Assignment)
    requires DistinctVariables(c) && Watches(w, assign, c) && Free(assign, v) && value != NotAssigned
    ensures var r := Replaced(w, assign[v := value], c, v);
      && (r.Err? <==> w.first.None? && w.second == Some(v))
      && (r.Ok? ==> Watches(r.value, assign[v := value], c))
  {
    hide Watches, Replaced;
    assert Assigns(assign, assign[v := value], v);
    ReplacedWatches(w, assign, assign[v := value], c, v);
  }

  lemma FreePairIsTwoFree(assign: seq<Assignment>, c: Clause, p: nat, q: nat)
    requires p < |c| && q < |c| && p != q && Free(assign, c[p].id) && Free(assign, c[q].id)
    ensures TwoFree(assign, c)
  {
    assert Free(assign, c[if p < q then p else q].id) && Free(assign, c[if p < q then q else p].id);
  }

  // ---- Runs ----

  datatype Step = Step(v: nat, value: Assignment)

  ghost predicate CanAssign(assign: seq<Assignment>, steps: seq<Step>)
    decreases |steps|
  {
    steps == [] ||
    (Free(assign, steps[0].v) && steps[0].value != NotAssigned
     && CanAssign(assign[steps[0].v := steps[0].value], steps[1..]))
  }

  ghost function Assigned(assign: seq<Assignment>, steps: seq<Step>): seq<Assignment>
    requires CanAssign(assign, steps)
    decreases |steps|
  {
    if steps == [] then assign else Assigned(assign[steps[0].v := steps[0].value], steps[1..])
  }

  // Each step assigns a variable and calls `replace` on it; the first exception ends the run.
  ghost function Watching(w: Watch, assign: seq<Assignment>, c: Clause, steps: seq<Step>): Result<Watch, WatchError>
    requires CanAssign(assign, steps)
    decreases |steps|
  {
    if steps == [] then Ok(w)
    else
      var after := assign[steps[0].v := steps[0].value];
      match Replaced(w, after, c, steps[0].v)
      case Err(e) => Err(e)
      case Ok(w') => Watching(w', after, c, steps[1..])
  }

  lemma {:induction false} RunWatchesFrom(w: Watch, assign: seq<Assignment>, c: Clause, steps: seq<Step>)
    requires DistinctVariables(c) && Watches(w, assign, c) && CanAssign(assign, steps)
    ensures var r := Watching(w, assign, c, steps);
      && (r.Ok? ==> Watches(r.value, Assigned(assign, steps), c))
      && (r.Err? ==> forall p :: 0 <= p < |c| && Free(Assigned(assign, steps), c[p].id) ==> false)
    decreases |steps|
  {
    if steps == [] {
    } else {
      var v := steps[0].v;
      var after := assign[v := steps[0].value];
      ReplaceWatches(w, assign, c, v, steps[0].value);
      match Replaced(w, after, c, v)
      case Ok(w') => RunWatchesFrom(w', after, c, steps[1..]);
      case Err(_) =>
        OnlyWatchedFree(w, assign, c, v);
        FreeShrinks(after, steps[1..]);
    }
  }

  lemma OnlyWatchedFree(w: Watch, assign: seq<Assignment>, c: Clause, v: nat)
    requires DistinctVariables(c) && Watches(w, assign, c) && w.first.None? && w.second == Some(v)
    ensures forall p :: 0 <= p < |c| && Free(assign, c[p].id) ==> c[p].id == v
  {
    var o := OneUnassigned(assign, c);
    var q :| 0 <= q < |c| && c[q].id == v && Free(assign, v);
  }

  lemma {:induction false} FreeShrinks(assign: seq<Assignment>, steps: seq<Step>)
    requires CanAssign(assign, steps)
    ensures forall u: nat :: Free(Assigned(assign, steps), u) ==> Free(assign, u)
    decreases |steps|
  {
    if steps == [] {
    } else {
      FreeShrinks(assign[steps[0].v := steps[0].value], steps[1..]);
    }
  }

  // Over any run that starts from a fresh watcher: the slots agree with the scan at the
  // end, or the run broke off, which takes a clause with no unassigned literal left.
  lemma RunWatches(assign: seq<Assignment>, c: Clause, steps: seq<Step>)
    requires DistinctVariables(c) && CanAssign(assign, steps)
    ensures var r := Watching(Select(assign, c), assign, c, steps);
      && (r.Ok? ==> Watches(r.value, Assigned(assign, steps), c))
      && (r.Err? ==> forall p :: 0 <= p < |c| ==> !Free(Assigned(assign, steps), c[p].id))
  {
    SelectWatches(assign, c);
    RunWatchesFrom(Select(assign, c), assign, c, steps);
  }

  // Such a run on the object: the watcher is built, and each assignment is followed by a
  // call of `Replace`, until one throws.
  method RunWatcher(assign: seq<Assignment>, c: Clause, steps: seq<Step>)
    returns (watcher: ClauseWatcher, after: seq<Assignment>, thrown: bool)
    requires c != [] && CanAssign(assign, steps)
    ensures fresh(watcher)
    ensures thrown <==> Watching(Select(assign, c), assign, c, steps).Err?
    ensures !thrown ==> after == Assigned(assign, steps) && |after| == |assign|
    ensures !thrown ==> forall k :: 0 <= k < |steps| ==> steps[k].v < |after| && after[steps[k].v] == steps[k].value
    ensures !thrown ==> forall v: nat ::
      v < |assign| && (forall k :: 0 <= k < |steps| ==> steps[k].v != v) ==> after[v] == assign[v]
    ensures !thrown ==> Watching(Select(assign, c), assign, c, steps) == Ok(watcher.slots)
    ensures !thrown && DistinctVariables(c) ==> Watches(watcher.slots, after, c)
    ensures thrown && DistinctVariables(c) ==> forall p :: 0 <= p < |c| ==> !Free(Assigned(assign, steps), c[p].id)
  {
    hide Watches, Select, TakesFirst, DistinctVariables;
    watcher := new ClauseWatcher(assign, c);
    if DistinctVariables(c) { RunWatches(assign, c, steps); }
    after, thrown := assign, false;
    for i := 0 to |steps|
      invariant fresh(watcher) && CanAssign(after, steps[i..])
      invariant Assigned(after, steps[i..]) == Assigned(assign, steps) && |after| == |assign|
      invariant forall k :: 0 <= k < i ==>
        steps[k].v < |after| && after[steps[k].v] == steps[k].value != NotAssigned
      invariant forall v: nat ::
        v < |assign| && (forall k :: 0 <= k < i ==> steps[k].v != v) ==> after[v] == assign[v]
      invariant Watching(watcher.slots, after, c, steps[i..]) == Watching(Select(assign, c), assign, c, steps)
    {
      ghost var before := after;
      assert steps[i..][0] == steps[i] && steps[i..][1..] == steps[i + 1..];
      after := after[steps[i].v := steps[i].value];
      thrown := watcher.Replace(after, c, steps[i].v, before);
      if thrown { return; }
    }
  }

  // A watcher left with its second slot alone breaks exactly when that variable is assigned.
  lemma {:induction false} HalfEmptyBreaks(v: nat, assign: seq<Assignment>, c: Clause, steps: seq<Step>)
    requires CanAssign(assign, steps)
    ensures Watching(Watch(None, Some(v)), assign, c, steps).Err? <==> exists k :: 0 <= k < |steps| && steps[k].v == v
    decreases |steps|
  {
    if steps == [] || steps[0].v == v {
    } else {
      HalfEmptyBreaks(v, assign[steps[0].v := steps[0].value], c, steps[1..]);
      forall k | 0 < k < |steps| ensures steps[k] == steps[1..][k - 1] {}
      forall k | 0 <= k < |steps[1..]| ensures steps[1..][k] == steps[k + 1] {}
    }
  }

  // The breaking call does happen: assign both variables of a two-literal clause in order.
  lemma RunBreaks()
    ensures var c := [Bound(Literal(1), 0), Bound(Literal(2), 1)];
      var assign := [NotAssigned, NotAssigned];
      var steps := [Step(0, On), Step(1, On)];
      CanAssign(assign, steps) && Watching(Select(assign, c), assign, c, steps) == Err(BadOptionalAccess)
  {
    var c := [Bound(Literal(1), 0), Bound(Literal(2), 1)];
    var assign := [NotAssigned, NotAssigned];
    var steps := [Step(0, On), Step(1, On)];
    var after := assign[0 := On];
    assert steps[1..] == [Step(1, On)];
    assert CanAssign(after, steps[1..]) by { assert steps[1..][1..] == []; }
    assert c[1..] == [c[1]] && c[1..][1..] == [];
    assert UnassignedOf(assign, c) == c by { assert UnassignedOf(assign, c[1..]) == [c[1]]; }
    assert FirstFree(after, c, Some(1)) == None;
    assert Replaced(Watch(Some(0), Some(1)), after, c, 0) == Ok(Watch(None, Some(1)));
    assert Replaced(Watch(None, Some(1)), after[1 := On], c, 1) == Err(BadOptionalAccess);
  }
}
