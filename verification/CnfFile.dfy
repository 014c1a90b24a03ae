// Reading a model from the lines of a CNF file (`make_model_from_cnf_file`), tokenised.
module CnfFile {
  import opened Basics
  import opened Cnf

  // A line by its first character: `c` or nothing, `p`, or anything else. A header's two
  // counts are zero when they are missing or not numbers.
  datatype Line =
    | Skipped
    | Header(keyword: string, format: string, variables: int, clauses: int)
    | Data(tokens: seq<Token>)

  datatype Token = Number(value: int) | Word

  // `LengthError` is the standard library's refusal to reserve a negative amount; the
  // two count errors are assertions of the debug build.
  datatype ParseError = HeaderTwice | InvalidFormat | LengthError | VariableCount | ClauseCount

  const DEFAULT_CONFIGURATION := Configuration(100, 2, 10, 100, 0.95)

  // ---- What the lines say ----

  // c is the longest run of nonzero numbers at the start of the tokens.
  ghost predicate Reads(tokens: seq<Token>, c: seq<Literal>) {
    && |c| <= |tokens|
    && (forall j :: 0 <= j < |c| ==> tokens[j].Number? && tokens[j].value != 0 && c[j].raw == tokens[j].value)
    && (|c| == |tokens| || tokens[|c|].Word? || tokens[|c|].value == 0)
  }

  // The clauses stand on the lines `at`, in order, and no other data line has one.
  ghost predicate ReadFrom(lines: seq<Line>, clauses: seq<seq<Literal>>, at: seq<nat>) {
    && |at| == |clauses|
    && (forall k, l :: 0 <= k < l < |at| ==> at[k] < at[l])
    && (forall k :: 0 <= k < |at| ==>
         at[k] < |lines| && lines[at[k]].Data? && clauses[k] != [] && Reads(lines[at[k]].tokens, clauses[k]))
    && (forall i :: 0 <= i < |lines| && lines[i].Data? && i !in at ==> Reads(lines[i].tokens, []))
  }

  // Some clause holds a literal of the variable.
  ghost predicate Uses(clauses: seq<seq<Literal>>, x: nat) {
    exists i, j :: 0 <= i < |clauses| && 0 <= j < |clauses[i]| && clauses[i][j].Value() == x
  }

  // The numbers up to the first zero or the first token that is no number.
  function ClauseOf(tokens: seq<Token>): (c: seq<Literal>)
    ensures forall j :: 0 <= j < |c| ==> c[j].raw != 0
  {
    if tokens == [] || tokens[0].Word? || tokens[0].value == 0 then []
    else [Literal(tokens[0].value)] + ClauseOf(tokens[1..])
  }

  lemma {:induction false} ClauseReads(tokens: seq<Token>)
    ensures Reads(tokens, ClauseOf(tokens))
  {
    if tokens == [] || tokens[0].Word? || tokens[0].value == 0 {
    } else {
      ClauseReads(tokens[1..]);
    }
  }

  function ClauseOn(line: Line): seq<Literal> {
    if line.Data? then ClauseOf(line.tokens) else []
  }

  // The nonempty clauses, in file order.
  function ClausesOf(lines: seq<Line>): seq<seq<Literal>> {
    if lines == [] then []
    else
      var c := ClauseOn(lines[|lines| - 1]);
      ClausesOf(lines[..|lines| - 1]) + (if c == [] then [] else [c])
  }

  lemma {:induction false} ClausesInOrder(lines: seq<Line>) returns (at: seq<nat>)
    ensures ReadFrom(lines, ClausesOf(lines), at)
  {
    if lines == [] {
      at := [];
    } else {
      var n := |lines| - 1;
      var c := ClauseOn(lines[n]);
      assert ClausesOf(lines) == ClausesOf(lines[..n]) + (if c == [] then [] else [c]);
      hide ClausesOf;
      at := ClausesInOrder(lines[..n]);
      if lines[n].Data? { ClauseReads(lines[n].tokens); }
      hide ClauseOf, ReadFrom;
      if c == [] {
        LastLineEmpty(lines, ClausesOf(lines[..n]), at);
      } else {
        LastLineRead(lines, ClausesOf(lines[..n]), at, c);
        at := at + [n];
      }
    }
  }

  lemma LastLineEmpty(lines: seq<Line>, clauses: seq<seq<Literal>>, at: seq<nat>)
    requires lines != [] && ReadFrom(lines[..|lines| - 1], clauses, at)
    requires lines[|lines| - 1].Data? ==> Reads(lines[|lines| - 1].tokens, [])
    ensures ReadFrom(lines, clauses, at)
  {
    hide Reads;
    assert forall i :: 0 <= i < |lines| - 1 ==> lines[..|lines| - 1][i] == lines[i];
  }

  lemma LastLineRead(lines: seq<Line>, clauses: seq<seq<Literal>>, at: seq<nat>, c: seq<Literal>)
    requires lines != [] && ReadFrom(lines[..|lines| - 1], clauses, at)
    requires lines[|lines| - 1].Data? && c != [] && Reads(lines[|lines| - 1].tokens, c)
    ensures ReadFrom(lines, clauses + [c], at + [|lines| - 1])
  {
    hide Reads;
    var n := |lines| - 1;
    var more := at + [n];
    assert forall i :: 0 <= i < n ==> lines[..n][i] == lines[i];
    forall i | 0 <= i < |lines| && lines[i].Data? && i !in more ensures Reads(lines[i].tokens, []) {
      assert more[|at|] == n;
      assert forall k :: 0 <= k < |at| ==> more[k] == at[k];
    }
  }

  ghost function VariablesIn(c: seq<Literal>): set<nat> { set j | 0 <= j < |c| :: c[j].Value() }

  ghost function VariablesOf(lines: seq<Line>): set<nat> {
    set i, j | 0 <= i < |ClausesOf(lines)| && 0 <= j < |ClausesOf(lines)[i]| :: ClausesOf(lines)[i][j].Value()
  }

  // ---- The ordered set of literals ----

  predicate Increasing(s: seq<Literal>) {
    forall i, j :: 0 <= i < j < |s| ==> s[i].raw < s[j].raw
  }

  function Insert(s: seq<Literal>, x: Literal): (r: seq<Literal>)
    requires Increasing(s)
    ensures Increasing(r)
    ensures forall y :: y in r <==> y == x || y in s
  {
    if s == [] || x.raw < s[0].raw then [x] + s
    else if x == s[0] then s
    else
      var tail := Insert(s[1..], x);
      assert forall i :: 0 <= i < |tail| ==> tail[i] in tail;
      assert forall i :: 0 < i < |s| ==> s[0].raw < s[i].raw;
      [s[0]] + tail
  }

  // ---- The reader's vectors, whose capacities take part in its checks ----

  // A vector that runs out of room doubles its capacity.
  function Pushed(size: nat, capacity: nat): nat {
    if size < capacity then capacity else if capacity == 0 then 1 else 2 * capacity
  }

  function Max(a: nat, b: nat): nat { if a < b then b else a }

  datatype Room = Room(literals: nat, clauses: nat)

  // The capacities after reading the lines, unless a header stops the reader.
  function RoomAfter(lines: seq<Line>): Result<Room, ParseError> {
    if lines == [] then Ok(Room(0, 0))
    else
      var before := RoomAfter(lines[..|lines| - 1]);
      var line := lines[|lines| - 1];
      if before.Err? then before
      else match line
        case Skipped => before
        case Header(keyword, format, variables, clauses) =>
          if before.value.clauses > 0 then Err(HeaderTwice)
          else if keyword != "p" || format != "cnf" then Err(InvalidFormat)
          else if variables < 0 || clauses < 0 then Err(LengthError)
          else Ok(Room(Max(before.value.literals, variables), Max(before.value.clauses, clauses)))
        case Data(tokens) =>
          if ClauseOf(tokens) == [] then before
          else Ok(before.value.(clauses := Pushed(|ClausesOf(lines[..|lines| - 1])|, before.value.clauses)))
  }

  // The file is read: no header stops the reader and both counts fill their vectors.
  ghost predicate Accepted(lines: seq<Line>) {
    RoomAfter(lines).Ok? && RoomAfter(lines).value == Room(|VariablesOf(lines)|, |ClausesOf(lines)|)
  }

  lemma {:induction false} IncreasingCardinality(s: seq<Literal>, vars: set<nat>)
    requires OrderedSet(s)
    requires forall x: nat :: x in vars <==> Literal(x) in s
    ensures |s| == |vars|
  {
    if s == [] {
      assert vars == {};
    } else {
      var front := s[..|s| - 1];
      var x := s[|s| - 1].Value();
      assert s[|s| - 1] in s && Literal(x) == s[|s| - 1];
      forall y: nat ensures y in vars - {x} <==> Literal(y) in front {
        if Literal(y) in front { var i :| 0 <= i < |front| && front[i] == Literal(y); assert s[i] == Literal(y); }
      }
      IncreasingCardinality(front, vars - {x});
    }
  }

  // Line by line, as the source does it.
  method MakeModel(lines: seq<Line>) returns (r: Result<Model, ParseError>)
    ensures r.Ok? <==> Accepted(lines)
    ensures r.Ok? ==> r.value.clauses == ClausesOf(lines) && r.value.conf == DEFAULT_CONFIGURATION
    ensures r.Ok? ==> exists at :: ReadFrom(lines, r.value.clauses, at)
    ensures r.Ok? ==> OrderedSet(r.value.literals)
    ensures r.Ok? ==> forall x: nat :: Literal(x) in r.value.literals <==> Uses(r.value.clauses, x)
    ensures r.Ok? ==> r.value.conf == Configuration(100, 2, 10, 100, 0.95)
    ensures r.Ok? ==> forall i :: 0 <= i < |lines| && lines[i].Header? ==>
      lines[i].keyword == "p" && lines[i].format == "cnf" && lines[i].variables >= 0 && lines[i].clauses >= 0
    ensures r.Ok? ==> forall x: nat :: x in VariablesOf(lines) <==> Literal(x) in r.value.literals
    ensures r.Err? && RoomAfter(lines).Err? ==> r.error == RoomAfter(lines).error
    ensures r.Err? && RoomAfter(lines).Ok? ==>
      r.error == if |VariablesOf(lines)| != RoomAfter(lines).value.literals then VariableCount else ClauseCount
  {
    hide VariablesOf, VariablesIn, OrderedSet, ClauseOf, Insert;
    var clauses: seq<seq<Literal>> := [];
    EmptyFile();
    var unique: seq<Literal> := [];
    var room := Room(0, 0);
    for i := 0 to |lines|
      invariant RoomAfter(lines[..i]) == Ok(room)
      invariant clauses == ClausesOf(lines[..i])
      invariant OrderedSet(unique)
      invariant forall x: nat :: x in VariablesOf(lines[..i]) <==> Literal(x) in unique
    {
      assert lines[..i + 1][..i] == lines[..i];
      match lines[i] {
        case Skipped =>
          VariablesGrow(lines, i);
        case Header(keyword, format, variables, count) =>
          VariablesGrow(lines, i);
          if room.clauses > 0 { HeaderStops(lines, i + 1); return Err(HeaderTwice); }
          if keyword != "p" || format != "cnf" { HeaderStops(lines, i + 1); return Err(InvalidFormat); }
          if variables < 0 || count < 0 { HeaderStops(lines, i + 1); return Err(LengthError); }
          room := Room(Max(room.literals, variables), Max(room.clauses, count));
        case Data(tokens) =>
          VariablesGrow(lines, i);
          var c, added := ReadClause(tokens, unique);
          unique := added;
          if c != [] {
            room := room.(clauses := Pushed(|clauses|, room.clauses));
            clauses := clauses + [c];
          }
      }
    }
    assert lines[..|lines|] == lines;
    IncreasingCardinality(unique, VariablesOf(lines));
    if |unique| != room.literals { return Err(VariableCount); }
    if |clauses| != room.clauses { return Err(ClauseCount); }
    forall i | 0 <= i < |lines| && lines[i].Header? ensures GoodHeader(lines[i]) { HeadersPassed(lines, i); }
    VariablesUsed(lines);
    var at := ClausesInOrder(lines);
    r := Ok(Model(unique, clauses, DEFAULT_CONFIGURATION));
  }

  // `added` is `unique` with the variables of c.
  ghost predicate Collected(unique: seq<Literal>, c: seq<Literal>, added: seq<Literal>) {
    forall x: nat :: Literal(x) in added <==> Literal(x) in unique || x in VariablesIn(c)
  }

  predicate OrderedSet(s: seq<Literal>) {
    Increasing(s) && forall i :: 0 <= i < |s| ==> s[i].raw > 0
  }

  lemma CollectedGrows(unique: seq<Literal>, c: seq<Literal>, added: seq<Literal>, l: Literal)
    requires OrderedSet(added) && Collected(unique, c, added) && l.raw != 0
    ensures OrderedSet(Insert(added, Literal(l.Value())))
    ensures Collected(unique, c + [l], Insert(added, Literal(l.Value())))
  {
    var r := Insert(added, Literal(l.Value()));
    VariablesInGrow(c, l);
    forall i | 0 <= i < |r| ensures r[i].raw > 0 {
      assert r[i] in r;
      assert forall j :: 0 <= j < |added| ==> added[j].raw > 0;
    }
  }

  lemma EmptyFile()
    ensures VariablesOf([]) == {} && VariablesIn([]) == {} && OrderedSet([])
  {
    assert ClausesOf([]) == [];
  }

  method ReadClause(tokens: seq<Token>, unique: seq<Literal>) returns (c: seq<Literal>, added: seq<Literal>)
    requires OrderedSet(unique)
    ensures c == ClauseOf(tokens) && Reads(tokens, c)
    ensures OrderedSet(added) && Collected(unique, c, added)
  {
    hide OrderedSet, Collected, Insert, Reads;
    c, added := [], unique;
    CollectedNone(unique);
    var k := 0;
    while k < |tokens| && tokens[k].Number? && tokens[k].value != 0
      invariant 0 <= k <= |tokens|
      invariant c + ClauseOf(tokens[k..]) == ClauseOf(tokens)
      invariant OrderedSet(added) && Collected(unique, c, added)
    {
      var l := Literal(tokens[k].value);
      CollectedGrows(unique, c, added, l);
      OrderedIncreases(added);
      added := Insert(added, Literal(l.Value()));
      assert ClauseOf(tokens[k..]) == [l] + ClauseOf(tokens[k + 1..]);
      c := c + [l];
      k := k + 1;
    }
    ClauseReads(tokens);
  }

  lemma CollectedNone(unique: seq<Literal>)
    ensures Collected(unique, [], unique)
  {
  }

  lemma OrderedIncreases(s: seq<Literal>)
    requires OrderedSet(s)
    ensures Increasing(s)
  {
  }

  lemma VariablesInGrow(c: seq<Literal>, l: Literal)
    ensures VariablesIn(c + [l]) == VariablesIn(c) + {l.Value()}
  {
    var d := c + [l];
    assert forall j :: 0 <= j < |c| ==> d[j] == c[j];
    assert d[|c|] == l;
  }

  lemma VariablesGrow(lines: seq<Line>, i: nat)
    requires i < |lines|
    ensures VariablesOf(lines[..i + 1]) == VariablesOf(lines[..i]) + VariablesIn(ClauseOn(lines[i]))
  {
    var a, b := ClausesOf(lines[..i]), ClausesOf(lines[..i + 1]);
    var c := ClauseOn(lines[i]);
    assert lines[..i + 1][..i] == lines[..i];
    assert b == a + (if c == [] then [] else [c]);
    assert forall k :: 0 <= k < |a| ==> b[k] == a[k];
    if c != [] { assert b[|a|] == c; }
    forall x | x in VariablesOf(lines[..i]) + VariablesIn(c) ensures x in VariablesOf(lines[..i + 1]) {
      if x in VariablesOf(lines[..i]) {
        var m, j :| 0 <= m < |a| && 0 <= j < |a[m]| && a[m][j].Value() == x;
        assert b[m][j].Value() == x;
      } else {
        var j :| 0 <= j < |c| && c[j].Value() == x;
        assert b[|a|][j].Value() == x;
      }
    }
  }

  // A header that stops the reader stops it whatever follows.
  lemma {:induction false} HeaderStops(lines: seq<Line>, i: nat)
    requires i <= |lines| && RoomAfter(lines[..i]).Err?
    ensures RoomAfter(lines) == RoomAfter(lines[..i])
    decreases |lines| - i
  {
    if i < |lines| {
      assert lines[..i + 1][..i] == lines[..i];
      HeaderStops(lines, i + 1);
    } else {
      assert lines[..i] == lines;
    }
  }

  // ---- What headers do ----

  // The reader only gets past headers with the right words and counts that are not negative.
  lemma {:induction false} HeadersPassed(lines: seq<Line>, i: nat)
    requires RoomAfter(lines).Ok? && i < |lines| && lines[i].Header?
    ensures GoodHeader(lines[i])
  {
    hide RoomAfter, GoodHeader;
    LastPassed(lines);
    if i == |lines| - 1 {
    } else {
      HeadersPassed(lines[..|lines| - 1], i);
    }
  }

  lemma LastPassed(lines: seq<Line>)
    requires lines != [] && RoomAfter(lines).Ok?
    ensures RoomAfter(lines[..|lines| - 1]).Ok?
    ensures lines[|lines| - 1].Header? ==> GoodHeader(lines[|lines| - 1])
  {
    hide ClauseOf, ClausesOf;
  }

  // The room for literals is the largest count of variables that a header declares.
  lemma {:induction false} MostDeclared(lines: seq<Line>)
    requires RoomAfter(lines).Ok?
    ensures forall i :: 0 <= i < |lines| && lines[i].Header? ==> lines[i].variables <= RoomAfter(lines).value.literals
    ensures var most := RoomAfter(lines).value.literals;
      most == 0 || exists i :: 0 <= i < |lines| && lines[i].Header? && lines[i].variables == most
  {
    if lines == [] {
    } else {
      var n := |lines| - 1;
      hide ClauseOf, ClausesOf;
      MostDeclared(lines[..n]);
      assert forall i :: 0 <= i < n ==> lines[..n][i] == lines[i];
      var before := RoomAfter(lines[..n]).value.literals;
      assert RoomAfter(lines).value.literals == if lines[n].Header? then Max(before, lines[n].variables) else before;
      hide RoomAfter;
      if i: nat :| i < n && lines[..n][i].Header? && lines[..n][i].variables == before {
        assert lines[i].Header? && lines[i].variables == before;
      }
    }
  }

  lemma BadHeader(front: seq<Line>, vars: nat, header: Line)
    requires RoomAfter(front) == Ok(Room(vars, 0)) && header.Header?
    ensures header.keyword != "p" || header.format != "cnf" ==> RoomAfter(front + [header]) == Err(InvalidFormat)
    ensures header.keyword == "p" && header.format == "cnf" && (header.variables < 0 || header.clauses < 0) ==>
      RoomAfter(front + [header]) == Err(LengthError)
  {
    assert (front + [header])[..|front|] == front;
    hide ClausesOf, ClauseOf;
  }

  // How a header that is not refused as a second one stops the reader.
  lemma HeaderErrors(front: seq<Line>, vars: nat, header: Line, lines: seq<Line>)
    requires RoomAfter(front) == Ok(Room(vars, 0)) && header.Header?
    ensures header.keyword != "p" || header.format != "cnf" ==>
      RoomAfter(front + [header] + lines) == Err(InvalidFormat)
    ensures header.keyword == "p" && header.format == "cnf" && (header.variables < 0 || header.clauses < 0) ==>
      RoomAfter(front + [header] + lines) == Err(LengthError)
  {
    var all := front + [header] + lines;
    assert all[..|front| + 1] == front + [header];
    BadHeader(front, vars, header);
    hide RoomAfter;
    if RoomAfter(front + [header]).Err? { HeaderStops(all, |front| + 1); }
  }

  lemma VariablesUsed(lines: seq<Line>)
    ensures forall x :: x in VariablesOf(lines) <==> Uses(ClausesOf(lines), x)
  {
  }

  // ---- What the count check accepts ----

  predicate NoHeader(lines: seq<Line>) {
    forall i :: 0 <= i < |lines| ==> !lines[i].Header?
  }

  // The capacity of a vector that reserved n places and was pushed to `count` times.
  function Capacity(n: nat, count: nat): (r: nat)
    ensures r >= count && r >= n
  {
    if count <= n then n else Pushed(count - 1, Capacity(n, count - 1))
  }

  function Doubled(n: nat, k: nat): nat {
    if k == 0 then n else 2 * Doubled(n, k - 1)
  }

  predicate GoodHeader(header: Line) {
    header.Header? && header.keyword == "p" && header.format == "cnf" && header.variables >= 0 && header.clauses >= 0
  }

  // Lines without a header leave the literals' capacity at zero and only push clauses.
  lemma {:induction false} RoomWithoutHeader(lines: seq<Line>)
    requires NoHeader(lines)
    ensures RoomAfter(lines) == Ok(Room(0, Capacity(0, |ClausesOf(lines)|)))
  {
    hide ClauseOf;
    if lines == [] {
    } else {
      var body, line := lines[..|lines| - 1], lines[|lines| - 1];
      assert lines == body + [line];
      RoomWithoutHeader(body);
      RoomOfLine(body, line, 0, 0);
    }
  }

  // One more line, which is not a header.
  lemma RoomOfLine(lines: seq<Line>, line: Line, n: nat, vars: nat)
    requires !line.Header? && RoomAfter(lines) == Ok(Room(vars, Capacity(n, |ClausesOf(lines)|)))
    ensures RoomAfter(lines + [line]) == Ok(Room(vars, Capacity(n, |ClausesOf(lines + [line])|)))
    ensures ClausesOf(lines + [line]) == ClausesOf(lines) + (if ClauseOn(line) == [] then [] else [ClauseOn(line)])
  {
    hide ClauseOf;
    assert (lines + [line])[..|lines|] == lines;
  }

  // The room never falls short of what was read, and is none only if nothing was read and
  // no header asked for any.
  lemma {:induction false} RoomHolds(lines: seq<Line>)
    requires RoomAfter(lines).Ok?
    ensures RoomAfter(lines).value.clauses >= |ClausesOf(lines)|
    ensures RoomAfter(lines).value.clauses > 0 <==> ClausesOf(lines) != [] || DeclaresClauses(lines)
  {
    hide ClauseOf;
    if lines == [] {
    } else {
      var body, line := lines[..|lines| - 1], lines[|lines| - 1];
      RoomHolds(body);
      DeclaresMore(body, line);
      assert lines == body + [line];
    }
  }

  ghost predicate DeclaresClauses(lines: seq<Line>) {
    exists i :: 0 <= i < |lines| && lines[i].Header? && lines[i].clauses > 0
  }

  lemma DeclaresMore(lines: seq<Line>, line: Line)
    ensures DeclaresClauses(lines + [line]) <==> DeclaresClauses(lines) || (line.Header? && line.clauses > 0)
  {
    var all := lines + [line];
    assert all[|lines|] == line;
    if i: nat :| i < |lines| && lines[i].Header? && lines[i].clauses > 0 { assert all[i] == lines[i]; }
  }

  lemma {:induction false} RoomOfBody(front: seq<Line>, vars: nat, header: Line, lines: seq<Line>)
    requires RoomAfter(front) == Ok(Room(vars, 0)) && GoodHeader(header) && NoHeader(lines)
    ensures ClausesOf(front + [header] + lines) == ClausesOf(lines)
    ensures RoomAfter(front + [header] + lines) ==
      Ok(Room(Max(vars, header.variables), Capacity(header.clauses, |ClausesOf(lines)|)))
  {
    hide ClauseOf, Capacity;
    if lines == [] {
      assert front + [header] + lines == front + [header];
      RoomOfHeader(front, vars, header);
      NothingPushed(header.clauses);
    } else {
      var body, line := lines[..|lines| - 1], lines[|lines| - 1];
      assert front + [header] + lines == (front + [header] + body) + [line];
      RoomOfBody(front, vars, header, body);
      RoomOfLine(front + [header] + body, line, header.clauses, Max(vars, header.variables));
    }
  }

  lemma RoomOfHeader(front: seq<Line>, vars: nat, header: Line)
    requires RoomAfter(front) == Ok(Room(vars, 0)) && GoodHeader(header)
    ensures ClausesOf(front + [header]) == []
    ensures RoomAfter(front + [header]) == Ok(Room(Max(vars, header.variables), header.clauses))
  {
    RoomHolds(front);
    assert (front + [header])[..|front|] == front;
  }

  lemma NothingPushed(n: nat)
    ensures Capacity(n, 0) == n
  {
  }

  // Between a full vector and twice its size the capacity stands still.
  lemma {:induction false} CapacityPlateau(n: nat, full: nat, count: nat)
    requires full >= 1 && full >= n && Capacity(n, full) == full && full < count <= 2 * full
    ensures Capacity(n, count) == 2 * full
  {
    if count <= full + 1 {
    } else {
      CapacityPlateau(n, full, count - 1);
    }
  }

  lemma {:induction false} FullIsDoubled(n: nat, full: nat, count: nat) returns (k: nat)
    requires full >= 1 && full >= n && Capacity(n, full) == full <= count && Capacity(n, count) == count
    ensures count == Doubled(full, k)
    decreases count - full
  {
    if count == full {
      k := 0;
    } else {
      if count < 2 * full { CapacityPlateau(n, full, count); }
      CapacityPlateau(n, full, 2 * full);
      k := FullIsDoubled(n, 2 * full, count);
      DoubledShift(full, k);
      k := k + 1;
    }
  }

  lemma {:induction false} DoubledShift(n: nat, k: nat)
    ensures Doubled(2 * n, k) == Doubled(n, k + 1)
  {
    if k == 0 {
    } else {
      DoubledShift(n, k - 1);
    }
  }

  lemma {:induction false} DoubledIsFull(n: nat, full: nat, k: nat)
    requires full >= 1 && full >= n && Capacity(n, full) == full
    ensures Doubled(full, k) >= full && Capacity(n, Doubled(full, k)) == Doubled(full, k)
  {
    if k == 0 {
    } else {
      DoubledIsFull(n, full, k - 1);
      CapacityPlateau(n, Doubled(full, k - 1), Doubled(full, k));
    }
  }

  lemma {:induction false} DoubledIsPower(n: nat, k: nat)
    ensures Doubled(n, k) == n * TwoTo(k)
  {
    if k == 0 {
    } else {
      DoubledIsPower(n, k - 1);
    }
  }

  ghost predicate IsDoubling(n: nat, count: nat) {
    exists k :: count == n * TwoTo(k)
  }

  // The counts a header may declare for this many clauses to be accepted under it.
  ghost predicate CountPasses(declared: nat, count: nat) {
    count == declared || IsDoubling(if declared == 0 then 1 else declared, count)
  }

  lemma CapacityPasses(declared: nat, count: nat)
    ensures Capacity(declared, count) == count <==> CountPasses(declared, count)
  {
    var full := if declared == 0 then 1 else declared;
    assert Capacity(declared, full) == full;
    if Capacity(declared, count) == count && count != declared {
      var k := FullIsDoubled(declared, full, count);
      DoubledIsPower(full, k);
    }
    if k: nat :| count == full * TwoTo(k) {
      DoubledIsPower(full, k);
      DoubledIsFull(declared, full, k);
    }
  }

  // A file whose last header the reader gets past is read exactly when it uses as many
  // variables as the largest count declared, and as many clauses as the last header declares
  // or that number doubled any number of times; a declared zero doubles from one.
  lemma CountCheck(front: seq<Line>, vars: nat, header: Line, lines: seq<Line>)
    requires RoomAfter(front) == Ok(Room(vars, 0)) && GoodHeader(header) && NoHeader(lines)
    ensures Accepted(front + [header] + lines) <==>
      && |VariablesOf(front + [header] + lines)| == Max(vars, header.variables)
      && CountPasses(header.clauses, |ClausesOf(lines)|)
  {
    RoomOfBody(front, vars, header, lines);
    CapacityPasses(header.clauses, |ClausesOf(lines)|);
  }

  // A header is refused as a second one exactly after a clause or after a header that
  // declares clauses, and then whatever follows.
  lemma HeaderRefused(front: seq<Line>, header: Line, lines: seq<Line>)
    requires RoomAfter(front).Ok? && header.Header?
    ensures RoomAfter(front + [header]) == Err(HeaderTwice) <==> ClausesOf(front) != [] || DeclaresClauses(front)
    ensures ClausesOf(front) != [] || DeclaresClauses(front) ==> RoomAfter(front + [header] + lines) == Err(HeaderTwice)
  {
    var all := front + [header] + lines;
    RoomHolds(front);
    assert (front + [header])[..|front|] == front;
    assert all[..|front| + 1] == front + [header];
    if ClausesOf(front) != [] || DeclaresClauses(front) { HeaderStops(all, |front| + 1); }
  }

  // Without a header only a file without clauses is read.
  lemma HeaderNeeded(lines: seq<Line>)
    requires NoHeader(lines)
    ensures Accepted(lines) <==> ClausesOf(lines) == []
  {
    RoomWithoutHeader(lines);
    ClausesNonempty(lines);
    var clauses: seq<seq<Literal>> := ClausesOf(lines);
    if clauses == [] {
      assert VariablesOf(lines) == {};
    } else {
      assert clauses[0][0].Value() in VariablesOf(lines);
    }
  }

  lemma {:induction false} ClausesNonempty(lines: seq<Line>)
    ensures forall i :: 0 <= i < |ClausesOf(lines)| ==> ClausesOf(lines)[i] != []
  {
    if lines == [] {
    } else {
      ClausesNonempty(lines[..|lines| - 1]);
    }
  }

  const ONE_AND_NOT_ONE := [Data([Number(1), Number(0)]), Data([Number(-1), Number(0)])]

  lemma OneAndNotOne()
    ensures ClausesOf(ONE_AND_NOT_ONE) == [[Literal(1)], [Literal(-1)]]
  {
    var one, two := ONE_AND_NOT_ONE[0], ONE_AND_NOT_ONE[1];
    assert one.tokens[1..] == [Number(0)] && two.tokens[1..] == [Number(0)];
    assert ClauseOf(one.tokens) == [Literal(1)] && ClauseOf(two.tokens) == [Literal(-1)];
    assert ONE_AND_NOT_ONE[..1] == [one] && [one][..0] == [];
    assert ClausesOf([one]) == [[Literal(1)]];
  }

  // Two clauses pass under a header that declares one.
  lemma TooManyClausesAccepted()
    ensures Accepted([Header("p", "cnf", 1, 1)] + ONE_AND_NOT_ONE)
  {
    var header := Header("p", "cnf", 1, 1);
    OneAndNotOne();
    RoomOfBody([], 0, header, ONE_AND_NOT_ONE);
    hide ClausesOf, RoomAfter;
    var all := [header] + ONE_AND_NOT_ONE;
    assert [] + [header] + ONE_AND_NOT_ONE == all;
    assert Literal(1).Value() == 1 && Literal(-1).Value() == 1;
    assert ClausesOf(all)[0][0].Value() == 1;
    assert VariablesOf(all) == {1};
    assert 1 * TwoTo(1) == 2;
    CountCheck([], 0, header, ONE_AND_NOT_ONE);
  }

  const UNIT := [Data([Number(1), Number(0)])]

  lemma UnitFile()
    ensures ClausesOf(UNIT) == [[Literal(1)]]
  {
    var line := UNIT[0];
    assert line.tokens[1..] == [Number(0)];
    assert ClauseOf(line.tokens) == [Literal(1)];
    assert UNIT[..0] == [];
  }

  // Two headers pass when the first declares no clauses.
  lemma TwoHeadersAccepted()
    ensures Accepted([Header("p", "cnf", 1, 0)] + [Header("p", "cnf", 1, 1)] + UNIT)
  {
    var first, second := Header("p", "cnf", 1, 0), Header("p", "cnf", 1, 1);
    assert [first][..0] == [];
    assert RoomAfter([first]) == Ok(Room(1, 0));
    UnitFile();
    RoomOfBody([first], 1, second, UNIT);
    hide ClausesOf, RoomAfter;
    var all := [first] + [second] + UNIT;
    assert Literal(1).Value() == 1;
    assert ClausesOf(all)[0][0].Value() == 1;
    assert VariablesOf(all) == {1};
    CountCheck([first], 1, second, UNIT);
  }
}
