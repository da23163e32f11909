/**
 * Attributing dependencies to sources when one query may name many of them.
 *
 * A query for several sources returns rows that do not say whose they are. A non-empty answer is therefore only a
 * reason to ask again about each half, until single sources are left.
 */
module FallbackBisection {
  import opened FallbackBatches
  import opened Outcomes
  import opened Texts

  datatype Fault = QueryFailed | MalformedRow | UnknownSource | UnknownTarget | TypeClash

  /** A field of a queried row. */
  datatype Field = Absent | NotText | Given(t: Text)

  datatype Row =
    | NotRecord
    | Row(issueId: Field, dependsOnId: Field, id: Field, kind: Field, dependencyType: Field)

  datatype Edge = Edge(source: Text, target: Text, kind: Text)

  const BLOCKS: Text := [98, 108, 111, 99, 107, 115]

  /** What a query for the given sources returns at a time, counted in queries, or why it fails. */
  type Oracle = (nat, seq<Text>) -> Result<seq<Row>, Fault>

  /** The live Beads, the external identifiers, and the Type identity of each kind of dependency. */
  datatype Scope = Scope(isLive: Text -> bool, isExternal: Text -> bool, typeOf: Text -> Text)

  /** The value all given aliases agree on. */
  function ConsistentAlias(fields: seq<Field>): Result<Option<Text>, Fault> {
    if fields == [] then
      Ok(None)
    else
      var n := |fields| - 1;
      var observed := ConsistentAlias(fields[..n]);
      if observed.Err? || fields[n].Absent? then
        observed
      else if fields[n].NotText? || fields[n].t == [] then
        Err(MalformedRow)
      else if observed.value.Some? && observed.value.value != fields[n].t then
        Err(MalformedRow)
      else
        Ok(Some(fields[n].t))
  }

  /** The dependency a row states about its source. */
  function Normalize(row: Row, source: Text): Result<Edge, Fault> {
    if row.NotRecord? then
      Err(MalformedRow)
    else
      var observed := ConsistentAlias([row.issueId]);
      var target := ConsistentAlias([row.dependsOnId, row.id]);
      var kind := ConsistentAlias([row.kind, row.dependencyType]);
      if observed.Err? || (observed.value.Some? && observed.value.value != source) then Err(MalformedRow)
      else if target.Err? || target.value.None? then Err(MalformedRow)
      else if kind.Err? then Err(MalformedRow)
      else Ok(Edge(source, target.value.value, if kind.value.Some? then kind.value.value else BLOCKS))
  }

  // What a row states, from its fields alone

  /** A field that may stand beside the others: absent, or a text that is not empty. */
  predicate IsReadable(f: Field) {
    f.Absent? || (f.Given? && f.t != [])
  }

  /** The row states the dependency about its source. */
  predicate States(row: Row, source: Text, e: Edge) {
    && row.Row?
    && IsReadable(row.issueId) && IsReadable(row.dependsOnId) && IsReadable(row.id)
    && IsReadable(row.kind) && IsReadable(row.dependencyType)
    && e.source == source && (row.issueId.Given? ==> row.issueId.t == source)
    && (row.dependsOnId.Given? || row.id.Given?)
    && (row.dependsOnId.Given? ==> row.dependsOnId.t == e.target)
    && (row.id.Given? ==> row.id.t == e.target)
    && (row.kind.Given? ==> row.kind.t == e.kind)
    && (row.dependencyType.Given? ==> row.dependencyType.t == e.kind)
    && (!row.kind.Given? && !row.dependencyType.Given? ==> e.kind == BLOCKS)
  }

  lemma OneAlias(f: Field)
    ensures var r := ConsistentAlias([f]);
            if IsReadable(f) then r == Ok(if f.Given? then Some(f.t) else None) else r == Err(MalformedRow)
  {
    assert [f][..0] == [];
    assert ConsistentAlias([]) == Ok(None);
  }

  lemma TwoAliases(f: Field, g: Field)
    ensures var r := ConsistentAlias([f, g]);
            if IsReadable(f) && IsReadable(g) && (f.Given? && g.Given? ==> f.t == g.t)
            then r == Ok(if f.Given? then Some(f.t) else if g.Given? then Some(g.t) else None)
            else r == Err(MalformedRow)
  {
    OneAlias(f);
    assert [f, g][..1] == [f];
  }

  /** A row is read exactly as what it states; a row that states nothing is refused. */
  lemma NormalizeIsExact(row: Row, source: Text, e: Edge)
    ensures Normalize(row, source) == Ok(e) <==> States(row, source, e)
    ensures Normalize(row, source).Err? ==> Normalize(row, source) == Err(MalformedRow)
  {
    hide ConsistentAlias;
    if row.Row? {
      OneAlias(row.issueId);
      TwoAliases(row.dependsOnId, row.id);
      TwoAliases(row.kind, row.dependencyType);
    }
  }

  /** The projected dependencies: a set for recognition, the Links in order, and which Types describe Links. */
  datatype View = View(projected: set<Edge>, links: seq<Edge>, describesLink: map<Text, bool>)

  predicate Acceptable(scope: Scope, types: map<Text, bool>, e: Edge) {
    && scope.isLive(e.source)
    && (scope.isLive(e.target) || scope.isExternal(e.target))
    && (scope.typeOf(e.kind) in types ==> types[scope.typeOf(e.kind)])
  }

  function Project(scope: Scope, v: View, e: Edge): Result<View, Fault> {
    if e in v.projected then Ok(v)
    else if !scope.isLive(e.source) then Err(UnknownSource)
    else if !scope.isLive(e.target) && !scope.isExternal(e.target) then Err(UnknownTarget)
    else
      var t := scope.typeOf(e.kind);
      if t in v.describesLink && !v.describesLink[t] then Err(TypeClash)
      else Ok(View(v.projected + {e}, v.links + [e], v.describesLink[t := true]))
  }

  function ProjectRows(scope: Scope, v: View, source: Text, rows: seq<Row>): (View, Option<Fault>)
    decreases rows
  {
    if rows == [] then
      (v, None)
    else
      match Normalize(rows[0], source)
      case Err(fault) => (v, Some(fault))
      case Ok(e) =>
        match Project(scope, v, e)
        case Err(fault) => (v, Some(fault))
        case Ok(next) => ProjectRows(scope, next, source, rows[1..])
  }

  datatype Run = Run(view: View, calls: nat, fault: Option<Fault>)

  /** The recursive bisection of one batch from a time on, and how many queries it makes. */
  function Bisect(ask: Oracle, time: nat, scope: Scope, v: View, sources: seq<Text>): Run
    requires sources != []
    decreases |sources|
  {
    match ask(time, sources)
    case Err(fault) => Run(v, 1, Some(fault))
    case Ok(rows) =>
      if rows == [] then
        Run(v, 1, None)
      else if |sources| == 1 then
        var (next, fault) := ProjectRows(scope, v, sources[0], rows);
        Run(next, 1, fault)
      else
        var middle := |sources| / 2;
        var left := Bisect(ask, time + 1, scope, v, sources[..middle]);
        if left.fault.Some? then
          Run(left.view, 1 + left.calls, left.fault)
        else
          var right := Bisect(ask, time + 1 + left.calls, scope, left.view, sources[middle..]);
          Run(right.view, 1 + left.calls + right.calls, right.fault)
  }

  // What bisection reads

  datatype Reading = Reading(source: Text, row: Row)

  function Readings(source: Text, rows: seq<Row>): (r: seq<Reading>)
    ensures |r| == |rows|
  {
    if rows == [] then [] else [Reading(source, rows[0])] + Readings(source, rows[1..])
  }

  function Answer(ask: Oracle, time: nat, sources: seq<Text>): seq<Row> {
    match ask(time, sources)
    case Ok(rows) => rows
    case Err(_) => []
  }

  /** The query splits the batch. */
  predicate Splits(ask: Oracle, time: nat, sources: seq<Text>) {
    |sources| > 1 && Answer(ask, time, sources) != []
  }

  /** The queries a batch takes when nothing fails. */
  function Cost(ask: Oracle, time: nat, sources: seq<Text>): nat
    decreases |sources|
  {
    if !Splits(ask, time, sources) then
      1
    else
      var left := Cost(ask, time + 1, sources[..|sources| / 2]);
      1 + left + Cost(ask, time + 1 + left, sources[|sources| / 2..])
  }

  /** When the second half of a batch is asked for. */
  function Later(ask: Oracle, time: nat, sources: seq<Text>): nat {
    time + 1 + Cost(ask, time + 1, sources[..|sources| / 2])
  }

  /** When the query is made that decides about each source: for it alone, or the last one for it among others. */
  function Moments(ask: Oracle, time: nat, sources: seq<Text>): (r: seq<nat>)
    ensures |r| == |sources|
    decreases |sources|
  {
    if !Splits(ask, time, sources) then
      seq(|sources|, _ => time)
    else
      Moments(ask, time + 1, sources[..|sources| / 2])
      + Moments(ask, Later(ask, time, sources), sources[|sources| / 2..])
  }

  /** The dependencies of each source, asked for alone at a moment of its own. */
  function PerSource(ask: Oracle, moments: seq<nat>, sources: seq<Text>): seq<Reading>
    requires |moments| == |sources|
  {
    if sources == [] then []
    else Readings(sources[0], Answer(ask, moments[0], [sources[0]])) + PerSource(ask, moments[1..], sources[1..])
  }

  /** The rows bisection attributes. */
  function Collected(ask: Oracle, time: nat, sources: seq<Text>): seq<Reading>
    decreases |sources|
  {
    if sources == [] || Answer(ask, time, sources) == [] then
      []
    else if |sources| == 1 then
      Readings(sources[0], Answer(ask, time, sources))
    else
      Collected(ask, time + 1, sources[..|sources| / 2])
      + Collected(ask, Later(ask, time, sources), sources[|sources| / 2..])
  }

  /** Every query bisection makes is answered. */
  predicate AllAnswered(ask: Oracle, time: nat, sources: seq<Text>)
    decreases |sources|
  {
    && ask(time, sources).Ok?
    && (Splits(ask, time, sources) ==>
          && AllAnswered(ask, time + 1, sources[..|sources| / 2])
          && AllAnswered(ask, Later(ask, time, sources), sources[|sources| / 2..]))
  }

  /** Every empty answer bisection sees is, at its time, empty for each source it was asked about. */
  predicate Honest(ask: Oracle, time: nat, sources: seq<Text>)
    decreases |sources|
  {
    if sources == [] then
      true
    else if Answer(ask, time, sources) == [] then
      forall i :: 0 <= i < |sources| ==> Answer(ask, time, [sources[i]]) == []
    else
      |sources| > 1 ==>
        && Honest(ask, time + 1, sources[..|sources| / 2])
        && Honest(ask, Later(ask, time, sources), sources[|sources| / 2..])
  }

  lemma {:induction false} PerSourceConcatenates(ask: Oracle, l: seq<nat>, m: seq<nat>, a: seq<Text>, b: seq<Text>)
    requires |l| == |a| && |m| == |b|
    ensures PerSource(ask, l + m, a + b) == PerSource(ask, l, a) + PerSource(ask, m, b)
  {
    hide Readings, Answer;
    if a == [] {
      assert a + b == b && l + m == m;
    } else {
      assert (a + b)[0] == a[0] && (a + b)[1..] == a[1..] + b;
      assert (l + m)[0] == l[0] && (l + m)[1..] == l[1..] + m;
      PerSourceConcatenates(ask, l[1..], m, a[1..], b);
    }
  }

  lemma {:induction false} PerSourceIsEmpty(ask: Oracle, moments: seq<nat>, sources: seq<Text>)
    requires |moments| == |sources|
    ensures |PerSource(ask, moments, sources)| == 0 <==>
              forall i :: 0 <= i < |sources| ==> Answer(ask, moments[i], [sources[i]]) == []
  {
    hide Answer;
    if sources != [] {
      PerSourceIsEmpty(ask, moments[1..], sources[1..]);
      assert forall i :: 0 < i < |sources| ==> sources[i] == sources[1..][i - 1] && moments[i] == moments[1..][i - 1];
      assert forall i :: 0 <= i < |sources| - 1 ==>
               sources[1..][i] == sources[i + 1] && moments[1..][i] == moments[i + 1];
    }
  }

  /** Of a steady oracle the moments do not matter: it says of each source what it always says of it. */
  lemma {:induction false} SteadyMoments(ask: Oracle, l: seq<nat>, m: seq<nat>, sources: seq<Text>)
    requires forall s, t, u :: ask(t, s) == ask(u, s)
    requires |l| == |m| == |sources|
    ensures PerSource(ask, l, sources) == PerSource(ask, m, sources)
  {
    hide Readings;
    if sources != [] {
      SteadyMoments(ask, l[1..], m[1..], sources[1..]);
      assert ask(l[0], [sources[0]]) == ask(m[0], [sources[0]]);
    }
  }

  /**
   * Bisection never invents rows: it gives each source the rows it has alone at the moment of the query that decided
   * about it, and misses none of these exactly when the empty answers can be believed.
   */
  lemma {:induction false} CollectedIsPerSource(ask: Oracle, time: nat, sources: seq<Text>)
    ensures |Collected(ask, time, sources)| <= |PerSource(ask, Moments(ask, time, sources), sources)|
    ensures Collected(ask, time, sources) == PerSource(ask, Moments(ask, time, sources), sources)
       <==> Honest(ask, time, sources)
    decreases |sources|
  {
    hide Answer, Readings, Later;
    PerSourceIsEmpty(ask, Moments(ask, time, sources), sources);
    if sources != [] && Answer(ask, time, sources) != [] {
      if |sources| == 1 {
        assert sources == [sources[0]] && sources[1..] == [];
      } else {
        var a, b := sources[..|sources| / 2], sources[|sources| / 2..];
        var later := Later(ask, time, sources);
        assert sources == a + b;
        CollectedIsPerSource(ask, time + 1, a);
        CollectedIsPerSource(ask, later, b);
        PerSourceConcatenates(ask, Moments(ask, time + 1, a), Moments(ask, later, b), a, b);
        SplitEquality(Collected(ask, time + 1, a), Collected(ask, later, b),
                      PerSource(ask, Moments(ask, time + 1, a), a), PerSource(ask, Moments(ask, later, b), b));
      }
    }
  }

  lemma SplitEquality<T>(a: seq<T>, b: seq<T>, c: seq<T>, d: seq<T>)
    requires |a| <= |c| && |b| <= |d|
    ensures a + b == c + d <==> a == c && b == d
  {
    if a + b == c + d {
      assert |a| == |c|;
      assert a == (a + b)[..|a|] && c == (c + d)[..|c|];
      assert b == (a + b)[|a|..] && d == (c + d)[|c|..];
    }
  }

  /** One query that stays silent about a dependency loses it: two sources, one of them with a row of its own. */
  lemma SilenceLosesDependencies(a: Text, b: Text, row: Row, moments: seq<nat>)
    requires |moments| == 2
    ensures var ask: Oracle := (time: nat, sources: seq<Text>) => if |sources| == 1 then Ok([row]) else Ok([]);
            AllAnswered(ask, 0, [a, b]) && Collected(ask, 0, [a, b]) == [] && PerSource(ask, moments, [a, b]) != []
  {
  }

  // What bisection projects

  function ProjectAll(scope: Scope, v: View, readings: seq<Reading>): (View, Option<Fault>)
    decreases readings
  {
    if readings == [] then
      (v, None)
    else
      match Normalize(readings[0].row, readings[0].source)
      case Err(fault) => (v, Some(fault))
      case Ok(e) =>
        match Project(scope, v, e)
        case Err(fault) => (v, Some(fault))
        case Ok(next) => ProjectAll(scope, next, readings[1..])
  }

  lemma {:induction false} ProjectRowsReads(scope: Scope, v: View, source: Text, rows: seq<Row>)
    ensures ProjectRows(scope, v, source, rows) == ProjectAll(scope, v, Readings(source, rows))
    decreases rows
  {
    hide Normalize, Project;
    if rows != [] {
      var e := Normalize(rows[0], source);
      if e.Ok? && Project(scope, v, e.value).Ok? {
        ProjectRowsReads(scope, Project(scope, v, e.value).value, source, rows[1..]);
      }
    }
  }

  lemma {:induction false} ProjectAllConcatenates(scope: Scope, v: View, a: seq<Reading>, b: seq<Reading>)
    ensures var (middle, fault) := ProjectAll(scope, v, a);
            ProjectAll(scope, v, a + b) == if fault.Some? then (middle, fault) else ProjectAll(scope, middle, b)
    decreases a
  {
    hide Normalize, Project;
    if a == [] {
      assert a + b == b;
    } else {
      assert (a + b)[0] == a[0] && (a + b)[1..] == a[1..] + b;
      var e := Normalize(a[0].row, a[0].source);
      if e.Ok? && Project(scope, v, e.value).Ok? {
        ProjectAllConcatenates(scope, Project(scope, v, e.value).value, a[1..], b);
      }
    }
  }

  lemma SplitStep(ask: Oracle, time: nat, sources: seq<Text>)
    requires Splits(ask, time, sources)
    ensures var (a, b) := (sources[..|sources| / 2], sources[|sources| / 2..]);
            && (AllAnswered(ask, time, sources) <==>
                  AllAnswered(ask, time + 1, a) && AllAnswered(ask, Later(ask, time, sources), b))
            && Collected(ask, time, sources)
               == Collected(ask, time + 1, a) + Collected(ask, Later(ask, time, sources), b)
            && Cost(ask, time, sources) == 1 + Cost(ask, time + 1, a) + Cost(ask, Later(ask, time, sources), b)
            && Later(ask, time, sources) == time + 1 + Cost(ask, time + 1, a)
  {
  }

  lemma BisectStep(ask: Oracle, time: nat, scope: Scope, v: View, sources: seq<Text>)
    requires Splits(ask, time, sources)
    ensures var (a, b) := (sources[..|sources| / 2], sources[|sources| / 2..]);
            var left := Bisect(ask, time + 1, scope, v, a);
            Bisect(ask, time, scope, v, sources)
            == (if left.fault.Some? then Run(left.view, 1 + left.calls, left.fault) else
                var right := Bisect(ask, time + 1 + left.calls, scope, left.view, b);
                Run(right.view, 1 + left.calls + right.calls, right.fault))
  {
    hide ProjectRows;
  }

  lemma BisectEnds(ask: Oracle, time: nat, scope: Scope, v: View, sources: seq<Text>)
    requires sources != [] && !Splits(ask, time, sources)
    ensures var (next, fault) := ProjectRows(scope, v, sources[0], Answer(ask, time, sources));
            Bisect(ask, time, scope, v, sources)
            == if ask(time, sources).Err? then Run(v, 1, Some(ask(time, sources).error)) else Run(next, 1, fault)
  {
  }

  /** A batch that is not split. */
  lemma WholeBatch(ask: Oracle, time: nat, scope: Scope, v: View, sources: seq<Text>)
    requires sources != [] && !Splits(ask, time, sources)
    ensures var run := Bisect(ask, time, scope, v, sources);
            var (view, fault) := ProjectAll(scope, v, Collected(ask, time, sources));
            && (run.fault.None? <==> AllAnswered(ask, time, sources) && fault.None?)
            && (run.fault.None? ==> run.view == view && run.calls == Cost(ask, time, sources))
  {
    hide ProjectAll, ProjectRows, Readings;
    ProjectNothing(scope, v);
    if ask(time, sources).Ok? && |sources| == 1 {
      ProjectRowsReads(scope, v, sources[0], ask(time, sources).value);
    }
  }

  /** A batch succeeds exactly when its queries are answered and its rows can be projected; then it projects them. */
  lemma {:induction false} BisectionProjectsItsReadings(ask: Oracle, time: nat, scope: Scope, v: View,
                                                        sources: seq<Text>)
    requires sources != []
    ensures var run := Bisect(ask, time, scope, v, sources);
            var (view, fault) := ProjectAll(scope, v, Collected(ask, time, sources));
            && (run.fault.None? <==> AllAnswered(ask, time, sources) && fault.None?)
            && (run.fault.None? ==> run.view == view && run.calls == Cost(ask, time, sources))
    decreases |sources|
  {
    hide ProjectAll, Bisect, Collected, AllAnswered, Cost, Later, Answer;
    if Splits(ask, time, sources) {
      var a, b := sources[..|sources| / 2], sources[|sources| / 2..];
      var left := Bisect(ask, time + 1, scope, v, a);
      SplitStep(ask, time, sources);
      BisectStep(ask, time, scope, v, sources);
      BisectionProjectsItsReadings(ask, time + 1, scope, v, a);
      BisectionProjectsItsReadings(ask, time + 1 + left.calls, scope, left.view, b);
      ProjectAllConcatenates(scope, v, Collected(ask, time + 1, a), Collected(ask, Later(ask, time, sources), b));
      var whole := ProjectAll(scope, v, Collected(ask, time, sources));
      var part := ProjectAll(scope, v, Collected(ask, time + 1, a));
      if left.fault.None? {
        assert part == (left.view, None);
        assert whole == ProjectAll(scope, left.view, Collected(ask, Later(ask, time, sources), b));
      } else {
        assert part.1.Some? || !AllAnswered(ask, time + 1, a);
      }
    } else {
      WholeBatch(ask, time, scope, v, sources);
    }
  }

  lemma NoRowsProjected(scope: Scope, v: View, source: Text)
    ensures ProjectRows(scope, v, source, []) == (v, None)
  {
  }

  lemma ProjectNothing(scope: Scope, v: View)
    ensures ProjectAll(scope, v, []) == (v, None)
  {
  }

  /** A batch of `n` sources costs at most `2n - 1` queries, however the answers change in between. */
  lemma {:induction false} BisectionIsLinear(ask: Oracle, time: nat, scope: Scope, v: View, sources: seq<Text>)
    requires sources != []
    ensures 1 <= Bisect(ask, time, scope, v, sources).calls <= 2 * |sources| - 1
    decreases |sources|
  {
    hide ProjectRows;
    if ask(time, sources).Ok? && ask(time, sources).value != [] && |sources| > 1 {
      var a, b := sources[..|sources| / 2], sources[|sources| / 2..];
      var left := Bisect(ask, time + 1, scope, v, a);
      BisectionIsLinear(ask, time + 1, scope, v, a);
      BisectionIsLinear(ask, time + 1 + left.calls, scope, left.view, b);
    }
  }

  // The batches of one snapshot

  function BisectAll(ask: Oracle, time: nat, scope: Scope, v: View, batches: seq<seq<Text>>): Run
    requires forall k :: 0 <= k < |batches| ==> batches[k] != []
    decreases batches
  {
    if batches == [] then
      Run(v, 0, None)
    else
      var first := Bisect(ask, time, scope, v, batches[0]);
      if first.fault.Some? then
        first
      else
        var rest := BisectAll(ask, time + first.calls, scope, first.view, batches[1..]);
        Run(rest.view, first.calls + rest.calls, rest.fault)
  }

  /** The rows bisection attributes in the batches one after another. */
  function CollectedAll(ask: Oracle, time: nat, batches: seq<seq<Text>>): seq<Reading>
    decreases batches
  {
    if batches == [] then []
    else Collected(ask, time, batches[0]) + CollectedAll(ask, time + Cost(ask, time, batches[0]), batches[1..])
  }

  function MomentsAll(ask: Oracle, time: nat, batches: seq<seq<Text>>): (r: seq<nat>)
    ensures |r| == |Concatenation(batches)|
    decreases batches
  {
    if batches == [] then []
    else Moments(ask, time, batches[0]) + MomentsAll(ask, time + Cost(ask, time, batches[0]), batches[1..])
  }

  predicate AllBatchesAnswered(ask: Oracle, time: nat, batches: seq<seq<Text>>)
    decreases batches
  {
    batches != [] ==>
      && AllAnswered(ask, time, batches[0])
      && AllBatchesAnswered(ask, time + Cost(ask, time, batches[0]), batches[1..])
  }

  predicate AllBatchesHonest(ask: Oracle, time: nat, batches: seq<seq<Text>>)
    decreases batches
  {
    batches != [] ==>
      && Honest(ask, time, batches[0])
      && AllBatchesHonest(ask, time + Cost(ask, time, batches[0]), batches[1..])
  }

  /** All batches succeed exactly when their queries are answered and their rows can be projected one after another. */
  lemma {:induction false} BatchesProjectTheirReadings(ask: Oracle, time: nat, scope: Scope, v: View,
                                                       batches: seq<seq<Text>>)
    requires forall k :: 0 <= k < |batches| ==> batches[k] != []
    ensures var run := BisectAll(ask, time, scope, v, batches);
            var (view, fault) := ProjectAll(scope, v, CollectedAll(ask, time, batches));
            && (run.fault.None? <==> AllBatchesAnswered(ask, time, batches) && fault.None?)
            && (run.fault.None? ==> run.view == view)
            && run.calls <= 2 * |Concatenation(batches)|
    decreases batches
  {
    hide ProjectAll, Bisect, Collected, AllAnswered, Honest, Cost;
    ProjectNothing(scope, v);
    if batches != [] {
      var first := Bisect(ask, time, scope, v, batches[0]);
      var later := time + Cost(ask, time, batches[0]);
      BisectionProjectsItsReadings(ask, time, scope, v, batches[0]);
      BisectionIsLinear(ask, time, scope, v, batches[0]);
      BatchesProjectTheirReadings(ask, time + first.calls, scope, first.view, batches[1..]);
      ProjectAllConcatenates(scope, v, Collected(ask, time, batches[0]), CollectedAll(ask, later, batches[1..]));
      var part := ProjectAll(scope, v, Collected(ask, time, batches[0]));
      assert ProjectAll(scope, v, CollectedAll(ask, time, batches))
          == if part.1.Some? then part else ProjectAll(scope, part.0, CollectedAll(ask, later, batches[1..]));
      assert first.fault.None? ==> part == (first.view, None) && time + first.calls == later;
    }
  }

  /** However the sources are cut, each source gets its own rows exactly when all empty answers can be believed. */
  lemma {:induction false} BatchesArePerSource(ask: Oracle, time: nat, batches: seq<seq<Text>>)
    ensures var own := PerSource(ask, MomentsAll(ask, time, batches), Concatenation(batches));
            && |CollectedAll(ask, time, batches)| <= |own|
            && (CollectedAll(ask, time, batches) == own <==> AllBatchesHonest(ask, time, batches))
    decreases batches
  {
    hide Collected, PerSource, Honest, Cost, Moments;
    if batches == [] {
      assert PerSource(ask, [], []) == [] by { PerSourceIsEmpty(ask, [], []); }
    } else {
      var first, rest := batches[0], Concatenation(batches[1..]);
      var later := time + Cost(ask, time, first);
      var l, m := Moments(ask, time, first), MomentsAll(ask, later, batches[1..]);
      CollectedIsPerSource(ask, time, first);
      BatchesArePerSource(ask, later, batches[1..]);
      PerSourceConcatenates(ask, l, m, first, rest);
      SplitEquality(Collected(ask, time, first), CollectedAll(ask, later, batches[1..]),
                    PerSource(ask, l, first), PerSource(ask, m, rest));
    }
  }

  // What a projection contains

  /** The edges not seen before, each where it first occurs. */
  function Fresh(edges: seq<Edge>, seen: set<Edge>): seq<Edge>
    decreases edges
  {
    if edges == [] then []
    else if edges[0] in seen then Fresh(edges[1..], seen)
    else [edges[0]] + Fresh(edges[1..], seen + {edges[0]})
  }

  lemma {:induction false} FreshIsDistinct(edges: seq<Edge>, seen: set<Edge>)
    ensures forall e :: e in Fresh(edges, seen) <==> e in edges && e !in seen
    ensures forall i, j :: 0 <= i < j < |Fresh(edges, seen)| ==> Fresh(edges, seen)[i] != Fresh(edges, seen)[j]
    decreases edges
  {
    if edges != [] {
      assert edges == [edges[0]] + edges[1..];
      FreshIsDistinct(edges[1..], if edges[0] in seen then seen else seen + {edges[0]});
    }
  }

  function FirstIndex(edges: seq<Edge>, e: Edge): (i: nat)
    requires e in edges
    ensures i < |edges| && edges[i] == e && e !in edges[..i]
  {
    if edges[0] == e then 0 else
      var i := FirstIndex(edges[1..], e);
      assert edges[..i + 1] == [edges[0]] + edges[1..][..i];
      1 + i
  }

  /** Edges stay in the order of their first occurrence. */
  lemma {:induction false} FreshKeepsOrder(edges: seq<Edge>, seen: set<Edge>, i: nat, j: nat)
    requires i < j < |Fresh(edges, seen)|
    ensures Fresh(edges, seen)[i] in edges && Fresh(edges, seen)[j] in edges
    ensures FirstIndex(edges, Fresh(edges, seen)[i]) < FirstIndex(edges, Fresh(edges, seen)[j])
    decreases edges
  {
    hide FirstIndex, Fresh;
    FreshIsDistinct(edges, seen);
    NothingFresh(seen);
    var kept := Fresh(edges, seen);
    assert kept[i] in kept && kept[j] in kept && kept[i] != kept[j];
    FreshAfter(edges, seen);
    if edges[0] in seen {
      FreshKeepsOrder(edges[1..], seen + {edges[0]}, i, j);
    } else if i > 0 {
      FreshKeepsOrder(edges[1..], seen + {edges[0]}, i - 1, j - 1);
      assert kept[i] != kept[0] && kept[j] != kept[0];
    } else {
    }
  }

  /** The Types known before any dependency is read are kept, and every Type added describes Links. */
  predicate Grown(types: map<Text, bool>, now: map<Text, bool>) {
    && (forall t :: t in types ==> t in now && now[t] == types[t])
    && (forall t :: t in now && t !in types ==> now[t])
  }

  ghost predicate Faithful(scope: Scope, types: map<Text, bool>, v: View) {
    && Grown(types, v.describesLink)
    && (forall e :: e in v.projected ==> Acceptable(scope, types, e))
    && (forall e :: e in v.links <==> e in v.projected)
    && (forall i, j :: 0 <= i < j < |v.links| ==> v.links[i] != v.links[j])
  }

  lemma ProjectKeepsFaith(scope: Scope, types: map<Text, bool>, v: View, e: Edge)
    requires Faithful(scope, types, v)
    ensures Project(scope, v, e).Ok? <==> Acceptable(scope, types, e)
    ensures Project(scope, v, e).Ok? ==>
              && Faithful(scope, types, Project(scope, v, e).value)
              && Project(scope, v, e).value.projected == v.projected + {e}
              && Project(scope, v, e).value.links == v.links + (if e in v.projected then [] else [e])
  {
  }

  /** The edges the readings state, as far as they can be read. */
  function EdgesOf(readings: seq<Reading>): (r: seq<Edge>)
    requires forall i :: 0 <= i < |readings| ==> Normalize(readings[i].row, readings[i].source).Ok?
    ensures |r| == |readings|
    ensures forall i :: 0 <= i < |readings| ==> r[i] == Normalize(readings[i].row, readings[i].source).value
  {
    seq(|readings|, i requires 0 <= i < |readings| => Normalize(readings[i].row, readings[i].source).value)
  }

  predicate Projectable(scope: Scope, types: map<Text, bool>, readings: seq<Reading>) {
    forall i :: 0 <= i < |readings| ==>
      var e := Normalize(readings[i].row, readings[i].source);
      e.Ok? && Acceptable(scope, types, e.value)
  }

  /**
   * Projection succeeds exactly when every row is well formed and names a live source, a live or external target
   * and a Type that is not a Bead Type; each distinct dependency then appears once, in order of first occurrence.
   */
  lemma {:induction false} ProjectionIsExact(scope: Scope, types: map<Text, bool>, v: View, readings: seq<Reading>)
    requires Faithful(scope, types, v)
    ensures ProjectAll(scope, v, readings).1.None? <==> Projectable(scope, types, readings)
    ensures Projectable(scope, types, readings) ==>
              && Faithful(scope, types, ProjectAll(scope, v, readings).0)
              && ProjectAll(scope, v, readings).0.links == v.links + Fresh(EdgesOf(readings), v.projected)
    decreases readings
  {
    hide Normalize, Project, Acceptable, Faithful, Fresh;
    if readings != [] {
      var e := Normalize(readings[0].row, readings[0].source);
      var rest := readings[1..];
      assert forall i :: 0 < i < |readings| ==> readings[i] == rest[i - 1];
      assert forall i :: 0 <= i < |rest| ==> rest[i] == readings[i + 1];
      if e.Ok? {
        ProjectKeepsFaith(scope, types, v, e.value);
        if Acceptable(scope, types, e.value) {
          var next := Project(scope, v, e.value).value;
          ProjectionIsExact(scope, types, next, rest);
          if Projectable(scope, types, rest) {
            assert Projectable(scope, types, readings);
            assert EdgesOf(readings)[1..] == EdgesOf(rest);
            FreshAfter(EdgesOf(readings), v.projected);
          }
        }
      }
    } else {
      assert Fresh(EdgesOf(readings), v.projected) == [] by { NothingFresh(v.projected); }
    }
  }

  /**
   * A run over all batches succeeds exactly when every query it makes is answered and every row those answers hold is
   * well formed and acceptable; the Links it adds are the distinct dependencies of the rows, in order of first
   * occurrence. When empty answers can be believed, the rows are those of each source, however the sources are cut.
   */
  lemma FallbackIsExact(ask: Oracle, time: nat, scope: Scope, types: map<Text, bool>, v: View,
                        batches: seq<seq<Text>>)
    requires Faithful(scope, types, v)
    requires forall k :: 0 <= k < |batches| ==> batches[k] != []
    ensures var run := BisectAll(ask, time, scope, v, batches);
            var rows := CollectedAll(ask, time, batches);
            && (run.fault.None? <==>
                  AllBatchesAnswered(ask, time, batches) && exists edges :: AreEdges(scope, types, rows, edges))
            && (run.fault.None? ==> Faithful(scope, types, run.view))
            && (forall edges :: run.fault.None? && AreEdges(scope, types, rows, edges) ==>
                  run.view.links == v.links + Fresh(edges, v.projected))
            && (AllBatchesHonest(ask, time, batches) <==>
                  rows == PerSource(ask, MomentsAll(ask, time, batches), Concatenation(batches)))
  {
    hide BisectAll, ProjectAll, CollectedAll, MomentsAll, PerSource, AllBatchesAnswered, AllBatchesHonest;
    hide Faithful, Fresh, Normalize, AreEdges;
    var rows := CollectedAll(ask, time, batches);
    BatchesProjectTheirReadings(ask, time, scope, v, batches);
    BatchesArePerSource(ask, time, batches);
    ProjectionIsExact(scope, types, v, rows);
    forall edges
      ensures AreEdges(scope, types, rows, edges) ==> Projectable(scope, types, rows) && EdgesOf(rows) == edges
    {
      EdgesAreStated(scope, types, rows, edges);
    }
    if Projectable(scope, types, rows) {
      EdgesAreStated(scope, types, rows, EdgesOf(rows));
    }
  }

  /** The edges are what the rows state, one by one, and all of them are acceptable. */
  predicate AreEdges(scope: Scope, types: map<Text, bool>, rows: seq<Reading>, edges: seq<Edge>) {
    && |edges| == |rows|
    && forall i :: 0 <= i < |rows| ==>
         States(rows[i].row, rows[i].source, edges[i]) && Acceptable(scope, types, edges[i])
  }

  lemma EdgesAreStated(scope: Scope, types: map<Text, bool>, rows: seq<Reading>, edges: seq<Edge>)
    ensures AreEdges(scope, types, rows, edges) ==> Projectable(scope, types, rows) && EdgesOf(rows) == edges
    ensures Projectable(scope, types, rows) ==> AreEdges(scope, types, rows, EdgesOf(rows))
  {
    hide Normalize, States, Acceptable;
    if AreEdges(scope, types, rows, edges) {
      forall i | 0 <= i < |rows| ensures Normalize(rows[i].row, rows[i].source) == Ok(edges[i]) {
        NormalizeIsExact(rows[i].row, rows[i].source, edges[i]);
      }
    }
    if Projectable(scope, types, rows) {
      forall i | 0 <= i < |rows| ensures States(rows[i].row, rows[i].source, EdgesOf(rows)[i]) {
        NormalizeIsExact(rows[i].row, rows[i].source, EdgesOf(rows)[i]);
      }
    }
  }

  lemma NothingFresh(seen: set<Edge>)
    ensures Fresh([], seen) == []
  {
  }

  lemma FreshAfter(edges: seq<Edge>, seen: set<Edge>)
    requires edges != []
    ensures Fresh(edges, seen)
         == (if edges[0] in seen then [] else [edges[0]]) + Fresh(edges[1..], seen + {edges[0]})
  {
    if edges[0] in seen {
      assert seen + {edges[0]} == seen;
    }
  }

  // The projection in place

  class Projection {
    const scope: Scope
    var projected: set<Edge>
    var links: seq<Edge>
    var describesLink: map<Text, bool>

    function Current(): View
      reads this
    {
      View(projected, links, describesLink)
    }

    constructor (scope: Scope, types: map<Text, bool>)
      ensures this.scope == scope && Current() == View({}, [], types)
    {
      this.scope, projected, links, describesLink := scope, {}, [], types;
    }

    method ProjectDependency(e: Edge) returns (fault: Option<Fault>)
      modifies this
      ensures match Project(scope, old(Current()), e)
              case Ok(next) => fault.None? && Current() == next
              case Err(why) => fault == Some(why) && Current() == old(Current())
    {
      if e in projected {
        return None;
      }
      if !scope.isLive(e.source) {
        return Some(UnknownSource);
      }
      if !scope.isLive(e.target) && !scope.isExternal(e.target) {
        return Some(UnknownTarget);
      }
      var linkType := scope.typeOf(e.kind);
      if linkType in describesLink && !describesLink[linkType] {
        return Some(TypeClash);
      }
      if linkType !in describesLink {
        describesLink := describesLink[linkType := true];
      }
      projected := projected + {e};
      links := links + [e];
      return None;
    }

    /** `time` is how many queries were made before. */
    method ProjectFallbackBatch(ask: Oracle, time: nat, sources: seq<Text>) returns (fault: Option<Fault>, calls: nat)
      requires sources != []
      modifies this
      ensures Run(Current(), calls, fault) == Bisect(ask, time, scope, old(Current()), sources)
      decreases |sources|
    {
      hide Bisect, ProjectRows;
      var answer := ask(time, sources);
      if Splits(ask, time, sources) {
        BisectStep(ask, time, scope, Current(), sources);
      } else {
        BisectEnds(ask, time, scope, Current(), sources);
        NoRowsProjected(scope, Current(), sources[0]);
      }
      if answer.Err? {
        return Some(answer.error), 1;
      }
      if answer.value == [] {
        return None, 1;
      }
      if |sources| > 1 {
        var middle := |sources| / 2;
        fault, calls := ProjectFallbackBatch(ask, time + 1, sources[..middle]);
        if fault.Some? {
          return fault, 1 + calls;
        }
        var more: nat;
        fault, more := ProjectFallbackBatch(ask, time + 1 + calls, sources[middle..]);
        return fault, 1 + calls + more;
      }
      fault := ProjectSource(sources[0], answer.value);
      return fault, 1;
    }

    /** The rows of a single source. */
    method ProjectSource(source: Text, rows: seq<Row>) returns (fault: Option<Fault>)
      modifies this
      ensures (Current(), fault) == ProjectRows(scope, old(Current()), source, rows)
    {
      hide Normalize, Project;
      var index := 0;
      while index < |rows|
        invariant 0 <= index <= |rows|
        invariant ProjectRows(scope, old(Current()), source, rows)
               == ProjectRows(scope, Current(), source, rows[index..])
      {
        var edge := Normalize(rows[index], source);
        assert rows[index..][1..] == rows[index + 1..];
        if edge.Err? {
          return Some(edge.error);
        }
        fault := ProjectDependency(edge.value);
        if fault.Some? {
          return fault;
        }
        index := index + 1;
      }
      return None;
    }

    method ProjectFallback(ask: Oracle, time: nat, batches: seq<seq<Text>>) returns (fault: Option<Fault>, calls: nat)
      requires forall k :: 0 <= k < |batches| ==> batches[k] != []
      modifies this
      ensures Run(Current(), calls, fault) == BisectAll(ask, time, scope, old(Current()), batches)
    {
      hide Bisect;
      calls := 0;
      var k := 0;
      while k < |batches|
        invariant 0 <= k <= |batches|
        invariant var rest := BisectAll(ask, time + calls, scope, Current(), batches[k..]);
                  BisectAll(ask, time, scope, old(Current()), batches) == Run(rest.view, calls + rest.calls, rest.fault)
      {
        assert batches[k..][0] == batches[k] && batches[k..][1..] == batches[k + 1..];
        var cost: nat;
        fault, cost := ProjectFallbackBatch(ask, time + calls, batches[k]);
        calls := calls + cost;
        if fault.Some? {
          return;
        }
        k := k + 1;
      }
      fault := None;
    }
  }

  lemma BlocksByName()
    ensures BLOCKS == Ascii("blocks")
  {
  }

  // Faults and their causes

  /** Each refusal of a dependency says what is wrong with it. */
  lemma ProjectFaults(scope: Scope, v: View, e: Edge)
    ensures match Project(scope, v, e)
            case Ok(_) => true
            case Err(UnknownSource) => !scope.isLive(e.source)
            case Err(UnknownTarget) => !scope.isLive(e.target) && !scope.isExternal(e.target)
            case Err(TypeClash) => scope.typeOf(e.kind) in v.describesLink && !v.describesLink[scope.typeOf(e.kind)]
            case Err(_) => false
  {
  }

  /** The fault is of a query made in that span of time, or of a row attributed or a dependency stated. */
  ghost predicate IsCause(ask: Oracle, from: nat, to: nat, fault: Fault) {
    || (exists t, s :: from <= t < to && ask(t, s) == Err(fault))
    || fault in {MalformedRow, UnknownSource, UnknownTarget, TypeClash}
  }

  lemma {:induction false} ProjectRowsFaults(scope: Scope, v: View, source: Text, rows: seq<Row>)
    ensures ProjectRows(scope, v, source, rows).1.Some? ==>
              ProjectRows(scope, v, source, rows).1.value in {MalformedRow, UnknownSource, UnknownTarget, TypeClash}
    decreases rows
  {
    hide Normalize, Project;
    if rows != [] {
      var e := Normalize(rows[0], source);
      if e.Ok? {
        NormalizeIsExact(rows[0], source, e.value);
        ProjectFaults(scope, v, e.value);
        if Project(scope, v, e.value).Ok? {
          ProjectRowsFaults(scope, Project(scope, v, e.value).value, source, rows[1..]);
        }
      } else {
        NormalizeIsExact(rows[0], source, Edge([], [], []));
      }
    }
  }

  /** A batch that fails fails with what a query reported in its course, or for a row. */
  lemma {:induction false} BisectionFaults(ask: Oracle, time: nat, scope: Scope, v: View, sources: seq<Text>)
    requires sources != []
    ensures var run := Bisect(ask, time, scope, v, sources);
            run.fault.Some? ==> IsCause(ask, time, time + run.calls, run.fault.value)
    decreases |sources|
  {
    hide ProjectRows, Bisect, Answer;
    if Splits(ask, time, sources) {
      var a, b := sources[..|sources| / 2], sources[|sources| / 2..];
      var left := Bisect(ask, time + 1, scope, v, a);
      BisectStep(ask, time, scope, v, sources);
      BisectionFaults(ask, time + 1, scope, v, a);
      BisectionFaults(ask, time + 1 + left.calls, scope, left.view, b);
    } else {
      BisectEnds(ask, time, scope, v, sources);
      ProjectRowsFaults(scope, v, sources[0], Answer(ask, time, sources));
    }
  }
}
