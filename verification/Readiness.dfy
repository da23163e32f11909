/** Which Beads are ready, and in what order, once their Links and the blockers of those Links have been gathered. */
module Readiness {
  import opened Outcomes
  import opened Sorting
  import opened Texts

  const OPEN: Text := [111, 112, 101, 110]
  const CLOSED: Text := [99, 108, 111, 115, 101, 100]

  datatype Link = Link(kind: Text, source: Text, target: Text)

  /** A record with the properties readiness reads; a property of the wrong form reads as absent. */
  datatype Bead = Bead(
    id: Text,
    status: Option<Text>,
    priority: Option<real>,
    createdAt: Option<int>,
    links: Option<seq<Link>>)

  datatype Ready = Ready(bead: Bead, blockers: seq<Bead>)

  // The order of the list

  function CompareOptional(left: Option<real>, right: Option<real>): real {
    if left.None? then (if right.None? then 0.0 else 1.0)
    else if right.None? then -1.0
    else left.value - right.value
  }

  function AsReal(t: Option<int>): Option<real> {
    if t.Some? then Some(t.value as real) else None
  }

  /** Lower priority first, none last; then later creation first, none first; then by identity. */
  predicate Before(left: Ready, right: Ready) {
    var priority := CompareOptional(left.bead.priority, right.bead.priority);
    var creation := CompareOptional(AsReal(right.bead.createdAt), AsReal(left.bead.createdAt));
    priority < 0.0 || (priority == 0.0 && (creation < 0.0 || (creation == 0.0 && Less(left.bead.id, right.bead.id))))
  }

  /** The identity order, as used below. */
  lemma LessComposes(a: Text, b: Text, c: Text)
    ensures !Less(a, a)
    ensures Less(a, b) ==> !Less(b, a)
    ensures !Less(b, a) && !Less(c, b) ==> !Less(c, a)
    ensures Less(a, b) && Less(b, c) ==> Less(a, c)
  {
    LessIsIrreflexive(a);
    LessIsTotal(a, b);
    LessIsTotal(b, c);
    if Less(a, b) && Less(b, a) {
      LessIsTransitive(a, b, a);
    }
    if Less(a, b) && Less(b, c) {
      LessIsTransitive(a, b, c);
    }
    if !Less(b, a) && !Less(c, b) && Less(c, a) {
      if a != b && b != c {
        LessIsTransitive(a, b, c);
        LessIsTransitive(c, a, c);
      }
    }
  }

  lemma BeforeComposes(x: Ready, y: Ready, z: Ready)
    ensures !Before(x, x)
    ensures Before(x, y) && Before(y, z) ==> Before(x, z)
    ensures !Before(x, y) && !Before(y, z) ==> !Before(x, z)
  {
    hide CompareOptional, Less;
    SignsCompose(x.bead.priority, y.bead.priority, z.bead.priority);
    SignsCompose(AsReal(z.bead.createdAt), AsReal(y.bead.createdAt), AsReal(x.bead.createdAt));
    LessComposes(x.bead.id, y.bead.id, z.bead.id);
    LessComposes(z.bead.id, y.bead.id, x.bead.id);
  }

  /** The comparison is a weak order, in both directions. */
  lemma SignsCompose(a: Option<real>, b: Option<real>, c: Option<real>)
    ensures CompareOptional(a, a) == 0.0 && CompareOptional(c, c) == 0.0
    ensures CompareOptional(a, b) == -CompareOptional(b, a)
    ensures CompareOptional(b, c) == -CompareOptional(c, b)
    ensures CompareOptional(a, c) == -CompareOptional(c, a)
    ensures CompareOptional(a, b) <= 0.0 && CompareOptional(b, c) <= 0.0 ==>
              && CompareOptional(a, c) <= 0.0
              && (CompareOptional(a, c) == 0.0 <==> CompareOptional(a, b) == 0.0 && CompareOptional(b, c) == 0.0)
    ensures CompareOptional(a, b) >= 0.0 && CompareOptional(b, c) >= 0.0 ==>
              && CompareOptional(a, c) >= 0.0
              && (CompareOptional(a, c) == 0.0 <==> CompareOptional(a, b) == 0.0 && CompareOptional(b, c) == 0.0)
  {
  }

  lemma BeforeIsStrictOrder()
    ensures StrictOrder(Before)
  {
    forall x: Ready, y: Ready, z: Ready
      ensures !Before(x, x)
      ensures Before(x, y) && Before(y, z) ==> Before(x, z)
      ensures !Before(x, y) && !Before(y, z) ==> !Before(x, z)
    {
      BeforeComposes(x, y, z);
    }
  }

  /** Beads of distinct identity are never tied. */
  lemma BeforeIsTotal(x: Ready, y: Ready)
    requires x.bead.id != y.bead.id
    ensures Before(x, y) != Before(y, x)
  {
    hide CompareOptional, Less;
    SignsCompose(x.bead.priority, y.bead.priority, x.bead.priority);
    SignsCompose(AsReal(x.bead.createdAt), AsReal(y.bead.createdAt), AsReal(x.bead.createdAt));
    LessIsTotal(x.bead.id, y.bead.id);
  }

  predicate Comes<T>(first: Option<T>, second: Option<T>) {
    first.Some? && second.None?
  }

  /** Smaller priorities come first and missing ones last; then newer creations first and unknown ones first. */
  lemma OrderMeans(x: Ready, y: Ready)
    ensures var (p, q) := (x.bead.priority, y.bead.priority);
            var (c, d) := (x.bead.createdAt, y.bead.createdAt);
            && (Comes(p, q) ==> Before(x, y))
            && (p.Some? && q.Some? && p.value < q.value ==> Before(x, y))
            && (p == q && Comes(d, c) ==> Before(x, y))
            && (p == q && c.Some? && d.Some? && c.value > d.value ==> Before(x, y))
            && (p == q && c == d ==> (Before(x, y) <==> Less(x.bead.id, y.bead.id)))
  {
    hide Less;
  }

  // The list made of a set of records

  /** The outbound blocking Links of a record. */
  function BlockingLinks(b: Bead, kind: Text): (r: seq<Link>)
    ensures forall l :: l in r <==> b.links.Some? && l in b.links.value && l.kind == kind && l.source == b.id
  {
    if b.links.Some? then Blocking(b.links.value, kind, b.id) else []
  }

  function Blocking(links: seq<Link>, kind: Text, id: Text): (r: seq<Link>)
    ensures forall l :: l in r <==> l in links && l.kind == kind && l.source == id
  {
    if links == [] then []
    else if links[0].kind == kind && links[0].source == id then [links[0]] + Blocking(links[1..], kind, id)
    else Blocking(links[1..], kind, id)
  }

  /** The filter keeps the Links in their order, each as often as it is there. */
  lemma {:induction false} BlockingConcatenates(a: seq<Link>, b: seq<Link>, kind: Text, id: Text)
    ensures Blocking(a + b, kind, id) == Blocking(a, kind, id) + Blocking(b, kind, id)
  {
    if a == [] {
      assert a + b == b;
    } else {
      assert (a + b)[1..] == a[1..] + b;
      BlockingConcatenates(a[1..], b, kind, id);
    }
  }

  /** `new Map(beads.map((bead) => [bead.id, bead]))` */
  function ById(beads: seq<Bead>): (table: map<Text, Bead>)
    ensures forall id :: id in table ==> table[id] in beads && table[id].id == id
    ensures forall b :: b in beads ==> b.id in table
  {
    if beads == [] then
      map[]
    else
      var n := |beads| - 1;
      assert beads == beads[..n] + [beads[n]];
      ById(beads[..n])[beads[n].id := beads[n]]
  }

  /** The record is the last one of its identity. */
  predicate IsLast(beads: seq<Bead>, b: Bead) {
    exists i :: 0 <= i < |beads| && beads[i] == b && forall j :: i < j < |beads| ==> beads[j].id != b.id
  }

  lemma LastBeforeAnother(front: seq<Bead>, last: Bead, b: Bead)
    requires IsLast(front, b) && last.id != b.id
    ensures IsLast(front + [last], b)
  {
    var i :| 0 <= i < |front| && front[i] == b && forall j :: i < j < |front| ==> front[j].id != b.id;
    assert (front + [last])[i] == b;
  }

  lemma LastOfAll(front: seq<Bead>, last: Bead)
    ensures IsLast(front + [last], last)
  {
    assert (front + [last])[|front|] == last;
  }

  lemma {:induction false} ByIdIsLast(beads: seq<Bead>, id: Text)
    requires id in ById(beads)
    ensures IsLast(beads, ById(beads)[id])
  {
    hide IsLast;
    var n := |beads| - 1;
    assert beads == beads[..n] + [beads[n]];
    if beads[n].id == id {
      LastOfAll(beads[..n], beads[n]);
    } else {
      ByIdIsLast(beads[..n], id);
      LastBeforeAnother(beads[..n], beads[n], ById(beads[..n])[id]);
    }
  }

  /** The records of the blockers that are known. */
  function Resolved(links: seq<Link>, table: map<Text, Bead>): (r: seq<Bead>)
    ensures |r| <= |links|
    ensures |r| == |links| <==> forall i :: 0 <= i < |links| ==> links[i].target in table
    ensures |r| == |links| ==> forall i :: 0 <= i < |links| ==> r[i] == table[links[i].target]
  {
    if links == [] then []
    else if links[0].target in table then [table[links[0].target]] + Resolved(links[1..], table)
    else Resolved(links[1..], table)
  }

  predicate IsReadyBead(b: Bead, blockers: seq<Bead>) {
    b.status == Some(OPEN) && forall i :: 0 <= i < |blockers| ==> blockers[i].status == Some(CLOSED)
  }

  /** Open, and every outbound blocking Link leads to a known closed record. */
  predicate IsReady(b: Bead, kind: Text, table: map<Text, Bead>) {
    && b.status == Some(OPEN)
    && forall l :: l in BlockingLinks(b, kind) ==> l.target in table && table[l.target].status == Some(CLOSED)
  }

  lemma ResolutionDecidesReadiness(b: Bead, kind: Text, table: map<Text, Bead>)
    ensures var links := BlockingLinks(b, kind);
            IsReady(b, kind, table) <==>
              |Resolved(links, table)| == |links| && IsReadyBead(b, Resolved(links, table))
  {
    var links := BlockingLinks(b, kind);
    var blockers := Resolved(links, table);
    if |blockers| == |links| {
      assert forall i :: 0 <= i < |links| ==> links[i] in links && blockers[i] == table[links[i].target];
    } else {
      var i :| 0 <= i < |links| && links[i].target !in table;
      assert links[i] in links;
    }
  }

  /** The ready records of the list, in its order. */
  function ReadyIn(beads: seq<Bead>, kind: Text, table: map<Text, Bead>): (r: seq<Ready>)
  {
    if beads == [] then
      []
    else
      var n := |beads| - 1;
      ReadyIn(beads[..n], kind, table)
      + (if IsReady(beads[n], kind, table)
         then [Ready(beads[n], Resolved(BlockingLinks(beads[n], kind), table))] else [])
  }

  /** The ready records of the given ones, sorted. */
  method ReadyBeadsFromRecords(beads: seq<Bead>, kind: Text) returns (ready: seq<Ready>)
    ensures ready == Sort(Before, ReadyIn(beads, kind, ById(beads)))
  {
    hide IsReady, Sort, ById;
    var table := ById(beads);
    ready := [];
    for i := 0 to |beads|
      invariant ready == ReadyIn(beads[..i], kind, table)
    {
      assert beads[..i + 1][..i] == beads[..i];
      var blockingLinks := BlockingLinks(beads[i], kind);
      var resolved := Resolved(blockingLinks, table);
      ResolutionDecidesReadiness(beads[i], kind, table);
      if |resolved| == |blockingLinks| && IsReadyBead(beads[i], resolved) {
        ready := ready + [Ready(beads[i], resolved)];
      }
    }
    assert beads[..|beads|] == beads;
    ready := Sort(Before, ready);
  }

  predicate DistinctIds(beads: seq<Bead>) {
    forall i, j :: 0 <= i < j < |beads| ==> beads[i].id != beads[j].id
  }

  lemma {:induction false} ReadyInHolds(beads: seq<Bead>, kind: Text, table: map<Text, Bead>)
    ensures forall r :: r in ReadyIn(beads, kind, table) ==>
              && r.bead in beads && IsReady(r.bead, kind, table)
              && r.blockers == Resolved(BlockingLinks(r.bead, kind), table)
    ensures forall b :: b in beads && IsReady(b, kind, table) ==>
              Ready(b, Resolved(BlockingLinks(b, kind), table)) in ReadyIn(beads, kind, table)
  {
    hide IsReady;
    if beads != [] {
      var n := |beads| - 1;
      ReadyInHolds(beads[..n], kind, table);
      assert beads == beads[..n] + [beads[n]];
    }
  }

  lemma {:induction false} ReadyInIsSeparated(beads: seq<Bead>, kind: Text, table: map<Text, Bead>)
    requires DistinctIds(beads)
    ensures Separated(Before, ReadyIn(beads, kind, table))
  {
    hide IsReady, Before, Resolved, BlockingLinks, Separated, DistinctIds;
    if beads != [] {
      var n := |beads| - 1;
      var front := ReadyIn(beads[..n], kind, table);
      FrontIsDistinct(beads);
      ReadyInIsSeparated(beads[..n], kind, table);
      var last := Ready(beads[n], Resolved(BlockingLinks(beads[n], kind), table));
      forall i | 0 <= i < |front|
        ensures Before(front[i], last) || Before(last, front[i])
      {
        ReadyInHolds(beads[..n], kind, table);
        assert front[i] in front;
        assert front[i].bead in beads[..n];
        BeforeIsTotal(front[i], last);
      }
      SeparatedByAppend(front, last);
      assert front + [] == front;
    } else {
      NothingIsSeparated();
    }
  }

  lemma NothingIsSeparated()
    ensures Separated(Before, [])
  {
  }

  lemma FrontIsDistinct(beads: seq<Bead>)
    requires DistinctIds(beads) && beads != []
    ensures DistinctIds(beads[..|beads| - 1])
    ensures forall b :: b in beads[..|beads| - 1] ==> b.id != beads[|beads| - 1].id
  {
  }

  lemma SeparatedByAppend(front: seq<Ready>, last: Ready)
    requires Separated(Before, front)
    requires forall i :: 0 <= i < |front| ==> Before(front[i], last) || Before(last, front[i])
    ensures Separated(Before, front + [last])
  {
    hide Before;
  }

  // The list of what was gathered

  function Ids(beads: seq<Bead>): (r: set<Text>)
    ensures forall id :: id in r <==> exists b :: b in beads && b.id == id
  {
    set b | b in beads :: b.id
  }

  datatype Gathered = Gathered(inventory: seq<Bead>, fetched: seq<Bead>)

  function Kept(ready: seq<Ready>, candidates: set<Text>): seq<Ready> {
    if ready == [] then
      []
    else
      var n := |ready| - 1;
      Kept(ready[..n], candidates) + (if ready[n].bead.id in candidates then [ready[n]] else [])
  }

  function ReadyList(g: Gathered, kind: Text): seq<Ready> {
    var all := g.inventory + g.fetched;
    Kept(Sort(Before, ReadyIn(all, kind, ById(all))), Ids(g.inventory))
  }

  lemma {:induction false} KeptHolds(ready: seq<Ready>, candidates: set<Text>)
    ensures forall r :: r in Kept(ready, candidates) <==> r in ready && r.bead.id in candidates
  {
    if ready != [] {
      KeptHolds(ready[..|ready| - 1], candidates);
      assert ready == ready[..|ready| - 1] + [ready[|ready| - 1]];
    }
  }

  predicate Ascending(ready: seq<Ready>) {
    forall i, j :: 0 <= i < j < |ready| ==> Before(ready[i], ready[j])
  }

  lemma {:induction false} KeptKeepsOrder(ready: seq<Ready>, candidates: set<Text>)
    requires Ascending(ready)
    ensures Ascending(Kept(ready, candidates))
  {
    hide Before;
    if ready != [] {
      var n := |ready| - 1;
      KeptKeepsOrder(ready[..n], candidates);
      KeptHolds(ready[..n], candidates);
      var front := Kept(ready[..n], candidates);
      forall i | 0 <= i < |front|
        ensures Before(front[i], ready[n])
      {
        assert front[i] in front;
        var m :| 0 <= m < |ready[..n]| && ready[..n][m] == front[i];
        assert Before(ready[m], ready[n]);
      }
    }
  }

  /** Open, and every outbound blocking Link leads to a gathered closed Bead. */
  predicate Unblocked(b: Bead, kind: Text, gathered: seq<Bead>) {
    && b.status == Some(OPEN)
    && forall l :: l in BlockingLinks(b, kind) ==>
         exists i :: 0 <= i < |gathered| && gathered[i].id == l.target && gathered[i].status == Some(CLOSED)
  }

  lemma ReadyMeansUnblocked(b: Bead, kind: Text, beads: seq<Bead>)
    requires DistinctIds(beads)
    ensures IsReady(b, kind, ById(beads)) <==> Unblocked(b, kind, beads)
  {
    hide ById, BlockingLinks;
    var table := ById(beads);
    forall l | l in BlockingLinks(b, kind)
      ensures l.target in table && table[l.target].status == Some(CLOSED) <==>
        exists i :: 0 <= i < |beads| && beads[i].id == l.target && beads[i].status == Some(CLOSED)
    {
      if l.target in table {
        var c := table[l.target];
        var j :| 0 <= j < |beads| && beads[j] == c;
      }
      if i :| 0 <= i < |beads| && beads[i].id == l.target && beads[i].status == Some(CLOSED) {
      }
    }
  }

  predicate Lists(list: seq<Ready>, b: Bead) {
    exists i :: 0 <= i < |list| && list[i].bead == b
  }

  lemma ListAscends(g: Gathered, kind: Text)
    requires DistinctIds(g.inventory + g.fetched)
    ensures Ascending(ReadyList(g, kind))
  {
    hide Ascending;
    var all := g.inventory + g.fetched;
    SortedReadyIsOrdered(all, kind);
    KeptKeepsOrder(Sort(Before, ReadyIn(all, kind, ById(all))), Ids(g.inventory));
  }

  lemma ListIsOrdered(g: Gathered, kind: Text)
    ensures Ordered(Before, ReadyList(g, kind))
  {
    hide Ordered, Before, ById, ReadyIn;
    var all := g.inventory + g.fetched;
    BeforeIsStrictOrder();
    SortIsOrdered(Before, ReadyIn(all, kind, ById(all)));
    KeptStaysOrdered(Sort(Before, ReadyIn(all, kind, ById(all))), Ids(g.inventory));
  }

  lemma {:induction false} KeptStaysOrdered(ready: seq<Ready>, candidates: set<Text>)
    requires Ordered(Before, ready)
    ensures Ordered(Before, Kept(ready, candidates))
  {
    hide Before;
    if ready != [] {
      var n := |ready| - 1;
      KeptStaysOrdered(ready[..n], candidates);
      KeptHolds(ready[..n], candidates);
      var front := Kept(ready[..n], candidates);
      forall i | 0 <= i < |front|
        ensures !Before(ready[n], front[i])
      {
        assert front[i] in front;
        var m :| 0 <= m < |ready[..n]| && ready[..n][m] == front[i];
        assert !Before(ready[n], ready[m]);
      }
    }
  }

  lemma ListHolds(g: Gathered, kind: Text, b: Bead)
    requires forall c :: c in g.fetched ==> c.id !in Ids(g.inventory)
    ensures Lists(ReadyList(g, kind), b) <==> b in g.inventory && IsReady(b, kind, ById(g.inventory + g.fetched))
  {
    hide IsReady, Before, ById, Resolved, BlockingLinks, Sort, ReadyIn, Kept;
    var all := g.inventory + g.fetched;
    var ready := ReadyIn(all, kind, ById(all));
    var sorted := Sort(Before, ready);
    SameElements(sorted, ready);
    ReadyInHolds(all, kind, ById(all));
    KeptHolds(sorted, Ids(g.inventory));
    var list := ReadyList(g, kind);
    if i :| 0 <= i < |list| && list[i].bead == b {
      assert list[i] in list;
      assert list[i] in ready;
      assert b in all && b.id in Ids(g.inventory);
      assert b !in g.fetched;
    }
    if b in g.inventory && IsReady(b, kind, ById(all)) {
      assert b in all;
      var r := Ready(b, Resolved(BlockingLinks(b, kind), ById(all)));
      assert r in ready && r in sorted;
      assert r in list;
    }
  }

  lemma SortedReadyIsOrdered(all: seq<Bead>, kind: Text)
    requires DistinctIds(all)
    ensures Ascending(Sort(Before, ReadyIn(all, kind, ById(all))))
  {
    hide Before, ById, ReadyIn;
    var ready := ReadyIn(all, kind, ById(all));
    var sorted := Sort(Before, ready);
    BeforeIsStrictOrder();
    SortIsOrdered(Before, ready);
    ReadyInIsSeparated(all, kind, ById(all));
    SeparatedByRearrangement(Before, ready, sorted);
  }

  /** Beside the record stand, Link by Link, the last records gathered of its blockers, all closed. */
  predicate CarriesBlockers(r: Ready, kind: Text, gathered: seq<Bead>) {
    var links := BlockingLinks(r.bead, kind);
    && |r.blockers| == |links|
    && forall i :: 0 <= i < |links| ==>
         r.blockers[i].id == links[i].target && r.blockers[i].status == Some(CLOSED) && IsLast(gathered, r.blockers[i])
  }

  lemma ListCarriesBlockers(g: Gathered, kind: Text, i: nat)
    requires i < |ReadyList(g, kind)|
    ensures CarriesBlockers(ReadyList(g, kind)[i], kind, g.inventory + g.fetched)
  {
    hide Before, ById, BlockingLinks, Sort, ReadyIn, Kept, IsLast, Resolved;
    var all := g.inventory + g.fetched;
    var ready := ReadyIn(all, kind, ById(all));
    var r := ReadyList(g, kind)[i];
    assert r in ReadyList(g, kind);
    SameElements(Sort(Before, ready), ready);
    KeptHolds(Sort(Before, ready), Ids(g.inventory));
    ReadyInHolds(all, kind, ById(all));
    var links := BlockingLinks(r.bead, kind);
    assert forall k :: 0 <= k < |links| ==> links[k] in links;
    assert |Resolved(links, ById(all))| == |links| by { ResolutionDecidesReadiness(r.bead, kind, ById(all)); }
    forall k | 0 <= k < |links|
      ensures r.blockers[k] == ById(all)[links[k].target] && IsLast(all, r.blockers[k])
    {
      ByIdIsLast(all, links[k].target);
    }
  }

  lemma StatusesByName()
    ensures OPEN == Ascii("open") && CLOSED == Ascii("closed")
  {
  }
}
