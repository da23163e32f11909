/** The checks of a Type publication that walk its exact references: no Refines cycle, and an exact closure. */
module RefinesGraph {
  import opened Outcomes
  import opened Texts

  /** An exact reference: an identity at a revision. */
  datatype Pin = Pin(id: Text, revision: Text)

  datatype Link = Link(kind: Pin, target: Pin)

  /** A definition, its metatype, and the Links it owns, grouped as it groups them. */
  datatype Definition = Definition(pin: Pin, metatype: Pin, ownedLinks: seq<seq<Link>>)

  datatype Fault = WrongAffiliation | MissingTarget | DuplicateTarget | Cycle | MissingDefinition

  /** `{record_pin(record): record for record in definitions}`: of records with one pin the last is kept. */
  function Records(definitions: seq<Definition>): (r: map<Pin, Definition>)
    ensures forall d :: d in definitions ==> d.pin in r
    ensures forall p :: p in r ==> r[p] in definitions && r[p].pin == p
  {
    if definitions == [] then
      map[]
    else
      var n := |definitions| - 1;
      assert definitions == definitions[..n] + [definitions[n]];
      Records(definitions[..n])[definitions[n].pin := definitions[n]]
  }

  function AllLinks(groups: seq<seq<Link>>): seq<Link> {
    if groups == [] then [] else groups[0] + AllLinks(groups[1..])
  }

  function Targets(links: seq<Link>): (r: seq<Pin>)
    ensures |r| == |links|
    ensures forall i :: 0 <= i < |links| ==> r[i] == links[i].target
  {
    seq(|links|, i requires 0 <= i < |links| => links[i].target)
  }

  function RefinesOf(d: Definition): seq<Pin> {
    Targets(AllLinks(d.ownedLinks))
  }

  predicate NoRepeats(ps: seq<Pin>) {
    forall i, j :: 0 <= i < j < |ps| ==> ps[i] != ps[j]
  }

  predicate Sound(affiliation: Pin, definitions: seq<Definition>, d: Definition) {
    && (forall l :: l in AllLinks(d.ownedLinks) ==> l.kind == affiliation)
    && (forall t :: t in RefinesOf(d) ==> t in Records(definitions))
    && NoRepeats(RefinesOf(d))
  }

  // Paths and cycles

  type Graph = map<Pin, seq<Pin>>

  function Edges(definitions: seq<Definition>): Graph {
    map p | p in Records(definitions) :: RefinesOf(Records(definitions)[p])
  }

  predicate Closed(g: Graph) {
    forall p :: p in g ==> forall t :: t in g[p] ==> t in g
  }

  predicate IsPath(g: Graph, path: seq<Pin>) {
    && path != []
    && forall i :: 0 <= i < |path| - 1 ==> path[i] in g && path[i + 1] in g[path[i]]
  }

  /** A path that comes back to where it starts. */
  ghost predicate Cyclic(g: Graph) {
    exists path :: IsPath(g, path) && |path| > 1 && path[0] == path[|path| - 1]
  }

  /** A list in which every edge leads to an earlier place. */
  ghost predicate Finished(g: Graph, order: seq<Pin>) {
    forall i :: 0 <= i < |order| ==>
      order[i] in g && forall t :: t in g[order[i]] ==> t in order[..i]
  }

  lemma {:induction false} PathsDescend(g: Graph, order: seq<Pin>, path: seq<Pin>, i: nat) returns (j: nat)
    requires Finished(g, order) && NoRepeats(order)
    requires IsPath(g, path) && i < |order| && path[0] == order[i]
    ensures j < |order| && order[j] == path[|path| - 1]
    ensures |path| > 1 ==> j < i
    decreases |path|
  {
    if |path| == 1 {
      j := i;
    } else {
      assert path[1] in g[order[i]];
      var k :| 0 <= k < |order[..i]| && order[..i][k] == path[1];
      assert IsPath(g, path[1..]);
      j := PathsDescend(g, order, path[1..], k);
    }
  }

  /** A finishing order of all nodes leaves no room for a cycle. */
  lemma FinishedIsAcyclic(g: Graph, order: seq<Pin>)
    requires Finished(g, order) && NoRepeats(order)
    requires forall p :: p in g ==> p in order
    ensures !Cyclic(g)
  {
    forall path | IsPath(g, path) && |path| > 1
      ensures path[0] != path[|path| - 1]
    {
      assert path[0] in g;
      var i :| 0 <= i < |order| && order[i] == path[0];
      var j := PathsDescend(g, order, path, i);
    }
  }

  /** Meeting a node of the current path again closes a cycle. */
  lemma RevisitIsCycle(g: Graph, stack: seq<Pin>, node: Pin)
    requires IsPath(g, stack + [node]) && node in stack
    ensures Cyclic(g)
  {
    var i :| 0 <= i < |stack| && stack[i] == node;
    var path := (stack + [node])[i..];
    assert path[0] == node == path[|path| - 1];
    forall k | 0 <= k < |path| - 1
      ensures path[k] in g && path[k + 1] in g[path[k]]
    {
      assert path[k] == (stack + [node])[i + k] && path[k + 1] == (stack + [node])[i + k + 1];
    }
  }

  // Depth-first search

  /** `order` lists the finished nodes as they finished; `stack` is the path of active nodes. */
  ghost predicate Searching(g: Graph, done: set<Pin>, active: set<Pin>, order: seq<Pin>, stack: seq<Pin>) {
    && Closed(g)
    && (forall p :: p in done <==> p in order)
    && (forall p :: p in active <==> p in stack)
    && NoRepeats(order) && NoRepeats(stack)
    && done !! active && active <= g.Keys
    && Finished(g, order)
    && (stack != [] ==> IsPath(g, stack))
  }

  /** How many nodes may still become active. */
  ghost function Room(g: Graph, active: set<Pin>): nat {
    |g.Keys - active|
  }

  lemma Enter(g: Graph, done: set<Pin>, active: set<Pin>, order: seq<Pin>, stack: seq<Pin>, node: Pin)
    requires Searching(g, done, active, order, stack)
    requires node in g && node !in active && node !in done && IsPath(g, stack + [node])
    ensures Searching(g, done, active + {node}, order, stack + [node])
    ensures Room(g, active + {node}) < Room(g, active)
  {
    hide Finished, IsPath, Room, NoRepeats;
    assert node !in stack;
    NoRepeatsWith(stack, node);
    RoomShrinks(g, active, node);
  }

  lemma NoRepeatsWith(ps: seq<Pin>, p: Pin)
    requires NoRepeats(ps) && p !in ps
    ensures NoRepeats(ps + [p])
  {
  }

  lemma RoomShrinks(g: Graph, active: set<Pin>, node: Pin)
    requires node in g && node !in active
    ensures Room(g, active + {node}) < Room(g, active)
  {
    assert g.Keys - active == (g.Keys - (active + {node})) + {node};
  }

  /** The current path leads on to each of the nodes. */
  ghost predicate LeadsTo(g: Graph, stack: seq<Pin>, nodes: seq<Pin>) {
    forall i :: 0 <= i < |nodes| ==> nodes[i] in g && IsPath(g, stack + [nodes[i]])
  }

  lemma Descend(g: Graph, done: set<Pin>, active: set<Pin>, order: seq<Pin>, stack: seq<Pin>, node: Pin)
    requires Searching(g, done, active, order, stack + [node])
    requires node in g
    ensures LeadsTo(g, stack + [node], g[node])
  {
    var before := stack + [node];
    forall k | 0 <= k < |g[node]|
      ensures g[node][k] in g && IsPath(g, before + [g[node][k]])
    {
      var after := before + [g[node][k]];
      forall i | 0 <= i < |after| - 1
        ensures after[i] in g && after[i + 1] in g[after[i]]
      {
        if i < |stack| {
          assert before[i + 1] in g[before[i]];
        }
      }
    }
  }

  lemma Finish(g: Graph, done: set<Pin>, active: set<Pin>, order: seq<Pin>, stack: seq<Pin>, node: Pin)
    requires Searching(g, done, active + {node}, order, stack + [node])
    requires node in g && node !in active && (forall p :: p in active <==> p in stack)
    requires forall i :: 0 <= i < |g[node]| ==> g[node][i] in done
    requires stack != [] ==> IsPath(g, stack)
    ensures Searching(g, done + {node}, active, order + [node], stack)
  {
    assert node in stack + [node];
    assert forall i :: 0 <= i < |stack| ==> stack[i] == (stack + [node])[i];
    var after := order + [node];
    forall i | 0 <= i < |after|
      ensures after[i] in g && forall t :: t in g[after[i]] ==> t in after[..i]
    {
      assert after[..i] == order[..i];
      assert i == |order| ==> after[..i] == order;
    }
  }

  class Search {
    const edges: Graph
    var done: set<Pin>
    var active: set<Pin>
    ghost var order: seq<Pin>
    ghost var stack: seq<Pin>

    ghost predicate Valid()
      reads this
    {
      Searching(edges, done, active, order, stack)
    }

    constructor (edges: Graph)
      requires Closed(edges)
      ensures Valid() && this.edges == edges && done == {} && active == {} && stack == []
    {
      this.edges := edges;
      done, active := {}, {};
      order, stack := [], [];
    }

    /** False when a cycle is met; otherwise the node and all it leads to are finished, and the path is as before. */
    method Visit(node: Pin) returns (ok: bool)
      requires Valid() && node in edges && IsPath(edges, stack + [node])
      modifies this
      ensures ok ==> Valid() && active == old(active) && stack == old(stack)
      ensures ok ==> node in done && old(done) <= done
      ensures !ok ==> Cyclic(edges)
      decreases Room(edges, active), 0
    {
      hide Searching, IsPath, Cyclic, LeadsTo, Room;
      ghost var (before, path) := (active, stack);
      ActiveIsStack(edges, done, active, order, stack);
      if node in active {
        RevisitIsCycle(edges, stack, node);
        return false;
      }
      if node in done {
        return true;
      }
      Enter(edges, done, active, order, stack, node);
      active := active + {node};
      stack := stack + [node];
      Descend(edges, done, active, order, path, node);
      ok := VisitEach(edges[node]);
      if ok {
        Finish(edges, done, before, order, path, node);
        active := active - {node};
        stack := stack[..|stack| - 1];
        done := done + {node};
        order := order + [node];
      }
    }

    /** One node after the other, from the same path. */
    method VisitEach(nodes: seq<Pin>) returns (ok: bool)
      requires Valid() && LeadsTo(edges, stack, nodes)
      modifies this
      ensures ok ==> Valid() && active == old(active) && stack == old(stack)
      ensures ok ==> old(done) <= done && forall i :: 0 <= i < |nodes| ==> nodes[i] in done
      ensures !ok ==> Cyclic(edges)
      decreases Room(edges, active), 1
    {
      hide Searching, IsPath, Cyclic, Room;
      var k := 0;
      while k < |nodes|
        invariant 0 <= k <= |nodes|
        invariant Valid() && active == old(active) && stack == old(stack)
        invariant old(done) <= done
        invariant forall i :: 0 <= i < k ==> nodes[i] in done
      {
        ok := Visit(nodes[k]);
        if !ok {
          return;
        }
        k := k + 1;
      }
      ok := true;
    }
  }

  lemma ActiveIsStack(g: Graph, done: set<Pin>, active: set<Pin>, order: seq<Pin>, stack: seq<Pin>)
    requires Searching(g, done, active, order, stack)
    ensures forall p :: p in active <==> p in stack
    ensures stack != [] ==> IsPath(g, stack)
  {
  }

  // The check of a publication

  lemma {:induction false} AllLinksOfAppend(groups: seq<seq<Link>>, group: seq<Link>)
    ensures AllLinks(groups + [group]) == AllLinks(groups) + group
  {
    if groups != [] {
      assert (groups + [group])[1..] == groups[1..] + [group];
      AllLinksOfAppend(groups[1..], group);
    }
  }

  predicate AllSound(affiliation: Pin, definitions: seq<Definition>) {
    forall d :: d in definitions ==> Sound(affiliation, definitions, d)
  }

  function LinkFault(affiliation: Pin, definitions: seq<Definition>, l: Link): Option<Fault> {
    if l.kind != affiliation then Some(WrongAffiliation)
    else if l.target !in Records(definitions) then Some(MissingTarget)
    else None
  }

  /** What is wrong with one owner: its first wrong Link, or else a repeated target. */
  ghost predicate IsOwnerFault(affiliation: Pin, definitions: seq<Definition>, owner: Definition, fault: Fault) {
    var links := AllLinks(owner.ownedLinks);
    || (exists i :: 0 <= i < |links| && LinkFault(affiliation, definitions, links[i]) == Some(fault)
          && forall j :: 0 <= j < i ==> LinkFault(affiliation, definitions, links[j]).None?)
    || (fault == DuplicateTarget && !NoRepeats(RefinesOf(owner))
          && forall i :: 0 <= i < |links| ==> LinkFault(affiliation, definitions, links[i]).None?)
  }

  /** The fault of the first owner that has one. */
  ghost predicate IsFirstFault(affiliation: Pin, definitions: seq<Definition>, fault: Fault) {
    exists k :: 0 <= k < |definitions| && IsOwnerFault(affiliation, definitions, definitions[k], fault)
      && forall j :: 0 <= j < k ==> Sound(affiliation, definitions, definitions[j])
  }

  /** Where a Link stands in the list of all. */
  lemma {:induction false} LinkStandsAt(groups: seq<seq<Link>>, g: nat, k: nat)
    requires g < |groups| && k < |groups[g]|
    ensures var before := AllLinks(groups[..g]) + groups[g][..k];
            |before| < |AllLinks(groups)| && before <= AllLinks(groups) && AllLinks(groups)[|before|] == groups[g][k]
  {
    if g == 0 {
      assert groups[..0] == [];
      assert AllLinks(groups) == groups[0] + AllLinks(groups[1..]);
    } else {
      LinkStandsAt(groups[1..], g - 1, k);
      assert groups[..g][1..] == groups[1..][..g - 1] && groups[1..][g - 1] == groups[g];
      assert AllLinks(groups[..g]) == groups[0] + AllLinks(groups[1..][..g - 1]);
    }
  }

  lemma WrongLinkIsFault(affiliation: Pin, definitions: seq<Definition>, owner: Definition, before: seq<Link>, l: Link)
    requires before < AllLinks(owner.ownedLinks) && AllLinks(owner.ownedLinks)[|before|] == l
    requires forall b :: b in before ==> LinkFault(affiliation, definitions, b).None?
    requires LinkFault(affiliation, definitions, l).Some?
    ensures !Sound(affiliation, definitions, owner)
    ensures IsOwnerFault(affiliation, definitions, owner, LinkFault(affiliation, definitions, l).value)
  {
    hide AllLinks;
    var links := AllLinks(owner.ownedLinks);
    assert forall j :: 0 <= j < |before| ==> links[j] == before[j] && before[j] in before;
    assert l in links && RefinesOf(owner)[|before|] == l.target;
  }

  lemma CleanLinks(affiliation: Pin, definitions: seq<Definition>, owner: Definition)
    requires forall l :: l in AllLinks(owner.ownedLinks) ==> LinkFault(affiliation, definitions, l).None?
    ensures Sound(affiliation, definitions, owner) <==> NoRepeats(RefinesOf(owner))
    ensures NoRepeats(RefinesOf(owner)) || IsOwnerFault(affiliation, definitions, owner, DuplicateTarget)
  {
    hide AllLinks, NoRepeats, Records;
    var links := AllLinks(owner.ownedLinks);
    assert forall i :: 0 <= i < |links| ==> links[i] in links;
  }

  /** The exact targets of one owner, in the order it lists its Links. */
  method TargetsOf(affiliation: Pin, definitions: seq<Definition>, owner: Definition)
    returns (r: Result<seq<Pin>, Fault>)
    ensures r.Ok? <==> Sound(affiliation, definitions, owner)
    ensures r.Ok? ==> r.value == RefinesOf(owner)
    ensures r.Err? ==> IsOwnerFault(affiliation, definitions, owner, r.error)
  {
    hide Records, IsOwnerFault, Sound, NoRepeats;
    var records := Records(definitions);
    var links: seq<Link> := [];
    for g := 0 to |owner.ownedLinks|
      invariant links == AllLinks(owner.ownedLinks[..g])
      invariant forall l :: l in links ==> LinkFault(affiliation, definitions, l).None?
    {
      var group := owner.ownedLinks[g];
      assert owner.ownedLinks[..g + 1] == owner.ownedLinks[..g] + [group];
      AllLinksOfAppend(owner.ownedLinks[..g], group);
      for k := 0 to |group|
        invariant links == AllLinks(owner.ownedLinks[..g]) + group[..k]
        invariant forall l :: l in links ==> LinkFault(affiliation, definitions, l).None?
      {
        if group[k].kind != affiliation || group[k].target !in records {
          LinkStandsAt(owner.ownedLinks, g, k);
          WrongLinkIsFault(affiliation, definitions, owner, links, group[k]);
          return Err(if group[k].kind != affiliation then WrongAffiliation else MissingTarget);
        }
        links := links + [group[k]];
      }
      assert group[..|group|] == group;
    }
    assert owner.ownedLinks[..|owner.ownedLinks|] == owner.ownedLinks;
    var targets := Targets(links);
    CleanLinks(affiliation, definitions, owner);
    if !NoRepeats(targets) {
      return Err(DuplicateTarget);
    }
    return Ok(targets);
  }

  lemma EdgesOfAppend(definitions: seq<Definition>, owner: Definition)
    ensures Edges(definitions + [owner]) == Edges(definitions)[owner.pin := RefinesOf(owner)]
  {
    hide RefinesOf;
    assert (definitions + [owner])[..|definitions|] == definitions;
    assert Records(definitions + [owner]) == Records(definitions)[owner.pin := owner];
  }

  lemma SoundIsClosed(affiliation: Pin, definitions: seq<Definition>)
    requires AllSound(affiliation, definitions)
    ensures Closed(Edges(definitions))
  {
    hide RefinesOf;
    forall p, t | p in Edges(definitions) && t in Edges(definitions)[p]
      ensures t in Edges(definitions)
    {
      assert Sound(affiliation, definitions, Records(definitions)[p]);
    }
  }

  /** The first loop: the edges of every owner. */
  method EdgesFrom(affiliation: Pin, definitions: seq<Definition>) returns (r: Result<Graph, Fault>)
    ensures r.Ok? <==> AllSound(affiliation, definitions)
    ensures r.Ok? ==> r.value == Edges(definitions)
    ensures r.Err? ==> r.error != Cycle && IsFirstFault(affiliation, definitions, r.error)
  {
    hide Sound, RefinesOf, Edges, AllSound, IsOwnerFault;
    NoEdges();
    var edges: Graph := map[];
    for i := 0 to |definitions|
      invariant edges == Edges(definitions[..i])
      invariant forall k :: 0 <= k < i ==> Sound(affiliation, definitions, definitions[k])
    {
      var targets := TargetsOf(affiliation, definitions, definitions[i]);
      if targets.Err? {
        AllSoundAt(affiliation, definitions, i);
        OwnersNeverCycle(affiliation, definitions, definitions[i], targets.error);
        return Err(targets.error);
      }
      assert definitions[..i + 1] == definitions[..i] + [definitions[i]];
      EdgesOfAppend(definitions[..i], definitions[i]);
      edges := edges[definitions[i].pin := targets.value];
    }
    assert definitions[..|definitions|] == definitions;
    AllSoundFrom(affiliation, definitions);
    return Ok(edges);
  }

  lemma OwnersNeverCycle(affiliation: Pin, definitions: seq<Definition>, owner: Definition, fault: Fault)
    ensures IsOwnerFault(affiliation, definitions, owner, fault) ==> fault != Cycle
  {
  }

  lemma AllSoundAt(affiliation: Pin, definitions: seq<Definition>, i: nat)
    requires i < |definitions|
    ensures AllSound(affiliation, definitions) ==> Sound(affiliation, definitions, definitions[i])
  {
  }

  lemma AllSoundFrom(affiliation: Pin, definitions: seq<Definition>)
    requires forall k :: 0 <= k < |definitions| ==> Sound(affiliation, definitions, definitions[k])
    ensures AllSound(affiliation, definitions)
  {
    hide Sound;
  }

  /**
   * A publication is accepted exactly when every owner's Links are sound and the exact Refines relation has no
   * cycle; a cycle is reported only when it is the one thing wrong, and otherwise the first wrong Link or owner.
   */
  method CheckRefinesGraph(affiliation: Pin, definitions: seq<Definition>) returns (fault: Option<Fault>)
    ensures fault.None? <==> AllSound(affiliation, definitions) && !Cyclic(Edges(definitions))
    ensures fault == Some(Cycle) <==> AllSound(affiliation, definitions) && Cyclic(Edges(definitions))
    ensures !AllSound(affiliation, definitions) ==> fault.Some? && IsFirstFault(affiliation, definitions, fault.value)
  {
    hide IsFirstFault, AllSound, Cyclic, Edges, Closed;
    var edges := EdgesFrom(affiliation, definitions);
    if edges.Err? {
      return Some(edges.error);
    }
    SoundIsClosed(affiliation, definitions);
    var acyclic := SearchAll(edges.value);
    return if acyclic then None else Some(Cycle);
  }

  lemma NoEdges()
    ensures Edges([]) == map[]
  {
  }

  /** The visit of every node, in whatever order the dictionary lists them. */
  method SearchAll(edges: Graph) returns (acyclic: bool)
    requires Closed(edges)
    ensures acyclic <==> !Cyclic(edges)
  {
    hide Cyclic, Searching;
    var search := new Search(edges);
    var todo := edges.Keys;
    while todo != {}
      invariant fresh(search) && search.edges == edges
      invariant search.Valid() && search.active == {} && search.stack == []
      invariant todo <= edges.Keys && edges.Keys - todo <= search.done
      decreases |todo|
    {
      var node :| node in todo;
      assert IsPath(edges, [] + [node]);
      var ok := search.Visit(node);
      if !ok {
        return false;
      }
      todo := todo - {node};
    }
    AllDone(edges, search.done, search.active, search.order, search.stack);
    return true;
  }

  lemma AllDone(g: Graph, done: set<Pin>, active: set<Pin>, order: seq<Pin>, stack: seq<Pin>)
    requires Searching(g, done, active, order, stack) && g.Keys <= done
    ensures !Cyclic(g)
  {
    FinishedIsAcyclic(g, order);
  }

  // The exact closure

  /** What a definition refers to exactly: its metatype, and the Type and target of each Link it owns. */
  function References(d: Definition): seq<Pin> {
    [d.metatype] + LinkReferences(AllLinks(d.ownedLinks))
  }

  function LinkReferences(links: seq<Link>): seq<Pin> {
    if links == [] then [] else [links[0].kind, links[0].target] + LinkReferences(links[1..])
  }

  predicate IsWalk(records: map<Pin, Definition>, path: seq<Pin>) {
    && path != []
    && forall i :: 0 <= i < |path| - 1 ==> path[i] in records && path[i + 1] in References(records[path[i]])
  }

  ghost predicate Reachable(records: map<Pin, Definition>, start: Pin, p: Pin) {
    exists path :: IsWalk(records, path) && path[0] == start && path[|path| - 1] == p
  }

  lemma ReachableStart(records: map<Pin, Definition>, start: Pin)
    ensures Reachable(records, start, start)
  {
    assert IsWalk(records, [start]);
  }

  lemma ReachableStep(records: map<Pin, Definition>, start: Pin, p: Pin, q: Pin)
    requires Reachable(records, start, p) && p in records && q in References(records[p])
    ensures Reachable(records, start, q)
  {
    hide References;
    var path :| IsWalk(records, path) && path[0] == start && path[|path| - 1] == p;
    var longer := path + [q];
    forall i | 0 <= i < |longer| - 1
      ensures longer[i] in records && longer[i + 1] in References(records[longer[i]])
    {
      if i < |path| - 1 {
        assert path[i + 1] in References(records[path[i]]);
      }
    }
    assert IsWalk(records, longer);
  }

  /** A set that holds the start and everything its members refer to holds all that is reachable. */
  lemma {:induction false} ClosedSetHolds(records: map<Pin, Definition>, s: set<Pin>, path: seq<Pin>)
    requires IsWalk(records, path) && path[0] in s
    requires forall p, q :: p in s && p in records && q in References(records[p]) ==> q in s
    ensures path[|path| - 1] in s
    decreases |path|
  {
    hide References;
    if |path| > 1 {
      assert path[1] in References(records[path[0]]);
      assert IsWalk(records, path[1..]) by {
        forall i | 0 <= i < |path[1..]| - 1
          ensures path[1..][i] in records && path[1..][i + 1] in References(records[path[1..][i]])
        {
          assert path[1..][i] == path[i + 1] && path[1..][i + 1] == path[i + 2];
        }
      }
      ClosedSetHolds(records, s, path[1..]);
    }
  }

  ghost predicate Walking(records: map<Pin, Definition>, start: Pin, visited: set<Pin>, pending: seq<Pin>) {
    && visited <= records.Keys
    && (forall p :: p in pending || p in visited ==> Reachable(records, start, p))
    && (start in pending || start in visited)
    && (forall p, q :: p in visited && q in References(records[p]) ==> q in visited || q in pending)
  }

  lemma WalkingSkips(records: map<Pin, Definition>, start: Pin, visited: set<Pin>, pending: seq<Pin>, key: Pin)
    requires Walking(records, start, visited, pending + [key])
    ensures Reachable(records, start, key)
    ensures key in visited ==> Walking(records, start, visited, pending)
  {
    hide References, Reachable;
    assert key in pending + [key];
    assert forall p :: p in pending ==> p in pending + [key];
  }

  lemma WalkingVisits(records: map<Pin, Definition>, start: Pin, visited: set<Pin>, pending: seq<Pin>, key: Pin)
    requires Walking(records, start, visited, pending + [key])
    requires key in records && key !in visited
    ensures Walking(records, start, visited + {key}, pending + References(records[key]))
    ensures |records.Keys - (visited + {key})| < |records.Keys - visited|
  {
    hide References, Reachable;
    assert key in pending + [key];
    assert forall p :: p in pending ==> p in pending + [key];
    forall q | q in References(records[key])
      ensures Reachable(records, start, q)
    {
      ReachableStep(records, start, key, q);
    }
    assert records.Keys - visited == (records.Keys - (visited + {key})) + {key};
  }

  /** The walk returns exactly what is reachable, and fails exactly when something reachable is not recorded. */
  method ExactWalk(definitions: seq<Definition>, start: Pin) returns (r: Result<set<Pin>, Fault>)
    ensures r.Ok? ==> forall p :: p in r.value <==> Reachable(Records(definitions), start, p)
    ensures r.Ok? <==> forall p :: Reachable(Records(definitions), start, p) ==> p in Records(definitions)
  {
    hide Reachable, References, Records, Walking;
    var records := Records(definitions);
    var pending, visited: set<Pin> := [start], {};
    WalkBegins(records, start);
    while pending != []
      invariant Walking(records, start, visited, pending)
      decreases |records.Keys - visited|, |pending|
    {
      var key := pending[|pending| - 1];
      assert pending == pending[..|pending| - 1] + [key];
      pending := pending[..|pending| - 1];
      WalkingSkips(records, start, visited, pending, key);
      if key !in visited {
        if key !in records {
          assert Reachable(Records(definitions), start, key) && key !in Records(definitions);
          return Err(MissingDefinition);
        }
        WalkingVisits(records, start, visited, pending, key);
        visited := visited + {key};
        pending := pending + References(records[key]);
      }
    }
    WalkEnds(records, visited, start);
    return Ok(visited);
  }

  lemma WalkBegins(records: map<Pin, Definition>, start: Pin)
    ensures Walking(records, start, {}, [start])
  {
    ReachableStart(records, start);
  }

  lemma WalkEnds(records: map<Pin, Definition>, visited: set<Pin>, start: Pin)
    requires Walking(records, start, visited, [])
    ensures forall p :: p in visited <==> Reachable(records, start, p)
    ensures visited <= records.Keys
  {
    hide References;
    forall p | Reachable(records, start, p)
      ensures p in visited
    {
      var path :| IsWalk(records, path) && path[0] == start && path[|path| - 1] == p;
      ClosedSetHolds(records, visited, path);
    }
  }

  // The relations on the records themselves

  /** The definition owns a Link of the kind to the target. */
  predicate Owns(d: Definition, kind: Pin, target: Pin) {
    exists g, k :: 0 <= g < |d.ownedLinks| && 0 <= k < |d.ownedLinks[g]| && d.ownedLinks[g][k] == Link(kind, target)
  }

  lemma {:induction false} AllLinksAreOwned(groups: seq<seq<Link>>, l: Link) returns (g: nat, k: nat)
    requires l in AllLinks(groups)
    ensures g < |groups| && k < |groups[g]| && groups[g][k] == l
  {
    if l in groups[0] {
      g := 0;
      k :| 0 <= k < |groups[0]| && groups[0][k] == l;
    } else {
      g, k := AllLinksAreOwned(groups[1..], l);
      g := g + 1;
    }
  }

  lemma OwnedLinksAreAll(d: Definition, l: Link)
    ensures l in AllLinks(d.ownedLinks) <==> Owns(d, l.kind, l.target)
  {
    if l in AllLinks(d.ownedLinks) {
      var g, k := AllLinksAreOwned(d.ownedLinks, l);
      assert d.ownedLinks[g][k] == Link(l.kind, l.target);
    }
    if g, k :| 0 <= g < |d.ownedLinks| && 0 <= k < |d.ownedLinks[g]| && d.ownedLinks[g][k] == Link(l.kind, l.target) {
      LinkStandsAt(d.ownedLinks, g, k);
    }
  }

  /** The record is the last one of its pin. */
  predicate IsLastRecord(definitions: seq<Definition>, d: Definition) {
    exists i :: 0 <= i < |definitions| && definitions[i] == d
      && forall j :: i < j < |definitions| ==> definitions[j].pin != d.pin
  }

  lemma LastBeforeAnother(front: seq<Definition>, last: Definition, d: Definition)
    requires IsLastRecord(front, d) && last.pin != d.pin
    ensures IsLastRecord(front + [last], d)
  {
    var i :| 0 <= i < |front| && front[i] == d && forall j :: i < j < |front| ==> front[j].pin != d.pin;
    assert (front + [last])[i] == d;
  }

  lemma LastOfAll(front: seq<Definition>, last: Definition)
    ensures IsLastRecord(front + [last], last)
  {
    assert (front + [last])[|front|] == last;
  }

  /** Under each pin the table holds the last definition listed. */
  lemma {:induction false} RecordsAreLast(definitions: seq<Definition>, p: Pin)
    requires p in Records(definitions)
    ensures IsLastRecord(definitions, Records(definitions)[p])
  {
    hide IsLastRecord;
    var n := |definitions| - 1;
    assert definitions == definitions[..n] + [definitions[n]];
    if definitions[n].pin == p {
      LastOfAll(definitions[..n], definitions[n]);
    } else {
      RecordsAreLast(definitions[..n], p);
      LastBeforeAnother(definitions[..n], definitions[n], Records(definitions[..n])[p]);
    }
  }

  /** The edges of the graph are the targets of the Links owned by the recorded definitions. */
  lemma EdgesAreOwned(definitions: seq<Definition>, p: Pin, t: Pin)
    ensures (p in Edges(definitions) && t in Edges(definitions)[p]) <==>
              p in Records(definitions) && exists kind :: Owns(Records(definitions)[p], kind, t)
  {
    hide Owns, AllLinks;
    if p in Records(definitions) {
      var d := Records(definitions)[p];
      var links := AllLinks(d.ownedLinks);
      if t in RefinesOf(d) {
        var i :| 0 <= i < |RefinesOf(d)| && RefinesOf(d)[i] == t;
        assert links[i] in links;
        OwnedLinksAreAll(d, links[i]);
      }
      if kind :| Owns(d, kind, t) {
        OwnedLinksAreAll(d, Link(kind, t));
        var i :| 0 <= i < |links| && links[i] == Link(kind, t);
        assert RefinesOf(d)[i] == t;
      }
    }
  }

  /** A definition refers to its metatype, and to the kind and the target of each Link it owns. */
  lemma ReferencesAreExact(d: Definition, p: Pin)
    ensures p in References(d) <==> p == d.metatype || exists q :: Owns(d, p, q) || Owns(d, q, p)
  {
    hide Owns, AllLinks;
    LinkReferencesAreExact(AllLinks(d.ownedLinks), p);
    if l :| l in AllLinks(d.ownedLinks) && (l.kind == p || l.target == p) {
      OwnedLinksAreAll(d, l);
    }
    if q :| Owns(d, p, q) || Owns(d, q, p) {
      OwnedLinksAreAll(d, Link(p, q));
      OwnedLinksAreAll(d, Link(q, p));
    }
  }

  lemma {:induction false} LinkReferencesAreExact(links: seq<Link>, p: Pin)
    ensures p in LinkReferences(links) <==> exists l :: l in links && (l.kind == p || l.target == p)
  {
    if links != [] {
      LinkReferencesAreExact(links[1..], p);
      assert links == [links[0]] + links[1..];
    }
  }

  /** An owner is sound when all its Links are of the kind and lead to recorded definitions, each only once. */
  lemma SoundIsExact(affiliation: Pin, definitions: seq<Definition>, d: Definition)
    ensures Sound(affiliation, definitions, d) <==>
              && (forall kind, t :: Owns(d, kind, t) ==>
                    kind == affiliation && exists e :: e in definitions && e.pin == t)
              && NoRepeats(RefinesOf(d))
  {
    hide Owns, AllLinks, NoRepeats;
    var links := AllLinks(d.ownedLinks);
    forall kind, t ensures Link(kind, t) in links <==> Owns(d, kind, t) { OwnedLinksAreAll(d, Link(kind, t)); }
    forall l ensures l in links <==> Owns(d, l.kind, l.target) { OwnedLinksAreAll(d, l); }
    assert forall t :: t in Records(definitions) <==> exists e :: e in definitions && e.pin == t;
    assert forall i :: 0 <= i < |links| ==> RefinesOf(d)[i] == links[i].target && links[i] in links;
    assert forall l :: l in links ==> l.target in RefinesOf(d) by {
      forall l | l in links ensures l.target in RefinesOf(d) {
        var i :| 0 <= i < |links| && links[i] == l;
        assert RefinesOf(d)[i] == l.target;
      }
    }
    assert forall t :: t in RefinesOf(d) ==> exists l :: l in links && l.target == t;
  }
}
