/**
 * The traversal that gathers what the readiness list is made of: the inventory, the outbound Links of each Bead, and
 * the in-Scope blockers those Links name, all under one budget.
 */
module ReadinessTraversal {
  import opened Outcomes
  import opened PageChains
  import opened Readiness
  import opened Sorting
  import opened Texts

  const NOT_FOUND: Text :=
    [114, 101, 115, 111, 117, 114, 99, 101, 45, 110, 111, 116, 45, 102, 111, 117, 110, 100]

  const FULL: Ledger := Ledger(MAXIMUM_READINESS_ITEMS, MAXIMUM_READINESS_REQUESTS, [])

  datatype Server = Server(
    discover: Result<Text, Text>,
    beads: Pager<Bead>,
    links: (nat, Text, Option<Text>) -> PageOr<Link>,
    bead: (nat, Text) -> Result<Bead, Text>)

  /** The client refuses a record under another identity than the requested one. */
  ghost predicate Validated(server: Server) {
    forall t, id :: server.bead(t, id).Ok? ==> server.bead(t, id).value.id == id
  }

  function LinksOf(server: Server, id: Text): Pager<Link> {
    (t: nat, continuation: Option<Text>) => server.links(t, id, continuation)
  }

  // The steps

  /** Each record with all pages of its outbound Links. */
  function WithLinks(server: Server, l: Ledger, beads: seq<Bead>): Walk<Bead>
    decreases |beads|
  {
    if beads == [] then
      Walk(Ok([]), l)
    else
      var w := Follow(LinksOf(server, beads[0].id), Some(beads[0].id), l, None, {}, 0);
      match w.result
      case Err(stop) => Walk(Err(stop), w.ledger)
      case Ok(links) => Behind([beads[0].(links := Some(links))], WithLinks(server, w.ledger, beads[1..]))
  }

  predicate IsMissing(l: Link, kind: Text, scope: Text, known: set<Text>) {
    l.kind == kind && scope <= l.target && l.target !in known
  }

  /** The in-Scope blockers nobody has seen yet, each once, in order of first mention. */
  function MissingTargets(links: seq<Link>, kind: Text, scope: Text, known: set<Text>): (r: seq<Text>)
    ensures forall id :: id in r <==> exists l :: l in links && l.target == id && IsMissing(l, kind, scope, known)
    ensures forall i, j :: 0 <= i < j < |r| ==> r[i] != r[j]
  {
    if links == [] then
      []
    else
      var n := |links| - 1;
      var front := MissingTargets(links[..n], kind, scope, known);
      assert links == links[..n] + [links[n]];
      if IsMissing(links[n], kind, scope, known) && links[n].target !in front then front + [links[n].target] else front
  }

  /** The blockers are asked for in order of first mention. */
  lemma {:induction false} MissingInOrder(links: seq<Link>, n: nat, kind: Text, scope: Text, known: set<Text>)
    requires n <= |links|
    ensures MissingTargets(links[..n], kind, scope, known) <= MissingTargets(links, kind, scope, known)
    decreases |links|
  {
    if n < |links| {
      MissingInOrder(links[..|links| - 1], n, kind, scope, known);
      assert links[..|links| - 1][..n] == links[..n];
    } else {
      assert links[..n] == links;
    }
  }

  function AllLinks(beads: seq<Bead>): (r: seq<Link>)
    ensures forall l :: l in r <==> exists b :: b in beads && b.links.Some? && l in b.links.value
  {
    if beads == [] then
      []
    else
      var n := |beads| - 1;
      assert beads == beads[..n] + [beads[n]];
      AllLinks(beads[..n]) + (if beads[n].links.Some? then beads[n].links.value else [])
  }

  /** The in-Scope blockers named by the inventory's Links and not in it. */
  function Missing(server: Server, kind: Text, inventory: seq<Bead>): seq<Text>
    requires server.discover.Ok?
  {
    MissingTargets(AllLinks(inventory), kind, server.discover.value, Ids(inventory))
  }

  function Fetch(server: Server, l: Ledger, ids: seq<Text>): Walk<Bead>
    decreases |ids|
  {
    if ids == [] then
      Walk(Ok([]), l)
    else if l.requests == 0 then
      Walk(Err(TooManyRequests), l)
    else
      var asked := Asked(l, BeadOf(ids[0]));
      match server.bead(|l.log|, ids[0])
      case Err(code) =>
        if code == NOT_FOUND then Fetch(server, asked, ids[1..]) else Walk(Err(Reported(code)), asked)
      case Ok(b) =>
        if asked.items < 1 then Walk(Err(TooManyItems), asked)
        else Behind([b], Fetch(server, Paid(asked, 1), ids[1..]))
  }

  /** The inventory with its Links and the fetched blockers, or why the traversal stopped. */
  function Gather(server: Server, kind: Text): (Result<Gathered, Stop>, Ledger) {
    if server.discover.Err? then
      (Err(Reported(server.discover.error)), FULL)
    else
      var listed := Follow(server.beads, None, FULL, None, {}, 0);
      if listed.result.Err? then
        (Err(listed.result.error), listed.ledger)
      else
        var linked := WithLinks(server, listed.ledger, listed.result.value);
        if linked.result.Err? then
          (Err(linked.result.error), linked.ledger)
        else
          var inventory := linked.result.value;
          var fetched := Fetch(server, linked.ledger, Missing(server, kind, inventory));
          if fetched.result.Err? then (Err(fetched.result.error), fetched.ledger)
          else (Ok(Gathered(inventory, fetched.result.value)), fetched.ledger)
  }

  // The Links of an inventory, chain by chain

  type LinkChains = seq<seq<PageOr<Link>>>

  function Pages(chains: LinkChains): nat {
    if chains == [] then 0 else |chains[0]| + Pages(chains[1..])
  }

  function LinkCount(chains: LinkChains): nat {
    if chains == [] then 0 else |ItemsOf(chains[0])| + LinkCount(chains[1..])
  }

  /** The chains of the Links of each record, read one after the other without a pause. */
  ghost predicate AreLinkChains(server: Server, time: nat, beads: seq<Bead>, chains: LinkChains)
    requires |chains| == |beads|
  {
    forall i :: 0 <= i < |beads| ==>
      IsChain(LinksOf(server, beads[i].id), time + Pages(chains[..i]), None, chains[i])
  }

  /** A chain as the page loop accepts it, whatever the budget: not too long, and no continuation named twice. */
  predicate IsAccepted<T>(served: seq<PageOr<T>>) {
    MakesProgress(Followed(None, served), {}) && |served| <= MAXIMUM_READINESS_PAGES
  }

  predicate CanAffordLinks(l: Ledger, chains: LinkChains) {
    && (forall i :: 0 <= i < |chains| ==> IsAccepted(chains[i]))
    && Pages(chains) <= l.requests
    && LinkCount(chains) <= l.items
  }

  /** The records with the Links of their chains. */
  function Linked(beads: seq<Bead>, chains: LinkChains): (r: seq<Bead>)
    requires |chains| == |beads|
    ensures |r| == |beads|
    ensures forall i :: 0 <= i < |beads| ==> r[i] == beads[i].(links := Some(ItemsOf(chains[i])))
  {
    if beads == [] then
      []
    else
      [beads[0].(links := Some(ItemsOf(chains[0])))] + Linked(beads[1..], chains[1..])
  }

  function LinkQuestions(beads: seq<Bead>, chains: LinkChains): (r: seq<Question>)
    requires |chains| == |beads|
    ensures |r| == Pages(chains)
  {
    if beads == [] then []
    else Questions(Some(beads[0].id), None, chains[0]) + LinkQuestions(beads[1..], chains[1..])
  }

  function LinksSpent(l: Ledger, beads: seq<Bead>, chains: LinkChains): Ledger
    requires |chains| == |beads| && Pages(chains) <= l.requests && LinkCount(chains) <= l.items
  {
    Ledger(l.items - LinkCount(chains), l.requests - Pages(chains), l.log + LinkQuestions(beads, chains))
  }

  lemma LinksStep(server: Server, l: Ledger, beads: seq<Bead>, chains: LinkChains)
    requires beads != [] && |chains| == |beads|
    ensures AreLinkChains(server, |l.log|, beads, chains) && CanAffordLinks(l, chains) <==>
              && IsChain(LinksOf(server, beads[0].id), |l.log|, None, chains[0])
              && Affordable(l, None, {}, 0, chains[0])
              && var next := Spent(l, Some(beads[0].id), None, chains[0]);
                 AreLinkChains(server, |next.log|, beads[1..], chains[1..]) && CanAffordLinks(next, chains[1..])
  {
    hide IsChain, MakesProgress, Followed, ItemsOf, Questions;
    assert chains[..0] == [] && Pages([]) == 0;
    forall i | 0 <= i < |beads| - 1
      ensures chains[1..][i] == chains[i + 1] && beads[1..][i] == beads[i + 1]
      ensures Pages(chains[..i + 1]) == |chains[0]| + Pages(chains[1..][..i])
    {
      assert chains[..i + 1][1..] == chains[1..][..i];
    }
    assert forall i :: 0 < i < |beads| ==> chains[i] == chains[1..][i - 1] && beads[i] == beads[1..][i - 1]
                                           && Pages(chains[..i]) == |chains[0]| + Pages(chains[1..][..i - 1]);
  }

  lemma LinksSpentStep(l: Ledger, beads: seq<Bead>, chains: LinkChains)
    requires beads != [] && |chains| == |beads| && CanAffordLinks(l, chains)
    ensures Affordable(l, None, {}, 0, chains[0])
    ensures var next := Spent(l, Some(beads[0].id), None, chains[0]);
            && CanAffordLinks(next, chains[1..])
            && LinksSpent(l, beads, chains) == LinksSpent(next, beads[1..], chains[1..])
  {
    hide MakesProgress, Followed, ItemsOf, Questions;
    assert forall i :: 0 < i < |beads| ==> chains[i] == chains[1..][i - 1];
  }

  /** Chains that are accepted and within the budget are read, all of them, and paid for exactly. */
  lemma {:induction false} WithLinksTakesChains(server: Server, l: Ledger, beads: seq<Bead>, chains: LinkChains)
    requires |chains| == |beads|
    requires AreLinkChains(server, |l.log|, beads, chains) && CanAffordLinks(l, chains)
    ensures WithLinks(server, l, beads) == Walk(Ok(Linked(beads, chains)), LinksSpent(l, beads, chains))
    decreases |beads|
  {
    hide IsChain, Affordable, Follow, Spent, IsAccepted;
    if beads == [] {
      assert l.log + [] == l.log;
    } else {
      LinksStep(server, l, beads, chains);
      LinksSpentStep(l, beads, chains);
      var next := Spent(l, Some(beads[0].id), None, chains[0]);
      FollowTakesTheChain(LinksOf(server, beads[0].id), Some(beads[0].id), l, None, {}, 0, chains[0]);
      WithLinksTakesChains(server, next, beads[1..], chains[1..]);
    }
  }

  /** Links that were all read came in such chains. */
  lemma {:induction false} WithLinksReadsChains(server: Server, l: Ledger, beads: seq<Bead>)
    returns (chains: LinkChains)
    requires WithLinks(server, l, beads).result.Ok?
    ensures |chains| == |beads|
    ensures AreLinkChains(server, |l.log|, beads, chains) && CanAffordLinks(l, chains)
    decreases |beads|
  {
    hide IsChain, Affordable, Follow, Spent, IsAccepted, AreLinkChains, CanAffordLinks;
    if beads == [] {
      chains := [];
      NoLinkChains(server, l);
    } else {
      var links := LinksOf(server, beads[0].id);
      var served := FollowReadsAChain(links, Some(beads[0].id), l, None, {}, 0);
      FollowTakesTheChain(links, Some(beads[0].id), l, None, {}, 0, served);
      assert |served| <= l.requests && |ItemsOf(served)| <= l.items by { AffordableMeans(l, served); }
      var rest := WithLinksReadsChains(server, Spent(l, Some(beads[0].id), None, served), beads[1..]);
      chains := [served] + rest;
      assert chains[1..] == rest;
      LinksStep(server, l, beads, chains);
    }
  }

  lemma NoLinkChains(server: Server, l: Ledger)
    ensures AreLinkChains(server, |l.log|, [], []) && CanAffordLinks(l, [])
  {
  }

  lemma AffordableMeans<T>(l: Ledger, served: seq<PageOr<T>>)
    requires Affordable(l, None, {}, 0, served)
    ensures |served| <= l.requests && |ItemsOf(served)| <= l.items
  {
  }

  lemma {:induction false} WithLinksIsBalanced(server: Server, l: Ledger, beads: seq<Bead>)
    ensures Balanced(l, WithLinks(server, l, beads).ledger)
    decreases |beads|
  {
    hide Follow;
    if beads != [] {
      var w := Follow(LinksOf(server, beads[0].id), Some(beads[0].id), l, None, {}, 0);
      FollowIsBalanced(LinksOf(server, beads[0].id), Some(beads[0].id), l, None, {}, 0);
      WithLinksIsBalanced(server, w.ledger, beads[1..]);
    }
  }

  // The blockers outside the inventory, answer by answer

  /** What the server answers when it is asked for the Beads one after the other. */
  function Answers(server: Server, time: nat, ids: seq<Text>): (r: seq<Result<Bead, Text>>)
    ensures |r| == |ids| && forall i :: 0 <= i < |ids| ==> r[i] == server.bead(time + i, ids[i])
    decreases |ids|
  {
    if ids == [] then [] else [server.bead(time, ids[0])] + Answers(server, time + 1, ids[1..])
  }

  /** Every Bead was given, or is not there. */
  predicate AreSettled(answers: seq<Result<Bead, Text>>) {
    forall i :: 0 <= i < |answers| ==> answers[i].Ok? || answers[i].error == NOT_FOUND
  }

  /** The Beads that were given, in order. */
  function Found(answers: seq<Result<Bead, Text>>): (r: seq<Bead>)
    ensures |r| <= |answers|
  {
    if answers == [] then []
    else (if answers[0].Ok? then [answers[0].value] else []) + Found(answers[1..])
  }

  function BeadQuestions(ids: seq<Text>): (r: seq<Question>)
    ensures |r| == |ids| && forall i :: 0 <= i < |ids| ==> r[i] == BeadOf(ids[i])
  {
    if ids == [] then [] else [BeadOf(ids[0])] + BeadQuestions(ids[1..])
  }

  /** The books after the Beads were asked for and the found ones kept. */
  function FetchSpent(l: Ledger, ids: seq<Text>, found: nat): Ledger
    requires |ids| <= l.requests && found <= l.items
  {
    Ledger(l.items - found, l.requests - |ids|, l.log + BeadQuestions(ids))
  }

  /**
   * All blockers are gathered exactly when the server gives each of them or reports it as not found, and the budget
   * lasts: a request for each Bead asked for, and an item for each Bead found.
   */
  lemma {:induction false} FetchIsExact(server: Server, l: Ledger, ids: seq<Text>)
    ensures var answers := Answers(server, |l.log|, ids);
            var w := Fetch(server, l, ids);
            && (w.result.Ok? <==> AreSettled(answers) && |ids| <= l.requests && |Found(answers)| <= l.items)
            && (w.result.Ok? ==> w == Walk(Ok(Found(answers)), FetchSpent(l, ids, |Found(answers)|)))
    decreases |ids|
  {
    hide Answers, AreSettled, Found, FetchSpent, BeadQuestions;
    if ids == [] {
      NothingToFetch(server, l);
    } else if l.requests > 0 {
      var first := server.bead(|l.log|, ids[0]);
      var asked := Asked(l, BeadOf(ids[0]));
      AnswersStep(server, |l.log|, ids);
      if first.Ok? && l.items > 0 {
        FetchIsExact(server, Paid(asked, 1), ids[1..]);
        FetchSpentStep(l, ids, 1, |Found(Answers(server, |l.log| + 1, ids[1..]))|);
      } else if first.Err? && first.error == NOT_FOUND {
        FetchIsExact(server, asked, ids[1..]);
        FetchSpentStep(l, ids, 0, |Found(Answers(server, |l.log| + 1, ids[1..]))|);
      }
    }
  }

  lemma NothingToFetch(server: Server, l: Ledger)
    ensures var answers := Answers(server, |l.log|, []);
            answers == [] && AreSettled([]) && Found([]) == [] && FetchSpent(l, [], 0) == l
  {
    assert l.log + [] == l.log;
  }

  lemma AnswersStep(server: Server, time: nat, ids: seq<Text>)
    requires ids != []
    ensures var first := server.bead(time, ids[0]);
            var answers := Answers(server, time, ids);
            var rest := Answers(server, time + 1, ids[1..]);
            && (AreSettled(answers) <==> (first.Ok? || first.error == NOT_FOUND) && AreSettled(rest))
            && Found(answers) == if first.Ok? then [first.value] + Found(rest) else Found(rest)
  {
    SettledStep(Answers(server, time, ids));
  }

  lemma FetchSpentStep(l: Ledger, ids: seq<Text>, first: nat, rest: nat)
    requires ids != [] && l.requests > 0 && first <= l.items
    ensures |ids| <= l.requests && first + rest <= l.items ==>
              FetchSpent(l, ids, first + rest)
              == FetchSpent(Paid(Asked(l, BeadOf(ids[0])), first), ids[1..], rest)
  {
    assert l.log + BeadQuestions(ids) == l.log + [BeadOf(ids[0])] + BeadQuestions(ids[1..]);
  }

  lemma SettledStep(answers: seq<Result<Bead, Text>>)
    requires answers != []
    ensures AreSettled(answers) <==> (answers[0].Ok? || answers[0].error == NOT_FOUND) && AreSettled(answers[1..])
  {
    assert forall i :: 0 < i < |answers| ==> answers[i] == answers[1..][i - 1];
  }

  lemma {:induction false} FetchIsBalanced(server: Server, l: Ledger, ids: seq<Text>)
    ensures Balanced(l, Fetch(server, l, ids).ledger)
    decreases |ids|
  {
    if ids != [] && l.requests > 0 {
      var asked := Asked(l, BeadOf(ids[0]));
      FetchIsBalanced(server, asked, ids[1..]);
      if l.items > 0 {
        FetchIsBalanced(server, Paid(asked, 1), ids[1..]);
      }
    }
  }

  // The whole traversal

  /** One traversal as the server answered it: the pages of the inventory, then those of each record's Links. */
  datatype Reading = Reading(listed: seq<PageOr<Bead>>, chains: LinkChains)

  /** The pages come one after the other without a pause, each list of Links for the record that was listed. */
  ghost predicate IsReading(server: Server, r: Reading) {
    && IsChain(server.beads, 0, None, r.listed) && IsAccepted(r.listed)
    && |r.chains| == |ItemsOf(r.listed)| && AreLinkChains(server, |r.listed|, ItemsOf(r.listed), r.chains)
    && forall i :: 0 <= i < |r.chains| ==> IsAccepted(r.chains[i])
  }

  /** The listed records, each with the Links listed for it. */
  function Inventory(r: Reading): seq<Bead>
    requires |r.chains| == |ItemsOf(r.listed)|
  {
    Linked(ItemsOf(r.listed), r.chains)
  }

  /** What the server answers after the last page when it is asked for the missing blockers. */
  function Replies(server: Server, kind: Text, r: Reading): (a: seq<Result<Bead, Text>>)
    requires server.discover.Ok? && |r.chains| == |ItemsOf(r.listed)|
    ensures |a| == |Missing(server, kind, Inventory(r))|
  {
    Answers(server, |r.listed| + Pages(r.chains), Missing(server, kind, Inventory(r)))
  }

  function Requests(server: Server, kind: Text, r: Reading): nat
    requires server.discover.Ok? && |r.chains| == |ItemsOf(r.listed)|
  {
    |r.listed| + Pages(r.chains) + |Missing(server, kind, Inventory(r))|
  }

  function Items(server: Server, kind: Text, r: Reading): nat
    requires server.discover.Ok? && |r.chains| == |ItemsOf(r.listed)|
  {
    |ItemsOf(r.listed)| + LinkCount(r.chains) + |Found(Replies(server, kind, r))|
  }

  function Log(server: Server, kind: Text, r: Reading): (log: seq<Question>)
    requires server.discover.Ok? && |r.chains| == |ItemsOf(r.listed)|
    ensures |log| == Requests(server, kind, r)
  {
    Questions(None, None, r.listed) + LinkQuestions(ItemsOf(r.listed), r.chains)
    + BeadQuestions(Missing(server, kind, Inventory(r)))
  }

  /** A reading that succeeds: every missing blocker is given or not there, and the budget lasts. */
  ghost predicate Traverses(server: Server, kind: Text, r: Reading) {
    && server.discover.Ok? && IsReading(server, r) && AreSettled(Replies(server, kind, r))
    && Requests(server, kind, r) <= MAXIMUM_READINESS_REQUESTS
    && Items(server, kind, r) <= MAXIMUM_READINESS_ITEMS
  }

  function Yield(server: Server, kind: Text, r: Reading): Gathered
    requires server.discover.Ok? && |r.chains| == |ItemsOf(r.listed)|
  {
    Gathered(Inventory(r), Found(Replies(server, kind, r)))
  }

  function Left(server: Server, kind: Text, r: Reading): Ledger
    requires server.discover.Ok? && |r.chains| == |ItemsOf(r.listed)|
    requires Requests(server, kind, r) <= MAXIMUM_READINESS_REQUESTS
    requires Items(server, kind, r) <= MAXIMUM_READINESS_ITEMS
  {
    Ledger(MAXIMUM_READINESS_ITEMS - Items(server, kind, r), MAXIMUM_READINESS_REQUESTS - Requests(server, kind, r),
           Log(server, kind, r))
  }

  /** The pages of the reading are within the budget. */
  predicate CanAffordPages(r: Reading) {
    && |r.listed| + Pages(r.chains) <= MAXIMUM_READINESS_REQUESTS
    && |ItemsOf(r.listed)| + LinkCount(r.chains) <= MAXIMUM_READINESS_ITEMS
  }

  /** The books after the last page. */
  function PagesSpent(r: Reading): Ledger
    requires |r.chains| == |ItemsOf(r.listed)| && CanAffordPages(r)
  {
    LinksSpent(Spent(FULL, None, None, r.listed), ItemsOf(r.listed), r.chains)
  }

  /** With the pages read, only the blockers are left to be fetched. */
  lemma GatherReadsThePages(server: Server, kind: Text, r: Reading)
    requires server.discover.Ok? && IsReading(server, r) && CanAffordPages(r)
    ensures var w := Fetch(server, PagesSpent(r), Missing(server, kind, Inventory(r)));
            Gather(server, kind)
            == (if w.result.Ok? then Ok(Gathered(Inventory(r), w.result.value)) else Err(w.result.error), w.ledger)
  {
    hide IsChain, AreLinkChains, MakesProgress, Follow, WithLinks, Fetch, Missing, Questions, LinkQuestions;
    FollowTakesTheChain(server.beads, None, FULL, None, {}, 0, r.listed);
    WithLinksTakesChains(server, Spent(FULL, None, None, r.listed), ItemsOf(r.listed), r.chains);
  }

  lemma GatherTakesTheReading(server: Server, kind: Text, r: Reading)
    requires Traverses(server, kind, r)
    ensures Gather(server, kind) == (Ok(Yield(server, kind, r)), Left(server, kind, r))
  {
    hide Gather, IsReading, Fetch, Missing, Questions, LinkQuestions, AreSettled;
    assert |r.chains| == |ItemsOf(r.listed)| by { ReadingMeans(server, r); }
    GatherReadsThePages(server, kind, r);
    FetchIsExact(server, PagesSpent(r), Missing(server, kind, Inventory(r)));
    assert [] + Questions(None, None, r.listed) == Questions(None, None, r.listed);
  }

  lemma PagesHaveAReading(server: Server, kind: Text) returns (r: Reading)
    requires Gather(server, kind).0.Ok?
    ensures IsReading(server, r) && CanAffordPages(r)
  {
    hide IsChain, AreLinkChains, MakesProgress, Follow, WithLinks, Fetch, Missing, Questions, LinkQuestions;
    var listed := FollowReadsAChain(server.beads, None, FULL, None, {}, 0);
    FollowTakesTheChain(server.beads, None, FULL, None, {}, 0, listed);
    var chains := WithLinksReadsChains(server, Spent(FULL, None, None, listed), ItemsOf(listed));
    r := Reading(listed, chains);
  }

  lemma GatherHasAReading(server: Server, kind: Text) returns (r: Reading)
    requires Gather(server, kind).0.Ok?
    ensures Traverses(server, kind, r)
  {
    hide Gather, IsReading, Fetch, Missing, Questions, LinkQuestions, AreSettled;
    r := PagesHaveAReading(server, kind);
    assert server.discover.Ok? by { GatherDiscovers(server, kind); }
    assert |r.chains| == |ItemsOf(r.listed)| by { ReadingMeans(server, r); }
    GatherReadsThePages(server, kind, r);
    FetchIsExact(server, PagesSpent(r), Missing(server, kind, Inventory(r)));
  }

  lemma GatherDiscovers(server: Server, kind: Text)
    ensures Gather(server, kind).0.Ok? ==> server.discover.Ok?
  {
  }

  lemma ReadingMeans(server: Server, r: Reading)
    requires IsReading(server, r)
    ensures |r.chains| == |ItemsOf(r.listed)|
  {
  }

  /**
   * The traversal succeeds exactly when the server answers with one reading that settles every missing blocker within
   * the budget: it returns the listed records with their Links and the found blockers, and the books show the
   * questions of that reading, paid for one by one.
   */
  lemma GatherIsExact(server: Server, kind: Text, g: Gathered, left: Ledger)
    ensures Gather(server, kind) == (Ok(g), left) <==>
              exists r :: Traverses(server, kind, r) && g == Yield(server, kind, r) && left == Left(server, kind, r)
  {
    hide Gather, Yield, Left, IsChain, AreLinkChains, IsAccepted, Inventory, Replies, Requests, Items;
    if Gather(server, kind) == (Ok(g), left) {
      var r := GatherHasAReading(server, kind);
      GatherTakesTheReading(server, kind, r);
    }
    forall r | Traverses(server, kind, r)
      ensures Gather(server, kind) == (Ok(Yield(server, kind, r)), Left(server, kind, r))
    {
      GatherTakesTheReading(server, kind, r);
    }
  }

  /** However the server answers, stops included, the questions asked and the requests left make up the budget. */
  lemma GatherIsBounded(server: Server, kind: Text)
    ensures var left := Gather(server, kind).1;
            && |left.log| + left.requests == 10000
            && left.items <= 100000
  {
    hide Follow, WithLinks, Fetch, Missing;
    if server.discover.Ok? {
      FollowIsBalanced(server.beads, None, FULL, None, {}, 0);
      var listed := Follow(server.beads, None, FULL, None, {}, 0);
      if listed.result.Ok? {
        WithLinksIsBalanced(server, listed.ledger, listed.result.value);
        var linked := WithLinks(server, listed.ledger, listed.result.value);
        if linked.result.Ok? {
          FetchIsBalanced(server, linked.ledger, Missing(server, kind, linked.result.value));
        }
      }
    }
  }

  /** The records of a reading carry the Links of its chains and no others. */
  lemma {:induction false} AllLinksAreCounted(beads: seq<Bead>, chains: LinkChains)
    requires |chains| == |beads|
    ensures |AllLinks(Linked(beads, chains))| == LinkCount(chains)
  {
    if beads != [] {
      AllLinksAreCounted(beads[1..], chains[1..]);
      AllLinksOfCons(beads[0].(links := Some(ItemsOf(chains[0]))), Linked(beads[1..], chains[1..]));
    }
  }

  lemma {:induction false} AllLinksOfCons(first: Bead, rest: seq<Bead>)
    requires first.links.Some?
    ensures |AllLinks([first] + rest)| == |first.links.value| + |AllLinks(rest)|
  {
    var all := [first] + rest;
    if rest == [] {
      assert all[..0] == [];
      assert AllLinks([]) == [];
    } else {
      assert all[..|all| - 1] == [first] + rest[..|rest| - 1];
      AllLinksOfCons(first, rest[..|rest| - 1]);
    }
  }

  /** Every item of a successful traversal is paid for, and nothing else is. */
  lemma GatherPaysForItsItems(server: Server, kind: Text)
    requires Gather(server, kind).0.Ok?
    ensures var (r, left) := Gather(server, kind);
            |r.value.inventory| + |AllLinks(r.value.inventory)| + |r.value.fetched| + left.items == 100000
  {
    hide Gather, AllLinks, AreLinkChains, IsChain, IsAccepted, AreSettled, Missing;
    var r := GatherHasAReading(server, kind);
    GatherTakesTheReading(server, kind, r);
    AllLinksAreCounted(ItemsOf(r.listed), r.chains);
  }

  // The blockers of a reading

  /** The blocker is one of the Beads, or was reported as not found between the two times. */
  ghost predicate Accounted(server: Server, gathered: seq<Bead>, id: Text, from: nat, to: nat) {
    (exists b :: b in gathered && b.id == id) || (exists t :: from <= t < to && server.bead(t, id) == Err(NOT_FOUND))
  }

  lemma {:induction false} FoundAreDistinct(server: Server, time: nat, ids: seq<Text>)
    requires Validated(server)
    requires forall i, j :: 0 <= i < j < |ids| ==> ids[i] != ids[j]
    ensures DistinctIds(Found(Answers(server, time, ids)))
    ensures forall b :: b in Found(Answers(server, time, ids)) ==> b.id in ids
    decreases |ids|
  {
    hide Answers, Found, AreSettled, DistinctIds;
    if ids == [] {
      NothingToFetch(server, Ledger(0, 0, seq(time, _ => BeadOf([]))));
      assert DistinctIds([]) by { NothingIsDistinct(); }
    } else {
      AnswersStep(server, time, ids);
      FoundAreDistinct(server, time + 1, ids[1..]);
      assert ids == [ids[0]] + ids[1..];
      if server.bead(time, ids[0]).Ok? {
        DistinctByCons(server.bead(time, ids[0]).value, ids[1..], Found(Answers(server, time + 1, ids[1..])));
      }
    }
  }

  lemma NothingIsDistinct()
    ensures DistinctIds([])
  {
  }

  lemma DistinctByCons(first: Bead, ids: seq<Text>, rest: seq<Bead>)
    requires first.id !in ids && DistinctIds(rest) && forall b :: b in rest ==> b.id in ids
    ensures DistinctIds([first] + rest)
  {
  }

  lemma {:induction false} FoundIsComplete(server: Server, time: nat, ids: seq<Text>, i: nat)
    requires i < |ids| && server.bead(time + i, ids[i]).Ok?
    ensures server.bead(time + i, ids[i]).value in Found(Answers(server, time, ids))
    decreases |ids|
  {
    hide Answers, Found, AreSettled;
    AnswersStep(server, time, ids);
    if i > 0 {
      assert ids[i] == ids[1..][i - 1];
      FoundIsComplete(server, time + 1, ids[1..], i - 1);
    }
  }

  /** What a reading fetches are Beads of the Scope outside the inventory, each once. */
  lemma ReadingFetchesBlockers(server: Server, kind: Text, r: Reading)
    requires Validated(server) && server.discover.Ok? && |r.chains| == |ItemsOf(r.listed)|
    ensures var g := Yield(server, kind, r);
            && DistinctIds(g.fetched)
            && forall b :: b in g.fetched ==> b.id !in Ids(g.inventory) && server.discover.value <= b.id
  {
    hide AllLinks, Linked, Answers, Found, Pages;
    var missing := Missing(server, kind, Inventory(r));
    FoundAreDistinct(server, |r.listed| + Pages(r.chains), missing);
  }

  /** Every blocker that the inventory's Links name in the Scope is gathered or was reported as not found. */
  lemma ReadingAccountsForBlockers(server: Server, kind: Text, r: Reading, l: Link)
    requires Validated(server) && Traverses(server, kind, r)
    requires l in AllLinks(Inventory(r)) && l.kind == kind && server.discover.value <= l.target
    ensures var g := Yield(server, kind, r);
            Accounted(server, g.inventory + g.fetched, l.target, |r.listed| + Pages(r.chains),
                      Requests(server, kind, r))
  {
    hide AllLinks, IsReading, Pages, LinkCount, Linked, Answers, Found;
    assert |r.chains| == |ItemsOf(r.listed)| by { ReadingMeans(server, r); }
    var g := Yield(server, kind, r);
    if l.target in Ids(g.inventory) {
      var b :| b in g.inventory && b.id == l.target;
      assert b in g.inventory + g.fetched;
    } else {
      assert IsMissing(l, kind, server.discover.value, Ids(g.inventory));
      var missing := Missing(server, kind, g.inventory);
      var time := |r.listed| + Pages(r.chains);
      assert l.target in missing;
      var i :| 0 <= i < |missing| && missing[i] == l.target;
      var reply := Replies(server, kind, r)[i];
      if reply.Ok? {
        FoundIsComplete(server, time, missing, i);
        assert reply.value in g.inventory + g.fetched;
      } else {
        assert server.bead(time + i, l.target) == Err(NOT_FOUND);
      }
    }
  }

  // The list

  /**
   * When the traversal ends without a problem, the list is made of one reading of what the server answered: it holds
   * exactly the listed Beads that are open and whose every outbound blocking Link leads to a closed Bead, taking for
   * each identity the last record gathered; no Bead stands behind one that belongs after it.
   */
  lemma ReadyListInGeneral(server: Server, kind: Text, g: Gathered) returns (r: Reading)
    requires Validated(server) && Gather(server, kind).0 == Ok(g)
    ensures Traverses(server, kind, r) && g == Yield(server, kind, r)
    ensures Ordered(Before, ReadyList(g, kind))
    ensures forall b :: Lists(ReadyList(g, kind), b)
                   <==> b in g.inventory && IsReady(b, kind, ById(g.inventory + g.fetched))
    ensures forall i :: 0 <= i < |ReadyList(g, kind)| ==>
              CarriesBlockers(ReadyList(g, kind)[i], kind, g.inventory + g.fetched)
  {
    hide Gather, IsReady, ReadyList, Lists, Ordered, ById, Yield, CarriesBlockers;
    forall i | 0 <= i < |ReadyList(g, kind)| { ListCarriesBlockers(g, kind, i); }
    r := GatherHasAReading(server, kind);
    GatherTakesTheReading(server, kind, r);
    assert |r.chains| == |ItemsOf(r.listed)| by { ReadingMeans(server, r); }
    ReadingFetchesBlockers(server, kind, r);
    forall b
      ensures Lists(ReadyList(g, kind), b) <==> b in g.inventory && IsReady(b, kind, ById(g.inventory + g.fetched))
    {
      ListHolds(g, kind, b);
    }
    ListIsOrdered(g, kind);
  }

  /**
   * Over distinct Beads the closed Bead is simply one of the inventory or fetched, and the list ascends strictly.
   */
  lemma ReadyListIsExact(server: Server, kind: Text, g: Gathered) returns (r: Reading)
    requires Validated(server) && Gather(server, kind).0 == Ok(g) && DistinctIds(g.inventory)
    ensures Traverses(server, kind, r) && g == Yield(server, kind, r)
    ensures Ascending(ReadyList(g, kind))
    ensures forall b :: Lists(ReadyList(g, kind), b)
                   <==> b in g.inventory && Unblocked(b, kind, g.inventory + g.fetched)
    ensures forall i :: 0 <= i < |ReadyList(g, kind)| ==>
              CarriesBlockers(ReadyList(g, kind)[i], kind, g.inventory + g.fetched)
  {
    hide Gather, Unblocked, IsReady, ReadyList, Lists, Ascending, ById, Yield, CarriesBlockers;
    forall i | 0 <= i < |ReadyList(g, kind)| { ListCarriesBlockers(g, kind, i); }
    r := GatherHasAReading(server, kind);
    GatherTakesTheReading(server, kind, r);
    assert |r.chains| == |ItemsOf(r.listed)| by { ReadingMeans(server, r); }
    ReadingFetchesBlockers(server, kind, r);
    forall b
      ensures Lists(ReadyList(g, kind), b) <==> b in g.inventory && Unblocked(b, kind, g.inventory + g.fetched)
    {
      ListHolds(g, kind, b);
      ReadyMeansUnblocked(b, kind, g.inventory + g.fetched);
    }
    ListAscends(g, kind);
  }

  // The traversal in place

  method ReadLinks(server: Server, client: Client, budget: Budget, beads: seq<Bead>)
    returns (r: Result<seq<Bead>, Stop>)
    modifies client, budget
    ensures Walk(r, Books(budget, client)) == WithLinks(server, old(Books(budget, client)), beads)
  {
    hide Follow, Behind;
    ghost var whole := WithLinks(server, Books(budget, client), beads);
    var done: seq<Bead> := [];
    BehindComposes([], [], whole);
    var i := 0;
    assert beads[0..] == beads;
    while i < |beads|
      invariant 0 <= i <= |beads|
      invariant whole == Behind(done, WithLinks(server, Books(budget, client), beads[i..]))
    {
      ghost var rest := beads[i..];
      assert rest[0] == beads[i] && rest[1..] == beads[i + 1..];
      ghost var before := WithLinks(server, Books(budget, client), rest);
      BehindEnd(done, before);
      var links := ReadAll(LinksOf(server, beads[i].id), Some(beads[i].id), client, budget);
      if links.Err? {
        return Err(links.error);
      }
      var with := beads[i].(links := Some(links.value));
      assert before == Behind([with], WithLinks(server, Books(budget, client), rest[1..]));
      BehindComposes(done, [with], WithLinks(server, Books(budget, client), rest[1..]));
      done := done + [with];
      i := i + 1;
    }
    BehindEnd(done, Walk(Ok([]), Books(budget, client)));
    assert done + [] == done;
    return Ok(done);
  }

  method FetchBlockers(server: Server, client: Client, budget: Budget, ids: seq<Text>)
    returns (r: Result<seq<Bead>, Stop>)
    modifies client, budget
    ensures Walk(r, Books(budget, client)) == Fetch(server, old(Books(budget, client)), ids)
  {
    hide Behind;
    ghost var whole := Fetch(server, Books(budget, client), ids);
    var done: seq<Bead> := [];
    BehindComposes([], [], whole);
    var i := 0;
    assert ids[0..] == ids;
    while i < |ids|
      invariant 0 <= i <= |ids|
      invariant whole == Behind(done, Fetch(server, Books(budget, client), ids[i..]))
    {
      assert ids[i..][0] == ids[i] && ids[i..][1..] == ids[i + 1..];
      ghost var before := Fetch(server, Books(budget, client), ids[i..]);
      BehindEnd(done, before);
      var ok := budget.ConsumeRequest();
      if !ok {
        return Err(TooManyRequests);
      }
      var blocker := client.AskBead(server.bead, ids[i]);
      if blocker.Err? {
        if blocker.error != NOT_FOUND {
          return Err(Reported(blocker.error));
        }
      } else {
        ok := budget.ConsumeItems(1);
        if !ok {
          return Err(TooManyItems);
        }
        assert before == Behind([blocker.value], Fetch(server, Books(budget, client), ids[i + 1..]));
        BehindComposes(done, [blocker.value], Fetch(server, Books(budget, client), ids[i + 1..]));
        done := done + [blocker.value];
      }
      i := i + 1;
    }
    BehindEnd(done, Walk(Ok([]), Books(budget, client)));
    assert done + [] == done;
    return Ok(done);
  }

  /** One call, with every question it asked. */
  method ReadyBeadsFromClient(server: Server, kind: Text)
    returns (r: Result<seq<Ready>, Stop>, asked: seq<Question>)
    ensures |asked| <= MAXIMUM_READINESS_REQUESTS
    ensures asked == Gather(server, kind).1.log
    ensures r.Ok? <==> exists reading :: Traverses(server, kind, reading)
    ensures forall reading :: Traverses(server, kind, reading) ==>
              r == Ok(ReadyList(Yield(server, kind, reading), kind)) && asked == Log(server, kind, reading)
    ensures r.Err? ==> Gather(server, kind).0 == Err(r.error)
  {
    var client := new Client();
    r := ListReady(server, kind, client);
    asked := client.log;
    ReadingDecides(server, kind, r);
  }

  lemma ReadingDecides(server: Server, kind: Text, r: Result<seq<Ready>, Stop>)
    requires r == Listed(Gather(server, kind).0, kind)
    ensures |Gather(server, kind).1.log| <= MAXIMUM_READINESS_REQUESTS
    ensures r.Ok? <==> exists reading :: Traverses(server, kind, reading)
    ensures forall reading :: Traverses(server, kind, reading) ==>
              && r == Ok(ReadyList(Yield(server, kind, reading), kind))
              && Gather(server, kind).1.log == Log(server, kind, reading)
    ensures r.Err? ==> Gather(server, kind).0 == Err(r.error)
  {
    hide Gather, ReadyList, Yield, Log, IsChain, AreLinkChains, IsAccepted, Inventory, Replies, Requests, Items;
    GatherIsBounded(server, kind);
    if Gather(server, kind).0.Ok? {
      var reading := GatherHasAReading(server, kind);
    }
    forall reading | Traverses(server, kind, reading)
      ensures Gather(server, kind) == (Ok(Yield(server, kind, reading)), Left(server, kind, reading))
    {
      GatherTakesTheReading(server, kind, reading);
    }
  }

  function Listed(g: Result<Gathered, Stop>, kind: Text): Result<seq<Ready>, Stop> {
    if g.Ok? then Ok(ReadyList(g.value, kind)) else Err(g.error)
  }

  method ListReady(server: Server, kind: Text, client: Client) returns (r: Result<seq<Ready>, Stop>)
    requires client.log == []
    modifies client
    ensures r == Listed(Gather(server, kind).0, kind) && client.log == Gather(server, kind).1.log
  {
    hide Follow, ReadyIn, Sort, Before, ById, Behind, Kept, Ids, AllLinks;
    if server.discover.Err? {
      return Err(Reported(server.discover.error));
    }
    var budget := new Budget();
    var beads := ReadAll(server.beads, None, client, budget);
    if beads.Err? {
      return Err(beads.error);
    }
    var linked := ReadLinks(server, client, budget, beads.value);
    if linked.Err? {
      return Err(linked.error);
    }
    var inventory := linked.value;
    var fetched := FetchBlockers(server, client, budget, Missing(server, kind, inventory));
    if fetched.Err? {
      return Err(fetched.error);
    }
    var ready := ReadyBeadsFromRecords(inventory + fetched.value, kind);
    return Ok(Kept(ready, Ids(inventory)));
  }

  lemma NotFoundByName()
    ensures NOT_FOUND == Ascii("resource-not-found")
  {
  }

  /** What is asked for: the in-Scope targets of blocking Links in the inventory that are no Bead of the inventory. */
  lemma MissingIsExact(server: Server, kind: Text, inventory: seq<Bead>, id: Text)
    requires server.discover.Ok?
    ensures id in Missing(server, kind, inventory) <==>
              && server.discover.value <= id
              && (forall b :: b in inventory ==> b.id != id)
              && exists b, l ::
                   b in inventory && b.links.Some? && l in b.links.value && l.kind == kind && l.target == id
  {
    if id in Missing(server, kind, inventory) {
      var l :| l in AllLinks(inventory) && l.target == id && IsMissing(l, kind, server.discover.value, Ids(inventory));
      var b :| b in inventory && b.links.Some? && l in b.links.value;
    }
    if b, l :| b in inventory && b.links.Some? && l in b.links.value && l.kind == kind && l.target == id {
      assert l in AllLinks(inventory);
    }
  }
}
