/**
 * Reading chains of pages from an arbitrary page server under one budget of requests and items.
 *
 * The server is a function of time, the number of questions asked before: it may answer the same question
 * differently whenever it is asked again.
 */
module PageChains {
  import opened Outcomes
  import opened Texts

  const MAXIMUM_READINESS_PAGES := 10_000
  const MAXIMUM_READINESS_ITEMS := 100_000
  const MAXIMUM_READINESS_REQUESTS := 10_000

  datatype PageOr<T> = Served(items: seq<T>, next: Option<Text>) | Refused(code: Text)

  type Pager<!T> = (nat, Option<Text>) -> PageOr<T>

  datatype Stop = Reported(code: Text) | NoProgress | TooManyRequests | TooManyItems

  /** A page of the inventory or of the Links of one Bead, or a single Bead. */
  datatype Question = PageOf(links: Option<Text>, continuation: Option<Text>) | BeadOf(id: Text)

  /** What is left of the budget, and every question asked so far. */
  datatype Ledger = Ledger(items: nat, requests: nat, log: seq<Question>)

  datatype Walk<T> = Walk(result: Result<seq<T>, Stop>, ledger: Ledger)

  /** The books after one more question. */
  function Asked(l: Ledger, q: Question): Ledger
    requires l.requests > 0
  {
    Ledger(l.items, l.requests - 1, l.log + [q])
  }

  function Paid(l: Ledger, count: nat): Ledger
    requires count <= l.items
  {
    l.(items := l.items - count)
  }

  function Behind<T>(items: seq<T>, rest: Walk<T>): Walk<T> {
    if rest.result.Ok? then Walk(Ok(items + rest.result.value), rest.ledger) else rest
  }

  function Remember(seen: set<Text>, continuation: Option<Text>): set<Text> {
    if continuation.Some? then seen + {continuation.value} else seen
  }

  /** The page loop; `links` says whose Links the pages list, if they do not list the inventory. */
  function Follow<T>(page: Pager<T>, links: Option<Text>, l: Ledger, continuation: Option<Text>,
                     seen: set<Text>, pages: nat): Walk<T>
    decreases MAXIMUM_READINESS_PAGES - pages
  {
    if pages >= MAXIMUM_READINESS_PAGES || (continuation.Some? && continuation.value in seen) then
      Walk(Err(NoProgress), l)
    else if l.requests == 0 then
      Walk(Err(TooManyRequests), l)
    else
      var asked := Asked(l, PageOf(links, continuation));
      match page(|l.log|, continuation)
      case Refused(code) => Walk(Err(Reported(code)), asked)
      case Served(items, next) =>
        if |items| > asked.items then
          Walk(Err(TooManyItems), asked)
        else if next.None? then
          Walk(Ok(items), Paid(asked, |items|))
        else
          Behind(items, Follow(page, links, Paid(asked, |items|), next, Remember(seen, continuation), pages + 1))
  }

  // Chains

  /** Pages that follow one another at consecutive times: each but the last names the next one asked for. */
  ghost predicate IsChain<T(!new)>(page: Pager<T>, time: nat, continuation: Option<Text>, served: seq<PageOr<T>>)
    decreases |served|
  {
    && served != [] && served[0] == page(time, continuation) && served[0].Served?
    && (if |served| == 1 then served[0].next.None?
        else served[0].next.Some? && IsChain(page, time + 1, served[0].next, served[1..]))
  }

  function ItemsOf<T>(served: seq<PageOr<T>>): seq<T> {
    if served == [] then []
    else (if served[0].Served? then served[0].items else []) + ItemsOf(served[1..])
  }

  function NextOf<T>(p: PageOr<T>): Option<Text> {
    if p.Served? then p.next else None
  }

  /** The continuations followed to get the pages. */
  function Followed<T>(continuation: Option<Text>, served: seq<PageOr<T>>): seq<Text>
    decreases served
  {
    if served == [] then []
    else (if continuation.Some? then [continuation.value] else []) + Followed(NextOf(served[0]), served[1..])
  }

  function Questions<T>(links: Option<Text>, continuation: Option<Text>, served: seq<PageOr<T>>): (r: seq<Question>)
    ensures |r| == |served|
    decreases served
  {
    if served == [] then []
    else [PageOf(links, continuation)] + Questions(links, NextOf(served[0]), served[1..])
  }

  /** No continuation is followed twice, and none was seen before. */
  predicate MakesProgress(followed: seq<Text>, seen: set<Text>) {
    && (forall i :: 0 <= i < |followed| ==> followed[i] !in seen)
    && (forall i, j :: 0 <= i < j < |followed| ==> followed[i] != followed[j])
  }

  /** The chain makes progress and keeps within every bound. */
  predicate Affordable<T>(l: Ledger, continuation: Option<Text>, seen: set<Text>, pages: nat, served: seq<PageOr<T>>) {
    && MakesProgress(Followed(continuation, served), seen)
    && pages + |served| <= 10000
    && |served| <= l.requests
    && |ItemsOf(served)| <= l.items
  }

  /** The books after the chain: one request for each page and one item for each item, neither more nor less. */
  function Spent<T>(l: Ledger, links: Option<Text>, continuation: Option<Text>, served: seq<PageOr<T>>): Ledger
    requires |served| <= l.requests && |ItemsOf(served)| <= l.items
  {
    Ledger(l.items - |ItemsOf(served)|, l.requests - |served|, l.log + Questions(links, continuation, served))
  }

  lemma ProgressOfCons(first: Text, rest: seq<Text>, seen: set<Text>)
    ensures MakesProgress([first] + rest, seen) <==> first !in seen && MakesProgress(rest, seen + {first})
  {
    var all := [first] + rest;
    assert all[0] == first && forall i :: 0 <= i < |rest| ==> all[i + 1] == rest[i];
    assert forall i :: 0 < i < |all| ==> all[i] == rest[i - 1];
  }

  lemma ProgressStep<T>(continuation: Option<Text>, seen: set<Text>, served: seq<PageOr<T>>)
    requires served != []
    ensures MakesProgress(Followed(continuation, served), seen) <==>
              && (continuation.Some? ==> continuation.value !in seen)
              && MakesProgress(Followed(NextOf(served[0]), served[1..]), Remember(seen, continuation))
  {
    hide MakesProgress;
    var rest := Followed(NextOf(served[0]), served[1..]);
    if continuation.Some? {
      ProgressOfCons(continuation.value, rest, seen);
    } else {
      assert [] + rest == rest;
    }
  }

  lemma QuestionsStep<T>(log: seq<Question>, links: Option<Text>, continuation: Option<Text>, served: seq<PageOr<T>>)
    requires served != []
    ensures log + Questions(links, continuation, served)
         == log + [PageOf(links, continuation)] + Questions(links, NextOf(served[0]), served[1..])
  {
  }

  lemma SpentStep<T>(l: Ledger, links: Option<Text>, continuation: Option<Text>, served: seq<PageOr<T>>)
    requires served != [] && served[0].Served? && |served| <= l.requests && |ItemsOf(served)| <= l.items
    ensures ItemsOf(served) == served[0].items + ItemsOf(served[1..])
    ensures var paid := Paid(Asked(l, PageOf(links, continuation)), |served[0].items|);
            && |served[1..]| <= paid.requests && |ItemsOf(served[1..])| <= paid.items
            && Spent(l, links, continuation, served) == Spent(paid, links, served[0].next, served[1..])
  {
    QuestionsStep(l.log, links, continuation, served);
    hide Questions;
  }

  /** A chain within the bounds is read to its end, and paid for exactly. */
  lemma {:induction false} FollowTakesTheChain<T(!new)>(page: Pager<T>, links: Option<Text>, l: Ledger,
      continuation: Option<Text>, seen: set<Text>, pages: nat, served: seq<PageOr<T>>)
    requires IsChain(page, |l.log|, continuation, served) && Affordable(l, continuation, seen, pages, served)
    ensures Follow(page, links, l, continuation, seen, pages)
         == Walk(Ok(ItemsOf(served)), Spent(l, links, continuation, served))
    decreases |served|
  {
    hide MakesProgress, Questions, Spent;
    ProgressStep(continuation, seen, served);
    SpentStep(l, links, continuation, served);
    var first := served[0];
    var paid := Paid(Asked(l, PageOf(links, continuation)), |first.items|);
    if |served| == 1 {
      LastPage(l, links, continuation, first);
      assert served == [first];
    } else {
      FollowTakesTheChain(page, links, paid, first.next, Remember(seen, continuation), pages + 1, served[1..]);
    }
  }

  lemma LastPage<T>(l: Ledger, links: Option<Text>, continuation: Option<Text>, last: PageOr<T>)
    requires last.Served? && l.requests >= 1 && |last.items| <= l.items
    ensures ItemsOf([last]) == last.items
    ensures Spent(l, links, continuation, [last]) == Paid(Asked(l, PageOf(links, continuation)), |last.items|)
  {
    assert [last][1..] == [];
    assert ItemsOf([last]) == last.items + ItemsOf([]);
    assert Questions<T>(links, NextOf(last), []) == [];
    assert Questions(links, continuation, [last]) == [PageOf(links, continuation)];
  }

  /** A page loop that finishes has read such a chain. */
  lemma {:induction false} FollowReadsAChain<T(!new)>(page: Pager<T>, links: Option<Text>, l: Ledger,
      continuation: Option<Text>, seen: set<Text>, pages: nat) returns (served: seq<PageOr<T>>)
    requires Follow(page, links, l, continuation, seen, pages).result.Ok?
    ensures IsChain(page, |l.log|, continuation, served) && Affordable(l, continuation, seen, pages, served)
    decreases MAXIMUM_READINESS_PAGES - pages
  {
    hide MakesProgress;
    var asked := Asked(l, PageOf(links, continuation));
    var first := page(|l.log|, continuation);
    var now := Remember(seen, continuation);
    if first.next.None? {
      served := [first];
      assert served[1..] == [];
      NothingFollowed<T>(first.next, now);
    } else {
      var rest := FollowReadsAChain(page, links, Paid(asked, |first.items|), first.next, now, pages + 1);
      served := [first] + rest;
      assert served[1..] == rest;
    }
    assert ItemsOf(served) == first.items + ItemsOf(served[1..]);
    ProgressStep(continuation, seen, served);
  }

  lemma NothingFollowed<T>(continuation: Option<Text>, seen: set<Text>)
    ensures MakesProgress(Followed<T>(continuation, []), seen)
  {
  }

  /**
   * The page loop succeeds exactly when the server offers a chain of pages whose continuations are new and distinct
   * and which keeps within the bounds on pages, requests and items; it then returns the items of that chain in order,
   * and the books show exactly its questions, paid for one by one.
   */
  lemma FollowIsExact<T(!new)>(page: Pager<T>, links: Option<Text>, l: Ledger, continuation: Option<Text>,
                               seen: set<Text>, pages: nat, w: Walk<T>)
    ensures w.result.Ok? ==>
              (w == Follow(page, links, l, continuation, seen, pages) <==>
                 exists served :: IsChain(page, |l.log|, continuation, served)
                   && Affordable(l, continuation, seen, pages, served)
                   && w == Walk(Ok(ItemsOf(served)), Spent(l, links, continuation, served)))
  {
    hide IsChain, Follow, MakesProgress, Spent;
    if w == Follow(page, links, l, continuation, seen, pages) && w.result.Ok? {
      var served := FollowReadsAChain(page, links, l, continuation, seen, pages);
      FollowTakesTheChain(page, links, l, continuation, seen, pages, served);
    }
    forall served | IsChain(page, |l.log|, continuation, served) && Affordable(l, continuation, seen, pages, served)
      ensures Follow(page, links, l, continuation, seen, pages)
           == Walk(Ok(ItemsOf(served)), Spent(l, links, continuation, served))
    {
      FollowTakesTheChain(page, links, l, continuation, seen, pages, served);
    }
  }

  // Stops

  /** The first pages of a chain that goes on. */
  ghost predicate IsOpenChain<T(!new)>(page: Pager<T>, time: nat, continuation: Option<Text>, served: seq<PageOr<T>>)
    decreases |served|
  {
    served != [] ==>
      && served[0] == page(time, continuation) && served[0].Served? && served[0].next.Some?
      && IsOpenChain(page, time + 1, served[0].next, served[1..])
  }

  /** The continuation to be followed after the pages. */
  function Pending<T>(continuation: Option<Text>, served: seq<PageOr<T>>): Option<Text>
    decreases served
  {
    if served == [] then continuation else Pending(NextOf(served[0]), served[1..])
  }

  function Elements(ts: seq<Text>): set<Text> {
    set t | t in ts
  }

  /** Why the loop stops after the given pages, and what the books then show. */
  ghost predicate StopsAfter<T(!new)>(page: Pager<T>, links: Option<Text>, l: Ledger, continuation: Option<Text>,
      seen: set<Text>, pages: nat, served: seq<PageOr<T>>, stop: Stop, left: Ledger)
  {
    && IsOpenChain(page, |l.log|, continuation, served) && Affordable(l, continuation, seen, pages, served)
    && var at := Spent(l, links, continuation, served);
       var c := Pending(continuation, served);
       var known := seen + Elements(Followed(continuation, served));
       if pages + |served| >= MAXIMUM_READINESS_PAGES || (c.Some? && c.value in known) then
         stop == NoProgress && left == at
       else if at.requests == 0 then
         stop == TooManyRequests && left == at
       else
         match page(|at.log|, c)
         case Refused(code) => stop == Reported(code) && left == Asked(at, PageOf(links, c))
         case Served(items, _) => |items| > at.items && stop == TooManyItems && left == Asked(at, PageOf(links, c))
  }

  /** A page loop that stops has a reason the server or the bounds gave, and its books are exact even so. */
  lemma {:induction false} FollowStopsForAReason<T(!new)>(page: Pager<T>, links: Option<Text>, l: Ledger,
      continuation: Option<Text>, seen: set<Text>, pages: nat) returns (served: seq<PageOr<T>>)
    requires pages <= MAXIMUM_READINESS_PAGES
    requires Follow(page, links, l, continuation, seen, pages).result.Err?
    ensures var w := Follow(page, links, l, continuation, seen, pages);
            StopsAfter(page, links, l, continuation, seen, pages, served, w.result.error, w.ledger)
    decreases MAXIMUM_READINESS_PAGES - pages
  {
    served := [];
    assert l.log + [] == l.log && Spent<T>(l, links, continuation, []) == l;
    if pages < MAXIMUM_READINESS_PAGES && !(continuation.Some? && continuation.value in seen) && l.requests > 0 {
      var first := page(|l.log|, continuation);
      if first.Served? && |first.items| <= l.items {
        var paid := Paid(Asked(l, PageOf(links, continuation)), |first.items|);
        var now := Remember(seen, continuation);
        var rest := FollowStopsForAReason(page, links, paid, first.next, now, pages + 1);
        served := [first] + rest;
        StopsOneLater(page, links, l, continuation, seen, pages, served,
                      Follow(page, links, paid, first.next, now, pages + 1));
      }
    }
  }

  lemma StopsOneLater<T(!new)>(page: Pager<T>, links: Option<Text>, l: Ledger, continuation: Option<Text>,
      seen: set<Text>, pages: nat, served: seq<PageOr<T>>, w: Walk<T>)
    requires served != [] && served[0] == page(|l.log|, continuation) && served[0].Served? && served[0].next.Some?
    requires !(continuation.Some? && continuation.value in seen) && l.requests > 0 && |served[0].items| <= l.items
    requires w.result.Err?
    requires StopsAfter(page, links, Paid(Asked(l, PageOf(links, continuation)), |served[0].items|), served[0].next,
                        Remember(seen, continuation), pages + 1, served[1..], w.result.error, w.ledger)
    ensures StopsAfter(page, links, l, continuation, seen, pages, served, w.result.error, w.ledger)
  {
    hide MakesProgress, Spent;
    ProgressStep(continuation, seen, served);
    SpentStep(l, links, continuation, served);
    KnownStep(continuation, seen, served);
  }

  lemma KnownStep<T>(continuation: Option<Text>, seen: set<Text>, served: seq<PageOr<T>>)
    requires served != []
    ensures seen + Elements(Followed(continuation, served))
         == Remember(seen, continuation) + Elements(Followed(NextOf(served[0]), served[1..]))
  {
  }

  /** However the loop ends, each question asked is one request less, and nothing is paid back. */
  predicate Balanced(l: Ledger, left: Ledger) {
    && l.log <= left.log && left.items <= l.items
    && |left.log| + left.requests == |l.log| + l.requests
  }

  lemma {:induction false} FollowIsBalanced<T>(page: Pager<T>, links: Option<Text>, l: Ledger,
      continuation: Option<Text>, seen: set<Text>, pages: nat)
    ensures Balanced(l, Follow(page, links, l, continuation, seen, pages).ledger)
    decreases MAXIMUM_READINESS_PAGES - pages
  {
    if pages < MAXIMUM_READINESS_PAGES && l.requests > 0 {
      var first := page(|l.log|, continuation);
      if first.Served? && |first.items| <= l.items && first.next.Some? {
        var paid := Paid(Asked(l, PageOf(links, continuation)), |first.items|);
        FollowIsBalanced(page, links, paid, first.next, Remember(seen, continuation), pages + 1);
      }
    }
  }

  // The loop in place

  /** The connection to the server, which keeps every question asked over it. */
  class Client {
    var log: seq<Question>

    constructor ()
      ensures log == []
    {
      log := [];
    }

    method AskPage<T>(page: Pager<T>, links: Option<Text>, continuation: Option<Text>) returns (answer: PageOr<T>)
      modifies this
      ensures log == old(log) + [PageOf(links, continuation)]
      ensures answer == page(|old(log)|, continuation)
    {
      answer := page(|log|, continuation);
      log := log + [PageOf(links, continuation)];
    }

    method AskBead<T>(bead: (nat, Text) -> T, id: Text) returns (answer: T)
      modifies this
      ensures log == old(log) + [BeadOf(id)]
      ensures answer == bead(|old(log)|, id)
    {
      answer := bead(|log|, id);
      log := log + [BeadOf(id)];
    }
  }

  class Budget {
    var remainingItems: nat
    var remainingRequests: nat

    constructor ()
      ensures remainingItems == MAXIMUM_READINESS_ITEMS && remainingRequests == MAXIMUM_READINESS_REQUESTS
    {
      remainingItems, remainingRequests := MAXIMUM_READINESS_ITEMS, MAXIMUM_READINESS_REQUESTS;
    }

    method ConsumeItems(count: nat) returns (ok: bool)
      modifies `remainingItems
      ensures ok <==> count <= old(remainingItems)
      ensures remainingItems == if ok then old(remainingItems) - count else old(remainingItems)
    {
      if count > remainingItems {
        return false;
      }
      remainingItems := remainingItems - count;
      return true;
    }

    method ConsumeRequest() returns (ok: bool)
      modifies `remainingRequests
      ensures ok <==> old(remainingRequests) != 0
      ensures remainingRequests == if ok then old(remainingRequests) - 1 else old(remainingRequests)
    {
      if remainingRequests == 0 {
        return false;
      }
      remainingRequests := remainingRequests - 1;
      return true;
    }
  }

  function Books(budget: Budget, client: Client): Ledger
    reads budget, client
  {
    Ledger(budget.remainingItems, budget.remainingRequests, client.log)
  }

  lemma BehindComposes<T>(a: seq<T>, b: seq<T>, rest: Walk<T>)
    ensures Behind(a, Behind(b, rest)) == Behind(a + b, rest)
    ensures Behind([], rest) == rest
  {
    if rest.result.Ok? {
      assert a + (b + rest.result.value) == a + b + rest.result.value;
      assert [] + rest.result.value == rest.result.value;
    }
  }

  lemma BehindEnd<T>(items: seq<T>, w: Walk<T>)
    ensures w.result.Err? ==> Behind(items, w) == w
    ensures w.result.Ok? ==> Behind(items, w) == Walk(Ok(items + w.result.value), w.ledger)
  {
  }

  /** The page loop of the inventory and of the Links of one Bead. */
  method ReadAll<T>(page: Pager<T>, links: Option<Text>, client: Client, budget: Budget)
    returns (r: Result<seq<T>, Stop>)
    modifies client, budget
    ensures Walk(r, Books(budget, client)) == Follow(page, links, old(Books(budget, client)), None, {}, 0)
  {
    hide Behind;
    ghost var whole := Follow(page, links, Books(budget, client), None, {}, 0);
    var items: seq<T> := [];
    var continuation: Option<Text> := None;
    var seen: set<Text> := {};
    var pages := 0;
    BehindComposes([], [], whole);
    while true
      invariant pages <= MAXIMUM_READINESS_PAGES
      invariant whole == Behind(items, Follow(page, links, Books(budget, client), continuation, seen, pages))
      decreases MAXIMUM_READINESS_PAGES - pages
    {
      ghost var before := Follow(page, links, Books(budget, client), continuation, seen, pages);
      BehindEnd(items, before);
      if pages >= MAXIMUM_READINESS_PAGES || (continuation.Some? && continuation.value in seen) {
        return Err(NoProgress);
      }
      pages := pages + 1;
      if continuation.Some? {
        seen := seen + {continuation.value};
      }
      var ok := budget.ConsumeRequest();
      if !ok {
        return Err(TooManyRequests);
      }
      var answer := client.AskPage(page, links, continuation);
      if answer.Refused? {
        return Err(Reported(answer.code));
      }
      ok := budget.ConsumeItems(|answer.items|);
      if !ok {
        return Err(TooManyItems);
      }
      if answer.next.None? {
        return Ok(items + answer.items);
      }
      ghost var rest := Follow(page, links, Books(budget, client), answer.next, seen, pages);
      assert before == Behind(answer.items, rest);
      BehindComposes(items, answer.items, rest);
      items := items + answer.items;
      continuation := answer.next;
    }
  }
}
