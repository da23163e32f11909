/**
 * Read and History operations prepared on one session core: every interleaving of their steps.
 * An operation is prepared, routed, validated, committed and released; hostile bodies may re-enter the
 * session while they are inspected, so the end of a validation is a step of its own.
 */
module Sessions {
  import opened Continuations
  import opened Decimals
  import opened Outcomes
  import opened Texts

  datatype Core<!L(==)> = Core(registry: Registry<L>, scopes: set<nat>, generation: nat, closed: bool)

  datatype Request =
    | ReadCollection(collection: CollectionKind, continuation: Option<Url>)
    | ReadBeadLinks(bead: Url, direction: Direction, continuation: Option<Url>)
    | ReadOther
    | HistoryRevision
    | HistoryPage(resource: Resource, id: Url, limit: Option<nat>, continuation: Option<Url>)

  datatype Status = Active | Staged | Committed | Released

  datatype Op<!L(==)> = Op(
    request: Request,
    owner: Owner,
    context: Option<Context>,
    lease: Option<L>,
    generation: nat,
    status: Status,
    staged: Option<nat>,
    next: Option<Url>)

  function ContinuationOf(q: Request): Option<Url> {
    match q
    case ReadCollection(_, c) => c
    case ReadBeadLinks(_, _, c) => c
    case HistoryPage(_, _, _, c) => c
    case _ => None
  }

  /** The context of a traversal's first page; a later page takes the context of its lease. */
  function FirstContext(q: Request): Option<Context> {
    match q
    case ReadCollection(collection, _) => Some(Collection(collection))
    case ReadBeadLinks(bead, direction, _) => Some(BeadLinks(bead, direction))
    case HistoryPage(resource, id, limit, _) => Some(HistoryVersions(resource, id, limit))
    case _ => None
  }

  function WantedBy(q: Request): Wanted
    requires ContinuationOf(q).Some?
  {
    match q
    case ReadCollection(collection, _) => WantedCollection(collection)
    case ReadBeadLinks(bead, _, _) => WantedBead(bead)
    case HistoryPage(resource, id, _, _) => WantedHistory(resource, id)
  }

  datatype PrepareError = SessionClosed | UnknownScope | NotIssued

  function Prepare<L>(core: Core<L>, q: Request, owner: Owner, id: L): Result<(Core<L>, Op<L>), PrepareError> {
    if core.closed then
      Err(SessionClosed)
    else if owner.Some? && owner.value !in core.scopes then
      Err(UnknownScope)
    else
      match ContinuationOf(q)
      case None => Ok((core, Op(q, owner, FirstContext(q), None, core.generation, Active, None, None)))
      case Some(url) =>
        match Reserve(core.registry, url, owner, WantedBy(q), id)
        case None => Err(NotIssued)
        case Some(r) =>
          var op := Op(q, owner, Some(r.leases[id].context), Some(id), core.generation, Active, None, None);
          Ok((core.(registry := r), op))
  }

  /** The guard at the head of every step of an operation. */
  predicate Live<L>(core: Core<L>, op: Op<L>) {
    !core.closed && core.generation == op.generation && !Settled(op)
  }

  predicate Settled<L>(op: Op<L>) {
    op.status.Committed? || op.status.Released?
  }

  /** A validation may begin on a live operation that is not staged yet. */
  predicate MayValidate<L>(core: Core<L>, op: Op<L>) {
    Live(core, op) && op.status.Active?
  }

  /** What the parser and the record checks made of a body; `count` is the number of items of a page. */
  datatype Inspection = Threw | Malformed | Parsed(count: nat, next: Option<Url>)

  /** The limit in the URL requested; `limitOf` reads the limit parameter of a URL. */
  function RequestedLimit(limitOf: Url -> Option<Text>, q: Request): Option<Text>
    requires q.HistoryPage?
  {
    match q.continuation
    case Some(url) => limitOf(url)
    case None => if q.limit.Some? then Some(Spell(q.limit.value)) else None
  }

  /** A History page must respect the limit requested and carry an explicit limit on to its next URL. */
  predicate PageAccepted(limitOf: Url -> Option<Text>, q: Request, context: Option<Context>,
                         count: nat, next: Option<Url>)
    requires q.HistoryPage?
  {
    && !(RequestedLimit(limitOf, q).Some? && Exceeds(Spell(count), RequestedLimit(limitOf, q).value))
    && (context.Some? && context.value.HistoryVersions? && context.value.limit.Some? && next.Some? ==>
          limitOf(next.value) == Some(Spell(context.value.limit.value)))
  }

  predicate Accepted<L>(limitOf: Url -> Option<Text>, op: Op<L>, body: Inspection) {
    body.Parsed? && (op.request.HistoryPage? ==> PageAccepted(limitOf, op.request, op.context, body.count, body.next))
  }

  /** Stages an accepted body if the operation is still live; `token` identifies the stage. */
  function EndValidate<L>(limitOf: Url -> Option<Text>, core: Core<L>, op: Op<L>, body: Inspection, token: nat): Op<L> {
    if Accepted(limitOf, op, body) && Live(core, op) then
      op.(status := Staged, staged := Some(token), next := if op.context.None? then None else body.next)
    else
      op
  }

  datatype CommitOutcome = NotLive | WrongStage | Refused(error: CommitError) | Delivered

  function CommitOp<L>(core: Core<L>, op: Op<L>, token: nat): (Core<L>, Op<L>, CommitOutcome) {
    if !Live(core, op) then
      (core, op, NotLive)
    else if !op.status.Staged? || op.staged != Some(token) then
      (core, op, WrongStage)
    else if op.context.None? then
      (core, op.(status := Committed), Delivered)
    else
      match Commit(core.registry, op.lease, op.next, op.context.value, op.owner)
      case Err(e) => (core, op, Refused(e))
      case Ok(r) => (core.(registry := r), op.(status := Committed), Delivered)
  }

  function ReleaseOp<L>(core: Core<L>, op: Op<L>): (Core<L>, Op<L>) {
    if Settled(op) then
      (core, op)
    else
      (if !core.closed && core.generation == op.generation
       then core.(registry := Restore(core.registry, op.lease)) else core,
       op.(status := Released, staged := None))
  }

  ghost function ForgetScope<L>(core: Core<L>, scope: nat): Core<L> {
    if scope in core.scopes then core.(registry := Forget(core.registry, scope)) else core
  }

  function CreateScope<L>(core: Core<L>, scope: nat): Core<L> {
    if core.closed then core else core.(scopes := core.scopes + {scope})
  }

  function ClearCore<L>(core: Core<L>): Core<L> {
    core.(closed := true, generation := core.generation + 1, registry := Clear(core.registry))
  }

  // All operations of a session together. Operations and leases are numbered; `issued` numbers are used up.

  datatype Machine = Machine(core: Core<nat>, ops: map<nat, Op<nat>>, issued: nat)

  datatype Step =
    | DoPrepare(request: Request, owner: Owner)
    | DoValidate(op: nat, body: Inspection, token: nat)
    | DoCommit(op: nat, token: nat)
    | DoRelease(op: nat)
    | DoForget(scope: nat)
    | DoCreateScope(scope: nat)
    | DoClear

  const START: Machine := Machine(Core(Empty(), {}, 0, false), map[], 0)

  ghost function Next(limitOf: Url -> Option<Text>, m: Machine, s: Step): Machine {
    match s
    case DoPrepare(q, owner) =>
      (match Prepare(m.core, q, owner, m.issued)
       case Err(_) => m
       case Ok((core, op)) => Machine(core, m.ops[m.issued := op], m.issued + 1))
    case DoValidate(i, body, token) =>
      if i !in m.ops then m else m.(ops := m.ops[i := EndValidate(limitOf, m.core, m.ops[i], body, token)])
    case DoCommit(i, token) =>
      if i !in m.ops then m else
        var (core, op, _) := CommitOp(m.core, m.ops[i], token);
        m.(core := core, ops := m.ops[i := op])
    case DoRelease(i) =>
      if i !in m.ops then m else
        var (core, op) := ReleaseOp(m.core, m.ops[i]);
        m.(core := core, ops := m.ops[i := op])
    case DoForget(scope) => m.(core := ForgetScope(m.core, scope))
    case DoCreateScope(scope) => m.(core := CreateScope(m.core, scope))
    case DoClear => m.(core := ClearCore(m.core))
  }

  ghost function Run(limitOf: Url -> Option<Text>, m: Machine, steps: seq<Step>): Machine
    decreases |steps|
  {
    if steps == [] then m else Run(limitOf, Next(limitOf, m, steps[0]), steps[1..])
  }

  /** An operation that still holds its lease. */
  predicate Holding(m: Machine, i: nat) {
    i in m.ops && m.ops[i].lease.Some? && Live(m.core, m.ops[i])
  }

  /** Each live operation holds its own lease, under its own context and owner, and no other lease is active. */
  ghost predicate Matched(m: Machine) {
    && (forall l :: l in m.core.registry.leases <==> Holding(m, l))
    && (forall i :: Holding(m, i) ==>
          && m.ops[i].context == Some(m.core.registry.leases[i].context)
          && m.ops[i].owner == m.core.registry.leases[i].owner)
  }

  ghost predicate Numbered(m: Machine) {
    && (forall i :: i in m.ops ==> i < m.issued && (m.ops[i].lease.Some? ==> m.ops[i].lease.value == i))
    && (forall i :: i in m.ops && !m.core.closed ==> m.ops[i].generation == m.core.generation)
    && (m.core.closed ==> m.core.registry == Empty())
  }

  /** The invariant of every reachable state. */
  ghost predicate Inv(m: Machine) {
    Good(m.core.registry) && Matched(m) && Numbered(m)
  }

  lemma LeasesAfterReserve<L>(r: Registry<L>, url: Url, owner: Owner, w: Wanted, id: L)
    ensures var r' := Reserve(r, url, owner, w, id);
            r'.Some? ==>
              && id in r'.value.leases && r'.value.leases == r.leases[id := r'.value.leases[id]]
              && r'.value.leases[id].owner == owner
  {
  }

  lemma LeasesAfterCommit<L>(r: Registry<L>, lease: Option<L>, next: Option<Url>, context: Context, owner: Owner)
    ensures var r' := Commit(r, lease, next, context, owner);
            r'.Ok? ==> r'.value.leases == r.leases - if lease.Some? then {lease.value} else {}
  {
  }

  lemma LeasesAfterRestore<L>(r: Registry<L>, lease: Option<L>)
    ensures Restore(r, lease).leases == r.leases - if lease.Some? then {lease.value} else {}
  {
  }

  /** A change to one operation and its lease leaves the other operations matched. */
  lemma StillMatched(m: Machine, m': Machine, i: nat)
    requires Matched(m)
    requires i in m'.ops
    requires forall j :: j != i ==> (j in m'.ops <==> j in m.ops) && (j in m.ops ==> m'.ops[j] == m.ops[j])
    requires m'.core.closed == m.core.closed && m'.core.generation == m.core.generation
    requires m'.core.registry.leases - {i} == m.core.registry.leases - {i}
    requires i in m'.core.registry.leases <==> Holding(m', i)
    requires Holding(m', i) ==> m'.ops[i].context == Some(m'.core.registry.leases[i].context)
                                && m'.ops[i].owner == m'.core.registry.leases[i].owner
    ensures Matched(m')
  {
    var before, after := m.core.registry.leases, m'.core.registry.leases;
    forall l | l != i
      ensures Holding(m', l) == Holding(m, l)
      ensures l in after <==> l in before
      ensures l in after ==> after[l] == before[l]
    {
      assert l in after - {i} <==> l in before - {i};
      if l in after {
        assert (after - {i})[l] == (before - {i})[l];
      }
    }
  }

  lemma PrepareKeepsInv(limitOf: Url -> Option<Text>, m: Machine, q: Request, owner: Owner)
    requires Inv(m)
    ensures Inv(Next(limitOf, m, DoPrepare(q, owner)))
  {
    hide Good, Reserve, WantedBy, FirstContext;
    var m' := Next(limitOf, m, DoPrepare(q, owner));
    assert m.issued !in m.ops && !Holding(m, m.issued);
    if Prepare(m.core, q, owner, m.issued).Ok? {
      if ContinuationOf(q).Some? {
        LeasesAfterReserve(m.core.registry, ContinuationOf(q).value, owner, WantedBy(q), m.issued);
        ReserveKeepsGood(m.core.registry, ContinuationOf(q).value, owner, WantedBy(q), m.issued);
      }
      assert Numbered(m');
      hide Numbered;
      StillMatched(m, m', m.issued);
    }
  }

  lemma ValidateKeepsInv(limitOf: Url -> Option<Text>, m: Machine, i: nat, body: Inspection, token: nat)
    requires Inv(m)
    ensures Inv(Next(limitOf, m, DoValidate(i, body, token)))
  {
    hide Good, Accepted;
    var m' := Next(limitOf, m, DoValidate(i, body, token));
    assert forall j :: Holding(m', j) == Holding(m, j);
  }

  lemma CommitKeepsInv(limitOf: Url -> Option<Text>, m: Machine, i: nat, token: nat)
    requires Inv(m)
    ensures Inv(Next(limitOf, m, DoCommit(i, token)))
  {
    hide Good, Commit;
    var m' := Next(limitOf, m, DoCommit(i, token));
    if i in m.ops {
      var op := m.ops[i];
      if op.context.Some? {
        CommitKeepsGood(m.core.registry, op.lease, op.next, op.context.value, op.owner);
        LeasesAfterCommit(m.core.registry, op.lease, op.next, op.context.value, op.owner);
      }
      assert Numbered(m');
      StillMatched(m, m', i);
    }
  }

  lemma ReleaseKeepsInv(limitOf: Url -> Option<Text>, m: Machine, i: nat)
    requires Inv(m)
    ensures Inv(Next(limitOf, m, DoRelease(i)))
  {
    hide Good, Restore;
    var m' := Next(limitOf, m, DoRelease(i));
    if i in m.ops {
      RestoreKeepsGood(m.core.registry, m.ops[i].lease);
      LeasesAfterRestore(m.core.registry, m.ops[i].lease);
      assert Numbered(m');
      StillMatched(m, m', i);
    }
  }

  lemma ForgetLeavesLeases(r: Registry<nat>, scope: nat)
    ensures Forget(r, scope).leases == r.leases
    ensures r == Empty() ==> Forget(r, scope) == Empty()
  {
    if r == Empty() {
      assert Kept(r.entries, Some(scope)) == map[];
    }
  }

  lemma ForgetKeepsInv(limitOf: Url -> Option<Text>, m: Machine, scope: nat)
    requires Inv(m)
    ensures Inv(Next(limitOf, m, DoForget(scope)))
  {
    hide Good, Forget;
    ForgetKeepsGood(m.core.registry, scope);
    ForgetLeavesLeases(m.core.registry, scope);
    var m' := Next(limitOf, m, DoForget(scope));
    assert forall j :: Holding(m', j) == Holding(m, j);
  }

  lemma StepKeepsInv(limitOf: Url -> Option<Text>, m: Machine, s: Step)
    requires Inv(m)
    ensures Inv(Next(limitOf, m, s))
  {
    match s
    case DoPrepare(q, owner) => PrepareKeepsInv(limitOf, m, q, owner);
    case DoValidate(i, body, token) => ValidateKeepsInv(limitOf, m, i, body, token);
    case DoCommit(i, token) => CommitKeepsInv(limitOf, m, i, token);
    case DoRelease(i) => ReleaseKeepsInv(limitOf, m, i);
    case DoForget(scope) => ForgetKeepsInv(limitOf, m, scope);
    case DoCreateScope(scope) =>
      assert forall j :: Holding(Next(limitOf, m, s), j) == Holding(m, j);
    case DoClear =>
      EmptyIsGood<nat>();
      assert forall j :: !Holding(Next(limitOf, m, s), j);
  }

  /** Every interleaving keeps the invariant. */
  lemma {:induction false} RunKeepsInv(limitOf: Url -> Option<Text>, m: Machine, steps: seq<Step>)
    requires Inv(m)
    ensures Inv(Run(limitOf, m, steps))
    decreases |steps|
  {
    if steps != [] {
      StepKeepsInv(limitOf, m, steps[0]);
      RunKeepsInv(limitOf, Next(limitOf, m, steps[0]), steps[1..]);
    }
  }

  /** In every reachable state the active leases are exactly those of the unsettled operations, each held once. */
  lemma ActiveLeases(limitOf: Url -> Option<Text>, steps: seq<Step>)
    ensures var m := Run(limitOf, START, steps);
            && (forall l :: l in m.core.registry.leases <==> Holding(m, l))
            && (forall i :: Holding(m, i) ==> m.ops[i].lease == Some(i))
            && m.core.registry.size == Held(m.core.registry) <= MAXIMUM_CONTEXTS
            && m.core.registry.historySize == Length(m.core.registry) <= MAXIMUM_HISTORY
  {
    RunKeepsInv(limitOf, START, steps);
  }

  /** Releasing an unsettled operation, whatever happened to it before, makes its capability available again. */
  lemma ReleaseMakesAvailable(limitOf: Url -> Option<Text>, m: Machine, i: nat)
    requires Inv(m) && Holding(m, i)
    ensures var l, m' := m.core.registry.leases[i], Next(limitOf, m, DoRelease(i));
            var e := Entry(l.context, l.owner, l.history);
            && i !in m'.core.registry.leases && Settled(m'.ops[i])
            && (forall u, x :: multiset(EntriesAt(m'.core.registry, u))[x]
                               == multiset(EntriesAt(m.core.registry, u))[x] + if u == l.url && x == e then 1 else 0)
            && (forall u, x :: Copies(m'.core.registry, u, x) == Copies(m.core.registry, u, x))
  {
    forall u, x { RestoreConserves(m.core.registry, Some(i), u, x); }
    hide Good, Copies;
  }

  /** A delivered commit ends its lease for good and issues only the next capability of its own traversal. */
  lemma DeliveredCommitConsumes(limitOf: Url -> Option<Text>, m: Machine, i: nat, token: nat)
    requires Inv(m) && Holding(m, i)
    requires CommitOp(m.core, m.ops[i], token).2.Delivered?
    ensures var op, m' := m.ops[i], Next(limitOf, m, DoCommit(i, token));
            var l := m.core.registry.leases[i];
            && i !in m'.core.registry.leases && Settled(m'.ops[i])
            && (forall u, x :: Copies(m'.core.registry, u, x)
                               == Copies(m.core.registry, u, x)
                                  - (if LeaseOf(u, x) == l then 1 else 0)
                                  + (if op.next == Some(u) && x == Entry(l.context, l.owner, l.history + [u])
                                     then 1 else 0))
  {
    var op := m.ops[i];
    var r, context := m.core.registry, op.context.value;
    assert Committable(r, op.lease, op.next, context, op.owner).None?;
    forall u, x { CommitMoves(r, op.lease, op.next, context, op.owner, u, x); }
    if op.next.Some? {
      CommitExtendsTraversal(r, op.lease, op.next.value, context, op.owner);
    }
    hide Good, Copies, Committable;
  }

  /** A commit that is not delivered changes nothing at all. */
  lemma UndeliveredCommitChangesNothing(limitOf: Url -> Option<Text>, m: Machine, i: nat, token: nat)
    requires i in m.ops && !CommitOp(m.core, m.ops[i], token).2.Delivered?
    ensures Next(limitOf, m, DoCommit(i, token)) == m
  {
    assert m.ops[i := m.ops[i]] == m.ops;
  }

  /** A reachable commit is never refused for a lease that went stale or changed its context or owner. */
  lemma RefusalIsAboutNext(m: Machine, i: nat, token: nat)
    requires Inv(m) && i in m.ops
    ensures var outcome := CommitOp(m.core, m.ops[i], token).2;
            outcome.Refused? ==> outcome.error !in {Inactive, ContextChanged, OwnerChanged}
  {
    hide Good, Ambiguous, Shared;
    assert m.ops[i].lease.Some? && Live(m.core, m.ops[i]) ==> Holding(m, i);
  }

  lemma {:induction false} RunEnds(limitOf: Url -> Option<Text>, m: Machine, steps: seq<Step>)
    requires steps != []
    ensures var n := |steps| - 1;
            Run(limitOf, m, steps) == Next(limitOf, Run(limitOf, m, steps[..n]), steps[n])
    decreases |steps|
  {
    var n := |steps| - 1;
    hide Next;
    if n > 0 {
      RunEnds(limitOf, Next(limitOf, m, steps[0]), steps[1..]);
      assert steps[1..][..n - 1] == steps[..n][1..];
    }
  }

  /** The step stages the operation. */
  ghost predicate Stages(limitOf: Url -> Option<Text>, m: Machine, s: Step, i: nat) {
    s.DoValidate? && s.op == i && i in m.ops && Accepted(limitOf, m.ops[i], s.body) && Live(m.core, m.ops[i])
  }

  /** The operation's latest staging in a run, if it was ever staged. */
  ghost function LatestStage(limitOf: Url -> Option<Text>, steps: seq<Step>, i: nat): (r: Option<Step>)
    ensures r.Some? ==> r.value.DoValidate? && r.value.body.Parsed?
  {
    if steps == [] then
      None
    else
      var n := |steps| - 1;
      if Stages(limitOf, Run(limitOf, START, steps[..n]), steps[n], i) then Some(steps[n])
      else LatestStage(limitOf, steps[..n], i)
  }

  /** An unsettled operation shows its latest staging; one that does not exist yet was never staged. */
  ghost predicate ShowsStage(m: Machine, i: nat, latest: Option<Step>) {
    if i !in m.ops then latest.None?
    else if Settled(m.ops[i]) then true
    else if latest.None? then m.ops[i].status.Active? && m.ops[i].staged.None?
    else latest.value.DoValidate? && latest.value.body.Parsed? && ShowsStep(m.ops[i], latest.value)
  }

  ghost predicate ShowsStep(op: Op<nat>, s: Step)
    requires s.DoValidate? && s.body.Parsed?
  {
    op.status.Staged? && op.staged == Some(s.token) && op.next == if op.context.None? then None else s.body.next
  }

  lemma StepShowsStage(limitOf: Url -> Option<Text>, m: Machine, s: Step, i: nat, latest: Option<Step>)
    requires Numbered(m) && ShowsStage(m, i, latest)
    ensures ShowsStage(Next(limitOf, m, s), i, if Stages(limitOf, m, s, i) then Some(s) else latest)
  {
    hide Reserve, Commit, Restore, Forget, PageAccepted;
  }

  lemma {:induction false} RunShowsStage(limitOf: Url -> Option<Text>, steps: seq<Step>, i: nat)
    ensures ShowsStage(Run(limitOf, START, steps), i, LatestStage(limitOf, steps, i))
  {
    hide Next, Stages, ShowsStage;
    if steps == [] {
      assert ShowsStage(START, i, None) by { NothingStaged(i); }
    } else {
      var n := |steps| - 1;
      RunShowsStage(limitOf, steps[..n], i);
      RunKeepsInv(limitOf, START, steps[..n]);
      StepShowsStage(limitOf, Run(limitOf, START, steps[..n]), steps[n], i, LatestStage(limitOf, steps[..n], i));
      RunEnds(limitOf, START, steps);
    }
  }

  lemma NothingStaged(i: nat)
    ensures ShowsStage(START, i, None)
  {
  }

  /**
   * After any run, a commit is delivered exactly when the operation is live, the token is that of its latest staging,
   * and the registry has nothing against the next capability, which is the one the body staged then named.
   */
  lemma DeliveredWithLatestStage(limitOf: Url -> Option<Text>, steps: seq<Step>, i: nat, token: nat)
    requires i in Run(limitOf, START, steps).ops
    ensures var (m, stage) := (Run(limitOf, START, steps), LatestStage(limitOf, steps, i));
            var op := m.ops[i];
            CommitOp(m.core, op, token).2.Delivered? <==>
              && Live(m.core, op) && stage.Some? && stage.value.token == token
              && (op.context.Some? ==>
                    Committable(m.core.registry, op.lease, stage.value.body.next, op.context.value, op.owner).None?)
  {
    hide Committable, Run, LatestStage;
    RunShowsStage(limitOf, steps, i);
  }

  lemma SettledForOneStep(limitOf: Url -> Option<Text>, m: Machine, s: Step, i: nat)
    requires Inv(m) && i in m.ops && Settled(m.ops[i])
    ensures var n := Next(limitOf, m, s); i in n.ops && n.ops[i] == m.ops[i]
  {
    hide Good, Matched, Reserve, Commit, Restore, Forget, Accepted;
  }

  lemma SettledHoldsNothing(m: Machine, i: nat)
    requires Inv(m) && i in m.ops && Settled(m.ops[i])
    ensures i !in m.core.registry.leases
  {
    hide Good;
  }

  /** An operation just prepared is live and active, under its request and owner, in the context of its traversal. */
  lemma PreparedIsLive(core: Core<nat>, q: Request, owner: Owner, id: nat)
    ensures Prepare(core, q, owner, id).Ok? ==>
              var (core', op) := Prepare(core, q, owner, id).value;
              && Live(core', op) && op.status.Active? && op.staged.None? && op.request == q && op.owner == owner
              && (ContinuationOf(q).None? ==> op.lease.None? && op.context == FirstContext(q) && core' == core)
              && (ContinuationOf(q).Some? ==>
                    && op.lease == Some(id) && id in core'.registry.leases
                    && core'.registry.leases[id].url == ContinuationOf(q).value
                    && op.context == Some(core'.registry.leases[id].context))
  {
    hide FirstFit, FirstContext, WantedBy;
  }

  /** After any run, a validation may begin exactly on a live operation that was never staged. */
  lemma ValidatesBeforeStaging(limitOf: Url -> Option<Text>, steps: seq<Step>, i: nat)
    requires i in Run(limitOf, START, steps).ops
    ensures var m := Run(limitOf, START, steps);
            MayValidate(m.core, m.ops[i]) <==> Live(m.core, m.ops[i]) && LatestStage(limitOf, steps, i).None?
  {
    hide Run, LatestStage;
    RunShowsStage(limitOf, steps, i);
  }

  lemma {:induction false} SettledStays(limitOf: Url -> Option<Text>, m: Machine, i: nat, steps: seq<Step>)
    requires Inv(m) && i in m.ops && Settled(m.ops[i])
    ensures var m' := Run(limitOf, m, steps); i in m'.ops && m'.ops[i] == m.ops[i]
    ensures i !in Run(limitOf, m, steps).core.registry.leases
    decreases |steps|
  {
    hide Inv, Next, Settled;
    if steps != [] {
      StepKeepsInv(limitOf, m, steps[0]);
      SettledForOneStep(limitOf, m, steps[0], i);
      SettledStays(limitOf, Next(limitOf, m, steps[0]), i, steps[1..]);
    } else {
      SettledHoldsNothing(m, i);
    }
  }

  lemma ClosedForOneStep(limitOf: Url -> Option<Text>, m: Machine, s: Step)
    requires m.core.closed
    ensures Next(limitOf, m, s).core.closed
  {
    hide Reserve, Commit, Restore, Forget, Accepted;
  }

  /** Once cleared, nothing comes back, whatever is still released, committed or prepared. */
  lemma {:induction false} ClosedStaysEmpty(limitOf: Url -> Option<Text>, m: Machine, steps: seq<Step>)
    requires Inv(m) && m.core.closed
    ensures var m' := Run(limitOf, m, steps); m'.core.closed && m'.core.registry == Empty()
    decreases |steps|
  {
    if steps != [] {
      StepKeepsInv(limitOf, m, steps[0]);
      ClosedForOneStep(limitOf, m, steps[0]);
      hide Inv, Next;
      ClosedStaysEmpty(limitOf, Next(limitOf, m, steps[0]), steps[1..]);
    }
  }

  /** Clearing closes the session and empties its registry. */
  lemma ClearCloses(limitOf: Url -> Option<Text>, m: Machine)
    ensures var core := Next(limitOf, m, DoClear).core;
            && core.closed && core.generation == m.core.generation + 1
            && core.registry.entries == map[] && core.registry.leases == map[]
            && core.registry.size == 0 && core.registry.historySize == 0
  {
  }

  /** From then on no operation is live, nothing is leased or available, and no operation can be prepared. */
  lemma NothingAfterClear(limitOf: Url -> Option<Text>, m: Machine, steps: seq<Step>, q: Request, owner: Owner, id: nat)
    requires Inv(m)
    ensures var n := Run(limitOf, Next(limitOf, m, DoClear), steps);
            && (forall i :: i in n.ops ==> !Live(n.core, n.ops[i]))
            && n.core.registry.entries == map[] && n.core.registry.leases == map[]
            && Prepare(n.core, q, owner, id) == Err(SessionClosed)
  {
    hide Inv, Next, Reserve;
    ClearCloses(limitOf, m);
    StepKeepsInv(limitOf, m, DoClear);
    ClosedStaysEmpty(limitOf, Next(limitOf, m, DoClear), steps);
  }

  /** The scope was created in the course of the run, while the session was open. */
  ghost predicate WasCreated(limitOf: Url -> Option<Text>, steps: seq<Step>, scope: nat) {
    exists i :: 0 <= i < |steps| && steps[i] == DoCreateScope(scope) && !Run(limitOf, START, steps[..i]).core.closed
  }

  lemma ScopesAfterStep(limitOf: Url -> Option<Text>, m: Machine, s: Step)
    ensures Next(limitOf, m, s).core.scopes
         == if s.DoCreateScope? && !m.core.closed then m.core.scopes + {s.scope} else m.core.scopes
  {
    hide Reserve, Commit, Restore, Forget, Accepted;
  }

  lemma CreatedStep(limitOf: Url -> Option<Text>, steps: seq<Step>, scope: nat)
    requires steps != []
    ensures var n := |steps| - 1;
            WasCreated(limitOf, steps, scope) <==>
              || WasCreated(limitOf, steps[..n], scope)
              || (steps[n] == DoCreateScope(scope) && !Run(limitOf, START, steps[..n]).core.closed)
  {
    hide Run;
    var n := |steps| - 1;
    assert forall i :: 0 <= i < n ==> steps[..n][..i] == steps[..i];
    if i :| 0 <= i < n && steps[..n][i] == DoCreateScope(scope) && !Run(limitOf, START, steps[..n][..i]).core.closed {
      assert steps[i] == DoCreateScope(scope);
    }
  }

  /** The known scopes are those created while the session was open. */
  lemma {:induction false} KnownScopes(limitOf: Url -> Option<Text>, steps: seq<Step>, scope: nat)
    ensures scope in Run(limitOf, START, steps).core.scopes <==> WasCreated(limitOf, steps, scope)
  {
    hide Next, WasCreated;
    if steps == [] {
      assert !WasCreated(limitOf, [], scope) by { NothingCreated(limitOf, scope); }
    } else {
      var n := |steps| - 1;
      KnownScopes(limitOf, steps[..n], scope);
      CreatedStep(limitOf, steps, scope);
      RunEnds(limitOf, START, steps);
      ScopesAfterStep(limitOf, Run(limitOf, START, steps[..n]), steps[n]);
    }
  }

  lemma NothingCreated(limitOf: Url -> Option<Text>, scope: nat)
    ensures !WasCreated(limitOf, [], scope)
  {
  }

  /** An operation is refused for its scope exactly when the session is open and that scope was never created. */
  lemma UnknownScopesAreRefused(limitOf: Url -> Option<Text>, steps: seq<Step>, q: Request, owner: Owner, id: nat)
    ensures var core := Run(limitOf, START, steps).core;
            Prepare(core, q, owner, id) == Err(UnknownScope) <==>
              !core.closed && owner.Some? && !WasCreated(limitOf, steps, owner.value)
  {
    hide Run, Reserve, WasCreated;
    if owner.Some? {
      KnownScopes(limitOf, steps, owner.value);
    }
  }

  /** Forgetting a known scope leaves none of its capabilities available, and everything else as it was. */
  lemma ForgottenScope(limitOf: Url -> Option<Text>, m: Machine, scope: nat, u: Url, e: Entry)
    ensures var n := Next(limitOf, m, DoForget(scope)).core;
            && n.registry.leases == m.core.registry.leases
            && multiset(EntriesAt(n.registry, u))[e]
               == if scope in m.core.scopes && e.owner == Some(scope) then 0
                  else multiset(EntriesAt(m.core.registry, u))[e]
  {
    OthersAreTheRest(EntriesAt(m.core.registry, u), Some(scope));
    assert EntriesAt(Forget(m.core.registry, scope), u) == Others(EntriesAt(m.core.registry, u), Some(scope));
  }

  // Which traversal a request continues

  /** The requests are for pages of the same kind about the same things. */
  predicate SameSubject(q: Request, first: Request) {
    match (q, first)
    case (ReadCollection(c, _), ReadCollection(d, _)) => c == d
    case (ReadBeadLinks(b, _, _), ReadBeadLinks(c, _, _)) => b == c
    case (HistoryPage(r, i, _, _), HistoryPage(s, j, _, _)) => r == s && i == j
    case _ => false
  }

  /** A request may continue the traversals that began with a request about the same things, and no others. */
  lemma RequestsContinueTheirSubject(q: Request, first: Request)
    requires ContinuationOf(q).Some? && FirstContext(first).Some?
    ensures Matches(WantedBy(q), FirstContext(first).value) <==> SameSubject(q, first)
  {
  }

  /** Two first pages begin in one context exactly when they ask for the same, direction and limit included. */
  lemma ContextIsOfRequest(q: Request, r: Request)
    requires FirstContext(q).Some? || FirstContext(r).Some?
    ensures FirstContext(q) == FirstContext(r) <==>
              && SameSubject(q, r)
              && (q.ReadBeadLinks? ==> q.direction == r.direction)
              && (q.HistoryPage? ==> q.limit == r.limit)
  {
  }

  /** Steps that neither deliver a commit, nor forget a scope, nor clear the session. */
  predicate Conserving(m: Machine, s: Step) {
    match s
    case DoCommit(i, token) => i in m.ops ==> !CommitOp(m.core, m.ops[i], token).2.Delivered?
    case DoForget(_) => false
    case DoClear => false
    case _ => true
  }

  ghost predicate ConservingRun(limitOf: Url -> Option<Text>, m: Machine, steps: seq<Step>)
    decreases |steps|
  {
    steps == [] || (Conserving(m, steps[0]) && ConservingRun(limitOf, Next(limitOf, m, steps[0]), steps[1..]))
  }

  lemma StepConserves(limitOf: Url -> Option<Text>, m: Machine, s: Step, u: Url, e: Entry)
    requires Inv(m) && Conserving(m, s)
    ensures Copies(Next(limitOf, m, s).core.registry, u, e) == Copies(m.core.registry, u, e)
  {
    hide Copies, Good;
    match s
    case DoPrepare(q, owner) =>
      assert m.issued !in m.core.registry.leases;
      if Prepare(m.core, q, owner, m.issued).Ok? && ContinuationOf(q).Some? {
        ReserveConserves(m.core.registry, ContinuationOf(q).value, owner, WantedBy(q), m.issued, u, e);
      }
    case DoCommit(i, token) =>
      if i in m.ops {
        UndeliveredCommitChangesNothing(limitOf, m, i, token);
      }
    case DoRelease(i) =>
      if i in m.ops {
        RestoreConserves(m.core.registry, m.ops[i].lease, u, e);
      }
    case _ =>
  }

  /** Between deliveries no capability is lost or made up, however the operations interleave. */
  lemma {:induction false} RunConserves(limitOf: Url -> Option<Text>, m: Machine, steps: seq<Step>, u: Url, e: Entry)
    requires Inv(m) && ConservingRun(limitOf, m, steps)
    ensures Copies(Run(limitOf, m, steps).core.registry, u, e) == Copies(m.core.registry, u, e)
    decreases |steps|
  {
    if steps != [] {
      StepKeepsInv(limitOf, m, steps[0]);
      StepConserves(limitOf, m, steps[0], u, e);
      hide Inv, Next, Copies, Conserving;
      RunConserves(limitOf, Next(limitOf, m, steps[0]), steps[1..], u, e);
    }
  }

  /**
   * A History page is staged exactly when its item count is within the limit requested and its next URL keeps an
   * explicit limit.
   */
  lemma HistoryPageStaged(limitOf: Url -> Option<Text>, core: Core<nat>, op: Op<nat>,
                          count: nat, next: Option<Url>, token: nat)
    requires Live(core, op) && op.status.Active? && op.request.HistoryPage?
    requires op.context.Some? && op.context.value.HistoryVersions?
    requires RequestedLimit(limitOf, op.request).Some? ==> IsCanonical(RequestedLimit(limitOf, op.request).value)
    ensures EndValidate(limitOf, core, op, Parsed(count, next), token).status.Staged? <==>
            && (RequestedLimit(limitOf, op.request).Some? ==> count <= Value(RequestedLimit(limitOf, op.request).value))
            && (op.context.value.limit.Some? && next.Some? ==>
                  limitOf(next.value) == Some(Spell(op.context.value.limit.value)))
  {
    if RequestedLimit(limitOf, op.request).Some? {
      PageLimitRefusal(count, RequestedLimit(limitOf, op.request).value);
    }
  }

  /** The first page of a History is staged exactly when it keeps within the limit asked for and carries it on. */
  lemma FirstHistoryPageStaged(limitOf: Url -> Option<Text>, core: Core<nat>, resource: Resource, id: Url,
                               limit: Option<nat>, owner: Owner, k: nat, count: nat, next: Option<Url>, token: nat)
    requires !core.closed && (owner.Some? ==> owner.value in core.scopes)
    ensures var r := Prepare(core, HistoryPage(resource, id, limit, None), owner, k);
            && r.Ok? && r.value.0 == core
            && (EndValidate(limitOf, core, r.value.1, Parsed(count, next), token).status.Staged? <==>
                  (limit.Some? ==>
                     count <= limit.value && (next.Some? ==> limitOf(next.value) == Some(Spell(limit.value)))))
  {
    var r := Prepare(core, HistoryPage(resource, id, limit, None), owner, k);
    if limit.Some? {
      ValueOfSpell(limit.value);
      HistoryPageStaged(limitOf, core, r.value.1, count, next, token);
    }
  }

  /** A later page keeps within the limit its URL names, and carries on the limit of its first page. */
  lemma LaterHistoryPageStaged(limitOf: Url -> Option<Text>, core: Core<nat>, resource: Resource, id: Url,
                               limit: Option<nat>, url: Url, owner: Owner, k: nat, count: nat, next: Option<Url>,
                               token: nat)
    requires Prepare(core, HistoryPage(resource, id, limit, Some(url)), owner, k).Ok?
    requires limitOf(url).Some? ==> IsCanonical(limitOf(url).value)
    ensures var (core', op) := Prepare(core, HistoryPage(resource, id, limit, Some(url)), owner, k).value;
            && op.context.Some? && op.context.value.HistoryVersions?
            && op.context.value.resource == resource && op.context.value.subject == id
            && (EndValidate(limitOf, core', op, Parsed(count, next), token).status.Staged? <==>
                  && (limitOf(url).Some? ==> count <= Value(limitOf(url).value))
                  && (op.context.value.limit.Some? && next.Some? ==>
                        limitOf(next.value) == Some(Spell(op.context.value.limit.value))))
  {
    hide FirstFit;
    var (core', op) := Prepare(core, HistoryPage(resource, id, limit, Some(url)), owner, k).value;
    HistoryPageStaged(limitOf, core', op, count, next, token);
  }

  /** Every other body is staged exactly when it was found well formed. */
  lemma OtherBodyStaged(limitOf: Url -> Option<Text>, core: Core<nat>, op: Op<nat>, body: Inspection, token: nat)
    requires op.status.Active? && !op.request.HistoryPage?
    ensures EndValidate(limitOf, core, op, body, token).status.Staged? <==> body.Parsed? && Live(core, op)
  {
  }
}
