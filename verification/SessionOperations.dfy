/** The session core and its operations as objects: each method is a step of `Sessions` and keeps its registry good. */
module SessionOperations {
  import opened Continuations
  import opened Outcomes
  import opened Sessions
  import opened Texts
  import C = ContinuationRegistry

  type Operations<!K(==), !L(==)> = map<K, Op<L>>

  /** The active leases are exactly those of the live operations, each under its own context and owner, held once. */
  ghost predicate HoldersMatch<K, L>(core: Core<L>, ops: Operations<K, L>) {
    && (forall l :: l in core.registry.leases ==> exists k :: k in ops && ops[k].lease == Some(l) && Live(core, ops[k]))
    && (forall k :: k in ops && ops[k].lease.Some? && Live(core, ops[k]) ==>
          && ops[k].lease.value in core.registry.leases
          && ops[k].context == Some(core.registry.leases[ops[k].lease.value].context)
          && ops[k].owner == core.registry.leases[ops[k].lease.value].owner)
    && (forall j, k :: j in ops && k in ops && ops[j].lease.Some? && ops[j].lease == ops[k].lease ==> j == k)
  }

  lemma PrepareKeepsMatch<K, L>(core: Core<L>, ops: Operations<K, L>, q: Request, owner: Owner, id: L, k: K)
    requires HoldersMatch(core, ops) && k !in ops && Prepare(core, q, owner, id).Ok?
    requires forall j :: j in ops ==> ops[j].lease != Some(id)
    ensures var (core', op) := Prepare(core, q, owner, id).value; HoldersMatch(core', ops[k := op])
  {
    hide Reserve, FirstContext, WantedBy;
    if ContinuationOf(q).Some? {
      LeasesAfterReserve(core.registry, ContinuationOf(q).value, owner, WantedBy(q), id);
    }
    var (core', op) := Prepare(core, q, owner, id).value;
    var ops' := ops[k := op];
    forall l | l in core'.registry.leases
      ensures exists j :: j in ops' && ops'[j].lease == Some(l) && Live(core', ops'[j])
    {
      if l in core.registry.leases {
        var j :| j in ops && ops[j].lease == Some(l) && Live(core, ops[j]);
        assert ops'[j] == ops[j];
      } else {
        assert ops'[k].lease == Some(l);
      }
    }
  }

  /** Ending an operation together with its lease, if it is still live. */
  lemma EndKeepsMatch<K, L>(core: Core<L>, core': Core<L>, ops: Operations<K, L>, k: K, op': Op<L>)
    requires HoldersMatch(core, ops) && k in ops && Settled(op') && op'.lease == ops[k].lease
    requires core'.closed == core.closed && core'.generation == core.generation
    requires Live(core, ops[k]) ==>
               core'.registry.leases == core.registry.leases - if op'.lease.Some? then {op'.lease.value} else {}
    requires !Live(core, ops[k]) ==> core' == core
    ensures HoldersMatch(core', ops[k := op'])
  {
    var ops' := ops[k := op'];
    var before, after := core.registry.leases, core'.registry.leases;
    assert forall l :: l in after ==> l in before && after[l] == before[l];
    forall l | l in after
      ensures exists j :: j in ops' && ops'[j].lease == Some(l) && Live(core', ops'[j])
    {
      var j :| j in ops && ops[j].lease == Some(l) && Live(core, ops[j]);
      assert j != k && ops'[j] == ops[j];
    }
    forall j | j in ops' && ops'[j].lease.Some? && Live(core', ops'[j])
      ensures ops'[j].lease.value in after && after[ops'[j].lease.value] == before[ops'[j].lease.value]
    {
      assert j != k && ops'[j] == ops[j] && Live(core, ops[j]);
    }
  }

  /** A change that leaves leases, liveness, contexts and owners alone. */
  lemma SameHoldersMatch<K, L>(core: Core<L>, core': Core<L>, ops: Operations<K, L>, k: K, op': Op<L>)
    requires HoldersMatch(core, ops)
    requires core'.registry.leases == core.registry.leases
    requires core'.closed == core.closed && core'.generation == core.generation
    requires k in ops && op'.lease == ops[k].lease && op'.context == ops[k].context && op'.owner == ops[k].owner
    requires Live(core, op') == Live(core, ops[k])
    ensures HoldersMatch(core', ops[k := op'])
  {
    var ops' := ops[k := op'];
    forall l | l in core'.registry.leases
      ensures exists j :: j in ops' && ops'[j].lease == Some(l) && Live(core', ops'[j])
    {
      var j :| j in ops && ops[j].lease == Some(l) && Live(core, ops[j]);
      assert ops'[j].lease == Some(l);
    }
  }

  lemma CommitKeepsMatch<K, L>(core: Core<L>, ops: Operations<K, L>, k: K, token: nat)
    requires HoldersMatch(core, ops) && k in ops
    ensures var (core', op', outcome) := CommitOp(core, ops[k], token);
            && HoldersMatch(core', ops[k := op'])
            && (outcome.Refused? ==> outcome.error !in {Inactive, ContextChanged, OwnerChanged})
  {
    var op := ops[k];
    var (core', op', outcome) := CommitOp(core, op, token);
    if outcome.Delivered? {
      if op.context.Some? {
        LeasesAfterCommit(core.registry, op.lease, op.next, op.context.value, op.owner);
      }
      hide Commit;
      EndKeepsMatch(core, core', ops, k, op');
    } else {
      SameHoldersMatch(core, core', ops, k, op');
    }
  }

  lemma ReleaseKeepsMatch<K, L>(core: Core<L>, ops: Operations<K, L>, k: K)
    requires HoldersMatch(core, ops) && k in ops
    ensures var (core', op') := ReleaseOp(core, ops[k]); HoldersMatch(core', ops[k := op'])
  {
    var (core', op') := ReleaseOp(core, ops[k]);
    if Settled(ops[k]) {
      SameHoldersMatch(core, core', ops, k, op');
    } else {
      EndKeepsMatch(core, core', ops, k, op');
    }
  }

  lemma StageKeepsMatch<K, L>(limitOf: Url -> Option<Text>, core: Core<L>, ops: Operations<K, L>, k: K,
                              body: Inspection, token: nat)
    requires HoldersMatch(core, ops) && k in ops
    ensures HoldersMatch(core, ops[k := EndValidate(limitOf, core, ops[k], body, token)])
  {
    hide Accepted;
    SameHoldersMatch(core, core, ops, k, EndValidate(limitOf, core, ops[k], body, token));
  }

  lemma ForgetKeepsMatch<K, L>(core: Core<L>, ops: Operations<K, L>, scope: nat)
    requires HoldersMatch(core, ops)
    ensures HoldersMatch(ForgetScope(core, scope), ops)
  {
    var core' := ForgetScope(core, scope);
    assert core'.registry.leases == core.registry.leases;
    assert forall k :: k in ops ==> Live(core', ops[k]) == Live(core, ops[k]);
  }

  lemma AddedWithoutLease<K, L>(core: Core<L>, ops: Operations<K, L>, k: K, op: Op<L>)
    requires HoldersMatch(core, ops) && k !in ops && op.lease.None?
    ensures HoldersMatch(core, ops[k := op])
  {
    var ops' := ops[k := op];
    forall l | l in core.registry.leases
      ensures exists j :: j in ops' && ops'[j].lease == Some(l) && Live(core, ops'[j])
    {
      var j :| j in ops && ops[j].lease == Some(l) && Live(core, ops[j]);
      assert ops'[j] == ops[j];
    }
  }

  lemma NothingToForget<L>(scope: nat)
    ensures Forget(Empty<L>(), scope) == Empty()
  {
    assert Kept(map[], Some(scope)) == map[];
  }

  lemma CreateScopeKeepsMatch<K, L>(core: Core<L>, ops: Operations<K, L>, scope: nat)
    requires HoldersMatch(core, ops)
    ensures HoldersMatch(CreateScope(core, scope), ops)
  {
    var core' := CreateScope(core, scope);
    assert forall k :: k in ops ==> Live(core', ops[k]) == Live(core, ops[k]);
  }

  lemma ClearKeepsMatch<K, L>(core: Core<L>, ops: Operations<K, L>)
    requires HoldersMatch(core, ops)
    ensures HoldersMatch(ClearCore(core), ops)
  {
  }

  class SessionCore {
    const continuations: C.Registry
    var owners: set<nat>
    var generation: nat
    var closed: bool
    ghost var ops: set<PreparedOperation>

    /** The registry is good, and it holds exactly the leases of the live operations prepared on this core. */
    ghost predicate Valid()
      reads this, continuations, continuations.sets, ops
    {
      && continuations.Valid() && Good(continuations.Abs())
      && (closed ==> continuations.Abs() == Empty())
      && (forall o :: o in ops ==> o.core == this)
      && HoldersMatch(View(), Ops())
    }

    ghost function Ops(): Operations<PreparedOperation, C.LeaseObject>
      reads this`ops, ops
    {
      map o | o in ops :: o.View()
    }

    ghost function View(): Core<C.LeaseObject>
      requires continuations.Valid()
      reads this, continuations, continuations.sets
    {
      Core(continuations.Abs(), owners, generation, closed)
    }

    constructor (continuations: C.Registry)
      requires continuations.Valid() && continuations.Abs() == Empty()
      ensures this.continuations == continuations && Valid() && ops == {}
      ensures View() == Core(Empty(), {}, 0, false)
    {
      hide Good, C.Registry.Abs, C.Registry.Valid;
      EmptyIsGood<C.LeaseObject>();
      this.continuations := continuations;
      owners, generation, closed, ops := {}, 0, false, {};
    }

    /** `owner`: only scopes this client created are known. */
    predicate KnowsOwner(owner: Owner)
      reads this
    {
      owner.Some? ==> owner.value in owners
    }

    method CreateContinuationScope(scope: nat)
      requires Valid()
      modifies `owners
      ensures Valid() && View() == CreateScope(old(View()), scope)
    {
      hide Good, C.Registry.Abs, C.Registry.Valid;
      hide HoldersMatch;
      CreateScopeKeepsMatch(View(), Ops(), scope);
      if !closed {
        owners := owners + {scope};
      }
      assert Ops() == old(Ops());
    }

    method ForgetContinuations(scope: nat)
      requires Valid()
      modifies continuations`entries, continuations`size, continuations`historySize
      ensures Valid() && View() == ForgetScope(old(View()), scope)
    {
      hide Good, Forget, C.Registry.Abs, C.Registry.Valid, HoldersMatch;
      ForgetKeepsMatch(View(), Ops(), scope);
      if scope in owners {
        ForgetKeepsGood(continuations.Abs(), scope);
        assert closed ==> Forget(Empty<C.LeaseObject>(), scope) == Empty() by { NothingToForget<C.LeaseObject>(scope); }
        continuations.ForgetAvailable(scope);
      }
      assert Ops() == old(Ops());
    }

    method Clear()
      requires Valid()
      modifies `closed, `generation, continuations
      ensures Valid() && View() == ClearCore(old(View()))
      ensures closed && continuations.Abs() == Empty()
      ensures forall o :: o in ops ==> !o.IsLive()
    {
      hide Good, C.Registry.Abs, C.Registry.Valid, HoldersMatch;
      EmptyIsGood<C.LeaseObject>();
      ClearKeepsMatch(View(), Ops());
      closed := true;
      generation := generation + 1;
      continuations.Clear();
      assert Ops() == old(Ops());
    }

    ghost method Enlist(op: PreparedOperation)
      requires continuations.Valid() && Good(continuations.Abs()) && (closed ==> continuations.Abs() == Empty())
      requires op.core == this && forall o :: o in ops ==> o.core == this
      requires HoldersMatch(View(), Ops()[op := op.View()])
      modifies `ops
      ensures Valid() && ops == old(ops) + {op} && View() == old(View())
    {
      hide Good, C.Registry.Abs, C.Registry.Valid, HoldersMatch;
      ops := ops + {op};
      assert Ops() == old(Ops())[op := op.View()];
    }

    /** A new operation, holding a lease exactly when its request continues a traversal. */
    method Prepare(request: Request, owner: Owner) returns (r: Result<PreparedOperation, PrepareError>)
      requires Valid()
      modifies continuations, `ops
      ensures Valid() && continuations.sets == old(continuations.sets)
      ensures ops == old(ops) + if r.Ok? then {r.value} else {}
      ensures r.Err? ==> View() == old(View())
      ensures r.Err? ==>
                r.error == if closed then SessionClosed else if !KnowsOwner(owner) then UnknownScope else NotIssued
      ensures r.Err? && r.error.NotIssued? ==>
                var url := ContinuationOf(request);
                url.Some? && FirstFit(EntriesAt(old(View()).registry, url.value), WantedBy(request), owner).None?
      ensures r.Ok? ==> fresh(r.value) && r.value.core == this
      ensures r.Ok? && r.value.lease == null ==>
                && ContinuationOf(request).None? && !closed && KnowsOwner(owner) && View() == old(View())
                && r.value.View() == Op(request, owner, FirstContext(request), None, generation, Active, None, None)
      ensures r.Ok? && r.value.lease != null ==>
                && fresh(r.value.lease)
                && Sessions.Prepare(old(View()), request, owner, r.value.lease) == Ok((View(), r.value.View()))
    {
      hide Good, Reserve, FirstFit, FirstContext, WantedBy, C.Registry.Abs, C.Registry.Valid, HoldersMatch;
      if closed {
        return Err(SessionClosed);
      }
      if !KnowsOwner(owner) {
        return Err(UnknownScope);
      }
      var url := ContinuationOf(request);
      var context := FirstContext(request);
      var lease: C.LeaseObject? := null;
      if url.Some? {
        LeasesAreHeld(continuations);
        lease := continuations.Reserve(url.value, owner, WantedBy(request));
        if lease == null {
          return Err(NotIssued);
        }
        ReservedLease(continuations, old(View()).registry, url.value, owner, WantedBy(request), lease);
        ReserveKeepsGood(old(View()).registry, url.value, owner, WantedBy(request), lease);
        context := Some(lease.context);
      }
      var op := new PreparedOperation(this, request, owner, context, lease);
      assert Ops() == old(Ops());
      if lease != null {
        PrepareKeepsMatch(old(View()), Ops(), request, owner, lease, op);
      } else {
        AddedWithoutLease(View(), Ops(), op, op.View());
      }
      Enlist(op);
      return Ok(op);
    }
  }

  lemma LeasesAreHeld(registry: C.Registry)
    requires registry.Valid()
    ensures registry.Abs().leases.Keys == registry.leases
  {
  }

  /** The lease just reserved carries the context the registry shows for it. */
  lemma ReservedLease(registry: C.Registry, before: Continuations.Registry<C.LeaseObject>,
                      url: Url, owner: Owner, w: Wanted, lease: C.LeaseObject)
    requires registry.Valid()
    requires Continuations.Reserve(before, url, owner, w, lease) == Some(registry.Abs())
    ensures lease in registry.Abs().leases && registry.Abs().leases[lease].context == lease.context
  {
    assert lease in registry.Abs().leases;
  }

  class PreparedOperation {
    const core: SessionCore
    const request: Request
    const owner: Owner
    const context: Option<Context>
    const lease: C.LeaseObject?
    const generation: nat
    var status: Status
    var staged: Option<nat>
    var next: Option<Url>

    constructor (core: SessionCore, request: Request, owner: Owner, context: Option<Context>, lease: C.LeaseObject?)
      ensures this.core == core && this.lease == lease
      ensures View() == Op(request, owner, context, C.Optional(lease), core.generation, Active, None, None)
    {
      this.core, this.request, this.owner, this.context, this.lease := core, request, owner, context, lease;
      generation := core.generation;
      status, staged, next := Active, None, None;
    }

    function View(): Op<C.LeaseObject>
      reads this
    {
      Op(request, owner, context, C.Optional(lease), generation, status, staged, next)
    }

    /** `check` at the head of every step. */
    predicate IsLive()
      reads this, core
    {
      !core.closed && core.generation == generation && !status.Committed? && !status.Released?
    }

    /** The operation was prepared on its core, whose invariant holds. */
    ghost predicate Valid()
      reads core, core.continuations, core.continuations.sets, core.ops
    {
      core.Valid() && this in core.ops
    }

    /** The start of a validation, before the body is inspected. */
    method BeginValidation() returns (ok: bool)
      requires Valid()
      ensures ok <==> MayValidate(core.View(), View())
    {
      ok := IsLive() && status.Active?;
    }

    /** The end of a validation, after the body has been inspected. */
    method FinishValidation(limitOf: Url -> Option<Text>, body: Inspection, token: nat)
      requires Valid()
      modifies this
      ensures Valid() && View() == EndValidate(limitOf, core.View(), old(View()), body, token)
    {
      hide Good, C.Registry.Abs, C.Registry.Valid, HoldersMatch;
      StageKeepsMatch(limitOf, core.View(), core.Ops(), this, body, token);
      if body.Parsed? && !(request.HistoryPage? && !PageAccepted(limitOf, request, context, body.count, body.next)) {
        if IsLive() {
          next := if context.None? then None else body.next;
          staged := Some(token);
          status := Staged;
        }
      }
      assert core.Ops() == old(core.Ops())[this := View()];
    }

    method Commit(token: nat) returns (outcome: CommitOutcome)
      requires Valid()
      modifies `status, core.continuations, core.continuations.sets
      ensures Valid() && fresh(core.continuations.sets - old(core.continuations.sets))
      ensures outcome.Refused? ==> outcome.error !in {Inactive, ContextChanged, OwnerChanged}
      ensures (core.View(), View(), outcome) == CommitOp(old(core.View()), old(View()), token)
    {
      hide Good, Continuations.Commit, C.Registry.Abs, C.Registry.Valid, HoldersMatch;
      ghost var step := CommitOp(core.View(), View(), token);
      CommitKeepsMatch(core.View(), core.Ops(), this, token);
      assert core.Ops()[this := View()] == core.Ops();
      if !IsLive() {
        return NotLive;
      }
      if !status.Staged? || staged != Some(token) {
        return WrongStage;
      }
      if context.Some? {
        CommitKeepsGood(core.continuations.Abs(), C.Optional(lease), next, context.value, owner);
        var error := core.continuations.Commit(lease, next, context.value, owner);
        if error.Some? {
          return Refused(error.value);
        }
      }
      status := Committed;
      assert core.View() == step.0 && View() == step.1;
      assert core.Ops() == old(core.Ops())[this := View()];
      return Delivered;
    }

    method Release()
      requires Valid()
      modifies `status, `staged, core.continuations
      ensures Valid() && core.continuations.sets == old(core.continuations.sets)
      ensures (core.View(), View()) == ReleaseOp(old(core.View()), old(View()))
    {
      hide Good, Continuations.Restore, C.Registry.Abs, C.Registry.Valid, HoldersMatch;
      ReleaseKeepsMatch(core.View(), core.Ops(), this);
      assert core.Ops()[this := View()] == core.Ops();
      if status.Released? || status.Committed? {
        return;
      }
      status := Released;
      staged := None;
      assert core.Ops() == old(core.Ops())[this := View()];
      if !core.closed && generation == core.generation {
        RestoreKeepsGood(core.continuations.Abs(), C.Optional(lease));
        core.continuations.Restore(lease);
      }
    }
  }
}
