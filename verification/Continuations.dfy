/** The registry of continuation capabilities, as a value: what each operation does to it and what every state keeps. */
module Continuations {
  import opened Outcomes
  import opened Texts

  type Url = Text

  const MAXIMUM_CONTEXTS := 1_024
  const MAXIMUM_HISTORY := 10_000

  datatype Resource = BeadResource | LinkResource
  datatype CollectionKind = Beads | Links | Types
  datatype Direction = Inbound | Outbound | Both

  datatype Context =
    | HistoryVersions(resource: Resource, subject: Url, limit: Option<nat>)
    | Collection(collection: CollectionKind)
    | BeadLinks(bead: Url, direction: Direction)

  /** The scope that owns a capability, if one was given. */
  type Owner = Option<nat>

  /** An available capability; `history` lists, oldest first, every URL its traversal was issued. */
  datatype Entry = Entry(context: Context, owner: Owner, history: seq<Url>)

  /** A capability held by an operation, together with the URL it was issued under. */
  datatype Lease = Lease(url: Url, context: Context, owner: Owner, history: seq<Url>)

  /** Leases are told apart by identity, here by keys of type `L`. */
  datatype Registry<!L(==)> = Registry(
    entries: map<Url, seq<Entry>>,
    leases: map<L, Lease>,
    size: int,
    historySize: int)

  function Empty<L(==)>(): Registry<L> {
    Registry(map[], map[], 0, 0)
  }

  /** What a request's continuation must have been issued for. */
  datatype Wanted =
    | WantedHistory(resource: Resource, subject: Url)
    | WantedCollection(collection: CollectionKind)
    | WantedBead(bead: Url)

  predicate Matches(w: Wanted, c: Context) {
    match w
    case WantedHistory(resource, subject) => c.HistoryVersions? && c.resource == resource && c.subject == subject
    case WantedCollection(collection) => c.Collection? && c.collection == collection
    case WantedBead(bead) => c.BeadLinks? && c.bead == bead
  }

  predicate Fits(w: Wanted, owner: Owner, e: Entry) {
    e.owner == owner && Matches(w, e.context)
  }

  function FirstFit(es: seq<Entry>, w: Wanted, owner: Owner): (r: Option<nat>)
    ensures r.Some? ==> r.value < |es| && Fits(w, owner, es[r.value])
    ensures r.Some? ==> forall i :: 0 <= i < r.value ==> !Fits(w, owner, es[i])
    ensures r.None? ==> forall i :: 0 <= i < |es| ==> !Fits(w, owner, es[i])
  {
    if es == [] then
      None
    else if Fits(w, owner, es[0]) then
      Some(0)
    else
      var r := FirstFit(es[1..], w, owner);
      assert forall i :: 0 < i < |es| ==> es[i] == es[1..][i - 1];
      if r.None? then None else Some(r.value + 1)
  }

  function EntriesAt<L>(r: Registry<L>, url: Url): seq<Entry> {
    if url in r.entries then r.entries[url] else []
  }

  /** An empty list is dropped from the map. */
  function PutEntries(entries: map<Url, seq<Entry>>, url: Url, es: seq<Entry>): map<Url, seq<Entry>> {
    if es == [] then entries - {url} else entries[url := es]
  }

  function AddEntry<L>(r: Registry<L>, url: Url, e: Entry): Registry<L> {
    r.(entries := r.entries[url := EntriesAt(r, url) + [e]])
  }

  function TakeEntry<L>(r: Registry<L>, url: Url, i: nat): Registry<L>
    requires i < |EntriesAt(r, url)|
  {
    r.(entries := PutEntries(r.entries, url, EntriesAt(r, url)[..i] + EntriesAt(r, url)[i + 1..]))
  }

  function AddLease<L>(r: Registry<L>, id: L, l: Lease): Registry<L> {
    r.(leases := r.leases[id := l])
  }

  function TakeLease<L>(r: Registry<L>, id: L): Registry<L> {
    r.(leases := r.leases - {id})
  }

  function LeaseOf(url: Url, e: Entry): Lease {
    Lease(url, e.context, e.owner, e.history)
  }

  /** Moves the first fitting entry into a lease with the identity `id`. */
  function Reserve<L>(r: Registry<L>, url: Url, owner: Owner, w: Wanted, id: L): Option<Registry<L>> {
    match FirstFit(EntriesAt(r, url), w, owner)
    case None => None
    case Some(i) => Some(AddLease(TakeEntry(r, url, i), id, LeaseOf(url, EntriesAt(r, url)[i])))
  }

  /** Puts a leased capability back; a lease that is no longer active is ignored. */
  function Restore<L>(r: Registry<L>, lease: Option<L>): Registry<L> {
    if lease.None? || lease.value !in r.leases then
      r
    else
      var l := r.leases[lease.value];
      AddEntry(TakeLease(r, lease.value), l.url, Entry(l.context, l.owner, l.history))
  }

  function Clear<L>(r: Registry<L>): Registry<L> {
    Empty()
  }

  datatype CommitError =
    | Inactive | ContextChanged | OwnerChanged | RepeatedUrl | Cycled | AmbiguousDirections
    | SharedHistory
    | RegistryFull | HistoryFull

  /** The same kind of context with the same fields. */
  predicate SameContext(a: Context, b: Context) {
    match (a, b)
    case (HistoryVersions(r, s, l), HistoryVersions(r', s', l')) => r == r' && s == s' && l == l'
    case (Collection(c), Collection(c')) => c == c'
    case (BeadLinks(b, d), BeadLinks(b', d')) => b == b' && d == d'
    case _ => false
  }

  /** Two directions of one Bead's Links under one owner. */
  predicate OtherDirection(owner: Owner, context: Context, other: Owner, candidate: Context) {
    && context.BeadLinks? && other == owner
    && candidate.BeadLinks? && candidate.bead == context.bead && candidate.direction != context.direction
  }

  predicate BothHistories(owner: Owner, context: Context, other: Owner, candidate: Context) {
    context.HistoryVersions? && other == owner && candidate.HistoryVersions?
  }

  /** Some capability of the owner at `url` is for another direction of the same Bead's Links. */
  predicate Ambiguous<L>(r: Registry<L>, url: Url, context: Context, owner: Owner) {
    || (exists i :: 0 <= i < |EntriesAt(r, url)|
          && OtherDirection(owner, context, EntriesAt(r, url)[i].owner, EntriesAt(r, url)[i].context))
    || (exists k :: k in r.leases && r.leases[k].url == url
                    && OtherDirection(owner, context, r.leases[k].owner, r.leases[k].context))
  }

  /** Some other History capability of the owner is at `url`. */
  predicate Shared<L>(r: Registry<L>, lease: Option<L>, url: Url, context: Context, owner: Owner) {
    || (exists i :: 0 <= i < |EntriesAt(r, url)|
          && BothHistories(owner, context, EntriesAt(r, url)[i].owner, EntriesAt(r, url)[i].context))
    || (exists k :: k in r.leases && lease != Some(k) && r.leases[k].url == url
                    && BothHistories(owner, context, r.leases[k].owner, r.leases[k].context))
  }

  function Committable<L>(r: Registry<L>, lease: Option<L>, next: Option<Url>, context: Context, owner: Owner):
    Option<CommitError>
  {
    if lease.Some? && lease.value !in r.leases then Some(Inactive)
    else if lease.Some? && !SameContext(r.leases[lease.value].context, context) then Some(ContextChanged)
    else if lease.Some? && r.leases[lease.value].owner != owner then Some(OwnerChanged)
    else if lease.Some? && next == Some(r.leases[lease.value].url) then Some(RepeatedUrl)
    else if lease.Some? && next.Some? && next.value in r.leases[lease.value].history then Some(Cycled)
    else if next.Some? && Ambiguous(r, next.value, context, owner) then Some(AmbiguousDirections)
    else if next.Some? && Shared(r, lease, next.value, context, owner) then Some(SharedHistory)
    else if r.size - (if lease.None? then 0 else 1) + (if next.None? then 0 else 1) > MAXIMUM_CONTEXTS
    then Some(RegistryFull)
    else if r.historySize - (if next.None? then |HistoryOf(r, lease)| else 0)
            + (if next.None? then 0 else 1) > MAXIMUM_HISTORY
    then Some(HistoryFull)
    else None
  }

  /** `Set.prototype.add` on a set kept in insertion order. */
  function AddUrl(history: seq<Url>, url: Url): seq<Url> {
    if url in history then history else history + [url]
  }

  /** The traversal's history so far. */
  function HistoryOf<L>(r: Registry<L>, lease: Option<L>): seq<Url> {
    if lease.Some? && lease.value in r.leases then r.leases[lease.value].history else []
  }

  /** Removes the lease; its history stays counted only if the traversal goes on. */
  function Consume<L>(r: Registry<L>, lease: Option<L>, next: Option<Url>): Registry<L> {
    if lease.None? then
      r
    else
      TakeLease(r, lease.value).(
        size := r.size - 1,
        historySize := r.historySize - if next.None? then |HistoryOf(r, lease)| else 0)
  }

  /** The next capability joins and the two counters go up by one. */
  function Issue<L>(r: Registry<L>, url: Url, e: Entry): Registry<L> {
    AddEntry(r.(size := r.size + 1, historySize := r.historySize + 1), url, e)
  }

  /** Consumes the lease and issues the next capability of its traversal; a refused commit changes nothing. */
  function Commit<L>(r: Registry<L>, lease: Option<L>, next: Option<Url>, context: Context, owner: Owner):
    Result<Registry<L>, CommitError>
  {
    match Committable(r, lease, next, context, owner)
    case Some(e) => Err(e)
    case None =>
      var r1 := Consume(r, lease, next);
      Ok(match next
         case None => r1
         case Some(url) => Issue(r1, url, Entry(context, owner, AddUrl(HistoryOf(r, lease), url))))
  }

  /** The entries another owner keeps when `owner` forgets its own. */
  function Others(es: seq<Entry>, owner: Owner): (r: seq<Entry>)
    ensures |r| <= |es|
  {
    if es == [] then [] else (if es[0].owner != owner then [es[0]] else []) + Others(es[1..], owner)
  }

  function HistoryLength(es: seq<Entry>): nat {
    if es == [] then 0 else |es[0].history| + HistoryLength(es[1..])
  }

  function EntryCount(es: seq<Entry>): nat {
    |es|
  }

  function LeaseHistory(l: Lease): nat {
    |l.history|
  }

  /** The sum of `f` over the values of a map. */
  ghost function Sum<K, V>(m: map<K, V>, f: V -> nat): nat
    decreases |m|
  {
    if m == map[] then
      0
    else
      var k :| k in m;
      f(m[k]) + Sum(m - {k}, f)
  }

  /** Any key may be taken out first. */
  lemma {:induction false} SumWithout<K, V>(m: map<K, V>, f: V -> nat, k: K)
    requires k in m
    ensures Sum(m, f) == f(m[k]) + Sum(m - {k}, f)
    decreases |m|
  {
    var j :| j in m && Sum(m, f) == f(m[j]) + Sum(m - {j}, f);
    if j != k {
      SumWithout(m - {j}, f, k);
      SumWithout(m - {k}, f, j);
      assert m - {j} - {k} == m - {k} - {j};
    }
  }

  ghost function Kept(entries: map<Url, seq<Entry>>, owner: Owner): map<Url, seq<Entry>> {
    map u | u in entries && Others(entries[u], owner) != [] :: Others(entries[u], owner)
  }

  /** Drops every available capability of one owner; leases are left alone. */
  ghost function Forget<L>(r: Registry<L>, owner: nat): Registry<L> {
    var kept := Kept(r.entries, Some(owner));
    r.(entries := kept,
       size := r.size - (Sum(r.entries, EntryCount) - Sum(kept, EntryCount)),
       historySize := r.historySize - (Sum(r.entries, HistoryLength) - Sum(kept, HistoryLength)))
  }

  // What every reachable registry satisfies.

  /** How many capabilities are held, available or leased. */
  ghost function Held<L>(r: Registry<L>): nat {
    Sum(r.entries, EntryCount) + |r.leases|
  }

  /** How many URLs their histories hold together. */
  ghost function Length<L>(r: Registry<L>): nat {
    Sum(r.entries, HistoryLength) + Sum(r.leases, LeaseHistory)
  }

  ghost predicate NoEmptyList<L>(r: Registry<L>) {
    forall u :: u in r.entries ==> r.entries[u] != []
  }

  /** The two counters count exactly what is held, and stay within their bounds. */
  ghost predicate Counted<L>(r: Registry<L>) {
    && NoEmptyList(r)
    && r.size == Held(r) <= MAXIMUM_CONTEXTS
    && r.historySize == Length(r) <= MAXIMUM_HISTORY
  }

  predicate Distinct(urls: seq<Url>) {
    forall i, j :: 0 <= i < j < |urls| ==> urls[i] != urls[j]
  }

  /** A traversal's issued URLs are pairwise distinct, and the last of them is the one it stands at. */
  predicate Traced(history: seq<Url>, url: Url) {
    history != [] && history[|history| - 1] == url && Distinct(history)
  }

  ghost function Leased<L>(r: Registry<L>, url: Url, e: Entry): set<L> {
    set l | l in r.leases && r.leases[l] == LeaseOf(url, e)
  }

  /** How often a capability exists, available or leased. */
  ghost function Copies<L>(r: Registry<L>, url: Url, e: Entry): nat {
    multiset(EntriesAt(r, url))[e] + |Leased(r, url, e)|
  }

  ghost predicate AllTraced<L>(r: Registry<L>) {
    forall url, e :: Copies(r, url, e) > 0 ==> Traced(e.history, url)
  }

  /** Two capabilities one owner cannot hold at one URL. */
  predicate Clash(a: Entry, b: Entry) {
    OtherDirection(a.owner, a.context, b.owner, b.context) || BothHistories(a.owner, a.context, b.owner, b.context)
  }

  ghost predicate NoClash<L>(r: Registry<L>) {
    forall url, a, b ::
      Copies(r, url, a) > 0 && Copies(r, url, b) > 0 && Clash(a, b) ==> a == b && Copies(r, url, a) == 1
  }

  ghost predicate Good<L>(r: Registry<L>) {
    Counted(r) && AllTraced(r) && NoClash(r)
  }

  lemma SumOfReplaced(entries: map<Url, seq<Entry>>, url: Url, before: seq<Entry>, es: seq<Entry>, f: seq<Entry> -> nat)
    requires f([]) == 0
    requires before == if url in entries then entries[url] else []
    ensures Sum(PutEntries(entries, url, es), f) == Sum(entries, f) - f(before) + f(es)
  {
    var m := PutEntries(entries, url, es);
    assert m - {url} == entries - {url};
    if url in entries {
      SumWithout(entries, f, url);
    } else {
      assert entries - {url} == entries;
    }
    if url in m {
      SumWithout(m, f, url);
    }
  }

  lemma {:induction false} HistoryLengthAdds(a: seq<Entry>, b: seq<Entry>)
    ensures HistoryLength(a + b) == HistoryLength(a) + HistoryLength(b)
  {
    if a == [] {
      assert a + b == b;
    } else {
      assert (a + b)[1..] == a[1..] + b;
      HistoryLengthAdds(a[1..], b);
    }
  }

  lemma HistoryLengthWithout(es: seq<Entry>, i: nat)
    requires i < |es|
    ensures HistoryLength(es[..i] + es[i + 1..]) == HistoryLength(es) - |es[i].history|
  {
    hide HistoryLength;
    HistoryLengthAdds(es[..i], es[i + 1..]);
    HistoryLengthAdds(es[..i], es[i..]);
    HistoryLengthAdds([es[i]], es[i + 1..]);
    assert es == es[..i] + es[i..] && es[i..] == [es[i]] + es[i + 1..];
    HistoryLengthOfOne(es[i]);
  }

  lemma HistoryLengthOfOne(e: Entry)
    ensures HistoryLength([e]) == |e.history|
  {
  }

  // What each elementary move does to the totals and to the number of copies of a capability.

  lemma AddEntryTotals<L>(r: Registry<L>, url: Url, e: Entry)
    ensures Held(AddEntry(r, url, e)) == Held(r) + 1
    ensures Length(AddEntry(r, url, e)) == Length(r) + |e.history|
    ensures NoEmptyList(r) ==> NoEmptyList(AddEntry(r, url, e))
  {
    var before := EntriesAt(r, url);
    SumOfReplaced(r.entries, url, before, before + [e], EntryCount);
    SumOfReplaced(r.entries, url, before, before + [e], HistoryLength);
    HistoryLengthAdds(before, [e]);
  }

  lemma TakeEntryTotals<L>(r: Registry<L>, url: Url, i: nat)
    requires i < |EntriesAt(r, url)|
    ensures Held(TakeEntry(r, url, i)) == Held(r) - 1
    ensures Length(TakeEntry(r, url, i)) == Length(r) - |EntriesAt(r, url)[i].history|
    ensures NoEmptyList(r) ==> NoEmptyList(TakeEntry(r, url, i))
  {
    var before := EntriesAt(r, url);
    SumOfReplaced(r.entries, url, before, before[..i] + before[i + 1..], EntryCount);
    SumOfReplaced(r.entries, url, before, before[..i] + before[i + 1..], HistoryLength);
    HistoryLengthWithout(before, i);
  }

  lemma TakeLeaseTotals<L>(r: Registry<L>, id: L)
    requires id in r.leases
    ensures Held(TakeLease(r, id)) == Held(r) - 1
    ensures Length(TakeLease(r, id)) == Length(r) - |r.leases[id].history|
  {
    SumWithout(r.leases, LeaseHistory, id);
    assert r.leases == (r.leases - {id})[id := r.leases[id]];
  }

  lemma AddLeaseTotals<L>(r: Registry<L>, id: L, l: Lease)
    requires id !in r.leases
    ensures Held(AddLease(r, id, l)) == Held(r) + 1
    ensures Length(AddLease(r, id, l)) == Length(r) + |l.history|
  {
    SumWithout(r.leases[id := l], LeaseHistory, id);
    assert r.leases[id := l] - {id} == r.leases;
  }

  lemma AddEntryCopies<L>(r: Registry<L>, url: Url, e: Entry, u: Url, x: Entry)
    ensures Copies(AddEntry(r, url, e), u, x) == Copies(r, u, x) + if u == url && x == e then 1 else 0
  {
    assert Leased(AddEntry(r, url, e), u, x) == Leased(r, u, x);
  }

  lemma TakeEntryCopies<L>(r: Registry<L>, url: Url, i: nat, u: Url, x: Entry)
    requires i < |EntriesAt(r, url)|
    ensures Copies(TakeEntry(r, url, i), u, x)
         == Copies(r, u, x) - if u == url && x == EntriesAt(r, url)[i] then 1 else 0
  {
    var es := EntriesAt(r, url);
    assert es == es[..i] + [es[i]] + es[i + 1..];
    assert Leased(TakeEntry(r, url, i), u, x) == Leased(r, u, x);
    assert EntriesAt(TakeEntry(r, url, i), u) == if u == url then es[..i] + es[i + 1..] else EntriesAt(r, u);
  }

  lemma TakeLeaseCopies<L>(r: Registry<L>, id: L, u: Url, x: Entry)
    requires id in r.leases
    ensures Copies(TakeLease(r, id), u, x) == Copies(r, u, x) - if r.leases[id] == LeaseOf(u, x) then 1 else 0
  {
    assert Leased(TakeLease(r, id), u, x) == Leased(r, u, x) - {id};
  }

  lemma AddLeaseCopies<L>(r: Registry<L>, id: L, l: Lease, u: Url, x: Entry)
    requires id !in r.leases
    ensures Copies(AddLease(r, id, l), u, x) == Copies(r, u, x) + if l == LeaseOf(u, x) then 1 else 0
  {
    var r' := AddLease(r, id, l);
    assert r'.leases - {id} == r.leases;
    assert TakeLease(r', id) == r;
    TakeLeaseCopies(r', id, u, x);
  }

  // What each operation does.

  lemma EmptyIsGood<L>()
    ensures Good(Empty<L>())
  {
  }

  /** Reserving moves a capability: none appears, none is lost. */
  lemma ReserveConserves<L>(r: Registry<L>, url: Url, owner: Owner, w: Wanted, id: L, u: Url, e: Entry)
    requires id !in r.leases && Reserve(r, url, owner, w, id).Some?
    ensures Copies(Reserve(r, url, owner, w, id).value, u, e) == Copies(r, u, e)
  {
    hide Copies, FirstFit;
    var i := FirstFit(EntriesAt(r, url), w, owner).value;
    TakeEntryCopies(r, url, i, u, e);
    AddLeaseCopies(TakeEntry(r, url, i), id, LeaseOf(url, EntriesAt(r, url)[i]), u, e);
  }

  lemma ReserveKeepsGood<L>(r: Registry<L>, url: Url, owner: Owner, w: Wanted, id: L)
    requires Good(r) && id !in r.leases
    ensures Reserve(r, url, owner, w, id).Some? ==> Good(Reserve(r, url, owner, w, id).value)
  {
    hide Copies, FirstFit, Held, Length;
    if Reserve(r, url, owner, w, id).Some? {
      var i := FirstFit(EntriesAt(r, url), w, owner).value;
      TakeEntryTotals(r, url, i);
      AddLeaseTotals(TakeEntry(r, url, i), id, LeaseOf(url, EntriesAt(r, url)[i]));
      forall u, e { ReserveConserves(r, url, owner, w, id, u, e); }
    }
  }

  /** Restoring moves a capability back: none appears, none is lost. */
  lemma RestoreConserves<L>(r: Registry<L>, lease: Option<L>, u: Url, e: Entry)
    ensures Copies(Restore(r, lease), u, e) == Copies(r, u, e)
  {
    hide Copies;
    if lease.Some? && lease.value in r.leases {
      var l := r.leases[lease.value];
      TakeLeaseCopies(r, lease.value, u, e);
      AddEntryCopies(TakeLease(r, lease.value), l.url, Entry(l.context, l.owner, l.history), u, e);
    }
  }

  lemma RestoreKeepsGood<L>(r: Registry<L>, lease: Option<L>)
    requires Good(r)
    ensures Good(Restore(r, lease))
  {
    hide Copies, Held, Length;
    if lease.Some? && lease.value in r.leases {
      var l := r.leases[lease.value];
      TakeLeaseTotals(r, lease.value);
      AddEntryTotals(TakeLease(r, lease.value), l.url, Entry(l.context, l.owner, l.history));
      forall u, e { RestoreConserves(r, lease, u, e); }
    }
  }

  lemma ConsumeMoves<L>(r: Registry<L>, lease: Option<L>, next: Option<Url>, u: Url, e: Entry)
    requires lease.Some? ==> lease.value in r.leases
    ensures Copies(Consume(r, lease, next), u, e)
            == Copies(r, u, e) - if lease.Some? && r.leases[lease.value] == LeaseOf(u, e) then 1 else 0
  {
    if lease.Some? {
      TakeLeaseCopies(r, lease.value, u, e);
      assert Copies(Consume(r, lease, next), u, e) == Copies(TakeLease(r, lease.value), u, e);
    }
  }

  lemma ConsumeTotals<L>(r: Registry<L>, lease: Option<L>, next: Option<Url>)
    requires lease.Some? ==> lease.value in r.leases
    ensures Held(Consume(r, lease, next)) == Held(r) - if lease.None? then 0 else 1
    ensures Length(Consume(r, lease, next)) == Length(r) - |HistoryOf(r, lease)|
    ensures NoEmptyList(Consume(r, lease, next)) == NoEmptyList(r)
  {
    if lease.Some? {
      TakeLeaseTotals(r, lease.value);
    }
  }

  lemma IssueMoves<L>(r: Registry<L>, url: Url, e: Entry, u: Url, x: Entry)
    ensures Copies(Issue(r, url, e), u, x) == Copies(r, u, x) + if u == url && x == e then 1 else 0
  {
    var r1 := r.(size := r.size + 1, historySize := r.historySize + 1);
    assert Copies(r1, u, x) == Copies(r, u, x);
    AddEntryCopies(r1, url, e, u, x);
  }

  lemma IssueTotals<L>(r: Registry<L>, url: Url, e: Entry)
    ensures Held(Issue(r, url, e)) == Held(r) + 1
    ensures Length(Issue(r, url, e)) == Length(r) + |e.history|
    ensures NoEmptyList(r) ==> NoEmptyList(Issue(r, url, e))
  {
    var r1 := r.(size := r.size + 1, historySize := r.historySize + 1);
    assert Held(r1) == Held(r) && Length(r1) == Length(r) && NoEmptyList(r1) == NoEmptyList(r);
    hide Held, Length, NoEmptyList;
    AddEntryTotals(r1, url, e);
  }

  /** A commit takes away its own lease and adds the next capability of its traversal, and touches nothing else. */
  lemma CommitMoves<L>(r: Registry<L>, lease: Option<L>, next: Option<Url>, context: Context, owner: Owner,
                             u: Url, e: Entry)
    requires Committable(r, lease, next, context, owner).None?
    ensures Copies(Commit(r, lease, next, context, owner).value, u, e)
            == Copies(r, u, e)
               - (if lease.Some? && r.leases[lease.value] == LeaseOf(u, e) then 1 else 0)
               + (if next == Some(u) && e == Entry(context, owner, AddUrl(HistoryOf(r, lease), u)) then 1 else 0)
  {
    assert lease.Some? ==> lease.value in r.leases;
    hide Committable, Copies, Consume, Issue, AddUrl;
    ConsumeMoves(r, lease, next, u, e);
    if next.Some? {
      var issued := Entry(context, owner, AddUrl(HistoryOf(r, lease), next.value));
      IssueMoves(Consume(r, lease, next), next.value, issued, u, e);
    }
  }

  lemma CopyWitness<L>(r: Registry<L>, url: Url, e: Entry)
    ensures Copies(r, url, e) > 0 <==>
            e in EntriesAt(r, url) || exists k :: k in r.leases && r.leases[k] == LeaseOf(url, e)
  {
    if exists k :: k in r.leases && r.leases[k] == LeaseOf(url, e) {
      var k :| k in r.leases && r.leases[k] == LeaseOf(url, e);
      assert k in Leased(r, url, e);
    }
    if Leased(r, url, e) != {} {
      var k :| k in Leased(r, url, e);
      assert k in r.leases;
    }
    assert e in EntriesAt(r, url) <==> multiset(EntriesAt(r, url))[e] > 0;
    assert |Leased(r, url, e)| > 0 <==> Leased(r, url, e) != {};
  }

  lemma CommitKeepsCounted<L>(r: Registry<L>, lease: Option<L>, next: Option<Url>, context: Context, owner: Owner)
    requires Counted(r) && Committable(r, lease, next, context, owner).None?
    ensures Counted(Commit(r, lease, next, context, owner).value)
  {
    assert lease.Some? ==> lease.value in r.leases;
    assert next.Some? ==> AddUrl(HistoryOf(r, lease), next.value) == HistoryOf(r, lease) + [next.value];
    assert r.size - (if lease.None? then 0 else 1) + (if next.None? then 0 else 1) <= MAXIMUM_CONTEXTS;
    assert r.historySize - (if next.None? then |HistoryOf(r, lease)| else 0) + (if next.None? then 0 else 1)
        <= MAXIMUM_HISTORY;
    hide Committable, Held, Length, NoEmptyList, HistoryOf, AddUrl;
    ConsumeTotals(r, lease, next);
    if next.Some? {
      IssueTotals(Consume(r, lease, next), next.value, Entry(context, owner, AddUrl(HistoryOf(r, lease), next.value)));
    }
  }

  /** The next URL is new to its traversal. */
  lemma CommitExtendsTraversal<L>(r: Registry<L>, lease: Option<L>, next: Url, context: Context, owner: Owner)
    requires AllTraced(r) && Committable(r, lease, Some(next), context, owner).None?
    ensures next !in HistoryOf(r, lease)
    ensures AddUrl(HistoryOf(r, lease), next) == HistoryOf(r, lease) + [next]
    ensures Traced(AddUrl(HistoryOf(r, lease), next), next)
  {
    if lease.Some? {
      var l := r.leases[lease.value];
      CopyWitness(r, l.url, Entry(l.context, l.owner, l.history));
    }
  }

  lemma CommitAvoidsClash<L>(r: Registry<L>, lease: Option<L>, next: Url, context: Context, owner: Owner, e: Entry)
    requires Committable(r, lease, Some(next), context, owner).None?
    requires Copies(r, next, e) > 0
    ensures !Clash(Entry(context, owner, []), e)
  {
    CopyWitness(r, next, e);
    if e !in EntriesAt(r, next) {
      var k :| k in r.leases && r.leases[k] == LeaseOf(next, e);
      assert lease != Some(k);
    }
  }

  lemma CommitKeepsTraced<L>(r: Registry<L>, lease: Option<L>, next: Option<Url>, context: Context, owner: Owner)
    requires AllTraced(r) && Committable(r, lease, next, context, owner).None?
    ensures AllTraced(Commit(r, lease, next, context, owner).value)
  {
    hide Copies, Commit, AddUrl, Traced;
    forall u, e { CommitMoves(r, lease, next, context, owner, u, e); }
    if next.Some? {
      CommitExtendsTraversal(r, lease, next.value, context, owner);
    }
  }

  /** At the URL just issued, only the new capability can clash with the new capability. */
  lemma CommitKeepsPairs<L>(r: Registry<L>, lease: Option<L>, next: Option<Url>, context: Context, owner: Owner,
                                  url: Url, a: Entry, b: Entry)
    requires Committable(r, lease, next, context, owner).None?
    requires Copies(r, url, a) > 0 && Copies(r, url, b) > 0 && Clash(a, b) ==> a == b && Copies(r, url, a) == 1
    ensures var r' := Commit(r, lease, next, context, owner).value;
            Copies(r', url, a) > 0 && Copies(r', url, b) > 0 && Clash(a, b) ==> a == b && Copies(r', url, a) == 1
  {
    hide Copies, Commit, AddUrl, Committable, HistoryOf, Clash;
    CommitMoves(r, lease, next, context, owner, url, a);
    CommitMoves(r, lease, next, context, owner, url, b);
    if next == Some(url) {
      ClashIgnoresHistory(context, owner, AddUrl(HistoryOf(r, lease), url), a);
      ClashIgnoresHistory(context, owner, AddUrl(HistoryOf(r, lease), url), b);
      if Copies(r, url, a) > 0 { CommitAvoidsClash(r, lease, url, context, owner, a); }
      if Copies(r, url, b) > 0 { CommitAvoidsClash(r, lease, url, context, owner, b); }
      assert lease.Some? ==> r.leases[lease.value].url != url by { CommitLeavesItsUrl(r, lease, url, context, owner); }
    }
  }

  lemma CommitLeavesItsUrl<L>(r: Registry<L>, lease: Option<L>, next: Url, context: Context, owner: Owner)
    requires Committable(r, lease, Some(next), context, owner).None?
    ensures lease.Some? ==> lease.value in r.leases && r.leases[lease.value].url != next
  {
  }

  lemma ClashIgnoresHistory(context: Context, owner: Owner, history: seq<Url>, e: Entry)
    ensures Clash(Entry(context, owner, history), e) == Clash(Entry(context, owner, []), e)
    ensures Clash(e, Entry(context, owner, history)) == Clash(Entry(context, owner, []), e)
  {
  }

  lemma CommitKeepsNoClash<L>(r: Registry<L>, lease: Option<L>, next: Option<Url>, context: Context, owner: Owner)
    requires NoClash(r) && Committable(r, lease, next, context, owner).None?
    ensures NoClash(Commit(r, lease, next, context, owner).value)
  {
    hide Copies, Commit, Committable, Clash;
    forall url, a, b { CommitKeepsPairs(r, lease, next, context, owner, url, a, b); }
  }

  lemma CommitKeepsGood<L>(r: Registry<L>, lease: Option<L>, next: Option<Url>, context: Context, owner: Owner)
    requires Good(r)
    ensures Commit(r, lease, next, context, owner).Ok? ==> Good(Commit(r, lease, next, context, owner).value)
  {
    if Committable(r, lease, next, context, owner).None? {
      hide Counted, AllTraced, NoClash;
      CommitKeepsCounted(r, lease, next, context, owner);
      CommitKeepsTraced(r, lease, next, context, owner);
      CommitKeepsNoClash(r, lease, next, context, owner);
    }
  }

  lemma {:induction false} OthersAreTheRest(es: seq<Entry>, owner: Owner)
    ensures forall e :: multiset(Others(es, owner))[e] == if e.owner == owner then 0 else multiset(es)[e]
  {
    if es != [] {
      OthersAreTheRest(es[1..], owner);
      assert es == [es[0]] + es[1..];
    }
  }

  lemma {:induction false} OthersHaveLess(es: seq<Entry>, owner: Owner)
    ensures HistoryLength(Others(es, owner)) <= HistoryLength(es)
  {
    if es != [] {
      OthersHaveLess(es[1..], owner);
      HistoryLengthAdds(if es[0].owner != owner then [es[0]] else [], Others(es[1..], owner));
    }
  }

  ghost predicate Shrinks(f: seq<Entry> -> nat, owner: Owner) {
    f([]) == 0 && forall es :: f(Others(es, owner)) <= f(es)
  }

  lemma KeptOfNothing(owner: Owner)
    ensures Kept(map[], owner) == map[]
  {
  }

  lemma KeptWithout(entries: map<Url, seq<Entry>>, owner: Owner, u: Url)
    requires u in entries
    ensures Kept(entries - {u}, owner) == Kept(entries, owner) - {u}
    ensures u in Kept(entries, owner) ==> Kept(entries, owner)[u] == Others(entries[u], owner)
    ensures u !in Kept(entries, owner) ==> Kept(entries, owner) - {u} == Kept(entries, owner)
  {
  }

  lemma {:induction false} KeptIsFewer(entries: map<Url, seq<Entry>>, owner: Owner, f: seq<Entry> -> nat)
    requires Shrinks(f, owner)
    ensures Sum(Kept(entries, owner), f) <= Sum(entries, f)
    decreases |entries|
  {
    hide Others, Kept;
    if entries == map[] {
      assert Kept(entries, owner) == map[] by { KeptOfNothing(owner); }
    } else {
      hide Sum;
      var u :| u in entries;
      var rest, kept := entries - {u}, Kept(entries, owner);
      KeptIsFewer(rest, owner, f);
      SumWithout(entries, f, u);
      KeptWithout(entries, owner, u);
      assert f(Others(entries[u], owner)) <= f(entries[u]);
      if u in kept {
        SumWithout(kept, f, u);
      }
    }
  }

  /** Forgetting takes exactly the owner's available capabilities; its leases, and other owners' capabilities, stay. */
  lemma ForgetMoves<L>(r: Registry<L>, owner: nat, u: Url, e: Entry)
    ensures Copies(Forget(r, owner), u, e) == if e.owner == Some(owner) then |Leased(r, u, e)| else Copies(r, u, e)
  {
    OthersAreTheRest(EntriesAt(r, u), Some(owner));
    assert EntriesAt(Forget(r, owner), u) == Others(EntriesAt(r, u), Some(owner));
    assert Leased(Forget(r, owner), u, e) == Leased(r, u, e);
  }

  lemma ForgetKeepsCounted<L>(r: Registry<L>, owner: nat)
    requires Counted(r)
    ensures Counted(Forget(r, owner))
  {
    forall es { OthersHaveLess(es, Some(owner)); }
    hide Sum;
    assert Forget(r, owner).entries == Kept(r.entries, Some(owner));
    KeptIsFewer(r.entries, Some(owner), EntryCount);
    KeptIsFewer(r.entries, Some(owner), HistoryLength);
  }

  lemma ForgetKeepsGood<L>(r: Registry<L>, owner: nat)
    requires Good(r)
    ensures Good(Forget(r, owner))
  {
    ForgetKeepsCounted(r, owner);
    var r' := Forget(r, owner);
    forall u, e
      ensures Copies(r', u, e) <= Copies(r, u, e)
    {
      ForgetMoves(r, owner, u, e);
    }
    hide Counted, Copies, Forget;
    assert AllTraced(r');
    assert NoClash(r');
  }

  /** Whichever fitting entry is found first, its context is the same. */
  lemma FitsAgree<L>(r: Registry<L>, url: Url, owner: Owner, w: Wanted, i: nat, j: nat)
    requires NoClash(r)
    requires i < |EntriesAt(r, url)| && j < |EntriesAt(r, url)|
    requires Fits(w, owner, EntriesAt(r, url)[i]) && Fits(w, owner, EntriesAt(r, url)[j])
    ensures EntriesAt(r, url)[i].context == EntriesAt(r, url)[j].context
  {
    var a, b := EntriesAt(r, url)[i], EntriesAt(r, url)[j];
    CopyWitness(r, url, a);
    CopyWitness(r, url, b);
    assert a.context.BeadLinks? && a.context != b.context ==> Clash(a, b);
  }

  lemma {:induction false} HistoryIsPart(es: seq<Entry>, e: Entry)
    requires e in es
    ensures |e.history| <= HistoryLength(es)
  {
    if e != es[0] {
      HistoryIsPart(es[1..], e);
    }
  }

  /** A traversal, wherever its capability is held, has been issued distinct URLs, and no more than the bound allows. */
  lemma TraversalIsBounded<L>(r: Registry<L>, url: Url, e: Entry)
    requires Good(r) && Copies(r, url, e) > 0
    ensures |e.history| <= MAXIMUM_HISTORY
    ensures Distinct(e.history)
  {
    assert Traced(e.history, url);
    if e in EntriesAt(r, url) {
      SumWithout(r.entries, HistoryLength, url);
      HistoryIsPart(EntriesAt(r, url), e);
    } else {
      assert Leased(r, url, e) != {};
      var id :| id in Leased(r, url, e);
      SumWithout(r.leases, LeaseHistory, id);
    }
  }

  lemma SameContextIsEquality(a: Context, b: Context)
    ensures SameContext(a, b) <==> a == b
  {
  }

  // When a commit is accepted

  /** The lease is active and of this operation, and the next URL is new to its traversal. */
  predicate LeaseAdmits<L>(r: Registry<L>, lease: Option<L>, next: Option<Url>, context: Context, owner: Owner) {
    lease.Some? ==>
      && lease.value in r.leases
      && r.leases[lease.value].context == context && r.leases[lease.value].owner == owner
      && (next.Some? ==> next.value != r.leases[lease.value].url && next.value !in r.leases[lease.value].history)
  }

  /**
   * A commit is accepted exactly when its lease admits it, no capability at the next URL clashes with the next one,
   * and the registry stays within both bounds.
   */
  lemma CommitIsAcceptedIff<L(!new)>(r: Registry<L>, lease: Option<L>, next: Option<Url>,
                                     context: Context, owner: Owner)
    requires Counted(r)
    ensures Committable(r, lease, next, context, owner).None? <==>
              && LeaseAdmits(r, lease, next, context, owner)
              && (next.Some? ==> forall e :: Copies(r, next.value, e) > 0 ==> !Clash(Entry(context, owner, []), e))
              && Held(r) - (if lease.Some? then 1 else 0) + (if next.Some? then 1 else 0) <= 1024
              && Length(r) - (if next.None? then |HistoryOf(r, lease)| else 0) + (if next.Some? then 1 else 0) <= 10000
  {
    hide Copies, Held, Length, NoEmptyList, OtherDirection, BothHistories;
    if next.Some? && LeaseAdmits(r, lease, next, context, owner) {
      ClashIsAmbiguousOrShared(r, lease, next.value, context, owner);
    }
    if lease.Some? && lease.value in r.leases {
      SameContextIsEquality(r.leases[lease.value].context, context);
    }
  }

  lemma ClashIsAmbiguousOrShared<L(!new)>(r: Registry<L>, lease: Option<L>, url: Url, context: Context, owner: Owner)
    requires LeaseAdmits(r, lease, Some(url), context, owner)
    ensures Ambiguous(r, url, context, owner) || Shared(r, lease, url, context, owner) <==>
              exists e :: Copies(r, url, e) > 0 && Clash(Entry(context, owner, []), e)
  {
    hide Copies, EntriesAt, OtherDirection, BothHistories;
    var es := EntriesAt(r, url);
    if e :| Copies(r, url, e) > 0 && Clash(Entry(context, owner, []), e) {
      CopyWitness(r, url, e);
      if e in es {
        var i :| 0 <= i < |es| && es[i] == e;
      } else {
        var k :| k in r.leases && r.leases[k] == LeaseOf(url, e);
        assert lease != Some(k);
      }
    }
    forall i | 0 <= i < |es| ensures Copies(r, url, es[i]) > 0 { CopyWitness(r, url, es[i]); }
    forall k | k in r.leases && r.leases[k].url == url
      ensures Copies(r, url, Entry(r.leases[k].context, r.leases[k].owner, r.leases[k].history)) > 0
    {
      CopyWitness(r, url, Entry(r.leases[k].context, r.leases[k].owner, r.leases[k].history));
    }
  }

  /** Only Links of one Bead in another direction, and any two Histories, clash, for one owner. */
  lemma ClashIsExact(a: Entry, b: Entry)
    ensures Clash(a, b) <==> a.owner == b.owner && match (a.context, b.context)
              case (BeadLinks(c, d), BeadLinks(c', d')) => c == c' && d != d'
              case (HistoryVersions(_, _, _), HistoryVersions(_, _, _)) => true
              case _ => false
  {
  }

  /** A reservation moves the first entry at the URL that fits, and fails exactly when none does. */
  lemma ReserveTakesFirstFit<L>(r: Registry<L>, url: Url, owner: Owner, w: Wanted, id: L) returns (i: nat)
    ensures Reserve(r, url, owner, w, id).None? <==> forall e :: e in EntriesAt(r, url) ==> !Fits(w, owner, e)
    ensures Reserve(r, url, owner, w, id).Some? ==>
              var es := EntriesAt(r, url);
              && i < |es| && Fits(w, owner, es[i]) && (forall j :: 0 <= j < i ==> !Fits(w, owner, es[j]))
              && Reserve(r, url, owner, w, id).value.leases == r.leases[id := LeaseOf(url, es[i])]
              && EntriesAt(Reserve(r, url, owner, w, id).value, url) == es[..i] + es[i + 1..]
  {
    hide Fits;
    i := 0;
    var fit := FirstFit(EntriesAt(r, url), w, owner);
    if fit.Some? {
      i := fit.value;
      assert EntriesAt(r, url)[i] in EntriesAt(r, url);
    }
  }

  /** Each refusal says what stands against the commit. */
  lemma RefusalHasItsReason<L>(r: Registry<L>, lease: Option<L>, next: Option<Url>, context: Context, owner: Owner)
    ensures match Committable(r, lease, next, context, owner)
            case None => true
            case Some(Inactive) => lease.Some? && lease.value !in r.leases
            case Some(ContextChanged) =>
              lease.Some? && lease.value in r.leases && r.leases[lease.value].context != context
            case Some(OwnerChanged) => lease.Some? && lease.value in r.leases && r.leases[lease.value].owner != owner
            case Some(RepeatedUrl) =>
              lease.Some? && lease.value in r.leases && next == Some(r.leases[lease.value].url)
            case Some(Cycled) =>
              lease.Some? && lease.value in r.leases && next.Some? && next.value in r.leases[lease.value].history
            case Some(AmbiguousDirections) => next.Some? && context.BeadLinks?
            case Some(SharedHistory) => next.Some? && context.HistoryVersions?
            case Some(RegistryFull) =>
              r.size - (if lease.Some? then 1 else 0) + (if next.Some? then 1 else 0) > 1024
            case Some(HistoryFull) =>
              r.historySize - (if next.None? then |HistoryOf(r, lease)| else 0) + (if next.Some? then 1 else 0) > 10000
  {
    if lease.Some? && lease.value in r.leases {
      SameContextIsEquality(r.leases[lease.value].context, context);
    }
  }
}
