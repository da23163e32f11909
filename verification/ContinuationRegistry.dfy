/** The registry of continuation capabilities as the client keeps it: shared history sets, leases by identity. */
module ContinuationRegistry {
  import opened Continuations
  import opened Outcomes

  /** A set of URLs in insertion order, moved from lease to entry and extended in place. */
  class UrlSet {
    var urls: seq<Url>

    constructor ()
      ensures urls == []
    {
      urls := [];
    }

    method Add(url: Url)
      modifies this
      ensures urls == AddUrl(old(urls), url)
    {
      if url !in urls {
        urls := urls + [url];
      }
    }
  }

  class LeaseObject {
    const url: Url
    const context: Context
    const owner: Owner
    const history: UrlSet

    constructor (url: Url, context: Context, owner: Owner, history: UrlSet)
      ensures this.url == url && this.context == context && this.owner == owner && this.history == history
    {
      this.url, this.context, this.owner, this.history := url, context, owner, history;
    }
  }

  datatype HeldEntry = HeldEntry(context: Context, owner: Owner, history: UrlSet)

  function Optional(lease: LeaseObject?): Option<LeaseObject> {
    if lease == null then None else Some(lease)
  }

  /** What each history set holds. */
  type Reading = map<UrlSet, seq<Url>>

  ghost function ReadingOf(sets: set<UrlSet>): (r: Reading)
    reads sets
    ensures r.Keys == sets
  {
    map h | h in sets :: h.urls
  }

  lemma ReadingWith(sets: set<UrlSet>, history: UrlSet)
    ensures ReadingOf(sets + {history}) == ReadingOf(sets)[history := history.urls]
  {
  }

  ghost function View(es: seq<HeldEntry>, reading: Reading): (r: seq<Entry>)
    requires forall i :: 0 <= i < |es| ==> es[i].history in reading
    ensures |r| == |es|
    ensures forall i :: 0 <= i < |es| ==> r[i] == Entry(es[i].context, es[i].owner, reading[es[i].history])
  {
    seq(|es|, i requires 0 <= i < |es| => Entry(es[i].context, es[i].owner, reading[es[i].history]))
  }

  ghost predicate Readable(entries: map<Url, seq<HeldEntry>>, reading: Reading) {
    forall u, i :: u in entries && 0 <= i < |entries[u]| ==> entries[u][i].history in reading
  }

  ghost function Views(entries: map<Url, seq<HeldEntry>>, reading: Reading): map<Url, seq<Entry>>
    requires Readable(entries, reading)
  {
    map u | u in entries :: View(entries[u], reading)
  }

  ghost function LeaseViews(leases: set<LeaseObject>, reading: Reading): map<LeaseObject, Lease>
    requires forall l :: l in leases ==> l.history in reading
  {
    map l | l in leases :: Lease(l.url, l.context, l.owner, reading[l.history])
  }

  /** Where a history set is held. */
  datatype Holder = InEntries(url: Url) | InLease(lease: LeaseObject)

  /** Every history set in use belongs to one entry or one lease only. */
  ghost predicate Unaliased(entries: map<Url, seq<HeldEntry>>, leases: set<LeaseObject>,
                            holders: map<UrlSet, Holder>, sets: set<UrlSet>) {
    && holders.Keys <= sets
    && (forall u, i :: u in entries && 0 <= i < |entries[u]| ==>
          entries[u][i].history in holders && holders[entries[u][i].history] == InEntries(u))
    && (forall u, i, j :: u in entries && 0 <= i < j < |entries[u]| ==> entries[u][i].history != entries[u][j].history)
    && (forall l :: l in leases ==> l.history in holders && holders[l.history] == InLease(l))
  }

  lemma HoldersAreSets(entries: map<Url, seq<HeldEntry>>, leases: set<LeaseObject>,
                       holders: map<UrlSet, Holder>, sets: set<UrlSet>)
    requires Unaliased(entries, leases, holders, sets)
    ensures holders.Keys <= sets
  {
  }

  ghost predicate Covers(reading: Reading, sets: set<UrlSet>) {
    reading.Keys == sets
  }

  /** The registry the fields stand for. */
  ghost function Stands(entries: map<Url, seq<HeldEntry>>, leases: set<LeaseObject>, holders: map<UrlSet, Holder>,
                        sets: set<UrlSet>, reading: Reading, size: int, historySize: int):
    Continuations.Registry<LeaseObject>
    requires Unaliased(entries, leases, holders, sets) && Covers(reading, sets)
  {
    Continuations.Registry(Views(entries, reading), LeaseViews(leases, reading), size, historySize)
  }

  lemma ViewsAfterPut(entries: map<Url, seq<HeldEntry>>, reading: Reading, url: Url, es: seq<HeldEntry>)
    requires Readable(entries, reading)
    requires forall i :: 0 <= i < |es| ==> es[i].history in reading
    ensures var entries' := if es == [] then entries - {url} else entries[url := es];
            && Readable(entries', reading)
            && Views(entries', reading) == PutEntries(Views(entries, reading), url, View(es, reading))
    ensures url in Views(entries, reading) <==> url in entries
    ensures url in entries ==> Views(entries, reading)[url] == View(entries[url], reading)
  {
  }

  lemma StandsAfterTake(entries: map<Url, seq<HeldEntry>>, leases: set<LeaseObject>, holders: map<UrlSet, Holder>,
                        sets: set<UrlSet>, reading: Reading, size: int, historySize: int, url: Url, i: nat)
    requires Unaliased(entries, leases, holders, sets) && Covers(reading, sets)
    requires url in entries && i < |entries[url]|
    ensures var rest := entries[url][..i] + entries[url][i + 1..];
            var entries' := if rest == [] then entries - {url} else entries[url := rest];
            var r := Stands(entries, leases, holders, sets, reading, size, historySize);
            && entries[url][i].history in sets
            && Unaliased(entries', leases, holders - {entries[url][i].history}, sets)
            && i < |EntriesAt(r, url)|
            && EntriesAt(r, url)[i]
               == Entry(entries[url][i].context, entries[url][i].owner, reading[entries[url][i].history])
            && Stands(entries', leases, holders - {entries[url][i].history}, sets, reading, size, historySize)
               == TakeEntry(r, url, i)
  {
    var es := entries[url];
    assert View(es[..i] + es[i + 1..], reading) == View(es, reading)[..i] + View(es, reading)[i + 1..];
    ViewsAfterPut(entries, reading, url, es[..i] + es[i + 1..]);
  }

  lemma StandsAfterAppend(entries: map<Url, seq<HeldEntry>>, leases: set<LeaseObject>, holders: map<UrlSet, Holder>,
                          sets: set<UrlSet>, reading: Reading, size: int, historySize: int, url: Url, e: HeldEntry)
    requires Unaliased(entries, leases, holders, sets) && Covers(reading, sets)
    requires e.history in sets && e.history !in holders
    ensures var entries' := entries[url := (if url in entries then entries[url] else []) + [e]];
            var holders' := holders[e.history := InEntries(url)];
            && Unaliased(entries', leases, holders', sets)
            && Stands(entries', leases, holders', sets, reading, size, historySize)
               == AddEntry(Stands(entries, leases, holders, sets, reading, size, historySize), url,
                           Entry(e.context, e.owner, reading[e.history]))
  {
    var es := if url in entries then entries[url] else [];
    assert View(es + [e], reading) == View(es, reading) + [Entry(e.context, e.owner, reading[e.history])];
    ViewsAfterPut(entries, reading, url, es + [e]);
  }

  lemma StandsAfterHold(entries: map<Url, seq<HeldEntry>>, leases: set<LeaseObject>, holders: map<UrlSet, Holder>,
                        sets: set<UrlSet>, reading: Reading, size: int, historySize: int, l: LeaseObject)
    requires Unaliased(entries, leases, holders, sets) && Covers(reading, sets)
    requires l.history in sets && l.history !in holders
    ensures var holders' := holders[l.history := InLease(l)];
            && Unaliased(entries, leases + {l}, holders', sets)
            && Stands(entries, leases + {l}, holders', sets, reading, size, historySize)
               == AddLease(Stands(entries, leases, holders, sets, reading, size, historySize), l,
                           Lease(l.url, l.context, l.owner, reading[l.history]))
  {
    hide View, Views;
  }

  lemma StandsAfterDrop(entries: map<Url, seq<HeldEntry>>, leases: set<LeaseObject>, holders: map<UrlSet, Holder>,
                        sets: set<UrlSet>, reading: Reading, size: int, historySize: int, l: LeaseObject)
    requires Unaliased(entries, leases, holders, sets) && Covers(reading, sets)
    requires l in leases
    ensures l.history in sets
    ensures var holders' := holders - {l.history};
            && Unaliased(entries, leases - {l}, holders', sets)
            && Stands(entries, leases - {l}, holders', sets, reading, size, historySize)
               == TakeLease(Stands(entries, leases, holders, sets, reading, size, historySize), l)
  {
    hide View, Views;
  }

  lemma ViewAfterChange(es: seq<HeldEntry>, reading: Reading, history: UrlSet, urls: seq<Url>)
    requires forall i :: 0 <= i < |es| ==> es[i].history in reading && es[i].history != history
    ensures View(es, reading[history := urls]) == View(es, reading)
  {
  }

  lemma ViewsAfterChange(entries: map<Url, seq<HeldEntry>>, leases: set<LeaseObject>, reading: Reading,
                         history: UrlSet, urls: seq<Url>)
    requires forall u, i :: u in entries && 0 <= i < |entries[u]| ==>
               entries[u][i].history in reading && entries[u][i].history != history
    requires forall l :: l in leases ==> l.history in reading && l.history != history
    ensures Readable(entries, reading[history := urls])
    ensures Views(entries, reading[history := urls]) == Views(entries, reading)
    ensures LeaseViews(leases, reading[history := urls]) == LeaseViews(leases, reading)
  {
    hide View;
    forall u | u in entries
      ensures View(entries[u], reading[history := urls]) == View(entries[u], reading)
    {
      ViewAfterChange(entries[u], reading, history, urls);
    }
  }

  /** A set that nothing holds can be added or extended without changing what the registry stands for. */
  lemma StandsAfterChange(entries: map<Url, seq<HeldEntry>>, leases: set<LeaseObject>, holders: map<UrlSet, Holder>,
                          sets: set<UrlSet>, reading: Reading, size: int, historySize: int,
                          history: UrlSet, urls: seq<Url>)
    requires Unaliased(entries, leases, holders, sets) && Covers(reading, sets)
    requires history !in holders
    ensures Unaliased(entries, leases, holders, sets + {history}) && Covers(reading[history := urls], sets + {history})
    ensures Stands(entries, leases, holders, sets + {history}, reading[history := urls], size, historySize)
            == Stands(entries, leases, holders, sets, reading, size, historySize)
  {
    hide View, Views, LeaseViews;
    ViewsAfterChange(entries, leases, reading, history, urls);
  }

  function OthersHeld(es: seq<HeldEntry>, owner: Owner): (r: seq<HeldEntry>)
    ensures forall i :: 0 <= i < |r| ==> r[i] in es
  {
    if es == [] then [] else (if es[0].owner != owner then [es[0]] else []) + OthersHeld(es[1..], owner)
  }

  ghost predicate DistinctSets(es: seq<HeldEntry>) {
    forall i, j :: 0 <= i < j < |es| ==> es[i].history != es[j].history
  }

  lemma {:induction false} OthersHeldStayDistinct(es: seq<HeldEntry>, owner: Owner)
    requires DistinctSets(es)
    ensures DistinctSets(OthersHeld(es, owner))
  {
    if es != [] {
      var tail := es[1..];
      assert DistinctSets(tail);
      OthersHeldStayDistinct(tail, owner);
      var rest := OthersHeld(tail, owner);
      forall j | 0 <= j < |rest|
        ensures rest[j].history != es[0].history
      {
        var k :| 0 <= k < |tail| && tail[k] == rest[j];
        assert es[k + 1] == rest[j];
      }
      hide OthersHeld;
      assert DistinctSets([es[0]] + rest);
      assert [] + rest == rest;
    }
  }

  lemma ViewUnfolds(es: seq<HeldEntry>, reading: Reading)
    requires es != [] && forall i :: 0 <= i < |es| ==> es[i].history in reading
    ensures View([es[0]], reading) == [View(es, reading)[0]] && View(es, reading)[0].owner == es[0].owner
    ensures View(es, reading)[1..] == View(es[1..], reading)
    ensures View([], reading) == []
  {
  }

  lemma {:induction false} OthersHeldRead(es: seq<HeldEntry>, reading: Reading, owner: Owner)
    requires forall i :: 0 <= i < |es| ==> es[i].history in reading
    ensures View(OthersHeld(es, owner), reading) == Others(View(es, reading), owner)
  {
    if es != [] {
      hide View, OthersHeld, Others;
      OthersHeldRead(es[1..], reading, owner);
      ViewUnfolds(es, reading);
    }
  }

  lemma StandsAfterFilter(entries: map<Url, seq<HeldEntry>>, leases: set<LeaseObject>, holders: map<UrlSet, Holder>,
                          sets: set<UrlSet>, reading: Reading, size: int, historySize: int, url: Url, owner: Owner)
    requires Unaliased(entries, leases, holders, sets) && Covers(reading, sets)
    requires url in entries
    ensures var kept := OthersHeld(entries[url], owner);
            var entries' := if kept == [] then entries - {url} else entries[url := kept];
            var r := Stands(entries, leases, holders, sets, reading, size, historySize);
            && Unaliased(entries', leases, holders, sets)
            && url in r.entries && |kept| == |Others(r.entries[url], owner)|
            && Stands(entries', leases, holders, sets, reading, size, historySize)
               == r.(entries := PutEntries(r.entries, url, Others(r.entries[url], owner)))
  {
    assert DistinctSets(entries[url]);
    OthersHeldStayDistinct(entries[url], owner);
    OthersHeldRead(entries[url], reading, owner);
    hide View;
    ViewsAfterPut(entries, reading, url, OthersHeld(entries[url], owner));
  }

  /** The leases and entries of the registry are those of the fields. */
  lemma StandsFor(entries: map<Url, seq<HeldEntry>>, leases: set<LeaseObject>, holders: map<UrlSet, Holder>,
                  sets: set<UrlSet>, reading: Reading, size: int, historySize: int)
    requires Unaliased(entries, leases, holders, sets) && Covers(reading, sets)
    ensures var r := Stands(entries, leases, holders, sets, reading, size, historySize);
            && r.leases.Keys == leases
            && (forall l :: l in leases ==>
                  l.history in reading && r.leases[l] == Lease(l.url, l.context, l.owner, reading[l.history]))
            && r.entries.Keys == entries.Keys
            && (forall u :: u in entries ==> forall i :: 0 <= i < |entries[u]| ==> entries[u][i].history in sets)
            && (forall u :: u in entries ==> r.entries[u] == View(entries[u], reading))
            && r.size == size && r.historySize == historySize
  {
  }

  /** The entries at one URL are those of the fields. */
  lemma CandidatesStand(entries: map<Url, seq<HeldEntry>>, leases: set<LeaseObject>, holders: map<UrlSet, Holder>,
                        sets: set<UrlSet>, reading: Reading, size: int, historySize: int, url: Url)
    requires Unaliased(entries, leases, holders, sets) && Covers(reading, sets)
    ensures var r := Stands(entries, leases, holders, sets, reading, size, historySize);
            var candidates := if url in entries then entries[url] else [];
            && |EntriesAt(r, url)| == |candidates|
            && forall i :: 0 <= i < |candidates| ==>
                 && EntriesAt(r, url)[i].context == candidates[i].context
                 && EntriesAt(r, url)[i].owner == candidates[i].owner
  {
  }

  lemma LeasesStand(entries: map<Url, seq<HeldEntry>>, leases: set<LeaseObject>, holders: map<UrlSet, Holder>,
                    sets: set<UrlSet>, reading: Reading, size: int, historySize: int)
    requires Unaliased(entries, leases, holders, sets) && Covers(reading, sets)
    ensures var r := Stands(entries, leases, holders, sets, reading, size, historySize);
            && r.leases.Keys == leases
            && forall k :: k in leases ==>
                 r.leases[k].url == k.url && r.leases[k].context == k.context && r.leases[k].owner == k.owner
  {
  }

  lemma AmbiguousStands(entries: map<Url, seq<HeldEntry>>, leases: set<LeaseObject>, holders: map<UrlSet, Holder>,
                        sets: set<UrlSet>, reading: Reading, size: int, historySize: int,
                        url: Url, context: Context, owner: Owner)
    requires Unaliased(entries, leases, holders, sets) && Covers(reading, sets)
    ensures var candidates := if url in entries then entries[url] else [];
            Ambiguous(Stands(entries, leases, holders, sets, reading, size, historySize), url, context, owner) <==>
              || (exists i :: 0 <= i < |candidates|
                    && OtherDirection(owner, context, candidates[i].owner, candidates[i].context))
              || (exists k :: k in leases && k.url == url && OtherDirection(owner, context, k.owner, k.context))
  {
    hide Unaliased, Stands, OtherDirection, EntriesAt, Covers, Ambiguous;
    var r := Stands(entries, leases, holders, sets, reading, size, historySize);
    LeasesStand(entries, leases, holders, sets, reading, size, historySize);
    CandidatesStand(entries, leases, holders, sets, reading, size, historySize, url);
    AmbiguousByIndex(r, if url in entries then entries[url] else [], leases, url, context, owner);
  }

  lemma AmbiguousByIndex(r: Continuations.Registry<LeaseObject>, candidates: seq<HeldEntry>, leases: set<LeaseObject>,
                         url: Url, context: Context, owner: Owner)
    requires |EntriesAt(r, url)| == |candidates| && r.leases.Keys == leases
    requires forall i :: 0 <= i < |candidates| ==>
               && EntriesAt(r, url)[i].context == candidates[i].context
               && EntriesAt(r, url)[i].owner == candidates[i].owner
    requires forall k :: k in leases ==>
               r.leases[k].url == k.url && r.leases[k].context == k.context && r.leases[k].owner == k.owner
    ensures Ambiguous(r, url, context, owner) <==>
              || (exists i :: 0 <= i < |candidates|
                    && OtherDirection(owner, context, candidates[i].owner, candidates[i].context))
              || (exists k :: k in leases && k.url == url && OtherDirection(owner, context, k.owner, k.context))
  {
    hide OtherDirection, EntriesAt;
    assert forall k :: k in r.leases <==> k in leases;
  }

  lemma SharedStands(entries: map<Url, seq<HeldEntry>>, leases: set<LeaseObject>, holders: map<UrlSet, Holder>,
                     sets: set<UrlSet>, reading: Reading, size: int, historySize: int,
                     lease: LeaseObject?, url: Url, context: Context, owner: Owner)
    requires Unaliased(entries, leases, holders, sets) && Covers(reading, sets)
    ensures var candidates := if url in entries then entries[url] else [];
            var r := Stands(entries, leases, holders, sets, reading, size, historySize);
            Shared(r, Optional(lease), url, context, owner) <==>
              || (exists i :: 0 <= i < |candidates|
                    && BothHistories(owner, context, candidates[i].owner, candidates[i].context))
              || (exists k :: k in leases && lease != k && k.url == url
                    && BothHistories(owner, context, k.owner, k.context))
  {
    hide Unaliased, Stands, BothHistories, EntriesAt, Covers, Shared;
    var r := Stands(entries, leases, holders, sets, reading, size, historySize);
    LeasesStand(entries, leases, holders, sets, reading, size, historySize);
    CandidatesStand(entries, leases, holders, sets, reading, size, historySize, url);
    SharedByIndex(r, if url in entries then entries[url] else [], leases, lease, url, context, owner);
  }

  lemma SharedByIndex(r: Continuations.Registry<LeaseObject>, candidates: seq<HeldEntry>, leases: set<LeaseObject>,
                      lease: LeaseObject?, url: Url, context: Context, owner: Owner)
    requires |EntriesAt(r, url)| == |candidates| && r.leases.Keys == leases
    requires forall i :: 0 <= i < |candidates| ==>
               && EntriesAt(r, url)[i].context == candidates[i].context
               && EntriesAt(r, url)[i].owner == candidates[i].owner
    requires forall k :: k in leases ==>
               r.leases[k].url == k.url && r.leases[k].context == k.context && r.leases[k].owner == k.owner
    ensures Shared(r, Optional(lease), url, context, owner) <==>
              || (exists i :: 0 <= i < |candidates|
                    && BothHistories(owner, context, candidates[i].owner, candidates[i].context))
              || (exists k :: k in leases && lease != k && k.url == url
                    && BothHistories(owner, context, k.owner, k.context))
  {
    hide BothHistories, EntriesAt;
    assert forall k :: k in r.leases <==> k in leases;
  }

  class Registry {
    var entries: map<Url, seq<HeldEntry>>
    var leases: set<LeaseObject>
    var size: int
    var historySize: int
    ghost var holders: map<UrlSet, Holder>
    ghost var sets: set<UrlSet>

    ghost predicate Valid()
      reads this
    {
      Unaliased(entries, leases, holders, sets)
    }

    ghost function Read(): (r: Reading)
      reads `sets, sets
      ensures Covers(r, sets)
    {
      ReadingOf(sets)
    }

    ghost function Abs(): Continuations.Registry<LeaseObject>
      requires Valid()
      reads this, sets
    {
      Stands(entries, leases, holders, sets, Read(), size, historySize)
    }

    constructor ()
      ensures Valid() && fresh(sets) && Abs() == Empty()
    {
      entries, leases, size, historySize := map[], {}, 0, 0;
      holders, sets := map[], {};
    }

    // Elementary moves.

    method TakeEntryAt(url: Url, i: nat)
      requires Valid() && url in entries && i < |entries[url]|
      modifies `entries, `holders
      ensures Valid() && Abs() == TakeEntry(old(Abs()), url, i)
      ensures old(entries[url][i].history) !in holders
    {
      hide Unaliased, Stands;
      StandsAfterTake(entries, leases, holders, sets, Read(), size, historySize, url, i);
      var es := entries[url];
      var rest := es[..i] + es[i + 1..];
      holders := holders - {es[i].history};
      entries := if rest == [] then entries - {url} else entries[url := rest];
    }

    method Append(url: Url, context: Context, owner: Owner, history: UrlSet)
      requires Valid() && history in sets && history !in holders
      modifies `entries, `holders
      ensures Valid() && Abs() == AddEntry(old(Abs()), url, Entry(context, owner, history.urls))
    {
      hide Unaliased, Stands;
      var e := HeldEntry(context, owner, history);
      StandsAfterAppend(entries, leases, holders, sets, Read(), size, historySize, url, e);
      holders := holders[history := InEntries(url)];
      entries := entries[url := (if url in entries then entries[url] else []) + [e]];
    }

    method HoldLease(lease: LeaseObject)
      requires Valid() && lease.history in sets && lease.history !in holders
      modifies `leases, `holders
      ensures Valid()
      ensures Abs() == AddLease(old(Abs()), lease, Lease(lease.url, lease.context, lease.owner, lease.history.urls))
    {
      hide Unaliased, Stands;
      StandsAfterHold(entries, leases, holders, sets, Read(), size, historySize, lease);
      holders := holders[lease.history := InLease(lease)];
      leases := leases + {lease};
    }

    method DropLease(lease: LeaseObject)
      requires Valid() && lease in leases
      modifies `leases, `holders
      ensures Valid() && Abs() == TakeLease(old(Abs()), lease)
      ensures lease.history !in holders && lease.history in sets
    {
      hide Unaliased, Stands;
      StandsAfterDrop(entries, leases, holders, sets, Read(), size, historySize, lease);
      holders := holders - {lease.history};
      leases := leases - {lease};
    }

    /** Sets the two counters. */
    method Count(size: int, historySize: int)
      requires Valid()
      modifies `size, `historySize
      ensures Valid() && Abs() == old(Abs()).(size := size, historySize := historySize)
      ensures this.size == size && this.historySize == historySize
    {
      hide Unaliased;
      this.size, this.historySize := size, historySize;
    }

    /** `findIndex` over the entries of one URL. */
    method FindFit(es: seq<HeldEntry>, w: Wanted, owner: Owner) returns (index: Option<nat>)
      requires forall i :: 0 <= i < |es| ==> es[i].history in sets
      ensures index == FirstFit(View(es, Read()), w, owner)
    {
      ghost var view := View(es, Read());
      for i := 0 to |es|
        invariant forall j :: 0 <= j < i ==> !Fits(w, owner, view[j])
      {
        if es[i].owner == owner && Matches(w, es[i].context) {
          assert Fits(w, owner, view[i]);
          return Some(i);
        }
      }
      return None;
    }

    method Reserve(url: Url, owner: Owner, w: Wanted) returns (lease: LeaseObject?)
      requires Valid()
      modifies this
      ensures Valid() && sets == old(sets)
      ensures lease == null ==> Abs() == old(Abs()) && FirstFit(EntriesAt(Abs(), url), w, owner).None?
      ensures lease != null ==> fresh(lease) && Continuations.Reserve(old(Abs()), url, owner, w, lease) == Some(Abs())
    {
      hide FirstFit, Unaliased, Stands, View, AddLease, TakeEntry;
      StandsFor(entries, leases, holders, sets, Read(), size, historySize);
      if url !in entries {
        return null;
      }
      var es := entries[url];
      var index := FindFit(es, w, owner);
      if index.None? {
        return null;
      }
      var entry := es[index.value];
      StandsAfterTake(entries, leases, holders, sets, Read(), size, historySize, url, index.value);
      lease := new LeaseObject(url, entry.context, entry.owner, entry.history);
      TakeEntryAt(url, index.value);
      HoldLease(lease);
    }

    method Restore(lease: LeaseObject?)
      requires Valid()
      modifies this
      ensures Valid() && sets == old(sets)
      ensures Abs() == Continuations.Restore(old(Abs()), Optional(lease))
    {
      hide Unaliased, Stands;
      StandsFor(entries, leases, holders, sets, Read(), size, historySize);
      if lease == null || lease !in leases {
        return;
      }
      DropLease(lease);
      Append(lease.url, lease.context, lease.owner, lease.history);
    }

    method Clear()
      requires Valid()
      modifies this
      ensures Valid() && sets == old(sets)
      ensures Abs() == Continuations.Clear(old(Abs()))
    {
      entries, leases, size, historySize := map[], {}, 0, 0;
      holders := map[];
    }

    /** `some` over the entries at a URL and over the leases. */
    method IsAmbiguous(url: Url, context: Context, owner: Owner) returns (found: bool)
      requires Valid()
      ensures found == Ambiguous(Abs(), url, context, owner)
    {
      hide Unaliased, Stands, Ambiguous, OtherDirection;
      AmbiguousStands(entries, leases, holders, sets, Read(), size, historySize, url, context, owner);
      var candidates := if url in entries then entries[url] else [];
      found :=
        || (exists i :: 0 <= i < |candidates|
              && OtherDirection(owner, context, candidates[i].owner, candidates[i].context))
        || (exists k :: k in leases && k.url == url && OtherDirection(owner, context, k.owner, k.context));
    }

    method IsShared(lease: LeaseObject?, url: Url, context: Context, owner: Owner) returns (found: bool)
      requires Valid()
      ensures found == Shared(Abs(), Optional(lease), url, context, owner)
    {
      hide Unaliased, Stands, Shared, BothHistories;
      SharedStands(entries, leases, holders, sets, Read(), size, historySize, lease, url, context, owner);
      var candidates := if url in entries then entries[url] else [];
      found :=
        || (exists i :: 0 <= i < |candidates|
              && BothHistories(owner, context, candidates[i].owner, candidates[i].context))
        || (exists k :: k in leases && lease != k && k.url == url
              && BothHistories(owner, context, k.owner, k.context));
    }

    /** The reason a commit is refused, if there is one. */
    method Refusal(lease: LeaseObject?, next: Option<Url>, context: Context, owner: Owner)
      returns (e: Option<CommitError>)
      requires Valid()
      ensures e == Committable(Abs(), Optional(lease), next, context, owner)
    {
      hide Ambiguous, Shared, View, Unaliased, Stands;
      StandsFor(entries, leases, holders, sets, Read(), size, historySize);
      if lease != null && lease !in leases {
        return Some(Inactive);
      }
      if lease != null && !SameContext(lease.context, context) {
        return Some(ContextChanged);
      }
      if lease != null && lease.owner != owner {
        return Some(OwnerChanged);
      }
      if lease != null && next == Some(lease.url) {
        return Some(RepeatedUrl);
      }
      if lease != null && next.Some? && next.value in lease.history.urls {
        return Some(Cycled);
      }
      if next.Some? {
        var ambiguous := IsAmbiguous(next.value, context, owner);
        if ambiguous {
          return Some(AmbiguousDirections);
        }
        var shared := IsShared(lease, next.value, context, owner);
        if shared {
          return Some(SharedHistory);
        }
      }
      if size - (if lease == null then 0 else 1) + (if next.None? then 0 else 1) > MAXIMUM_CONTEXTS {
        return Some(RegistryFull);
      }
      var released := if next.None? && lease != null then |lease.history.urls| else 0;
      if historySize - released + (if next.None? then 0 else 1) > MAXIMUM_HISTORY {
        return Some(HistoryFull);
      }
      return None;
    }

    /** A new history set, held by nothing yet. */
    method NewHistory() returns (history: UrlSet)
      requires Valid()
      modifies `sets
      ensures Valid() && fresh(history) && sets == old(sets) + {history} && history.urls == []
      ensures history !in holders && Abs() == old(Abs())
    {
      history := new UrlSet();
      Adopt(history);
    }

    ghost method Adopt(history: UrlSet)
      requires Valid() && history !in sets && history.urls == []
      modifies `sets
      ensures Valid() && sets == old(sets) + {history}
      ensures history !in holders && Abs() == old(Abs())
    {
      hide Unaliased, Stands, ReadingOf, Covers;
      ghost var before, reading := Abs(), ReadingOf(sets + {history});
      ReadingWith(sets, history);
      assert history !in holders by { HoldersAreSets(entries, leases, holders, sets); }
      StandsAfterChange(entries, leases, holders, sets, Read(), size, historySize, history, []);
      assert Stands(entries, leases, holders, sets + {history}, reading, size, historySize) == before;
      sets := sets + {history};
      assert Read() == reading;
    }

    /** Ends a lease and hands over its history set. */
    method ConsumeLease(lease: LeaseObject, next: Option<Url>) returns (history: UrlSet)
      requires Valid() && lease in leases
      modifies `leases, `holders, `size, `historySize
      ensures Valid() && Abs() == Consume(old(Abs()), Some(lease), next)
      ensures history in sets && history !in holders && history == lease.history
    {
      hide Unaliased, Stands;
      StandsFor(entries, leases, holders, sets, Read(), size, historySize);
      history := lease.history;
      DropLease(lease);
      Count(size - 1, historySize - if next.None? then |history.urls| else 0);
    }

    /** Adds the URL to the history set in place and makes the capability available. */
    method IssueNext(history: UrlSet, url: Url, context: Context, owner: Owner)
      requires Valid() && history in sets && history !in holders
      modifies `entries, `holders, `size, `historySize, history
      ensures Valid()
      ensures Abs() == Issue(old(Abs()), url, Entry(context, owner, AddUrl(old(history.urls), url)))
    {
      hide Unaliased, Stands, Covers;
      StandsFor(entries, leases, holders, sets, Read(), size, historySize);
      StandsAfterChange(entries, leases, holders, sets, Read(), size, historySize, history, AddUrl(history.urls, url));
      assert sets + {history} == sets;
      history.Add(url);
      assert Read() == old(Read())[history := history.urls];
      Count(size + 1, historySize + 1);
      Append(url, context, owner, history);
    }

    /** Consumes the lease and issues the next capability, extending the traversal's history set in place. */
    method Commit(lease: LeaseObject?, next: Option<Url>, context: Context, owner: Owner)
      returns (e: Option<CommitError>)
      requires Valid()
      modifies this, sets
      ensures Valid() && fresh(sets - old(sets))
      ensures match Continuations.Commit(old(Abs()), Optional(lease), next, context, owner)
              case Err(error) => e == Some(error) && Abs() == old(Abs())
              case Ok(r) => e == None && Abs() == r
    {
      hide Committable, Unaliased, Stands, Issue, Consume;
      e := Refusal(lease, next, context, owner);
      if e.Some? {
        return;
      }
      StandsFor(entries, leases, holders, sets, Read(), size, historySize);
      var history;
      if lease != null {
        ActiveWhenCommittable(Abs(), lease, next, context, owner);
        history := ConsumeLease(lease, next);
      } else {
        history := NewHistory();
        NothingConsumed(Abs(), next);
      }
      if next.Some? {
        IssueNext(history, next.value, context, owner);
      }
    }

    lemma ViewedFields(es: seq<HeldEntry>)
      requires forall i :: 0 <= i < |es| ==> es[i].history in sets
      ensures var view := View(es, Read());
              forall i :: 0 <= i < |es| ==> view[i].history == es[i].history.urls && view[i].owner == es[i].owner
    {
    }

    /** Filters one list, counting what goes and the histories that go with it. */
    method KeepOthers(es: seq<HeldEntry>, owner: Owner) returns (kept: seq<HeldEntry>, dropped: int, released: int)
      requires forall i :: 0 <= i < |es| ==> es[i].history in sets
      ensures kept == OthersHeld(es, owner)
      ensures dropped == |es| - |kept|
      ensures released == Dropped(View(es, Read()), owner)
    {
      hide OthersHeld, Dropped;
      ghost var view := View(es, Read());
      ViewedFields(es);
      hide View, Read, ReadingOf;
      kept, dropped, released := [], 0, 0;
      assert es[0..] == es && view[0..] == view;
      for i := 0 to |es|
        invariant OthersHeld(es, owner) == kept + OthersHeld(es[i..], owner)
        invariant dropped == i - |kept|
        invariant released == Dropped(view, owner) - Dropped(view[i..], owner)
      {
        KeepOne(es, view, i, owner);
        if es[i].owner != owner {
          KeptBefore(kept, es[i], OthersHeld(es[i + 1..], owner));
          kept := kept + [es[i]];
        } else {
          KeptBefore(kept, es[i], OthersHeld(es[i + 1..], owner));
          dropped := dropped + 1;
          released := released + |es[i].history.urls|;
        }
      }
      NothingKept(owner);
      assert es[|es|..] == [] && view[|es|..] == [];
      assert kept + [] == kept;
    }

    /** Drops the owner's entries at one URL. */
    method ForgetAt(url: Url, owner: Owner)
      requires Valid() && url in entries
      modifies `entries, `size, `historySize
      ensures url in old(Abs()).entries
      ensures var es := old(Abs()).entries[url];
              && Valid() && entries.Keys <= old(entries.Keys) && old(entries.Keys) - {url} <= entries.Keys
              && Abs() == old(Abs()).(
                   entries := PutEntries(old(Abs()).entries, url, Others(es, owner)),
                   size := old(size) - (|es| - |Others(es, owner)|),
                   historySize := old(historySize) - (HistoryLength(es) - HistoryLength(Others(es, owner))))
              && size == Abs().size && historySize == Abs().historySize
    {
      hide Unaliased, Stands, View, Others, OthersHeld, HistoryLength;
      StandsFor(entries, leases, holders, sets, Read(), size, historySize);
      StandsAfterFilter(entries, leases, holders, sets, Read(), size, historySize, url, owner);
      var kept, dropped, released := KeepOthers(entries[url], owner);
      entries := if kept == [] then entries - {url} else entries[url := kept];
      Count(size - dropped, historySize - released);
    }

    method ForgetAvailable(owner: nat)
      requires Valid()
      modifies `entries, `size, `historySize
      ensures Valid() && Abs() == Forget(old(Abs()), owner)
    {
      hide Unaliased, Stands, View, Others, Sum, HistoryLength;
      StandsFor(entries, leases, holders, sets, Read(), size, historySize);
      ghost var first := Abs();
      var todo := entries.Keys;
      while todo != {}
        invariant Valid() && todo <= entries.Keys
        invariant Abs() == first.(entries := Partly(first.entries, Some(owner), todo),
                                  size := size, historySize := historySize)
        invariant todo <= first.entries.Keys
        invariant size - Sum(Abs().entries, EntryCount) == first.size - Sum(first.entries, EntryCount)
        invariant historySize - Sum(Abs().entries, HistoryLength)
               == first.historySize - Sum(first.entries, HistoryLength)
        decreases |todo|
      {
        var url :| url in todo;
        PartlyDone(first.entries, Some(owner), todo, url);
        ReplacedTotals(Abs().entries, url, Others(first.entries[url], Some(owner)));
        hide Partly, PutEntries, Valid, Abs;
        ForgetAt(url, Some(owner));
        todo := todo - {url};
      }
      PartlyEnds(first.entries, Some(owner));
      assert Abs().entries == Continuations.Kept(first.entries, Some(owner));
    }
  }

  /** The URLs remembered by the owner's entries of a list. */
  function Dropped(view: seq<Entry>, owner: Owner): int {
    HistoryLength(view) - HistoryLength(Others(view, owner))
  }

  lemma KeepOne(es: seq<HeldEntry>, view: seq<Entry>, i: nat, owner: Owner)
    requires i < |es| == |view|
    ensures OthersHeld(es[i..], owner)
         == (if es[i].owner != owner then [es[i]] else []) + OthersHeld(es[i + 1..], owner)
    ensures Dropped(view[i..], owner)
         == (if view[i].owner == owner then |view[i].history| else 0) + Dropped(view[i + 1..], owner)
  {
    assert es[i..][1..] == es[i + 1..] && view[i..][1..] == view[i + 1..];
    HistoryLengthAdds(if view[i].owner != owner then [view[i]] else [], Others(view[i + 1..], owner));
  }

  lemma KeptBefore(kept: seq<HeldEntry>, e: HeldEntry, rest: seq<HeldEntry>)
    ensures kept + ([e] + rest) == kept + [e] + rest && kept + ([] + rest) == kept + rest
  {
  }

  lemma NothingKept(owner: Owner)
    ensures OthersHeld([], owner) == [] && Dropped([], owner) == 0
  {
  }

  lemma PartlyEnds(entries: map<Url, seq<Entry>>, owner: Owner)
    ensures Partly(entries, owner, {}) == Continuations.Kept(entries, owner)
  {
  }

  /** The entries when the owner's have been dropped everywhere but at the URLs still to do. */
  ghost function Partly(entries: map<Url, seq<Entry>>, owner: Owner, todo: set<Url>): map<Url, seq<Entry>> {
    map u | u in entries && (u in todo || Others(entries[u], owner) != []) ::
      if u in todo then entries[u] else Others(entries[u], owner)
  }

  lemma PartlyDone(entries: map<Url, seq<Entry>>, owner: Owner, todo: set<Url>, url: Url)
    requires url in todo && url in entries
    ensures PutEntries(Partly(entries, owner, todo), url, Others(entries[url], owner))
         == Partly(entries, owner, todo - {url})
    ensures url in Partly(entries, owner, todo) && Partly(entries, owner, todo)[url] == entries[url]
  {
  }

  lemma ReplacedTotals(entries: map<Url, seq<Entry>>, url: Url, es: seq<Entry>)
    requires url in entries
    ensures var entries' := PutEntries(entries, url, es);
            && Sum(entries', EntryCount) == Sum(entries, EntryCount) - |entries[url]| + |es|
            && Sum(entries', HistoryLength)
               == Sum(entries, HistoryLength) - HistoryLength(entries[url]) + HistoryLength(es)
  {
    SumOfReplaced(entries, url, entries[url], es, EntryCount);
    SumOfReplaced(entries, url, entries[url], es, HistoryLength);
  }

  lemma ActiveWhenCommittable(r: Continuations.Registry<LeaseObject>, lease: LeaseObject, next: Option<Url>,
                              context: Context, owner: Owner)
    requires Committable(r, Some(lease), next, context, owner).None?
    ensures lease in r.leases
  {
  }

  lemma NothingConsumed(r: Continuations.Registry<LeaseObject>, next: Option<Url>)
    ensures Consume(r, None, next) == r && HistoryOf(r, None) == []
  {
  }
}
