/**
 * Edits of an object: how merges and keyed settings are compiled to a patch, and how a patch is applied.
 *
 * Compilation emits only `add` and `remove` operations on single members, spelled as JSON Pointers; application is
 * the server's strict patch of arbitrary depth (sections 4.1 and 4.2 of RFC 6902).
 */
module ObjectEdits {
  import opened Json
  import opened Outcomes
  import opened Pointers
  import opened Texts
  import CanonicalJson
  import Decimals
  import FallbackBatches
  import Sorting

  datatype Change = Add(path: Text, value: JsonValue) | Replace(path: Text, value: JsonValue) | Remove(path: Text)

  datatype Fault =
    | NoTarget | NoParent | NoIndex | NotAnObject | BoundExceeded | LimitExceeded
    | MissingEquals | Unreadable

  // Applying a patch

  /** `Object.defineProperty` of a plain member: in its place, or last. */
  function Put(ms: seq<Member<Text>>, key: Text, value: JsonValue): seq<Member<Text>> {
    if ms == [] then [Member(key, value)]
    else if ms[0].key == key then [Member(key, value)] + ms[1..]
    else [ms[0]] + Put(ms[1..], key, value)
  }

  function Delete(ms: seq<Member<Text>>, key: Text): seq<Member<Text>> {
    if ms == [] then []
    else if ms[0].key == key then ms[1..]
    else [ms[0]] + Delete(ms[1..], key)
  }

  /** The pattern `0|[1-9][0-9]*` names an index. */
  function Index(name: Text): Option<nat> {
    if Decimals.IsCanonical(name) then Some(Decimals.Value(name)) else None
  }

  function EditItems(items: seq<JsonValue>, name: Text, change: Change): Result<JsonValue, Fault> {
    var index := if name == [MINUS] && change.Add? then Some(|items|) else Index(name);
    if index.None? || index.value > |items| || (!change.Add? && index.value == |items|) then
      Err(NoIndex)
    else
      var i := index.value;
      match change
      case Add(_, value) => Ok(Array(items[..i] + [value] + items[i..]))
      case Remove(_) => Ok(Array(items[..i] + items[i + 1..]))
      case Replace(_, value) => Ok(Array(items[i := value]))
  }

  function EditMembers(ms: seq<Member<Text>>, name: Text, change: Change): Result<JsonValue, Fault> {
    if !change.Add? && Lookup(ms, name).None? then
      Err(NoTarget)
    else
      match change
      case Remove(_) => Ok(Object(Delete(ms, name)))
      case Add(_, value) => Ok(Object(Put(ms, name, value)))
      case Replace(_, value) => Ok(Object(Put(ms, name, value)))
  }

  /** The own member or element a token names. */
  function Child(v: JsonValue, token: Text): Option<JsonValue> {
    match v
    case Object(ms) => Lookup(ms, token)
    case Array(items) =>
      if Index(token).Some? && Index(token).value < |items| then Some(items[Index(token).value]) else None
    case _ => None
  }

  function WithChild(v: JsonValue, token: Text, child: JsonValue): JsonValue
    requires Child(v, token).Some?
  {
    match v
    case Object(ms) => Object(Put(ms, token, child))
    case Array(items) => Array(items[Index(token).value := child])
  }

  /** A change of one member or element of the value itself. */
  function EditHere(v: JsonValue, name: Text, change: Change): Result<JsonValue, Fault> {
    match v
    case Array(items) => EditItems(items, name, change)
    case Object(ms) => EditMembers(ms, name, change)
    case _ => Err(NoTarget)
  }

  function EditAt(v: JsonValue, tokens: Path, change: Change): Result<JsonValue, Fault>
    requires tokens != []
    decreases |tokens|
  {
    if |tokens| == 1 then
      EditHere(v, tokens[0], change)
    else
      var child := Child(v, tokens[0]);
      if child.None? then
        Err(NoParent)
      else
        var edited := EditAt(child.value, tokens[1..], change);
        if edited.Ok? then Ok(WithChild(v, tokens[0], edited.value)) else edited
  }

  function PathTokens(path: Text): Path {
    if path == [] then [] else UnescapeAll(Split(path[1..]))
  }

  /** One change; the document is absent after its root is removed. */
  function Apply(document: Option<JsonValue>, change: Change): Result<Option<JsonValue>, Fault> {
    var tokens := PathTokens(change.path);
    if tokens == [] then
      if !change.Add? && document.None? then Err(NoTarget)
      else Ok(if change.Remove? then None else Some(change.value))
    else if document.None? then
      Err(NoTarget)
    else
      var edited := EditAt(document.value, tokens, change);
      if edited.Ok? then Ok(Some(edited.value)) else Err(edited.error)
  }

  function ApplyAll(document: Option<JsonValue>, changes: seq<Change>): Result<Option<JsonValue>, Fault>
    decreases changes
  {
    if changes == [] then
      Ok(document)
    else
      var next := Apply(document, changes[0]);
      if next.Ok? then ApplyAll(next.value, changes[1..]) else next
  }

  /** The whole patch of an object; the outcome must be an object again. */
  function ApplyObjectChange(before: seq<Member<Text>>, changes: seq<Change>): Result<seq<Member<Text>>, Fault> {
    var after := ApplyAll(Some(Object(before)), changes);
    if after.Err? then Err(after.error)
    else if after.value.Some? && after.value.value.Object? then Ok(after.value.value.members)
    else Err(NotAnObject)
  }

  // Compiling edits

  function AddAll(entries: seq<Member<Text>>): (r: seq<Change>)
    ensures |r| == |entries|
  {
    if entries == [] then [] else [Add(PointerTo(entries[0].key), entries[0].value)] + AddAll(entries[1..])
  }

  /** `add` null, then `remove`: the removal never fails. */
  function RemoveAll(keys: seq<Text>): seq<Change> {
    if keys == [] then []
    else [Add(PointerTo(keys[0]), Null), Remove(PointerTo(keys[0]))] + RemoveAll(keys[1..])
  }

  function SortedEntries(record: seq<Member<Text>>): (r: seq<Member<Text>>)
  {
    var keys := CanonicalJson.SortedKeys(record);
    seq(|keys|, i requires 0 <= i < |keys| =>
      assert keys[i] in keys; Member(keys[i], CanonicalJson.ValueAt(record, keys[i])))
  }

  /** A merge adds every member of the given object, in the order of their names. */
  function MergeChanges(record: seq<Member<Text>>): seq<Change> {
    AddAll(SortedEntries(record))
  }

  /** `new Set(keys)` */
  function Distinct(keys: seq<Text>): seq<Text> {
    if keys == [] then
      []
    else
      var front := Distinct(keys[..|keys| - 1]);
      if keys[|keys| - 1] in front then front else front + [keys[|keys| - 1]]
  }

  function EqualsAt(entry: Text): (at: Option<nat>)
    ensures at.Some? ==> at.value < |entry| && entry[at.value] == EQUALS && EQUALS !in entry[..at.value]
    ensures at.None? ==> EQUALS !in entry
  {
    if entry == [] then None
    else if entry[0] == EQUALS then Some(0)
    else
      var at := EqualsAt(entry[1..]);
      assert entry == [entry[0]] + entry[1..];
      assert at.Some? ==> entry[..1 + at.value] == [entry[0]] + entry[1..][..at.value];
      if at.Some? then Some(1 + at.value) else None
  }

  /** The reading of the text after the sign, as JSON or as a string. */
  type Reader = Text -> Result<JsonValue, Fault>

  function Setting(read: Reader, entry: Text): Result<Member<Text>, Fault> {
    var at := EqualsAt(entry);
    if at.None? then
      Err(MissingEquals)
    else
      var value := read(entry[at.value + 1..]);
      if value.Ok? then Ok(Member(entry[..at.value], value.value)) else Err(value.error)
  }

  /** Every entry has a sign and can be read. */
  predicate AllSettings(read: Reader, sets: seq<Text>) {
    forall i :: 0 <= i < |sets| ==> Setting(read, sets[i]).Ok?
  }

  /** The Map filled by the entries: keys in order of first setting, each with its last value. */
  function Settings(read: Reader, sets: seq<Text>): seq<Member<Text>>
    requires AllSettings(read, sets)
  {
    if sets == [] then
      []
    else
      var last := Setting(read, sets[|sets| - 1]).value;
      Put(Settings(read, sets[..|sets| - 1]), last.key, last.value)
  }

  function KeyedChanges(read: Reader, sets: seq<Text>, unsets: seq<Text>): seq<Change>
    requires AllSettings(read, sets)
  {
    AddAll(Settings(read, sets)) + RemoveAll(Distinct(unsets))
  }

  function TotalBytes(ts: seq<Text>): nat {
    if ts == [] then 0 else TotalBytes(ts[..|ts| - 1]) + FallbackBatches.ByteLength(ts[|ts| - 1])
  }

  // Members as a table

  lemma {:induction false} LookupAfterPut(ms: seq<Member<Text>>, key: Text, value: JsonValue, q: Text)
    ensures Lookup(Put(ms, key, value), q) == if q == key then Some(value) else Lookup(ms, q)
  {
    if ms != [] {
      LookupAfterPut(ms[1..], key, value, q);
      assert Put(ms, key, value)[1..] == if ms[0].key == key then ms[1..] else Put(ms[1..], key, value);
    }
  }

  lemma FirstKeyIsAlone(ms: seq<Member<Text>>)
    requires ms != [] && DistinctKeys(ms)
    ensures DistinctKeys(ms[1..])
    ensures Lookup(ms[1..], ms[0].key).None?
  {
    forall i | 0 <= i < |ms[1..]|
      ensures ms[1..][i].key != ms[0].key
    {
      assert ms[1..][i] == ms[i + 1];
    }
  }

  lemma {:induction false} LookupAfterDelete(ms: seq<Member<Text>>, key: Text, q: Text)
    requires DistinctKeys(ms)
    ensures Lookup(Delete(ms, key), q) == if q == key then None else Lookup(ms, q)
  {
    if ms != [] {
      FirstKeyIsAlone(ms);
      LookupAfterDelete(ms[1..], key, q);
      if ms[0].key != key {
        assert Delete(ms, key)[1..] == Delete(ms[1..], key);
      }
    }
  }

  lemma DistinctByFirst(first: Member<Text>, rest: seq<Member<Text>>)
    requires DistinctKeys(rest) && Lookup(rest, first.key).None?
    ensures DistinctKeys([first] + rest)
  {
  }

  lemma {:induction false} PutKeepsDistinct(ms: seq<Member<Text>>, key: Text, value: JsonValue)
    requires DistinctKeys(ms)
    ensures DistinctKeys(Put(ms, key, value))
  {
    if ms != [] {
      hide DistinctKeys, Lookup;
      FirstKeyIsAlone(ms);
      if ms[0].key == key {
        DistinctByFirst(Member(key, value), ms[1..]);
      } else {
        PutKeepsDistinct(ms[1..], key, value);
        LookupAfterPut(ms[1..], key, value, ms[0].key);
        DistinctByFirst(ms[0], Put(ms[1..], key, value));
      }
    }
  }

  lemma {:induction false} DeleteKeepsDistinct(ms: seq<Member<Text>>, key: Text)
    requires DistinctKeys(ms)
    ensures DistinctKeys(Delete(ms, key))
    ensures forall m :: m in Delete(ms, key) ==> m in ms
  {
    if ms != [] && ms[0].key != key {
      var tail := Delete(ms[1..], key);
      DeleteKeepsDistinct(ms[1..], key);
      forall j | 0 <= j < |tail|
        ensures tail[j].key != ms[0].key
      {
        assert tail[j] in ms[1..];
        var i :| 0 <= i < |ms[1..]| && ms[1..][i] == tail[j];
        assert ms[i + 1] == tail[j];
      }
    }
  }

  // What the emitted changes do

  function PutAll(ms: seq<Member<Text>>, entries: seq<Member<Text>>): seq<Member<Text>>
    decreases entries
  {
    if entries == [] then ms else PutAll(Put(ms, entries[0].key, entries[0].value), entries[1..])
  }

  function DropAll(ms: seq<Member<Text>>, keys: seq<Text>): seq<Member<Text>>
    decreases keys
  {
    if keys == [] then ms else DropAll(Delete(Put(ms, keys[0], Null), keys[0]), keys[1..])
  }

  lemma PathOfKey(key: Text)
    ensures PathTokens(PointerTo(key)) == [key]
  {
    SingleKeyPointer(key);
  }

  lemma ApplyAdd(ms: seq<Member<Text>>, key: Text, value: JsonValue)
    ensures Apply(Some(Object(ms)), Add(PointerTo(key), value)) == Ok(Some(Object(Put(ms, key, value))))
  {
    hide PathTokens, PointerTo;
    PathOfKey(key);
  }

  lemma ApplyRemove(ms: seq<Member<Text>>, key: Text)
    requires Lookup(ms, key).Some?
    ensures Apply(Some(Object(ms)), Remove(PointerTo(key))) == Ok(Some(Object(Delete(ms, key))))
  {
    hide PathTokens, PointerTo;
    PathOfKey(key);
  }

  lemma {:induction false} ApplyAddAll(ms: seq<Member<Text>>, entries: seq<Member<Text>>, rest: seq<Change>)
    ensures ApplyAll(Some(Object(ms)), AddAll(entries) + rest) == ApplyAll(Some(Object(PutAll(ms, entries))), rest)
    decreases entries
  {
    hide Apply, PointerTo;
    var changes := AddAll(entries) + rest;
    if entries == [] {
      assert changes == rest;
    } else {
      ApplyAdd(ms, entries[0].key, entries[0].value);
      assert changes[1..] == AddAll(entries[1..]) + rest;
      ApplyAddAll(Put(ms, entries[0].key, entries[0].value), entries[1..], rest);
    }
  }

  lemma {:induction false} ApplyRemoveAll(ms: seq<Member<Text>>, keys: seq<Text>)
    ensures ApplyAll(Some(Object(ms)), RemoveAll(keys)) == Ok(Some(Object(DropAll(ms, keys))))
    decreases keys
  {
    hide Apply, PointerTo;
    if keys != [] {
      var changes := RemoveAll(keys);
      var with := Put(ms, keys[0], Null);
      ApplyAdd(ms, keys[0], Null);
      LookupAfterPut(ms, keys[0], Null, keys[0]);
      ApplyRemove(with, keys[0]);
      assert changes[1..][0] == Remove(PointerTo(keys[0])) && changes[1..][1..] == RemoveAll(keys[1..]);
      ApplyRemoveAll(Delete(with, keys[0]), keys[1..]);
    }
  }

  lemma {:induction false} LookupAfterPutAll(ms: seq<Member<Text>>, entries: seq<Member<Text>>, q: Text)
    requires DistinctKeys(ms) && DistinctKeys(entries)
    ensures DistinctKeys(PutAll(ms, entries))
    ensures Lookup(PutAll(ms, entries), q) == if Lookup(entries, q).Some? then Lookup(entries, q) else Lookup(ms, q)
    decreases entries
  {
    if entries != [] {
      var first := entries[0];
      PutKeepsDistinct(ms, first.key, first.value);
      LookupAfterPut(ms, first.key, first.value, q);
      LookupAfterPutAll(Put(ms, first.key, first.value), entries[1..], q);
      FirstKeyIsAlone(entries);
    }
  }

  lemma {:induction false} LookupAfterDropAll(ms: seq<Member<Text>>, keys: seq<Text>, q: Text)
    requires DistinctKeys(ms)
    ensures DistinctKeys(DropAll(ms, keys))
    ensures Lookup(DropAll(ms, keys), q) == if q in keys then None else Lookup(ms, q)
    decreases keys
  {
    if keys != [] {
      var with := Put(ms, keys[0], Null);
      PutKeepsDistinct(ms, keys[0], Null);
      DeleteKeepsDistinct(with, keys[0]);
      LookupAfterPut(ms, keys[0], Null, q);
      LookupAfterDelete(with, keys[0], q);
      LookupAfterDropAll(Delete(with, keys[0]), keys[1..], q);
    }
  }

  // What the compiled edits mean

  /** A rearrangement of members is the same table. */
  lemma LookupRearranged(ms: seq<Member<Text>>, ns: seq<Member<Text>>, q: Text)
    requires DistinctKeys(ms) && multiset(ms) == multiset(ns)
    ensures DistinctKeys(ns)
    ensures Lookup(ns, q) == Lookup(ms, q)
  {
    RearrangedIsDistinct(ms, ns);
    if Lookup(ms, q).Some? {
      var m := Member(q, Lookup(ms, q).value);
      assert m in ms;
      assert m in multiset(ns);
      var j :| 0 <= j < |ns| && ns[j] == m;
      LookupAt(ns, j);
    } else {
      forall j | 0 <= j < |ns|
        ensures ns[j].key != q
      {
        assert ns[j] in multiset(ms);
        var i :| 0 <= i < |ms| && ms[i] == ns[j];
      }
    }
  }

  lemma RearrangedIsDistinct(ms: seq<Member<Text>>, ns: seq<Member<Text>>)
    requires DistinctKeys(ms) && multiset(ms) == multiset(ns)
    ensures DistinctKeys(ns)
  {
    forall x: Member<Text> ensures !CanonicalJson.MemberBefore(x, x) { LessIsIrreflexive(x.key); }
    assert Sorting.Separated(CanonicalJson.MemberBefore, ms) by {
      forall i, j | 0 <= i < j < |ms|
        ensures CanonicalJson.MemberBefore(ms[i], ms[j]) || CanonicalJson.MemberBefore(ms[j], ms[i])
      {
        LessIsTotal(ms[i].key, ms[j].key);
      }
    }
    Sorting.SeparatedByRearrangement(CanonicalJson.MemberBefore, ms, ns);
    forall i, j | 0 <= i < j < |ns|
      ensures ns[i].key != ns[j].key
    {
      assert CanonicalJson.MemberBefore(ns[i], ns[j]) || CanonicalJson.MemberBefore(ns[j], ns[i]);
      LessIsIrreflexive(ns[i].key);
    }
  }

  lemma SortedEntriesHold(record: seq<Member<Text>>, q: Text)
    requires DistinctKeys(record)
    ensures DistinctKeys(SortedEntries(record))
    ensures Lookup(SortedEntries(record), q) == Lookup(record, q)
  {
    hide DistinctKeys, Lookup, Sorting.Sort, CanonicalJson.SortedKeys, CanonicalJson.ValueAt;
    var sorted := Sorting.Sort(CanonicalJson.MemberBefore, record);
    CanonicalJson.SortedKeysShow(record);
    forall i | 0 <= i < |record|
      ensures SortedEntries(record)[i] == sorted[i]
    {
      CanonicalJson.SortedValueShows(record, i);
    }
    assert SortedEntries(record) == sorted;
    LookupRearranged(record, sorted, q);
  }

  /** The value of the last entry that sets the key. */
  function LastSetting(read: Reader, sets: seq<Text>, q: Text): Option<JsonValue>
    requires AllSettings(read, sets)
  {
    if sets == [] then
      None
    else
      var last := Setting(read, sets[|sets| - 1]).value;
      if last.key == q then Some(last.value) else LastSetting(read, sets[..|sets| - 1], q)
  }

  lemma {:induction false} SettingsHold(read: Reader, sets: seq<Text>, q: Text)
    requires AllSettings(read, sets)
    ensures DistinctKeys(Settings(read, sets))
    ensures Lookup(Settings(read, sets), q) == LastSetting(read, sets, q)
  {
    hide Setting;
    if sets != [] {
      var front := sets[..|sets| - 1];
      var last := Setting(read, sets[|sets| - 1]).value;
      SettingsHold(read, front, q);
      PutKeepsDistinct(Settings(read, front), last.key, last.value);
      LookupAfterPut(Settings(read, front), last.key, last.value, q);
    }
  }

  lemma {:induction false} DistinctHolds(keys: seq<Text>)
    ensures forall k :: k in Distinct(keys) <==> k in keys
    ensures forall i, j :: 0 <= i < j < |Distinct(keys)| ==> Distinct(keys)[i] != Distinct(keys)[j]
  {
    if keys != [] {
      DistinctHolds(keys[..|keys| - 1]);
      assert keys == keys[..|keys| - 1] + [keys[|keys| - 1]];
    }
  }

  /** A merge never fails, and gives the shallow merge: the given members, and the others as they were. */
  lemma MergeMeansShallowMerge(base: seq<Member<Text>>, record: seq<Member<Text>>, q: Text)
    requires DistinctKeys(base) && DistinctKeys(record)
    ensures var after := ApplyObjectChange(base, MergeChanges(record));
            && after.Ok? && DistinctKeys(after.value)
            && Lookup(after.value, q) == if Lookup(record, q).Some? then Lookup(record, q) else Lookup(base, q)
  {
    hide Apply, SortedEntries;
    var entries := SortedEntries(record);
    SortedEntriesHold(record, q);
    ApplyAddAll(base, entries, []);
    assert AddAll(entries) + [] == AddAll(entries);
    LookupAfterPutAll(base, entries, q);
  }

  /** Keyed edits never fail: each key set last holds its last value, each unset key is gone, the rest is untouched. */
  lemma KeyedMeansLastSetThenUnset(base: seq<Member<Text>>, read: Reader, sets: seq<Text>, unsets: seq<Text>, q: Text)
    requires DistinctKeys(base) && AllSettings(read, sets)
    ensures var after := ApplyObjectChange(base, KeyedChanges(read, sets, unsets));
            && after.Ok? && DistinctKeys(after.value)
            && Lookup(after.value, q) ==
                 if q in unsets then None
                 else if LastSetting(read, sets, q).Some? then LastSetting(read, sets, q)
                 else Lookup(base, q)
  {
    hide Apply, AllSettings, Settings, LastSetting;
    var entries := Settings(read, sets);
    SettingsHold(read, sets, q);
    DistinctHolds(unsets);
    ApplyAddAll(base, entries, RemoveAll(Distinct(unsets)));
    LookupAfterPutAll(base, entries, q);
    ApplyRemoveAll(PutAll(base, entries), Distinct(unsets));
    LookupAfterDropAll(PutAll(base, entries), Distinct(unsets), q);
  }

  lemma AllSettingsGrow(read: Reader, sets: seq<Text>, n: nat)
    requires n < |sets| && AllSettings(read, sets[..n]) && Setting(read, sets[n]).Ok?
    ensures AllSettings(read, sets[..n + 1])
  {
    hide Setting;
    var more := sets[..n + 1];
    forall k | 0 <= k < |more|
      ensures Setting(read, more[k]).Ok?
    {
      assert k < n ==> more[k] == sets[..n][k];
    }
  }

  // The loops that compile

  /** Keyed edits compile exactly when every entry is readable and all entries fit the input bound. */
  method CompileKeyed(read: Reader, sets: seq<Text>, unsets: seq<Text>, bound: nat)
    returns (r: Result<seq<Change>, Fault>)
    ensures r.Ok? <==> AllSettings(read, sets) && TotalBytes(sets) + TotalBytes(Distinct(unsets)) <= bound
    ensures r.Ok? ==> r.value == KeyedChanges(read, sets, unsets)
    ensures r.Err? ==>
              || (r.error == BoundExceeded && TotalBytes(sets) + TotalBytes(Distinct(unsets)) > bound)
              || exists i :: 0 <= i < |sets| && Setting(read, sets[i]) == Err(r.error) && AllSettings(read, sets[..i])
  {
    hide Setting, FallbackBatches.ByteLength, PointerTo, Put, Distinct;
    var remaining := bound;
    var values: seq<Member<Text>> := [];
    for i := 0 to |sets|
      invariant AllSettings(read, sets[..i]) && values == Settings(read, sets[..i])
      invariant remaining == bound - TotalBytes(sets[..i])
    {
      assert sets[..i + 1][..i] == sets[..i];
      var bytes := FallbackBatches.ByteLength(sets[i]);
      if bytes > remaining {
        TotalBytesGrows(sets, i + 1);
        return Err(BoundExceeded);
      }
      remaining := remaining - bytes;
      var setting := Setting(read, sets[i]);
      if setting.Err? {
        return Err(setting.error);
      }
      AllSettingsGrow(read, sets, i);
      values := Put(values, setting.value.key, setting.value.value);
    }
    assert sets[..|sets|] == sets;
    var keys := Distinct(unsets);
    var changes := AddAll(values);
    for i := 0 to |keys|
      invariant changes == AddAll(values) + RemoveAll(keys[..i])
      invariant remaining == bound - TotalBytes(sets) - TotalBytes(keys[..i])
    {
      assert keys[..i + 1][..i] == keys[..i];
      var bytes := FallbackBatches.ByteLength(keys[i]);
      if bytes > remaining {
        TotalBytesGrows(keys, i + 1);
        return Err(BoundExceeded);
      }
      remaining := remaining - bytes;
      RemoveAllOfAppend(keys[..i], keys[i]);
      assert keys[..i + 1] == keys[..i] + [keys[i]];
      changes := changes + [Add(PointerTo(keys[i]), Null), Remove(PointerTo(keys[i]))];
    }
    assert keys[..|keys|] == keys;
    return Ok(changes);
  }

  lemma {:induction false} TotalBytesGrows(ts: seq<Text>, n: nat)
    requires n <= |ts|
    ensures TotalBytes(ts[..n]) <= TotalBytes(ts)
    decreases |ts|
  {
    hide FallbackBatches.ByteLength;
    if n < |ts| {
      TotalBytesGrows(ts[..|ts| - 1], n);
      assert ts[..|ts| - 1][..n] == ts[..n];
    } else {
      assert ts[..n] == ts;
    }
  }

  lemma {:induction false} TotalBytesAdd(a: seq<Text>, b: seq<Text>)
    ensures TotalBytes(a + b) == TotalBytes(a) + TotalBytes(b)
    ensures |a| == 1 ==> TotalBytes(a) == FallbackBatches.ByteLength(a[0])
  {
    hide FallbackBatches.ByteLength;
    if b == [] {
      assert a + b == a;
      assert |a| == 1 ==> a[..0] == [];
    } else {
      var n := |a + b| - 1;
      assert (a + b)[..n] == a + b[..|b| - 1];
      TotalBytesAdd(a, b[..|b| - 1]);
    }
  }

  lemma {:induction false} RemoveAllOfAppend(keys: seq<Text>, key: Text)
    ensures RemoveAll(keys + [key]) == RemoveAll(keys) + [Add(PointerTo(key), Null), Remove(PointerTo(key))]
  {
    hide PointerTo;
    if keys == [] {
      assert [key][1..] == [];
    } else {
      assert (keys + [key])[1..] == keys[1..] + [key];
      RemoveAllOfAppend(keys[1..], key);
    }
  }

  // Roots and settings

  /** Adding or replacing the root replaces the document, removing it leaves none; without one only adding works. */
  lemma RootChanges(document: Option<JsonValue>, value: JsonValue)
    ensures Apply(document, Add([], value)) == Ok(Some(value))
    ensures Apply(document, Replace([], value)) == if document.Some? then Ok(Some(value)) else Err(NoTarget)
    ensures Apply(document, Remove([])) == if document.Some? then Ok(None) else Err(NoTarget)
  {
  }

  /** Below the root nothing can be changed without a document. */
  lemma NothingToChange(change: Change)
    ensures change.path != [] ==> Apply(None, change) == Err(NoTarget)
  {
  }

  /** Patches compose; the first failure ends them. */
  lemma {:induction false} PatchesCompose(document: Option<JsonValue>, a: seq<Change>, b: seq<Change>)
    ensures ApplyAll(document, a + b)
         == if ApplyAll(document, a).Ok? then ApplyAll(ApplyAll(document, a).value, b) else ApplyAll(document, a)
    decreases a
  {
    hide Apply;
    if a == [] {
      assert a + b == b;
    } else {
      assert (a + b)[0] == a[0] && (a + b)[1..] == a[1..] + b;
      if Apply(document, a[0]).Ok? {
        PatchesCompose(Apply(document, a[0]).value, a[1..], b);
      }
    }
  }

  /** The patch of an object keeps it an object. */
  lemma ObjectStaysObject(before: seq<Member<Text>>, changes: seq<Change>, after: seq<Member<Text>>)
    ensures ApplyObjectChange(before, changes) == Ok(after)
       <==> ApplyAll(Some(Object(before)), changes) == Ok(Some(Object(after)))
  {
  }

  /** An entry sets the text before its first sign to the reading of the text behind it. */
  lemma SettingIsExact(read: Reader, key: Text, text: Text)
    requires EQUALS !in key
    ensures Setting(read, key + [EQUALS] + text)
         == if read(text).Ok? then Ok(Member(key, read(text).value)) else Err(read(text).error)
    ensures Setting(read, key) == Err(MissingEquals)
  {
    var entry := key + [EQUALS] + text;
    var at := EqualsAt(entry).value;
    assert entry[|key|] == EQUALS;
    forall i | 0 <= i < |key| ensures entry[i] != EQUALS { assert entry[i] == key[i] && key[i] in key; }
    forall i | 0 <= i < at ensures entry[i] != EQUALS { assert entry[i] == entry[..at][i]; }
    assert at == |key|;
    assert entry[..|key|] == key && entry[|key| + 1..] == text;
  }
}
