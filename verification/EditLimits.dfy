/** The server's limits on edits, checked before any patch is applied, and when a compiled patch keeps within them. */
module EditLimits {
  import opened Json
  import opened ObjectEdits
  import opened Outcomes
  import opened Pointers
  import opened Texts
  import CanonicalJson
  import FallbackBatches

  const MAXIMUM_OPERATIONS := 100
  const MAXIMUM_PATH_BYTES := 2_048
  const MAXIMUM_PATH_DEPTH := 64

  predicate PathFits(path: Text) {
    FallbackBatches.ByteLength(path) <= MAXIMUM_PATH_BYTES && |Split(path)| - 1 <= MAXIMUM_PATH_DEPTH
  }

  predicate PathsFit(changes: seq<Change>) {
    forall i :: 0 <= i < |changes| ==> PathFits(changes[i].path)
  }

  /** The patches of both documents of one update count together. */
  predicate ExceedsEditLimits(properties: seq<Change>, metadata: seq<Change>) {
    |properties| + |metadata| > MAXIMUM_OPERATIONS || !PathsFit(properties) || !PathsFit(metadata)
  }

  /** One document's patch in an update that also patches the other document. */
  function Submit(before: seq<Member<Text>>, changes: seq<Change>, other: seq<Change>):
    Result<seq<Member<Text>>, Fault>
  {
    if ExceedsEditLimits(changes, other) then Err(LimitExceeded) else ApplyObjectChange(before, changes)
  }

  // Paths of single members

  /** How many code units of the name are escaped. */
  function Escapes(key: Text): nat {
    if key == [] then 0 else (if key[0] == TILDE || key[0] == SLASH then 1 else 0) + Escapes(key[1..])
  }

  /** The bytes of a name, each tilde and slash counted twice. */
  function EscapedLength(key: Text): nat {
    FallbackBatches.ByteLength(key) + Escapes(key)
  }

  predicate KeyFits(key: Text) {
    1 + EscapedLength(key) <= MAXIMUM_PATH_BYTES
  }

  lemma EscapeStep(key: Text)
    requires key != []
    ensures EscapeKey(key) == EscapeUnit(key[0]) + EscapeKey(key[1..])
    ensures EscapeKey([]) == []
  {
    assert key == [key[0]] + key[1..];
    EscapeFirstUnit(key[0], key[1..]);
  }

  lemma {:induction false} BytesOfEscape(key: Text)
    ensures FallbackBatches.ByteLength(EscapeKey(key)) == FallbackBatches.ByteLength(key) + Escapes(key)
    decreases |key|
  {
    hide EscapeKey;
    if key == [] {
      assert EscapeKey([]) == [] by { NothingEscaped(); }
    } else {
      EscapeStep(key);
      var rest := key[1..];
      var escaped := EscapeKey(rest);
      if IsHighSurrogate(key[0]) && |key| > 1 && IsLowSurrogate(key[1]) {
        EscapeStep(rest);
        assert rest[1..] == key[2..];
        BytesOfEscape(key[2..]);
        assert ([key[0]] + ([key[1]] + EscapeKey(key[2..])))[2..] == EscapeKey(key[2..]);
      } else {
        BytesOfEscape(rest);
        if rest != [] {
          EscapeStep(rest);
        } else {
          NothingEscaped();
        }
        BytesOfUnit(key[0], escaped);
      }
    }
  }

  lemma NothingEscaped()
    ensures EscapeKey([]) == []
  {
  }

  lemma BytesOfUnit(u: CodeUnit, t: Text)
    requires !(IsHighSurrogate(u) && t != [] && IsLowSurrogate(t[0]))
    ensures FallbackBatches.ByteLength(EscapeUnit(u) + t)
         == FallbackBatches.ByteLength(t)
            + (if u == TILDE || u == SLASH then 2 else if u < 0x80 then 1 else if u < 0x800 then 2 else 3)
  {
    var escaped := EscapeUnit(u) + t;
    if u == TILDE || u == SLASH {
      assert escaped[1..][1..] == t;
    } else {
      assert escaped[1..] == t;
    }
  }

  lemma MemberPathFits(key: Text)
    ensures PathFits(PointerTo(key)) <==> KeyFits(key)
  {
    BytesOfEscape(key);
    SingleKeyPointer(key);
    assert PointerTo(key)[1..] == EscapeKey(key);
    assert |Split(EscapeKey(key))| == 1;
  }

  lemma {:induction false} AddPathsFit(entries: seq<Member<Text>>)
    ensures PathsFit(AddAll(entries)) <==> forall i :: 0 <= i < |entries| ==> KeyFits(entries[i].key)
  {
    hide KeyFits, PathFits, PointerTo;
    if entries != [] {
      var changes := AddAll(entries);
      AddPathsFit(entries[1..]);
      MemberPathFits(entries[0].key);
      assert changes[1..] == AddAll(entries[1..]);
      PathsStep(changes);
      assert forall i :: 0 < i < |entries| ==> entries[i] == entries[1..][i - 1];
      assert forall i :: 0 <= i < |entries| - 1 ==> entries[1..][i] == entries[i + 1];
    }
  }

  lemma PathsStep(changes: seq<Change>)
    requires changes != []
    ensures PathsFit(changes) <==> PathFits(changes[0].path) && PathsFit(changes[1..])
  {
    hide PathFits;
    assert forall i :: 0 < i < |changes| ==> changes[i] == changes[1..][i - 1];
    assert forall i :: 0 <= i < |changes| - 1 ==> changes[1..][i] == changes[i + 1];
  }

  lemma {:induction false} RemovePathsFit(keys: seq<Text>)
    ensures |RemoveAll(keys)| == 2 * |keys|
    ensures PathsFit(RemoveAll(keys)) <==> forall i :: 0 <= i < |keys| ==> KeyFits(keys[i])
  {
    hide KeyFits, PathFits, PointerTo;
    if keys != [] {
      var changes := RemoveAll(keys);
      RemovePathsFit(keys[1..]);
      MemberPathFits(keys[0]);
      assert changes[1..][1..] == RemoveAll(keys[1..]);
      PathsStep(changes);
      PathsStep(changes[1..]);
      assert forall i :: 0 < i < |keys| ==> keys[i] == keys[1..][i - 1];
      assert forall i :: 0 <= i < |keys| - 1 ==> keys[1..][i] == keys[i + 1];
    }
  }

  lemma PathsOfBoth(a: seq<Change>, b: seq<Change>)
    ensures PathsFit(a + b) <==> PathsFit(a) && PathsFit(b)
  {
    hide PathFits;
    assert forall i :: 0 <= i < |a| ==> (a + b)[i] == a[i];
    assert forall i :: 0 <= i < |b| ==> (a + b)[|a| + i] == b[i];
  }

  // Compiled patches

  /** A rearrangement by name has the same names. */
  lemma SortedKeysFit(record: seq<Member<Text>>)
    requires DistinctKeys(record)
    ensures |SortedEntries(record)| == |record|
    ensures (forall i :: 0 <= i < |SortedEntries(record)| ==> KeyFits(SortedEntries(record)[i].key))
       <==> (forall i :: 0 <= i < |record| ==> KeyFits(record[i].key))
  {
    hide KeyFits, SortedEntries;
    SortedEntriesCount(record);
    var sorted := SortedEntries(record);
    forall i | 0 <= i < |sorted|
      ensures exists j :: 0 <= j < |record| && record[j].key == sorted[i].key
    {
      SortedEntriesHold(record, sorted[i].key);
    }
    forall j | 0 <= j < |record|
      ensures exists i :: 0 <= i < |sorted| && sorted[i].key == record[j].key
    {
      SortedEntriesHold(record, record[j].key);
    }
  }

  lemma SortedEntriesCount(record: seq<Member<Text>>)
    requires DistinctKeys(record)
    ensures |SortedEntries(record)| == |record|
  {
    CanonicalJson.SortedKeysShow(record);
  }

  /**
   * A merge is refused exactly when it has too many members, together with the patch of the other document, or a name
   * whose path is too long; otherwise it is applied.
   */
  lemma MergeIsAppliedWithinLimits(base: seq<Member<Text>>, record: seq<Member<Text>>, other: seq<Change>)
    requires DistinctKeys(base) && DistinctKeys(record)
    ensures var r := Submit(base, MergeChanges(record), other);
            && (r.Ok? <==>
                  && |record| + |other| <= 100 && PathsFit(other)
                  && forall i :: 0 <= i < |record| ==> EscapedLength(record[i].key) < 2048)
            && r == if r.Ok? then ApplyObjectChange(base, MergeChanges(record)) else Err(LimitExceeded)
  {
    hide EscapedLength, PathFits, PathsFit, ApplyObjectChange, SortedEntries;
    MergeMeansShallowMerge(base, record, []);
    SortedKeysFit(record);
    AddPathsFit(SortedEntries(record));
  }

  function Keys(ms: seq<Member<Text>>): (r: seq<Text>)
    ensures |r| == |ms|
  {
    if ms == [] then [] else [ms[0].key] + Keys(ms[1..])
  }

  /** The keys the entries set, in order. */
  function SetKeys(read: Reader, sets: seq<Text>): seq<Text>
    requires AllSettings(read, sets)
  {
    if sets == [] then []
    else SetKeys(read, sets[..|sets| - 1]) + [Setting(read, sets[|sets| - 1]).value.key]
  }

  lemma {:induction false} KeysAfterPut(ms: seq<Member<Text>>, key: Text, value: JsonValue)
    ensures Keys(Put(ms, key, value)) == if key in Keys(ms) then Keys(ms) else Keys(ms) + [key]
  {
    if ms == [] {
      assert Keys([Member(key, value)]) == [key];
    } else {
      KeysAfterPut(ms[1..], key, value);
      var put := Put(ms, key, value);
      assert put[1..] == if ms[0].key == key then ms[1..] else Put(ms[1..], key, value);
      assert Keys(put) == [put[0].key] + Keys(put[1..]);
    }
  }

  lemma {:induction false} KeysOfSettings(read: Reader, sets: seq<Text>)
    requires AllSettings(read, sets)
    ensures Keys(Settings(read, sets)) == Distinct(SetKeys(read, sets))
  {
    hide Setting;
    if sets != [] {
      var front := sets[..|sets| - 1];
      var last := Setting(read, sets[|sets| - 1]).value;
      KeysOfSettings(read, front);
      KeysAfterPut(Settings(read, front), last.key, last.value);
      assert SetKeys(read, sets)[..|SetKeys(read, sets)| - 1] == SetKeys(read, front);
    }
  }

  lemma {:induction false} KeysFit(ms: seq<Member<Text>>)
    ensures (forall k :: k in Keys(ms) ==> KeyFits(k)) <==> forall i :: 0 <= i < |ms| ==> KeyFits(ms[i].key)
  {
    hide KeyFits;
    if ms != [] {
      KeysFit(ms[1..]);
      assert forall i :: 0 < i < |ms| ==> ms[i] == ms[1..][i - 1];
      assert forall i :: 0 <= i < |ms| - 1 ==> ms[1..][i] == ms[i + 1];
    }
  }

  /**
   * Keyed edits are refused exactly when they set and unset too many keys, an unset counting twice, or name a key
   * whose path is too long; otherwise they are applied.
   */
  lemma KeyedIsAppliedWithinLimits(base: seq<Member<Text>>, read: Reader, sets: seq<Text>, unsets: seq<Text>,
                                   other: seq<Change>)
    requires DistinctKeys(base) && AllSettings(read, sets)
    ensures var (r, keys) := (Submit(base, KeyedChanges(read, sets, unsets), other), SetKeys(read, sets));
            && (r.Ok? <==>
                  && |Distinct(keys)| + 2 * |Distinct(unsets)| + |other| <= 100 && PathsFit(other)
                  && forall k :: k in keys || k in unsets ==> EscapedLength(k) < 2048)
            && r == if r.Ok? then ApplyObjectChange(base, KeyedChanges(read, sets, unsets)) else Err(LimitExceeded)
  {
    hide EscapedLength, PathFits, PathsFit, ApplyObjectChange, AllSettings, Settings, SetKeys;
    var keys := SetKeys(read, sets);
    KeyedMeansLastSetThenUnset(base, read, sets, unsets, []);
    KeysOfSettings(read, sets);
    KeysFit(Settings(read, sets));
    DistinctHolds(keys);
    DistinctHolds(unsets);
    AddPathsFit(Settings(read, sets));
    RemovePathsFit(Distinct(unsets));
    PathsOfBoth(AddAll(Settings(read, sets)), RemoveAll(Distinct(unsets)));
  }

  /** A path fits when it takes at most 2048 bytes and holds at most 64 slashes. */
  lemma PathFitsIff(path: Text)
    ensures PathFits(path) <==> FallbackBatches.ByteLength(path) <= 2048 && Slashes(path) <= 64
  {
    SplitCountsSlashes(path);
  }

  function Slashes(t: Text): nat {
    if t == [] then 0 else (if t[0] == '/' as int then 1 else 0) + Slashes(t[1..])
  }

  lemma {:induction false} SplitCountsSlashes(t: Text)
    ensures |Split(t)| == Slashes(t) + 1
  {
    if t != [] {
      SplitCountsSlashes(t[1..]);
    }
  }
}
