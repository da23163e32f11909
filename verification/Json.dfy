/** JSON values; object members are listed in the order the object enumerates them. */
module Json {
  import opened Outcomes
  import opened Texts

  datatype Value<+N> =
    | Null
    | Bool(b: bool)
    | Number(n: N)
    | String(t: Text)
    | Array(items: seq<Value<N>>)
    | Object(members: seq<Member<N>>)

  datatype Member<+N> = Member(key: Text, value: Value<N>)

  /** A value whose numbers are known only by their spelling. */
  type JsonValue = Value<Text>

  /** The greatest length of an array. */
  const MAXIMUM_ARRAY_LENGTH := 0xFFFF_FFFF

  predicate DistinctKeys<N>(members: seq<Member<N>>) {
    forall i, j :: 0 <= i < j < |members| ==> members[i].key != members[j].key
  }

  /** What every JSON value of the host language satisfies: unique member names and representable lengths. */
  predicate Admitted<N>(v: Value<N>) {
    match v
    case Array(items) =>
      |items| <= MAXIMUM_ARRAY_LENGTH && forall i :: 0 <= i < |items| ==> Admitted(items[i])
    case Object(members) =>
      DistinctKeys(members) && forall i :: 0 <= i < |members| ==> Admitted(members[i].value)
    case _ =>
      true
  }

  predicate IsContainer<N>(v: Value<N>) {
    v.Array? || v.Object?
  }

  function Lookup<N>(members: seq<Member<N>>, key: Text): (r: Option<Value<N>>)
    ensures r.Some? ==> exists i :: 0 <= i < |members| && members[i] == Member(key, r.value)
    ensures r.None? ==> forall i :: 0 <= i < |members| ==> members[i].key != key
  {
    if members == [] then None
    else if members[0].key == key then Some(members[0].value)
    else
      var r := Lookup(members[1..], key);
      assert forall i :: 0 < i < |members| ==> members[i] == members[1..][i - 1];
      assert r.Some? ==> exists i :: 0 < i < |members| && members[i] == Member(key, r.value) by {
        if r.Some? {
          var i :| 0 <= i < |members[1..]| && members[1..][i] == Member(key, r.value);
          assert members[i + 1] == Member(key, r.value);
        }
      }
      r
  }

  lemma LookupAt<N>(members: seq<Member<N>>, i: nat)
    requires i < |members| && DistinctKeys(members)
    ensures Lookup(members, members[i].key) == Some(members[i].value)
  {
  }
}
