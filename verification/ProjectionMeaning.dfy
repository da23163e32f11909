/** What a pair of include and omit masks selects, said over paths of the original value. */
module ProjectionMeaning {
  import opened Decimals
  import opened Json
  import opened Outcomes
  import opened Pointers
  import opened Texts

  const MAXIMUM_SAFE_INTEGER := 0x1F_FFFF_FFFF_FFFF

  /** Array elements under their original positions, object members under their names. */
  function Entries(v: JsonValue): (r: seq<Member<Text>>)
    ensures forall i :: 0 <= i < |r| ==> r[i].value < v
  {
    match v
    case Array(items) => seq(|items|, i requires 0 <= i < |items| => Member(Spell(i), items[i]))
    case Object(members) => members
    case _ => []
  }

  function Child(v: JsonValue, key: Text): Option<JsonValue> {
    match v
    case Array(items) =>
      if !IsCanonical(key) then
        None
      else
        var index := Decimals.Value(key);
        if index > MAXIMUM_SAFE_INTEGER || index >= |items| then None else Some(items[index])
    case Object(members) => Lookup(members, key)
    case _ => None
  }

  function At(v: JsonValue, path: Path): Option<JsonValue> {
    if path == [] then
      Some(v)
    else
      match Child(v, path[0])
      case None => None
      case Some(c) => At(c, path[1..])
  }

  lemma ChildOfEntry(v: JsonValue, i: nat)
    requires Admitted(v) && i < |Entries(v)|
    ensures Child(v, Entries(v)[i].key) == Some(Entries(v)[i].value)
    ensures Admitted(Entries(v)[i].value)
  {
    if v.Array? {
      ValueOfSpell(i);
    } else {
      LookupAt(v.members, i);
    }
  }

  lemma EntryOfChild(v: JsonValue, key: Text) returns (i: nat)
    requires Child(v, key).Some?
    ensures i < |Entries(v)| && Entries(v)[i] == Member(key, Child(v, key).value)
  {
    if v.Array? {
      i := Decimals.Value(key);
      SpellOfValue(key);
    } else {
      i :| 0 <= i < |v.members| && v.members[i] == Member(key, Child(v, key).value);
    }
  }

  lemma EntryKeysDistinct(v: JsonValue, i: nat, j: nat)
    requires Admitted(v) && i < |Entries(v)| && j < |Entries(v)|
    requires Entries(v)[i].key == Entries(v)[j].key
    ensures i == j
  {
    if v.Array? {
      ValueOfSpell(i);
      ValueOfSpell(j);
    }
  }

  datatype Masks = Masks(includes: set<Path>, omits: set<Path>)

  ghost predicate Related(includes: set<Path>, path: Path) {
    exists m :: m in includes && (m <= path || path <= m)
  }

  ghost predicate Omitted(omits: set<Path>, path: Path) {
    exists m :: m in omits && m <= path
  }

  /** The rule: related to some include, under no omit. */
  ghost predicate Kept(masks: Masks, path: Path) {
    Related(masks.includes, path) && !Omitted(masks.omits, path)
  }

  /** The value at path `p` with every path that is not kept removed, arrays closing up in order. */
  ghost function Projected(masks: Masks, v: JsonValue, p: Path): JsonValue
    decreases v, 1, 0
  {
    match v
    case Array(items) => Array(Values(Selected(masks, v, p, 0)))
    case Object(members) => Object(Selected(masks, v, p, 0))
    case _ => v
  }

  ghost function Selected(masks: Masks, v: JsonValue, p: Path, from: nat): seq<Member<Text>>
    requires from <= |Entries(v)|
    decreases v, 0, |Entries(v)| - from
  {
    var es := Entries(v);
    if from == |es| then
      []
    else
      var path := p + [es[from].key];
      (if Kept(masks, path) then [Member(es[from].key, Projected(masks, es[from].value, path))] else [])
      + Selected(masks, v, p, from + 1)
  }

  function Values(ms: seq<Member<Text>>): (r: seq<JsonValue>)
    ensures |r| == |ms|
    ensures forall i :: 0 <= i < |r| ==> r[i] == ms[i].value
  {
    seq(|ms|, i requires 0 <= i < |ms| => ms[i].value)
  }

  /** How many kept entries precede position `i`: the position at which entry `i` lands. */
  ghost function Rank(masks: Masks, v: JsonValue, p: Path, i: nat): nat
    requires i <= |Entries(v)|
  {
    if i == 0 then 0
    else Rank(masks, v, p, i - 1) + if Kept(masks, p + [Entries(v)[i - 1].key]) then 1 else 0
  }

  lemma {:induction false} RankCountsSelected(masks: Masks, v: JsonValue, p: Path, i: nat)
    requires i <= |Entries(v)|
    ensures |Selected(masks, v, p, 0)| == Rank(masks, v, p, i) + |Selected(masks, v, p, i)|
    ensures Rank(masks, v, p, i) <= i
    ensures Selected(masks, v, p, 0)[Rank(masks, v, p, i)..] == Selected(masks, v, p, i)
  {
    if i > 0 {
      hide Kept, Projected;
      RankCountsSelected(masks, v, p, i - 1);
      var all, r := Selected(masks, v, p, 0), Rank(masks, v, p, i - 1);
      var rest := Selected(masks, v, p, i - 1);
      assert Rank(masks, v, p, i) == r + 1 ==> all[r + 1..] == all[r..][1..] == rest[1..] == Selected(masks, v, p, i);
    }
  }

  /** A kept entry lands at its rank. */
  lemma SelectedAtRank(masks: Masks, v: JsonValue, p: Path, i: nat)
    requires i < |Entries(v)|
    requires Kept(masks, p + [Entries(v)[i].key])
    ensures var e := Entries(v)[i];
            && Rank(masks, v, p, i) < |Selected(masks, v, p, 0)|
            && Selected(masks, v, p, 0)[Rank(masks, v, p, i)]
               == Member(e.key, Projected(masks, e.value, p + [e.key]))
  {
    RankCountsSelected(masks, v, p, i);
  }

  /** Every selected position is the rank of a kept entry. */
  lemma {:induction false} SelectedHasOrigin(masks: Masks, v: JsonValue, p: Path, from: nat, r: nat) returns (i: nat)
    requires from <= |Entries(v)|
    requires Rank(masks, v, p, from) <= r < |Selected(masks, v, p, 0)|
    ensures from <= i < |Entries(v)|
    ensures Kept(masks, p + [Entries(v)[i].key])
    ensures Rank(masks, v, p, i) == r
    decreases |Entries(v)| - from
  {
    RankCountsSelected(masks, v, p, from);
    i := from;
    if !(Rank(masks, v, p, from) == r && Kept(masks, p + [Entries(v)[from].key])) {
      i := SelectedHasOrigin(masks, v, p, from + 1, r);
    }
  }

  lemma {:induction false} RankIsMonotone(masks: Masks, v: JsonValue, p: Path, i: nat, j: nat)
    requires i < j <= |Entries(v)|
    ensures Rank(masks, v, p, i) <= Rank(masks, v, p, j)
    ensures Kept(masks, p + [Entries(v)[i].key]) ==> Rank(masks, v, p, i) < Rank(masks, v, p, j)
    decreases j
  {
    if i + 1 < j {
      RankIsMonotone(masks, v, p, i, j - 1);
    }
  }

  /** The members of a projected object keep their names and the order they had. */
  lemma MembersKeepOrder(masks: Masks, ms: seq<Member<Text>>, p: Path, i: nat, j: nat)
    requires i < j < |ms| && Kept(masks, p + [ms[i].key]) && Kept(masks, p + [ms[j].key])
    ensures var projected := Projected(masks, Object(ms), p);
            && projected.Object?
            && exists k, l :: 0 <= k < l < |projected.members|
                 && projected.members[k].key == ms[i].key && projected.members[l].key == ms[j].key
  {
    hide Kept;
    SelectedAtRank(masks, Object(ms), p, i);
    SelectedAtRank(masks, Object(ms), p, j);
    RankIsMonotone(masks, Object(ms), p, i, j);
  }

  lemma SelectedKeysDistinct(masks: Masks, v: JsonValue, p: Path)
    requires Admitted(v)
    ensures DistinctKeys(Selected(masks, v, p, 0))
  {
    var ms := Selected(masks, v, p, 0);
    forall a, b | 0 <= a < b < |ms|
      ensures ms[a].key != ms[b].key
    {
      var i := SelectedHasOrigin(masks, v, p, 0, a);
      var j := SelectedHasOrigin(masks, v, p, 0, b);
      SelectedAtRank(masks, v, p, i);
      SelectedAtRank(masks, v, p, j);
      if ms[a].key == ms[b].key {
        EntryKeysDistinct(v, i, j);
      }
    }
  }

  lemma {:induction false} ProjectedIsAdmitted(masks: Masks, v: JsonValue, p: Path)
    requires Admitted(v)
    ensures Admitted(Projected(masks, v, p))
    decreases v
  {
    if IsContainer(v) {
      var ms := Selected(masks, v, p, 0);
      SelectedKeysDistinct(masks, v, p);
      RankCountsSelected(masks, v, p, |Entries(v)|);
      forall a | 0 <= a < |ms|
        ensures Admitted(ms[a].value)
      {
        var i := SelectedHasOrigin(masks, v, p, 0, a);
        SelectedAtRank(masks, v, p, i);
        ChildOfEntry(v, i);
        ProjectedIsAdmitted(masks, Entries(v)[i].value, p + [Entries(v)[i].key]);
      }
    }
  }

  ghost function Position(v: JsonValue, key: Text): (i: nat)
    requires Child(v, key).Some?
    ensures i < |Entries(v)| && Entries(v)[i] == Member(key, Child(v, key).value)
  {
    assert exists i: nat :: i < |Entries(v)| && Entries(v)[i] == Member(key, Child(v, key).value) by {
      var i := EntryOfChild(v, key);
    }
    var i: nat :| i < |Entries(v)| && Entries(v)[i] == Member(key, Child(v, key).value);
    i
  }

  /**
   * Where a path of the original lands in the projection, if it survives: names are kept, and array
   * positions drop by the number of removed elements before them.
   */
  ghost function Image(masks: Masks, v: JsonValue, p: Path, path: Path): Option<Path>
    decreases |path|
  {
    if path == [] then
      Some([])
    else
      match Child(v, path[0])
      case None => None
      case Some(c) =>
        if !Kept(masks, p + [path[0]]) then
          None
        else
          match Image(masks, c, p + [path[0]], path[1..])
          case None => None
          case Some(rest) =>
            Some([if v.Array? then Spell(Rank(masks, v, p, Position(v, path[0]))) else path[0]] + rest)
  }

  /** A path of the original survives exactly when it exists there and is kept; the root always survives. */
  lemma {:induction false} SurvivesIffKept(masks: Masks, v: JsonValue, p: Path, path: Path)
    ensures Image(masks, v, p, path).Some?
            <==> At(v, path).Some? && (path == [] || Kept(masks, p + path))
    decreases |path|
  {
    if path != [] && Child(v, path[0]).Some? {
      SurvivesIffKept(masks, Child(v, path[0]).value, p + [path[0]], path[1..]);
      assert p + [path[0]] + path[1..] == p + path;
      if Kept(masks, p + path) {
      }
      if path[1..] == [] {
        assert p + path == p + [path[0]];
      }
    }
  }

  lemma ChildOfProjected(masks: Masks, v: JsonValue, p: Path, key: Text)
    requires Admitted(v) && Child(v, key).Some? && Kept(masks, p + [key])
    ensures var landed := if v.Array? then Spell(Rank(masks, v, p, Position(v, key))) else key;
            Child(Projected(masks, v, p), landed) == Some(Projected(masks, Child(v, key).value, p + [key]))
  {
    var i := Position(v, key);
    var r := Rank(masks, v, p, i);
    SelectedAtRank(masks, v, p, i);
    ProjectedIsAdmitted(masks, v, p);
    RankCountsSelected(masks, v, p, |Entries(v)|);
    ChildOfEntry(Projected(masks, v, p), r);
  }

  lemma ImageUnfolds(masks: Masks, v: JsonValue, p: Path, path: Path) returns (head: Text, rest: Path)
    requires path != [] && Image(masks, v, p, path).Some?
    ensures Child(v, path[0]).Some? && Kept(masks, p + [path[0]])
    ensures head == if v.Array? then Spell(Rank(masks, v, p, Position(v, path[0]))) else path[0]
    ensures Image(masks, Child(v, path[0]).value, p + [path[0]], path[1..]) == Some(rest)
    ensures Image(masks, v, p, path).value == [head] + rest
  {
    head := if v.Array? then Spell(Rank(masks, v, p, Position(v, path[0]))) else path[0];
    rest := Image(masks, Child(v, path[0]).value, p + [path[0]], path[1..]).value;
  }

  lemma {:induction false} ImageKeepsLength(masks: Masks, v: JsonValue, p: Path, path: Path)
    requires Image(masks, v, p, path).Some?
    ensures |Image(masks, v, p, path).value| == |path|
    decreases |path|
  {
    if path != [] {
      var head, rest := ImageUnfolds(masks, v, p, path);
      ImageKeepsLength(masks, Child(v, path[0]).value, p + [path[0]], path[1..]);
    }
  }

  lemma SameLandingSameKey(masks: Masks, v: JsonValue, p: Path, a: Text, b: Text)
    requires v.Array? && Child(v, a).Some? && Child(v, b).Some?
    requires Kept(masks, p + [a]) && Kept(masks, p + [b])
    requires Spell(Rank(masks, v, p, Position(v, a))) == Spell(Rank(masks, v, p, Position(v, b)))
    ensures a == b
  {
    var i, j := Position(v, a), Position(v, b);
    ValueOfSpell(Rank(masks, v, p, i));
    ValueOfSpell(Rank(masks, v, p, j));
    if i < j {
      RankIsMonotone(masks, v, p, i, j);
    } else if j < i {
      RankIsMonotone(masks, v, p, j, i);
    }
  }

  /** A surviving path carries the projection of what it held. */
  lemma {:induction false} SurvivorKeepsItsValue(masks: Masks, v: JsonValue, p: Path, path: Path)
    requires Admitted(v)
    requires Image(masks, v, p, path).Some?
    ensures At(v, path).Some?
    ensures At(Projected(masks, v, p), Image(masks, v, p, path).value)
            == Some(Projected(masks, At(v, path).value, p + path))
    decreases |path|
  {
    hide Projected, Selected, Kept, Admitted, Child, Rank;
    if path == [] {
      assert p + path == p;
    } else {
      var key := path[0];
      var head, rest := ImageUnfolds(masks, v, p, path);
      var c := Child(v, key).value;
      ChildOfEntry(v, Position(v, key));
      SurvivorKeepsItsValue(masks, c, p + [key], path[1..]);
      assert p + [key] + path[1..] == p + path;
      ChildOfProjected(masks, v, p, key);
      assert ([head] + rest)[1..] == rest;
    }
  }

  lemma ImageFolds(masks: Masks, v: JsonValue, p: Path, i: nat, rest: Path, image: Path)
    requires Admitted(v) && i < |Entries(v)|
    requires var e := Entries(v)[i];
             Kept(masks, p + [e.key]) && Image(masks, e.value, p + [e.key], rest) == Some(image)
    ensures var head := if v.Array? then Spell(Rank(masks, v, p, i)) else Entries(v)[i].key;
            Image(masks, v, p, [Entries(v)[i].key] + rest) == Some([head] + image)
  {
    var key := Entries(v)[i].key;
    ChildOfEntry(v, i);
    EntryKeysDistinct(v, i, Position(v, key));
    assert ([key] + rest)[1..] == rest;
  }

  /** Each child of the projection is the projection of a kept child, under its name or its rank. */
  lemma ProjectedChildHasOrigin(masks: Masks, v: JsonValue, p: Path, key: Text) returns (i: nat)
    requires Admitted(v)
    requires Child(Projected(masks, v, p), key).Some?
    ensures i < |Entries(v)| && Admitted(Entries(v)[i].value)
    ensures Kept(masks, p + [Entries(v)[i].key])
    ensures key == if v.Array? then Spell(Rank(masks, v, p, i)) else Entries(v)[i].key
    ensures Child(Projected(masks, v, p), key).value == Projected(masks, Entries(v)[i].value, p + [Entries(v)[i].key])
  {
    var r := EntryOfChild(Projected(masks, v, p), key);
    i := SelectedHasOrigin(masks, v, p, 0, r);
    SelectedAtRank(masks, v, p, i);
    ChildOfEntry(v, i);
  }

  /** The projection holds nothing else: each of its paths is where a path of the original landed. */
  lemma {:induction false} ProjectionHasOrigin(masks: Masks, v: JsonValue, p: Path, landed: Path) returns (path: Path)
    requires Admitted(v)
    requires At(Projected(masks, v, p), landed).Some?
    ensures Image(masks, v, p, path) == Some(landed)
    decreases |landed|
  {
    path := [];
    if landed != [] {
      hide Projected, Selected, Kept, Admitted, Child, Rank, Image;
      var i := ProjectedChildHasOrigin(masks, v, p, landed[0]);
      var rest := ProjectionHasOrigin(masks, Entries(v)[i].value, p + [Entries(v)[i].key], landed[1..]);
      ImageFolds(masks, v, p, i, rest, landed[1..]);
      path := [Entries(v)[i].key] + rest;
      assert landed == [landed[0]] + landed[1..];
    } else {
      NothingLandsAtRoot(masks, v, p);
    }
  }

  lemma NothingLandsAtRoot(masks: Masks, v: JsonValue, p: Path)
    ensures Image(masks, v, p, []) == Some([])
  {
  }

  /** Distinct surviving paths land on distinct paths. */
  lemma {:induction false} ImageIsInjective(masks: Masks, v: JsonValue, p: Path, a: Path, b: Path)
    requires Image(masks, v, p, a).Some? && Image(masks, v, p, a) == Image(masks, v, p, b)
    ensures a == b
    decreases |a|
  {
    ImageKeepsLength(masks, v, p, a);
    ImageKeepsLength(masks, v, p, b);
    if a != [] {
      var x, y := ImageUnfolds(masks, v, p, a);
      var x', y' := ImageUnfolds(masks, v, p, b);
      assert x == ([x] + y)[0] == ([x'] + y')[0] == x';
      assert y == ([x] + y)[1..] == ([x'] + y')[1..] == y';
      if v.Array? {
        SameLandingSameKey(masks, v, p, a[0], b[0]);
      }
      ImageIsInjective(masks, Child(v, a[0]).value, p + [a[0]], a[1..], b[1..]);
      assert a == [a[0]] + a[1..] && b == [b[0]] + b[1..];
    }
  }
}
