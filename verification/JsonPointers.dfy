/** Evaluating a JSON Pointer in a value, and what a strict replacement does to everything a pointer can name. */
module JsonPointers {
  import opened Decimals
  import opened Json
  import opened ObjectEdits
  import opened Outcomes
  import opened Pointers
  import opened Texts
  import ProjectionMeaning

  /** The value a path leads to, token by token. */
  function At(v: JsonValue, path: Path): Option<JsonValue>
    decreases |path|
  {
    if path == [] then
      Some(v)
    else
      var child := Child(v, path[0]);
      if child.None? then None else At(child.value, path[1..])
  }

  /** The pattern `~(?![01])` occurs in the text. */
  predicate HasBareTilde(t: Text) {
    exists i :: 0 <= i < |t| && t[i] == TILDE && !(i + 1 < |t| && (t[i + 1] == ZERO || t[i + 1] == ONE))
  }

  lemma {:induction false} BareTildeIsUnescaped(t: Text)
    ensures HasBareTilde(t) <==> !TildesEscaped(t)
    decreases |t|
  {
    if t != [] {
      if t[0] == TILDE && |t| > 1 && (t[1] == ZERO || t[1] == ONE) {
        BareTildeIsUnescaped(t[2..]);
      } else if t[0] != TILDE {
        BareTildeIsUnescaped(t[1..]);
      } else {
        assert t[0] == TILDE;
      }
    }
  }

  /** The evaluation loop: a malformed pointer names nothing, any other names what its tokens lead to. */
  method JsonPointer(value: JsonValue, pointer: Text) returns (r: Option<JsonValue>)
    ensures r == if IsPointer(pointer) then At(value, Tokens(pointer)) else None
  {
    hide UnescapeToken;
    if pointer == [] {
      return Some(value);
    }
    BareTildeIsUnescaped(pointer);
    if pointer[0] != SLASH || HasBareTilde(pointer) {
      return None;
    }
    var parts := Split(pointer[1..]);
    ghost var path := UnescapeAll(parts);
    var current := value;
    var k := 0;
    assert parts[0..] == parts;
    while k < |parts|
      invariant 0 <= k <= |parts|
      invariant At(value, path) == At(current, UnescapeAll(parts[k..]))
    {
      assert parts[k..][0] == parts[k] && parts[k..][1..] == parts[k + 1..];
      assert UnescapeAll(parts[k..])[1..] == UnescapeAll(parts[k + 1..]);
      var child := Child(current, UnescapeToken(parts[k]));
      if child.None? {
        return None;
      }
      current := child.value;
      k := k + 1;
    }
    return Some(current);
  }

  /** Every path can be spelled as a pointer that evaluates to what the path leads to. */
  lemma EncodedPathEvaluates(value: JsonValue, path: Path)
    ensures IsPointer(Encode(path)) && At(value, Tokens(Encode(path))) == At(value, path)
  {
    DecodeUndoesEncode(path);
  }

  /** The lookup of the projection, which refuses unsafe integers first, finds the same in every representable value. */
  lemma LookupsAgree(v: JsonValue, token: Text)
    requires Admitted(v)
    ensures ProjectionMeaning.Child(v, token) == Child(v, token)
  {
  }

  /** Two tokens that name one element of an array are the same token. */
  lemma IndexIsInjective(a: Text, b: Text)
    requires Index(a).Some? && Index(a) == Index(b)
    ensures a == b
  {
    SpellOfValue(a);
    SpellOfValue(b);
  }

  /** The paths part ways before either ends. */
  predicate Diverge(p: Path, q: Path)
    decreases |p|
  {
    p != [] && q != [] && (p[0] != q[0] || Diverge(p[1..], q[1..]))
  }

  lemma ChildAfterReplacement(v: JsonValue, token: Text, child: JsonValue, other: Text)
    requires Child(v, token).Some?
    ensures Child(WithChild(v, token, child), other) == if other == token then Some(child) else Child(v, other)
  {
    match v
    case Object(ms) =>
      LookupAfterPut(ms, token, child, other);
    case Array(items) =>
      if Index(other) == Index(token) {
        IndexIsInjective(token, other);
      }
  }

  lemma ReplaceHere(v: JsonValue, token: Text, path: Text, value: JsonValue)
    ensures var r := EditAt(v, [token], Replace(path, value));
            && (r.Ok? <==> Child(v, token).Some?)
            && (r.Ok? ==> r.value == WithChild(v, token, value))
  {
  }

  /**
   * A replacement succeeds exactly when its path leads to something; then the path leads to the new value, and every
   * path that parts ways with it leads to what it led to before.
   */
  lemma {:induction false} ReplaceIsExact(v: JsonValue, p: Path, path: Text, value: JsonValue, q: Path)
    requires p != []
    ensures var r := EditAt(v, p, Replace(path, value));
            && (r.Ok? <==> At(v, p).Some?)
            && (r.Ok? ==> At(r.value, p) == Some(value))
            && (r.Ok? && Diverge(p, q) ==> At(r.value, q) == At(v, q))
    decreases |p|
  {
    hide Child, WithChild, EditItems, EditMembers;
    var change := Replace(path, value);
    if |p| == 1 {
      assert p == [p[0]] && p[1..] == [];
      ReplaceHere(v, p[0], path, value);
      if Child(v, p[0]).Some? {
        ChildAfterReplacement(v, p[0], value, p[0]);
        if q != [] {
          assert !Diverge(p[1..], q[1..]);
          ChildAfterReplacement(v, p[0], value, q[0]);
        }
      }
    } else if Child(v, p[0]).Some? {
      var child := Child(v, p[0]).value;
      ReplaceIsExact(child, p[1..], path, value, if q == [] then [] else q[1..]);
      var edited := EditAt(child, p[1..], change);
      if edited.Ok? {
        ChildAfterReplacement(v, p[0], edited.value, p[0]);
        if q != [] {
          ChildAfterReplacement(v, p[0], edited.value, q[0]);
        }
      }
    }
  }

  // Changes of any kind, at any depth

  lemma {:induction false} AtComposes(v: JsonValue, p: Path, q: Path)
    ensures At(v, p + q) == if At(v, p).Some? then At(At(v, p).value, q) else None
    decreases |p|
  {
    if p == [] {
      assert p + q == q;
    } else {
      assert (p + q)[0] == p[0] && (p + q)[1..] == p[1..] + q;
      if Child(v, p[0]).Some? {
        AtComposes(Child(v, p[0]).value, p[1..], q);
      }
    }
  }

  /**
   * A change takes place in the container its path names up to the last token, and succeeds exactly when that
   * container exists and admits it; whatever does not lead through the container stays as it was.
   */
  lemma {:induction false} EditIsLocal(v: JsonValue, p: Path, name: Text, change: Change, q: Path)
    ensures var (r, parent) := (EditAt(v, p + [name], change), At(v, p));
            && (r.Ok? <==> parent.Some? && EditHere(parent.value, name, change).Ok?)
            && (r.Ok? ==> At(r.value, p) == Some(EditHere(parent.value, name, change).value))
            && (r.Ok? && Diverge(p, q) ==> At(r.value, q) == At(v, q))
    decreases |p|
  {
    hide Child, WithChild, EditHere;
    if p == [] {
      assert p + [name] == [name];
    } else {
      assert (p + [name])[0] == p[0] && (p + [name])[1..] == p[1..] + [name];
      if Child(v, p[0]).Some? {
        var child := Child(v, p[0]).value;
        EditIsLocal(child, p[1..], name, change, if q == [] then [] else q[1..]);
        var edited := EditAt(child, p[1..] + [name], change);
        if edited.Ok? {
          ChildAfterReplacement(v, p[0], edited.value, p[0]);
          if q != [] {
            ChildAfterReplacement(v, p[0], edited.value, q[0]);
          }
        }
      }
    }
  }

  lemma IndexOfSpelling(j: nat)
    ensures Index(Spell(j)) == Some(j)
  {
    ValueOfSpell(j);
  }

  /** Where an element is added: at the named index, or behind the last element. */
  function Position(name: Text, count: nat): Option<nat> {
    if name == [MINUS] then Some(count) else Index(name)
  }

  /** The element a spelled index leads to. */
  lemma ElementAt(items: seq<JsonValue>, j: nat)
    ensures Child(Array(items), Spell(j)) == if j < |items| then Some(items[j]) else None
  {
    IndexOfSpelling(j);
  }

  lemma InsertedElement(items: seq<JsonValue>, i: nat, value: JsonValue, j: nat)
    requires i <= |items|
    ensures Child(Array(items[..i] + [value] + items[i..]), Spell(j)) ==
              if j < i then Child(Array(items), Spell(j))
              else if j == i then Some(value)
              else Child(Array(items), Spell(j - 1))
  {
    hide Child, Spell;
    var more := items[..i] + [value] + items[i..];
    ElementAt(items, j);
    ElementAt(more, j);
    if j > i {
      ElementAt(items, j - 1);
      assert j < |more| ==> more[j] == items[j - 1];
    }
  }

  lemma AddedElement(items: seq<JsonValue>, name: Text, path: Text, value: JsonValue, j: nat)
    ensures var (r, i) := (EditItems(items, name, Add(path, value)), Position(name, |items|));
            && (r.Ok? <==> i.Some? && i.value <= |items|)
            && (r.Ok? ==>
                  Child(r.value, Spell(j)) ==
                    if j < i.value then Child(Array(items), Spell(j))
                    else if j == i.value then Some(value)
                    else Child(Array(items), Spell(j - 1)))
  {
    hide Child, Spell, Index;
    var i := Position(name, |items|);
    if i.Some? && i.value <= |items| {
      InsertedElement(items, i.value, value, j);
    }
  }

  lemma WithdrawnElement(items: seq<JsonValue>, i: nat, j: nat)
    requires i < |items|
    ensures Child(Array(items[..i] + items[i + 1..]), Spell(j)) ==
              if j < i then Child(Array(items), Spell(j)) else Child(Array(items), Spell(j + 1))
  {
    hide Child, Spell;
    ElementAt(items, j);
    ElementAt(items, j + 1);
    ElementAt(items[..i] + items[i + 1..], j);
  }

  lemma RemovedElement(items: seq<JsonValue>, name: Text, path: Text, j: nat)
    ensures var (r, i) := (EditItems(items, name, Remove(path)), Index(name));
            && (r.Ok? <==> i.Some? && i.value < |items|)
            && (r.Ok? ==>
                  Child(r.value, Spell(j)) ==
                    if j < i.value then Child(Array(items), Spell(j)) else Child(Array(items), Spell(j + 1)))
  {
    hide Child, Spell, Index;
    var i := Index(name);
    if i.Some? && i.value < |items| {
      WithdrawnElement(items, i.value, j);
    }
  }

  lemma AtChild(v: JsonValue, p: Path, token: Text, rest: Path)
    requires At(v, p).Some?
    ensures At(v, p + [token] + rest)
         == (var child := Child(At(v, p).value, token); if child.Some? then At(child.value, rest) else None)
  {
    hide Child;
    AtComposes(v, p, [token] + rest);
    assert p + [token] + rest == p + ([token] + rest);
    assert ([token] + rest)[1..] == rest;
  }

  /**
   * Adding to an array at any depth succeeds exactly when the index is within it or right behind it, `-` naming that
   * end; the element is then there, and whatever stood at or behind the index is found one further.
   */
  lemma AddShifts(v: JsonValue, p: Path, name: Text, path: Text, value: JsonValue, j: nat, rest: Path)
    requires At(v, p).Some? && At(v, p).value.Array?
    ensures var r := EditAt(v, p + [name], Add(path, value));
            var (count, i) := (|At(v, p).value.items|, Position(name, |At(v, p).value.items|));
            && (r.Ok? <==> i.Some? && i.value <= count)
            && (r.Ok? ==>
                  At(r.value, p + [Spell(j)] + rest) ==
                    if j < i.value then At(v, p + [Spell(j)] + rest)
                    else if j == i.value then At(value, rest)
                    else At(v, p + [Spell(j - 1)] + rest))
  {
    hide EditItems, Child, Position;
    EditIsLocal(v, p, name, Add(path, value), []);
    AddedElement(At(v, p).value.items, name, path, value, j);
    AtChild(v, p, Spell(j), rest);
    if j > 0 {
      AtChild(v, p, Spell(j - 1), rest);
    }
    var r := EditAt(v, p + [name], Add(path, value));
    if r.Ok? {
      AtChild(r.value, p, Spell(j), rest);
    }
  }

  /** Removing from an array succeeds exactly when the element is there; whatever stood behind it moves up by one. */
  lemma RemoveShifts(v: JsonValue, p: Path, name: Text, path: Text, j: nat, rest: Path)
    requires At(v, p).Some? && At(v, p).value.Array?
    ensures var (r, i) := (EditAt(v, p + [name], Remove(path)), Index(name));
            && (r.Ok? <==> i.Some? && i.value < |At(v, p).value.items|)
            && (r.Ok? ==>
                  At(r.value, p + [Spell(j)] + rest) ==
                    if j < i.value then At(v, p + [Spell(j)] + rest) else At(v, p + [Spell(j + 1)] + rest))
  {
    hide EditItems, Child, Index;
    EditIsLocal(v, p, name, Remove(path), []);
    RemovedElement(At(v, p).value.items, name, path, j);
    AtChild(v, p, Spell(j), rest);
    AtChild(v, p, Spell(j + 1), rest);
    var r := EditAt(v, p + [name], Remove(path));
    if r.Ok? {
      AtChild(r.value, p, Spell(j), rest);
    }
  }

  /** Adding to an object always succeeds, removing only what is there; other members lead where they led. */
  lemma MemberEdits(v: JsonValue, p: Path, name: Text, change: Change, token: Text, rest: Path)
    requires At(v, p).Some? && At(v, p).value.Object? && DistinctKeys(At(v, p).value.members)
    requires !change.Replace?
    ensures var r := EditAt(v, p + [name], change);
            && (r.Ok? <==> change.Add? || At(v, p + [name]).Some?)
            && (r.Ok? ==>
                  At(r.value, p + [token] + rest) ==
                    if token != name then At(v, p + [token] + rest)
                    else if change.Add? then At(change.value, rest) else None)
  {
    EditIsLocal(v, p, name, change, []);
    AtChild(v, p, token, rest);
    AtChild(v, p, name, []);
    assert p + [name] + [] == p + [name];
    var ms := At(v, p).value.members;
    if change.Add? {
      LookupAfterPut(ms, name, change.value, token);
    } else {
      LookupAfterDelete(ms, name, token);
    }
    var r := EditAt(v, p + [name], change);
    if r.Ok? {
      AtChild(r.value, p, token, rest);
    }
  }
}
