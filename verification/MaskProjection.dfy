/** Local rendering of a properties view under include and omit masks. */
module MaskProjection {
  import opened Json
  import opened MaskTries
  import opened Outcomes
  import opened Pointers
  import opened ProjectionMeaning
  import opened ProjectionWork
  import opened Texts

  datatype MaskError = BadPointer | RootOmission | NotAnObject

  function DecodeAll(masks: seq<Text>): (r: Option<seq<Path>>)
  {
    if masks == [] then
      Some([])
    else
      match DecodeMask(masks[0])
      case None => None
      case Some(path) =>
        match DecodeAll(masks[1..])
        case None => None
        case Some(rest) => Some([path] + rest)
  }

  datatype DecodedMasks = DecodedMasks(includes: Option<seq<Path>>, omits: seq<Path>)

  function DecodedOmits(includes: Option<seq<Path>>, omits: seq<Text>): Result<DecodedMasks, MaskError> {
    match DecodeAll(omits)
    case None => Err(BadPointer)
    case Some(paths) => if [] in paths then Err(RootOmission) else Ok(DecodedMasks(includes, paths))
  }

  /** Every include and omit must be a pointer, and the root cannot be omitted. */
  function Decoded(includes: Option<seq<Text>>, omits: seq<Text>): Result<DecodedMasks, MaskError> {
    match includes
    case None => DecodedOmits(None, omits)
    case Some(texts) =>
      match DecodeAll(texts)
      case None => Err(BadPointer)
      case Some(paths) => DecodedOmits(Some(paths), omits)
  }

  /** Includes missing from the value select nothing; no include list at all selects the whole value. */
  function Selection(value: JsonValue, d: DecodedMasks): Masks {
    Masks(
      match d.includes
      case None => {[]}
      case Some(paths) => (set p | p in paths && At(value, p).Some?),
      Elements(d.omits))
  }

  method Exists(value: JsonValue, path: Path) returns (found: bool)
    ensures found == At(value, path).Some?
  {
    var current := value;
    for i := 0 to |path|
      invariant At(value, path) == At(current, path[i..])
    {
      match Child(current, path[i]) {
        case None =>
          return false;
        case Some(c) =>
          assert path[i..][1..] == path[i + 1..];
          current := c;
      }
    }
    return true;
  }

  /** A frozen container graph that spells out `v`. */
  ghost predicate Realises(s: Slot, v: JsonValue, heap: set<Container>)
    reads heap
    decreases v
  {
    match s
    case Leaf(x) => !IsContainer(x) && x == v
    case Held(c) =>
      && c in heap && c.frozen
      && match v
         case Array(items) =>
           && c.isArray && |c.parts| == |items|
           && forall i :: 0 <= i < |items| ==> Realises(c.parts[i].slot, items[i], heap)
         case Object(members) =>
           && !c.isArray && |c.parts| == |members|
           && forall i :: 0 <= i < |members| ==>
                c.parts[i].key == members[i].key && Realises(c.parts[i].slot, members[i].value, heap)
         case _ => false
  }

  /** No container stands in two places, and the root stands in none. */
  ghost predicate IsTree(root: Slot, heap: set<Container>)
    reads heap
  {
    && (forall c, d, i, j ::
          && c in heap && d in heap && 0 <= i < |c.parts| && 0 <= j < |d.parts|
          && c.parts[i].slot.Held? && c.parts[i].slot == d.parts[j].slot
          ==> c == d && i == j)
    && (root.Held? ==> forall c, i :: c in heap && 0 <= i < |c.parts| ==> c.parts[i].slot != root)
  }

  /** The same of the containers as the ghost state has them. */
  ghost predicate Unshared(parts: map<Container, seq<Part>>, result: Option<Slot>) {
    && (forall c, d, i, j ::
          && c in parts && d in parts && 0 <= i < |parts[c]| && 0 <= j < |parts[d]|
          && parts[c][i].slot.Held? && parts[c][i].slot == parts[d][j].slot
          ==> c == d && i == j)
    && (result.Some? && result.value.Held? ==>
          forall c, i :: c in parts && 0 <= i < |parts[c]| ==> parts[c][i].slot != result.value)
  }

  lemma ReceivedLeafIsUnshared(parts: map<Container, seq<Part>>, result: Option<Slot>, t: Target, v: JsonValue)
    requires Unshared(parts, result) && (!t.ToResult? ==> t.container in parts)
    ensures Unshared(Received(parts, t, Leaf(v)), if t.ToResult? then Some(Leaf(v)) else result)
  {
  }

  lemma ReceivedNewIsUnshared(parts: map<Container, seq<Part>>, result: Option<Slot>, t: Target, d: Container)
    requires Unshared(parts, result) && (!t.ToResult? ==> t.container in parts)
    requires d !in parts && result != Some(Held(d))
    requires forall c, i :: c in parts && 0 <= i < |parts[c]| ==> parts[c][i].slot != Held(d)
    ensures Unshared(Received(parts[d := []], t, Held(d)), if t.ToResult? then Some(Held(d)) else result)
  {
  }

  /** Only containers the state knows are held anywhere. */
  lemma HeldAreKnown(w: Work, goal: JsonValue, d: Container)
    requires Sound(w, goal, {}) && d !in w.meaning
    ensures d !in w.parts && w.result != Some(Held(d))
    ensures forall c, i :: c in w.parts && 0 <= i < |w.parts[c]| ==> w.parts[c][i].slot != Held(d)
  {
    hide Scheduled, Admitted;
    forall c, i | c in w.parts && 0 <= i < |w.parts[c]|
      ensures w.parts[c][i].slot != Held(d)
    {
      assert Filling(w, c);
    }
  }

  lemma DoneIsTree(w: Work, root: Slot)
    requires Mirrors(w) && w.parts.Keys == w.meaning.Keys && Unshared(w.parts, Some(root))
    ensures IsTree(root, w.meaning.Keys)
  {
  }

  /** The containers are as the ghost state says. */
  ghost predicate Mirrors(w: Work)
    reads w.meaning.Keys
  {
    forall c :: c in w.meaning ==> c in w.parts && c.parts == w.parts[c] && (c.frozen <==> c in w.frozen)
  }

  lemma DoneContainer(w: Work, goal: JsonValue, c: Container)
    requires Sound(w, goal, {}) && w.pending == [] && Mirrors(w) && c in w.meaning
    ensures c.frozen && IsContainer(w.meaning[c]) && c.isArray == w.meaning[c].Array?
    ensures var whole := PartsOf(w.meaning[c]);
            && |c.parts| == |whole|
            && forall i :: 0 <= i < |whole| ==>
                 c.parts[i].key == whole[i].key && Denotes(w.meaning, c.parts[i].slot, whole[i].value)
  {
    hide Promised, Admitted, Denotes;
    assert Filling(w, c);
    assert |PartsOf(w.meaning[c])[|c.parts|..]| == 0;
  }

  /** Once nothing is pending, the containers spell out what they stand for. */
  lemma {:induction false} DoneRealises(w: Work, goal: JsonValue, s: Slot, v: JsonValue)
    requires Sound(w, goal, {}) && w.pending == []
    requires Mirrors(w)
    requires Denotes(w.meaning, s, v)
    ensures Realises(s, v, w.meaning.Keys)
    decreases v
  {
    if s.Held? {
      var c := s.container;
      DoneContainer(w, goal, c);
      hide Sound, Mirrors;
      var whole := PartsOf(v);
      forall i | 0 <= i < |whole|
        ensures Realises(c.parts[i].slot, whole[i].value, w.meaning.Keys)
      {
        DoneRealises(w, goal, c.parts[i].slot, whole[i].value);
      }
    }
  }

  // Every step leaves less to do: a container is worth more than its freeze and all its entries together.

  function Weight(v: JsonValue): nat
    decreases v, 1, 0
  {
    2 + WeightFrom(v, 0)
  }

  function WeightFrom(v: JsonValue, i: nat): nat
    requires i <= |Entries(v)|
    decreases v, 0, |Entries(v)| - i
  {
    if i == |Entries(v)| then 0 else Weight(Entries(v)[i].value) + WeightFrom(v, i + 1)
  }

  function PendingWeight(pending: seq<Task>): nat {
    if pending == [] then
      0
    else
      var n := |pending| - 1;
      (if pending[n].Freeze? then 1 else Weight(pending[n].original)) + PendingWeight(pending[..n])
  }

  lemma PendingWeightAfterPush(pending: seq<Task>, t: Task)
    ensures PendingWeight(pending + [t])
            == (if t.Freeze? then 1 else Weight(t.original)) + PendingWeight(pending)
  {
    assert (pending + [t])[..|pending|] == pending;
  }

  lemma PoppedWeighsLess(pending: seq<Task>)
    requires pending != []
    ensures PendingWeight(pending[..|pending| - 1]) < PendingWeight(pending)
  {
  }

  // The trie node of a path leads to the trie node of the path one key further.

  ghost function NodeAt(at: map<Path, MaskNode>, p: Path): MaskNode? {
    if p in at then at[p] else null
  }

  function ChildNode(node: MaskNode?, key: Text): MaskNode?
    reads node
  {
    if node != null && key in node.children then node.children[key] else null
  }

  lemma NextNode(trie: MaskTrie, p: Path, key: Text)
    requires trie.Valid()
    ensures ChildNode(NodeAt(trie.at, p), key) == NodeAt(trie.at, Below(p, key))
    ensures var next := NodeAt(trie.at, Below(p, key)); next != null ==> (next.whole <==> Below(p, key) in trie.masks)
  {
    if p in trie.at {
      assert ChildrenAt(trie.at, p, trie.at[p].children);
    }
  }

  /** A path is related to a mask exactly when it lies at or below a whole node, or on a node. */
  lemma RelatedStep(paths: set<Path>, masks: set<Path>, p: Path, key: Text)
    requires Reached(paths, masks)
    ensures var q := Below(p, key);
            && (Omitted(masks, q) <==> Omitted(masks, p) || (q in paths && q in masks))
            && (Related(masks, q) <==> Omitted(masks, q) || q in paths)
  {
    var q := Below(p, key);
    forall m | m in masks
      ensures m <= q <==> m <= p || m == q
    {
      assert m < q ==> m <= p by { PassesBelow(m, p, key); }
      PassesBelow(m, p, key);
    }
    assert q in masks ==> Leads(masks, q);
    assert Passed(masks, q) <==> Omitted(masks, p) by {
      forall m | m in masks ensures m < q <==> m <= p { PassesBelow(m, p, key); }
    }
    assert Leads(masks, q) ==> Related(masks, q);
    assert Omitted(masks, q) ==> Related(masks, q);
  }

  /** The two tries hold the two sets of masks. */
  ghost predicate Tries(masks: Masks, include_: MaskTrie, omit: MaskTrie)
    reads include_, include_.nodes, omit, omit.nodes
  {
    include_.Valid() && omit.Valid() && masks == Masks(include_.masks, omit.masks)
  }

  /** Whether the loop keeps the entry under `key`, decided on trie nodes, is the rule on paths. */
  lemma SelectionByNodes(masks: Masks, include_: MaskTrie, omit: MaskTrie, p: Path, key: Text)
    requires Tries(masks, include_, omit)
    requires !Omitted(masks.omits, p)
    ensures var selected := ChildNode(NodeAt(include_.at, p), key);
            var excluded := ChildNode(NodeAt(omit.at, p), key);
            var whole := Omitted(masks.includes, p) || (selected != null && selected.whole);
            && selected == NodeAt(include_.at, Below(p, key)) && excluded == NodeAt(omit.at, Below(p, key))
            && (whole <==> Omitted(masks.includes, Below(p, key)))
            && ((whole || selected != null) && !(excluded != null && excluded.whole) <==> Kept(masks, Below(p, key)))
  {
    NextNode(include_, p, key);
    NextNode(omit, p, key);
    RelatedStep(include_.at.Keys, include_.masks, p, key);
    RelatedStep(omit.at.Keys, omit.masks, p, key);
  }

  datatype Nodes = Nodes(includes: map<Path, MaskNode>, omits: map<Path, MaskNode>)

  ghost predicate AllPosed(masks: Masks, nodes: Nodes, w: Work)
    requires |w.due| == |w.pending| == |w.at|
  {
    forall i :: 0 <= i < |w.pending| && w.pending[i].Frame? ==>
      Posed(masks, nodes.includes, nodes.omits, w.pending[i], w.due[i], w.at[i])
  }

  lemma SelectedUnfolds(masks: Masks, v: JsonValue, p: Path, i: nat)
    requires i < |Entries(v)|
    ensures var e := Entries(v)[i];
            Keyed(v.Array?, Selected(masks, v, p, i))
            == (if Kept(masks, p + [e.key])
                then [Member(if v.Array? then [] else e.key, Projected(masks, e.value, p + [e.key]))] else [])
               + Keyed(v.Array?, Selected(masks, v, p, i + 1))
  {
  }

  /** Frames for the selected entries of `source` from `index` on have been pushed to fill `d`. */
  ghost predicate Opening(masks: Masks, nodes: Nodes, w: Work, goal: JsonValue,
                          d: Container, source: JsonValue, p: Path, index: nat)
    requires index <= |Entries(source)|
  {
    && Sound(w, goal, {d}) && AllPosed(masks, nodes, w)
    && d in w.meaning && d !in w.frozen && Freeze(d) in w.pending
    && Remaining(w.pending, w.due, d) == Keyed(source.Array?, Selected(masks, source, p, index))
  }

  lemma PushSelectedEntry(masks: Masks, nodes: Nodes, w: Work, goal: JsonValue,
                          d: Container, source: JsonValue, p: Path, index: nat, frame: Task)
    requires index < |Entries(source)|
    requires Opening(masks, nodes, w, goal, d, source, p, index + 1)
    requires var e := Entries(source)[index];
             && Kept(masks, Below(p, e.key))
             && frame.Frame?
             && frame.target == (if source.Array? then Push(d) else Define(d, e.key))
             && d.isArray == source.Array?
             && frame.original == e.value
             && Posed(masks, nodes.includes, nodes.omits, frame,
                      Projected(masks, e.value, Below(p, e.key)), Below(p, e.key))
    ensures var q := Below(p, Entries(source)[index].key);
            Opening(masks, nodes, Pushed(w, frame, Projected(masks, frame.original, q), q), goal, d, source, p, index)
  {
    hide Scheduled, Filled, Promised, Admitted, Posed;
    var q := Below(p, Entries(source)[index].key);
    var v := Projected(masks, frame.original, q);
    PushKeepsSound(w, goal, d, frame, v, q);
    SelectedUnfolds(masks, source, p, index);
    assert Freeze(d) in Pushed(w, frame, v, q).pending;
  }

  lemma SkipEntry(masks: Masks, nodes: Nodes, w: Work, goal: JsonValue,
                  d: Container, source: JsonValue, p: Path, index: nat)
    requires index < |Entries(source)|
    requires Opening(masks, nodes, w, goal, d, source, p, index + 1)
    requires !Kept(masks, Below(p, Entries(source)[index].key))
    ensures Opening(masks, nodes, w, goal, d, source, p, index)
  {
    hide Sound, AllPosed;
    SelectedUnfolds(masks, source, p, index);
  }

  /** Pushes, from last to first, a frame for each selected entry of the container just opened. */
  method PushSelected(task: Task, d: Container, include_: MaskTrie, omit: MaskTrie, pending: seq<Task>,
                      ghost masks: Masks, ghost nodes: Nodes, ghost p: Path, ghost w: Work, ghost goal: JsonValue)
    returns (pending': seq<Task>, ghost w': Work)
    requires Tries(masks, include_, omit) && nodes == Nodes(include_.at, omit.at)
    requires task.Frame? && IsContainer(task.original) && d.isArray == task.original.Array?
    requires Posed(masks, nodes.includes, nodes.omits, task, Projected(masks, task.original, p), p)
    requires w.pending == pending
    requires Opening(masks, nodes, w, goal, d, task.original, p, |Entries(task.original)|)
    ensures w'.pending == pending' && w' == w.(pending := w'.pending, due := w'.due, at := w'.at)
    ensures Opening(masks, nodes, w', goal, d, task.original, p, 0)
    ensures PendingWeight(pending') <= PendingWeight(pending) + WeightFrom(task.original, 0)
  {
    hide Opening, Admitted, Omitted, Related, Tries, Projected, Selected;
    pending', w' := pending, w;
    var source := task.original;
    var entries := Entries(source);
    var index := |entries|;
    while index > 0
      invariant 0 <= index <= |entries|
      invariant w'.pending == pending' && w' == w.(pending := w'.pending, due := w'.due, at := w'.at)
      invariant Opening(masks, nodes, w', goal, d, source, p, index)
      invariant PendingWeight(pending') <= PendingWeight(pending) + WeightFrom(source, index)
    {
      index := index - 1;
      var key := entries[index].key;
      var selected := ChildNode(task.include_, key);
      var whole := task.whole || (selected != null && selected.whole);
      var excluded := ChildNode(task.omit, key);
      SelectionByNodes(masks, include_, omit, p, key);
      ChildOfEntry(source, index);
      if (!whole && selected == null) || (excluded != null && excluded.whole) {
        SkipEntry(masks, nodes, w', goal, d, source, p, index);
        continue;
      }
      match Child(source, key) {
        case None =>
          assert false;
        case Some(entry) =>
          var frame := Frame(entry, selected, excluded, whole, if d.isArray then Push(d) else Define(d, key));
          PushSelectedEntry(masks, nodes, w', goal, d, source, p, index, frame);
          PendingWeightAfterPush(pending', frame);
          pending' := pending' + [frame];
          w' := Pushed(w', frame, Projected(masks, entry, Below(p, key)), Below(p, key));
      }
    }
  }

  method Put(target: Target, slot: Slot, result: Option<Slot>) returns (result': Option<Slot>)
    requires !target.ToResult? ==> !target.container.frozen
    requires target.Define? ==>
               forall i :: 0 <= i < |target.container.parts| ==> target.container.parts[i].key != target.key
    requires target.Push? ==> target.container.isArray
    modifies if target.ToResult? then {} else {target.container}
    ensures result' == if target.ToResult? then Some(slot) else result
    ensures !target.ToResult? ==>
      && target.container.parts == old(target.container.parts) + [Part(TargetKey(target), slot)]
      && !target.container.frozen
  {
    match target
    case ToResult =>
      result' := Some(slot);
    case Push(c) =>
      c.Add(Part([], slot));
      result' := result;
    case Define(c, key) =>
      c.Add(Part(key, slot));
      result' := result;
  }

  /** The state before the loop: one frame for the whole value. */
  ghost function Start(root: Task, goal: JsonValue): Work {
    Work([root], [goal], [[]], map[], map[], {}, None)
  }

  /** Everything pushed for the opened container: the loop invariant holds again. */
  lemma OpeningDone(masks: Masks, nodes: Nodes, w: Work, goal: JsonValue,
                    d: Container, source: JsonValue, p: Path)
    requires Opening(masks, nodes, w, goal, d, source, p, 0)
    requires Admitted(source) && IsContainer(source)
    requires w.parts[d] == [] && d.isArray == source.Array?
    requires w.meaning[d] == Projected(masks, source, p)
    ensures Sound(w, goal, {}) && AllPosed(masks, nodes, w)
  {
    PartsOfProjected(masks, source, p);
    ProjectedIsAdmitted(masks, source, p);
    CloseKeepsSound(w, goal, d);
  }

  /** Delivering an opened container and pushing its freeze. */
  ghost function Entered(w: Work, d: Container): Work
    requires Columns(w) && w.pending != [] && Top(w).Frame?
    requires !Top(w).target.ToResult? ==> Top(w).target.container in w.parts
  {
    Pushed(Delivered(w, Held(d)), Freeze(d), Null, [])
  }

  lemma EnterKeepsSound(w: Work, goal: JsonValue, d: Container)
    requires Sound(w, goal, {d})
    requires w.pending != [] && Top(w).Frame?
    requires d in w.meaning && d !in w.frozen && w.meaning[d] == w.due[|w.due| - 1] && w.parts[d] == []
    requires forall i :: 0 <= i < |w.pending| ==> !Mentions(w.pending[i], d)
    ensures !Top(w).target.ToResult? ==> Mentions(Top(w), Top(w).target.container) && Top(w).target.container in w.parts
    ensures var w' := Entered(w, d);
            Sound(w', goal, {d}) && Remaining(w'.pending, w'.due, d) == [] && Freeze(d) in w'.pending
  {
    hide Scheduled, Filled, Promised;
    DeliverKeepsSound(w, goal, {d}, Held(d));
    var w' := Delivered(w, Held(d));
    UnmentionedHasNothingRemaining(w'.pending, w'.due, d);
    PushKeepsSound(w', goal, d, Freeze(d), Null, []);
    assert Freeze(d) in Entered(w, d).pending;
  }

  lemma PosedAfterEnter(masks: Masks, nodes: Nodes, w: Work, w': Work, d: Container)
    requires Columns(w) && w.pending != [] && AllPosed(masks, nodes, w)
    requires w' == Pushed(w'.(pending := Pop(w).pending, due := Pop(w).due, at := Pop(w).at), Freeze(d), Null, [])
    ensures Columns(w') ==> AllPosed(masks, nodes, w')
  {
    hide Posed;
  }

  lemma NewIsUnmentioned(w: Work, d: Container)
    requires Scheduled(w, {}) && d !in w.meaning
    ensures forall i :: 0 <= i < |w.pending| ==> !Mentions(w.pending[i], d)
  {
    forall i | 0 <= i < |w.pending|
      ensures !Mentions(w.pending[i], d)
    {
      assert Subject(w.pending[i]).Some? ==> Subject(w.pending[i]).value in w.meaning;
    }
  }

  lemma NothingSelectedAtEnd(masks: Masks, v: JsonValue, p: Path)
    ensures Keyed(v.Array?, Selected(masks, v, p, |Entries(v)|)) == []
  {
  }

  function Received(parts: map<Container, seq<Part>>, t: Target, s: Slot): map<Container, seq<Part>>
    requires !t.ToResult? ==> t.container in parts
  {
    if t.ToResult? then parts else parts[t.container := parts[t.container] + [Part(TargetKey(t), s)]]
  }

  /** A container not seen before can be opened for the frame on top. */
  lemma EnterOpened(masks: Masks, nodes: Nodes, w: Work, goal: JsonValue, d: Container)
    returns (w': Work)
    requires Sound(w, goal, {}) && AllPosed(masks, nodes, w)
    requires w.pending != [] && Top(w).Frame? && IsContainer(Top(w).original) && d !in w.meaning
    ensures var n, t := |w.pending| - 1, Top(w).target;
            && (!t.ToResult? ==> Mentions(Top(w), t.container) && t.container in w.parts)
            && w'.pending == w.pending[..n] + [Freeze(d)]
            && w'.meaning == w.meaning[d := w.due[n]]
            && w'.parts == Received(w.parts[d := []], t, Held(d))
            && w'.frozen == w.frozen
            && w'.result == (if t.ToResult? then Some(Held(d)) else w.result)
            && Opening(masks, nodes, w', goal, d, Top(w).original, w.at[n], |Entries(Top(w).original)|)
  {
    hide Scheduled, Filled, Promised, AllPosed, Selected, Keyed, Entries, Mentions;
    var w1 := Opened(w, d, w.due[|w.due| - 1]);
    NewIsUnmentioned(w, d);
    OpenKeepsSound(w, goal, d, w.due[|w.due| - 1]);
    EnterKeepsSound(w1, goal, d);
    w' := Entered(w1, d);
    PosedAfterEnter(masks, nodes, w, w', d);
    NothingSelectedAtEnd(masks, Top(w).original, w.at[|w.at| - 1]);
  }

  /** The loop invariant, with the containers on the heap. */
  ghost predicate Running(masks: Masks, include_: MaskTrie, omit: MaskTrie,
                          pending: seq<Task>, answer: Option<Slot>, w: Work, goal: JsonValue)
    reads include_, include_.nodes, omit, omit.nodes, w.meaning.Keys
  {
    && Tries(masks, include_, omit)
    && w.pending == pending && w.result == answer
    && Sound(w, goal, {}) && AllPosed(masks, Nodes(include_.at, omit.at), w)
    && Mirrors(w)
  }

  method FreezeOne(pending: seq<Task>, ghost masks: Masks, include_: MaskTrie, omit: MaskTrie,
                   ghost answer: Option<Slot>, ghost w: Work, ghost goal: JsonValue)
    returns (ghost w': Work)
    requires Running(masks, include_, omit, pending, answer, w, goal)
    requires pending != [] && pending[|pending| - 1].Freeze?
    modifies w.meaning.Keys
    ensures Running(masks, include_, omit, pending[..|pending| - 1], answer, w', goal)
    ensures w'.meaning == w.meaning && w'.parts == w.parts
  {
    hide Scheduled, Filled, Promised, Admitted, Posed, Tries;
    var c := pending[|pending| - 1].container;
    FreezeKeepsSound(w, goal);
    c.Freeze();
    w' := Frozen(w);
  }

  method DeliverLeaf(pending: seq<Task>, ghost masks: Masks, include_: MaskTrie, omit: MaskTrie,
                     answer: Option<Slot>, ghost w: Work, ghost goal: JsonValue)
    returns (answer': Option<Slot>, ghost w': Work)
    requires Running(masks, include_, omit, pending, answer, w, goal)
    requires pending != [] && pending[|pending| - 1].Frame? && !IsContainer(pending[|pending| - 1].original)
    requires Unshared(w.parts, answer)
    modifies w.meaning.Keys
    ensures Running(masks, include_, omit, pending[..|pending| - 1], answer', w', goal)
    ensures w'.meaning == w.meaning && Unshared(w'.parts, answer')
  {
    hide Scheduled, Filled, Promised, Admitted, Tries, Unshared;
    var task := pending[|pending| - 1];
    assert Posed(masks, include_.at, omit.at, task, w.due[|w.due| - 1], w.at[|w.at| - 1]);
    hide Posed;
    DeliverKeepsSound(w, goal, {}, Leaf(task.original));
    if !task.target.ToResult? {
      NextPartIsNew(w, goal, {});
    }
    ReceivedLeafIsUnshared(w.parts, answer, task.target, task.original);
    answer' := Put(task.target, Leaf(task.original), answer);
    w' := Delivered(w, Leaf(task.original));
  }

  /** Creates the container a frame stands for and puts it where it belongs, still empty. */
  method EnterContainer(pending: seq<Task>, ghost masks: Masks, include_: MaskTrie, omit: MaskTrie,
                        answer: Option<Slot>, ghost w: Work, ghost goal: JsonValue)
    returns (d: Container, answer': Option<Slot>, ghost w': Work)
    requires Running(masks, include_, omit, pending, answer, w, goal)
    requires pending != [] && pending[|pending| - 1].Frame? && IsContainer(pending[|pending| - 1].original)
    requires Unshared(w.parts, answer)
    modifies w.meaning.Keys
    ensures Unshared(w'.parts, answer')
    ensures fresh(d) && d.isArray == pending[|pending| - 1].original.Array?
    ensures w'.meaning == w.meaning[d := w.due[|pending| - 1]]
    ensures d in w'.parts && w'.parts[d] == []
    ensures w'.pending == pending[..|pending| - 1] + [Freeze(d)] && w'.result == answer'
    ensures Tries(masks, include_, omit) && Mirrors(w')
    ensures Opening(masks, Nodes(include_.at, omit.at), w', goal, d, pending[|pending| - 1].original,
                    w.at[|pending| - 1], |Entries(pending[|pending| - 1].original)|)
  {
    hide Scheduled, Filled, Promised, Opening, Tries, Posed, Entries, Unshared, AllPosed;
    var task := pending[|pending| - 1];
    d := new Container(task.original.Array?);
    HeldAreKnown(w, goal, d);
    w' := EnterOpened(masks, Nodes(include_.at, omit.at), w, goal, d);
    if !task.target.ToResult? {
      NextPartIsNew(w, goal, {});
    }
    ReceivedNewIsUnshared(w.parts, answer, task.target, d);
    answer' := Put(task.target, Held(d), answer);
  }

  method OpenContainer(pending: seq<Task>, ghost masks: Masks, include_: MaskTrie, omit: MaskTrie,
                       answer: Option<Slot>, ghost w: Work, ghost goal: JsonValue)
    returns (pending': seq<Task>, answer': Option<Slot>, ghost w': Work)
    requires Running(masks, include_, omit, pending, answer, w, goal)
    requires pending != [] && pending[|pending| - 1].Frame? && IsContainer(pending[|pending| - 1].original)
    requires Unshared(w.parts, answer)
    modifies w.meaning.Keys
    ensures Running(masks, include_, omit, pending', answer', w', goal) && Unshared(w'.parts, answer')
    ensures fresh(w'.meaning.Keys - w.meaning.Keys)
    ensures PendingWeight(pending') < PendingWeight(pending)
  {
    hide Opening, Tries, Projected, Admitted, Entries, Scheduled, Filled, Promised, Unshared;
    var task, rest := pending[|pending| - 1], pending[..|pending| - 1];
    ghost var nodes, p := Nodes(include_.at, omit.at), w.at[|pending| - 1];
    assert Posed(masks, include_.at, omit.at, task, w.due[|pending| - 1], p);
    assert Posed(masks, include_.at, omit.at, task, Projected(masks, task.original, p), p);
    assert w.due[|pending| - 1] == Projected(masks, task.original, p) && Admitted(task.original);
    hide Sound, Posed, AllPosed;
    var d, a, w2 := EnterContainer(pending, masks, include_, omit, answer, w, goal);
    answer' := a;
    pending', w' := PushSelected(task, d, include_, omit, rest + [Freeze(d)], masks, nodes, p, w2, goal);
    PendingWeightAfterPush(rest, Freeze(d));
    OpeningDone(masks, nodes, w', goal, d, task.original, p);
  }

  lemma StartRuns(masks: Masks, include_: MaskTrie, omit: MaskTrie, original: JsonValue)
    requires Tries(masks, include_, omit)
    requires Admitted(original) && [] !in omit.masks
    ensures var root := Frame(original, include_.root, omit.root, include_.root.whole, ToResult);
            var goal := Projected(masks, original, []);
            Running(masks, include_, omit, [root], None, Start(root, goal), goal) && Unshared(map[], None)
  {
    var root := Frame(original, include_.root, omit.root, include_.root.whole, ToResult);
    var goal := Projected(masks, original, []);
    var w := Start(root, goal);
    assert w.pending[0].target.ToResult?;
    assert [] in include_.at && [] in omit.at;
    assert Omitted(masks.includes, []) <==> [] in masks.includes;
    assert Posed(masks, include_.at, omit.at, root, goal, []);
  }

  lemma DoneRuns(masks: Masks, include_: MaskTrie, omit: MaskTrie, answer: Option<Slot>, w: Work, goal: JsonValue)
    requires Running(masks, include_, omit, [], answer, w, goal) && Unshared(w.parts, answer)
    ensures answer.Some? && Realises(answer.value, goal, w.meaning.Keys) && IsTree(answer.value, w.meaning.Keys)
  {
    DoneIsTree(w, answer.value);
    DoneRealises(w, goal, answer.value, goal);
  }

  /** The worklist: pops tasks until none is left. */
  method Run(original: JsonValue, include_: MaskTrie, omit: MaskTrie) returns (result: Slot, ghost heap: set<Container>)
    requires include_.Valid() && omit.Valid()
    requires Admitted(original) && IsContainer(original)
    requires [] !in omit.masks
    ensures fresh(heap)
    ensures Realises(result, Projected(Masks(include_.masks, omit.masks), original, []), heap) && IsTree(result, heap)
  {
    ghost var masks := Masks(include_.masks, omit.masks);
    ghost var goal := Projected(masks, original, []);
    var root := Frame(original, include_.root, omit.root, include_.root.whole, ToResult);
    var pending := [root];
    var answer: Option<Slot> := None;
    ghost var w := Start(root, goal);
    StartRuns(masks, include_, omit, original);
    hide Running, Projected, Realises, IsTree, Unshared, Tries, Start, PendingWeight, Admitted;
    while pending != []
      invariant Running(masks, include_, omit, pending, answer, w, goal) && Unshared(w.parts, answer)
      invariant fresh(w.meaning.Keys)
      decreases PendingWeight(pending)
    {
      var task := pending[|pending| - 1];
      PoppedWeighsLess(pending);
      if task.Freeze? {
        w := FreezeOne(pending, masks, include_, omit, answer, w, goal);
        pending := pending[..|pending| - 1];
      } else if !IsContainer(task.original) {
        answer, w := DeliverLeaf(pending, masks, include_, omit, answer, w, goal);
        pending := pending[..|pending| - 1];
      } else {
        pending, answer, w := OpenContainer(pending, masks, include_, omit, answer, w, goal);
      }
    }
    DoneRuns(masks, include_, omit, answer, w, goal);
    result := answer.value;
    heap := w.meaning.Keys;
  }

  function Elements(paths: seq<Path>): set<Path> {
    set p | p in paths
  }

  lemma SelectionSoFar(value: JsonValue, paths: seq<Path>, i: nat)
    requires i < |paths|
    ensures (set p | p in paths[..i + 1] && At(value, p).Some?)
            == (set p | p in paths[..i] && At(value, p).Some?) + (if At(value, paths[i]).Some? then {paths[i]} else {})
    ensures Elements(paths[..i + 1]) == Elements(paths[..i]) + {paths[i]}
  {
    assert paths[..i + 1] == paths[..i] + [paths[i]];
  }

  /** A trie of the includes that exist in the value; with no include list, of the root alone. */
  method IncludeTrie(value: JsonValue, includes: Option<seq<Path>>) returns (trie: MaskTrie)
    ensures trie.Valid() && fresh(trie) && fresh(trie.nodes)
    ensures trie.masks == Selection(value, DecodedMasks(includes, [])).includes
  {
    trie := new MaskTrie();
    if includes.None? {
      trie.Insert([]);
      return;
    }
    var paths := includes.value;
    for i := 0 to |paths|
      invariant trie.Valid() && fresh(trie) && fresh(trie.nodes)
      invariant trie.masks == set p | p in paths[..i] && At(value, p).Some?
    {
      SelectionSoFar(value, paths, i);
      var found := Exists(value, paths[i]);
      if found {
        trie.Insert(paths[i]);
      }
    }
    assert paths[..|paths|] == paths;
  }

  method OmitTrie(omits: seq<Path>) returns (trie: MaskTrie)
    ensures trie.Valid() && fresh(trie) && fresh(trie.nodes)
    ensures trie.masks == Elements(omits)
  {
    trie := new MaskTrie();
    for i := 0 to |omits|
      invariant trie.Valid() && fresh(trie) && fresh(trie.nodes)
      invariant trie.masks == Elements(omits[..i])
    {
      SelectionSoFar(Null, omits, i);
      trie.Insert(omits[i]);
    }
    assert omits[..|omits|] == omits;
  }

  // The masks, from their texts alone

  /** The text spells a path, and is well-formed Unicode. */
  ghost predicate IsMaskText(t: Text) {
    IsUnicodeScalarText(t) && exists p :: Encode(p) == t
  }

  ghost predicate AreMaskTexts(includes: Option<seq<Text>>, omits: seq<Text>) {
    && (includes.Some? ==> forall i :: 0 <= i < |includes.value| ==> IsMaskText(includes.value[i]))
    && (forall i :: 0 <= i < |omits| ==> IsMaskText(omits[i]))
  }

  /** Includes count if they are in the value, or the whole value if there is no list; all omits count. */
  ghost predicate AreMasksOf(value: JsonValue, includes: Option<seq<Text>>, omits: seq<Text>, masks: Masks) {
    && (includes.None? ==> masks.includes == {[]})
    && (includes.Some? ==>
          forall p :: p in masks.includes <==> Encode(p) in includes.value && At(value, p).Some?)
    && (forall p :: p in masks.omits <==> Encode(p) in omits)
  }

  lemma DecodeMaskIsExact(t: Text)
    ensures DecodeMask(t).Some? <==> IsMaskText(t)
    ensures DecodeMask(t).Some? ==> forall p :: Encode(p) == t <==> p == DecodeMask(t).value
  {
    hide Encode, Tokens;
    forall p | Encode(p) == t
      ensures IsPointer(t) && Tokens(t) == p
    {
      DecodeUndoesEncode(p);
    }
    if IsPointer(t) {
      EncodeUndoesDecode(t);
    }
  }

  lemma {:induction false} DecodeAllIsExact(texts: seq<Text>)
    ensures DecodeAll(texts).Some? <==> forall i :: 0 <= i < |texts| ==> IsMaskText(texts[i])
    ensures DecodeAll(texts).Some? ==> forall p :: p in DecodeAll(texts).value <==> Encode(p) in texts
  {
    hide Encode, IsMaskText, DecodeMask;
    if texts != [] {
      DecodeMaskIsExact(texts[0]);
      DecodeAllIsExact(texts[1..]);
      assert texts == [texts[0]] + texts[1..];
      assert forall i :: 0 < i < |texts| ==> texts[i] == texts[1..][i - 1];
      assert forall i :: 0 <= i < |texts| - 1 ==> texts[1..][i] == texts[i + 1];
    }
  }

  lemma DecodedIsExact(value: JsonValue, includes: Option<seq<Text>>, omits: seq<Text>)
    ensures Decoded(includes, omits) == Err(BadPointer) <==> !AreMaskTexts(includes, omits)
    ensures Decoded(includes, omits) == Err(RootOmission) <==> AreMaskTexts(includes, omits) && [] in omits
    ensures Decoded(includes, omits).Err? ==> Decoded(includes, omits).error in {BadPointer, RootOmission}
    ensures Decoded(includes, omits).Ok? ==>
              AreMasksOf(value, includes, omits, Selection(value, Decoded(includes, omits).value))
  {
    hide IsMaskText, DecodeAll;
    DecodeAllIsExact(omits);
    if includes.Some? {
      DecodeAllIsExact(includes.value);
    }
    assert Encode([]) == [];
  }

  /**
   * Refuses malformed masks, root omission and values that are not objects; otherwise returns a fresh, frozen
   * rendering of the rule on paths. The rule reads the masks as sets: their order and repetition do not matter.
   */
  method ProjectCanonicalProperties(value: JsonValue, includes: Option<seq<Text>>, omits: seq<Text>)
    returns (r: Result<Container, MaskError>, ghost masks: Masks, ghost heap: set<Container>)
    requires Admitted(value)
    ensures r == Err(BadPointer) <==> !AreMaskTexts(includes, omits)
    ensures r == Err(RootOmission) <==> AreMaskTexts(includes, omits) && [] in omits
    ensures r == Err(NotAnObject) <==> AreMaskTexts(includes, omits) && [] !in omits && !value.Object?
    ensures r.Ok? ==> AreMasksOf(value, includes, omits, masks)
    ensures r.Ok? ==> fresh(heap) && IsTree(Held(r.value), heap)
    ensures r.Ok? ==> Realises(Held(r.value), Projected(masks, value, []), heap)
  {
    hide AreMaskTexts, AreMasksOf, Decoded, Selection, IsTree, Realises, Projected;
    masks, heap := Masks({}, {}), {};
    var decoded := Decoded(includes, omits);
    DecodedIsExact(value, includes, omits);
    if decoded.Err? {
      return Err(decoded.error), masks, heap;
    }
    if !value.Object? {
      return Err(NotAnObject), masks, heap;
    }
    var include_ := IncludeTrie(value, decoded.value.includes);
    var omit := OmitTrie(decoded.value.omits);
    RootIsNotOmitted(includes, omits);
    masks := Selection(value, decoded.value);
    SelectionIsOfTries(value, decoded.value);
    var slot;
    slot, heap := Run(value, include_, omit);
    assert slot.Held? by { ObjectIsHeld(masks, value, slot, heap); }
    r := Ok(slot.container);
  }

  lemma SelectionIsOfTries(value: JsonValue, d: DecodedMasks)
    ensures Selection(value, d) == Masks(Selection(value, DecodedMasks(d.includes, [])).includes, Elements(d.omits))
  {
  }

  lemma ObjectIsHeld(masks: Masks, value: JsonValue, slot: Slot, heap: set<Container>)
    requires value.Object? && Realises(slot, Projected(masks, value, []), heap)
    ensures slot.Held?
  {
  }

  lemma RootIsNotOmitted(includes: Option<seq<Text>>, omits: seq<Text>)
    ensures Decoded(includes, omits).Ok? ==> [] !in Decoded(includes, omits).value.omits
  {
  }
}
