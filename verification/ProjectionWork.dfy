/** The pending work of a projection, and what each step of it leaves to be done. */
module ProjectionWork {
  import opened Json
  import opened MaskTries
  import opened Outcomes
  import opened Pointers
  import opened ProjectionMeaning
  import opened Texts

  /** A container of the projected value while it is being filled; array elements carry the empty key. */
  class Container {
    const isArray: bool
    var parts: seq<Part>
    var frozen: bool

    constructor (isArray: bool)
      ensures this.isArray == isArray && parts == [] && !frozen
    {
      this.isArray := isArray;
      parts, frozen := [], false;
    }

    /** Appends an element or defines a member that is not there yet; a frozen container takes neither. */
    method Add(part: Part)
      requires !frozen
      requires !isArray ==> forall i :: 0 <= i < |parts| ==> parts[i].key != part.key
      modifies this
      ensures parts == old(parts) + [part] && !frozen
    {
      parts := parts + [part];
    }

    method Freeze()
      requires !frozen
      modifies `frozen
      ensures frozen
    {
      frozen := true;
    }
  }

  datatype Slot = Leaf(value: JsonValue) | Held(container: Container)

  datatype Part = Part(key: Text, slot: Slot)

  datatype Target = ToResult | Push(container: Container) | Define(container: Container, key: Text)

  datatype Task =
    | Frame(original: JsonValue, include_: MaskNode?, omit: MaskNode?, whole: bool, target: Target)
    | Freeze(container: Container)

  /** The container a task is about. */
  function Subject(t: Task): Option<Container> {
    match t
    case Freeze(c) => Some(c)
    case Frame(_, _, _, _, Push(c)) => Some(c)
    case Frame(_, _, _, _, Define(c, _)) => Some(c)
    case Frame(_, _, _, _, ToResult) => None
  }

  predicate Mentions(t: Task, c: Container) {
    Subject(t) == Some(c)
  }

  predicate Fills(t: Task, c: Container) {
    t.Frame? && Mentions(t, c)
  }

  /** Elements go into arrays and members into objects. */
  predicate Fits(t: Target) {
    (t.Push? ==> t.container.isArray) && (t.Define? ==> !t.container.isArray)
  }

  function TargetKey(t: Target): Text {
    if t.Define? then t.key else []
  }

  /** Arrays keep their elements under the empty key. */
  function Keyed(isArray: bool, ms: seq<Member<Text>>): (r: seq<Member<Text>>)
    ensures |r| == |ms|
    ensures forall i :: 0 <= i < |r| ==> r[i] == Member(if isArray then [] else ms[i].key, ms[i].value)
  {
    seq(|ms|, i requires 0 <= i < |ms| => Member(if isArray then [] else ms[i].key, ms[i].value))
  }

  function PartsOf(v: JsonValue): seq<Member<Text>> {
    match v
    case Array(items) => seq(|items|, i requires 0 <= i < |items| => Member([], items[i]))
    case Object(members) => members
    case _ => []
  }

  lemma PartsOfProjected(masks: Masks, v: JsonValue, p: Path)
    requires IsContainer(v)
    ensures PartsOf(Projected(masks, v, p)) == Keyed(v.Array?, Selected(masks, v, p, 0))
  {
  }

  /**
   * The state of the loop. Ghost columns: `due` is the value each frame will deliver, `at` the path it
   * stands at, `meaning` the value each container will have once filled.
   */
  datatype Work = Work(
    pending: seq<Task>,
    due: seq<JsonValue>,
    at: seq<Path>,
    meaning: map<Container, JsonValue>,
    parts: map<Container, seq<Part>>,
    frozen: set<Container>,
    result: Option<Slot>)

  /** What the frames still pending will add to `c`, in the order in which they are popped. */
  ghost function Remaining(pending: seq<Task>, due: seq<JsonValue>, c: Container): seq<Member<Text>>
    requires |due| == |pending|
  {
    if pending == [] then
      []
    else
      var n := |pending| - 1;
      (if Fills(pending[n], c) then [Member(TargetKey(pending[n].target), due[n])] else [])
      + Remaining(pending[..n], due[..n], c)
  }

  lemma {:induction false} UnmentionedHasNothingRemaining(pending: seq<Task>, due: seq<JsonValue>, c: Container)
    requires |due| == |pending|
    requires forall i :: 0 <= i < |pending| ==> !Mentions(pending[i], c)
    ensures Remaining(pending, due, c) == []
  {
    if pending != [] {
      UnmentionedHasNothingRemaining(pending[..|pending| - 1], due[..|due| - 1], c);
    }
  }

  ghost predicate Denotes(meaning: map<Container, JsonValue>, s: Slot, v: JsonValue) {
    match s
    case Leaf(x) => !IsContainer(x) && x == v
    case Held(c) => c in meaning && meaning[c] == v
  }

  /** `c` holds a prefix of its parts, and the pending frames deliver the rest in order. */
  ghost predicate Filling(w: Work, c: Container)
    requires |w.due| == |w.pending|
    requires c in w.meaning && c in w.parts
  {
    var whole, have := PartsOf(w.meaning[c]), w.parts[c];
    && IsContainer(w.meaning[c])
    && c.isArray == w.meaning[c].Array?
    && |have| <= |whole|
    && (forall i :: 0 <= i < |have| ==>
          have[i].key == whole[i].key && Denotes(w.meaning, have[i].slot, whole[i].value))
    && whole[|have|..] == Remaining(w.pending, w.due, c)
  }

  /** A frame stands at a kept path and carries the trie nodes of that path. */
  ghost predicate Posed(masks: Masks, includeAt: map<Path, MaskNode>, omitAt: map<Path, MaskNode>,
                        f: Task, v: JsonValue, p: Path)
    requires f.Frame?
  {
    && Admitted(f.original)
    && f.include_ == (if p in includeAt then includeAt[p] else null)
    && f.omit == (if p in omitAt then omitAt[p] else null)
    && (f.whole <==> Omitted(masks.includes, p))
    && !Omitted(masks.omits, p)
    && v == Projected(masks, f.original, p)
  }

  ghost predicate Columns(w: Work) {
    && |w.due| == |w.pending| == |w.at|
    && w.parts.Keys == w.meaning.Keys && w.frozen <= w.meaning.Keys
  }

  /**
   * Tasks name only open containers, each open container is frozen once, below everything that fills it.
   * Containers in `skip` are being opened: their freeze and frames are still being pushed.
   */
  ghost predicate Scheduled(w: Work, skip: set<Container>) {
    && (forall i :: 0 <= i < |w.pending| && Subject(w.pending[i]).Some? ==>
          Subject(w.pending[i]).value in w.meaning && Subject(w.pending[i]).value !in w.frozen)
    && (forall i :: 0 <= i < |w.pending| && w.pending[i].Frame? ==> Fits(w.pending[i].target))
    && (forall i, j :: 0 <= i < j < |w.pending| && w.pending[j].Freeze? ==>
          !Mentions(w.pending[i], w.pending[j].container))
    && (forall c :: c in w.meaning && c !in w.frozen && c !in skip ==> Freeze(c) in w.pending)
  }

  ghost predicate Filled(w: Work, skip: set<Container>)
    requires Columns(w)
  {
    forall c :: c in w.meaning && c !in skip ==> Admitted(w.meaning[c]) && Filling(w, c)
  }

  /** The result is there already, or some pending frame will deliver it. */
  ghost predicate Promised(w: Work, goal: JsonValue)
    requires Columns(w)
  {
    && (forall i :: 0 <= i < |w.pending| && w.pending[i].Frame? && w.pending[i].target.ToResult? ==> w.due[i] == goal)
    && match w.result
       case Some(s) => Denotes(w.meaning, s, goal)
       case None => exists i :: 0 <= i < |w.pending| && w.pending[i].Frame? && w.pending[i].target.ToResult?
  }

  /** The loop invariant. */
  ghost predicate Sound(w: Work, goal: JsonValue, skip: set<Container>) {
    Columns(w) && Scheduled(w, skip) && Filled(w, skip) && Promised(w, goal)
  }

  function Pop(w: Work): Work
    requires |w.due| == |w.pending| == |w.at| > 0
  {
    var n := |w.pending| - 1;
    w.(pending := w.pending[..n], due := w.due[..n], at := w.at[..n])
  }

  ghost function Top(w: Work): Task
    requires w.pending != []
  {
    w.pending[|w.pending| - 1]
  }

  // Freezing the container on top.

  ghost function Frozen(w: Work): Work
    requires Columns(w) && w.pending != [] && Top(w).Freeze?
  {
    Pop(w).(frozen := w.frozen + {Top(w).container})
  }

  lemma FreezeKeepsScheduled(w: Work)
    requires Columns(w) && w.pending != [] && Top(w).Freeze? && Scheduled(w, {})
    ensures Columns(Frozen(w)) && Scheduled(Frozen(w), {})
    ensures Top(w).container in w.meaning && Top(w).container !in w.frozen
  {
    assert Mentions(Top(w), Top(w).container);
    forall d | d in w.meaning && d !in Frozen(w).frozen
      ensures Freeze(d) in Frozen(w).pending
    {
    }
  }

  lemma FreezeFills(w: Work, c: Container)
    requires Columns(w) && w.pending != [] && Top(w).Freeze? && Columns(Frozen(w))
    requires c in w.meaning && Filling(w, c)
    ensures Filling(Frozen(w), c)
  {
  }

  lemma FreezeIsLast(w: Work, goal: JsonValue)
    requires Sound(w, goal, {}) && w.pending != [] && Top(w).Freeze?
    ensures var c := Top(w).container; c in w.meaning && |w.parts[c]| == |PartsOf(w.meaning[c])|
  {
    hide Admitted, PartsOf;
    var c := Top(w).container;
    assert Mentions(Top(w), c);
    UnmentionedHasNothingRemaining(Pop(w).pending, Pop(w).due, c);
    assert Filling(w, c);
    assert |PartsOf(w.meaning[c])[|w.parts[c]|..]| == 0;
  }

  lemma FreezeKeepsSound(w: Work, goal: JsonValue)
    requires Sound(w, goal, {}) && w.pending != [] && Top(w).Freeze?
    ensures Sound(Frozen(w), goal, {})
    ensures Top(w).container in w.meaning && Top(w).container !in w.frozen
  {
    hide Scheduled, Filling, Admitted;
    FreezeKeepsScheduled(w);
    forall c | c in w.meaning
      ensures Filling(Frozen(w), c)
    {
      FreezeFills(w, c);
    }
  }

  // The frame on top puts `s` where it belongs.

  ghost function Delivered(w: Work, s: Slot): Work
    requires Columns(w) && w.pending != [] && Top(w).Frame?
    requires !Top(w).target.ToResult? ==> Top(w).target.container in w.parts
  {
    var t := Top(w).target;
    if t.ToResult? then
      Pop(w).(result := Some(s))
    else
      Pop(w).(parts := w.parts[t.container := w.parts[t.container] + [Part(TargetKey(t), s)]])
  }

  lemma DeliverKeepsScheduled(w: Work, skip: set<Container>, s: Slot)
    requires Columns(w) && w.pending != [] && Top(w).Frame? && Scheduled(w, skip)
    ensures !Top(w).target.ToResult? ==> Mentions(Top(w), Top(w).target.container) && Top(w).target.container in w.parts
    ensures Columns(Delivered(w, s)) && Scheduled(Delivered(w, s), skip)
  {
    assert !Top(w).target.ToResult? ==> Mentions(Top(w), Top(w).target.container);
    forall d | d in w.meaning && d !in w.frozen && d !in skip
      ensures Freeze(d) in Delivered(w, s).pending
    {
    }
  }

  lemma DeliverFills(w: Work, s: Slot, c: Container)
    requires Columns(w) && w.pending != [] && Top(w).Frame?
    requires !Top(w).target.ToResult? ==> Top(w).target.container in w.parts
    requires Denotes(w.meaning, s, w.due[|w.due| - 1])
    requires c in w.meaning && Filling(w, c)
    ensures Columns(Delivered(w, s)) && Filling(Delivered(w, s), c)
  {
    hide PartsOf, Denotes;
    var n, w' := |w.pending| - 1, Delivered(w, s);
    var whole, have := PartsOf(w.meaning[c]), w.parts[c];
    if Fills(Top(w), c) {
      assert whole[|have|..] == [Member(TargetKey(Top(w).target), w.due[n])] + Remaining(w'.pending, w'.due, c);
      assert whole[|have|] == whole[|have|..][0];
      assert whole[|have| + 1..] == whole[|have|..][1..];
      assert w'.parts[c] == have + [Part(TargetKey(Top(w).target), s)];
    } else {
      assert w'.parts[c] == have;
    }
  }

  lemma DeliverKeepsSound(w: Work, goal: JsonValue, skip: set<Container>, s: Slot)
    requires Sound(w, goal, skip) && w.pending != [] && Top(w).Frame?
    requires Denotes(w.meaning, s, w.due[|w.due| - 1])
    ensures !Top(w).target.ToResult? ==> Mentions(Top(w), Top(w).target.container) && Top(w).target.container in w.parts
    ensures Sound(Delivered(w, s), goal, skip)
  {
    hide Scheduled, Filling, Admitted, Denotes;
    DeliverKeepsScheduled(w, skip, s);
    var w' := Delivered(w, s);
    forall c | c in w.meaning && c !in skip
      ensures Filling(w', c)
    {
      DeliverFills(w, s, c);
    }
    if !Top(w).target.ToResult? {
    }
  }

  /** The part a frame delivers is the next one its container lacks, and no earlier part has its key. */
  lemma NextPartIsNew(w: Work, goal: JsonValue, skip: set<Container>)
    requires Sound(w, goal, skip) && w.pending != [] && Top(w).Frame? && !Top(w).target.ToResult?
    requires Top(w).target.container !in skip
    ensures var c := Top(w).target.container;
            && c in w.meaning && c !in w.frozen && Fits(Top(w).target)
            && (!c.isArray ==> forall i :: 0 <= i < |w.parts[c]| ==> w.parts[c][i].key != TargetKey(Top(w).target))
  {
    hide Denotes;
    var c := Top(w).target.container;
    assert Mentions(Top(w), c);
    assert Filling(w, c);
    var whole, have := PartsOf(w.meaning[c]), w.parts[c];
    assert whole[|have|..][0].key == TargetKey(Top(w).target);
    assert whole[|have|] == whole[|have|..][0];
  }

  // A new, still empty container joins with the value it stands for.

  ghost function Opened(w: Work, d: Container, v: JsonValue): Work {
    w.(meaning := w.meaning[d := v], parts := w.parts[d := []])
  }

  lemma OpenFills(w: Work, d: Container, v: JsonValue, c: Container)
    requires Columns(w) && Columns(Opened(w, d, v))
    requires c in w.meaning && Filling(w, c)
    requires d !in w.meaning && d != c
    ensures Filling(Opened(w, d, v), c)
  {
  }

  lemma OpenKeepsSound(w: Work, goal: JsonValue, d: Container, v: JsonValue)
    requires Sound(w, goal, {})
    requires d !in w.meaning
    ensures Sound(Opened(w, d, v), goal, {d})
  {
    hide Filling, Admitted;
    var w' := Opened(w, d, v);
    forall c | c in w'.meaning && c != d
      ensures Filling(w', c)
    {
      OpenFills(w, d, v, c);
    }
  }

  // Pushing the freeze of a container being opened, or a frame that fills it.

  ghost function Pushed(w: Work, t: Task, v: JsonValue, p: Path): Work {
    w.(pending := w.pending + [t], due := w.due + [v], at := w.at + [p])
  }

  lemma PushKeepsScheduled(w: Work, d: Container, t: Task, v: JsonValue, p: Path)
    requires Columns(w) && Scheduled(w, {d})
    requires d in w.meaning && d !in w.frozen && Mentions(t, d)
    requires t.Frame? ==> Fits(t.target)
    requires t.Freeze? ==> forall i :: 0 <= i < |w.pending| ==> !Mentions(w.pending[i], d)
    ensures Scheduled(Pushed(w, t, v, p), {d})
  {
    var w' := Pushed(w, t, v, p);
    assert forall x :: x in w.pending ==> x in w'.pending;
  }

  lemma PushFills(w: Work, t: Task, v: JsonValue, p: Path, c: Container)
    requires Columns(w) && Columns(Pushed(w, t, v, p))
    requires c in w.meaning && Filling(w, c) && !Fills(t, c)
    ensures Filling(Pushed(w, t, v, p), c)
  {
    hide PartsOf, Denotes;
  }

  lemma PushKeepsPromised(w: Work, goal: JsonValue, t: Task, v: JsonValue, p: Path)
    requires Columns(w) && Columns(Pushed(w, t, v, p))
    requires Promised(w, goal) && Subject(t).Some?
    ensures Promised(Pushed(w, t, v, p), goal)
  {
    var w' := Pushed(w, t, v, p);
    if w'.result.None? {
      var i :| 0 <= i < |w.pending| && w.pending[i].Frame? && w.pending[i].target.ToResult?;
      assert w'.pending[i] == w.pending[i];
    }
  }

  lemma PushKeepsSound(w: Work, goal: JsonValue, d: Container, t: Task, v: JsonValue, p: Path)
    requires Sound(w, goal, {d})
    requires d in w.meaning && d !in w.frozen && Mentions(t, d)
    requires t.Frame? ==> Fits(t.target)
    requires t.Freeze? ==> forall i :: 0 <= i < |w.pending| ==> !Mentions(w.pending[i], d)
    ensures Sound(Pushed(w, t, v, p), goal, {d})
    ensures var w' := Pushed(w, t, v, p);
            Remaining(w'.pending, w'.due, d)
            == (if t.Frame? then [Member(TargetKey(t.target), v)] else []) + Remaining(w.pending, w.due, d)
  {
    hide Scheduled, Filling, Promised, Admitted;
    var w' := Pushed(w, t, v, p);
    PushKeepsScheduled(w, d, t, v, p);
    PushKeepsPromised(w, goal, t, v, p);
    forall c | c in w.meaning && c != d
      ensures Filling(w', c)
    {
      PushFills(w, t, v, p, c);
    }
  }

  lemma CloseKeepsSound(w: Work, goal: JsonValue, d: Container)
    requires Sound(w, goal, {d})
    requires d in w.meaning && Admitted(w.meaning[d]) && Filling(w, d) && Freeze(d) in w.pending
    ensures Sound(w, goal, {})
  {
  }
}
