/** The text of a JSON value as a concrete syntax tree, and what the scan for repeated names makes of it. */
module JsonTexts {
  import opened CanonicalJson
  import opened Json
  import opened JsonStrings
  import opened MemberNames
  import opened Texts

  /** White space is as section 2 of RFC 8259 has it. */
  lemma BlanksAreExact(t: Text)
    ensures IsBlank(t) <==> forall i :: 0 <= i < |t| ==> t[i] in {' ' as int, '\t' as int, '\n' as int, '\r' as int}
  {
  }

  /** The tree of the value without white space, its strings as they are quoted. */
  function TreeOf(v: JsonValue): Node
    decreases v, 0
  {
    match v
    case Null => Scalar(Ascii("null"))
    case Bool(b) => Scalar(if b then Ascii("true") else Ascii("false"))
    case Number(n) => Scalar(n)
    case String(t) => Str(StringifyUnits(t))
    case Array(items) => List([], ElementsOf(items))
    case Object(members) => Record([], EntriesOf(members))
  }

  function ElementOf(v: JsonValue): Element
    decreases v, 1
  {
    Element([], TreeOf(v), [])
  }

  function ElementsOf(items: seq<JsonValue>): (r: seq<Element>)
    ensures |r| == |items| && forall i :: 0 <= i < |items| ==> r[i] == ElementOf(items[i])
  {
    if items == [] then [] else [ElementOf(items[0])] + ElementsOf(items[1..])
  }

  function EntriesOf(ms: seq<Member<Text>>): (r: seq<MemberNames.Entry>)
    ensures |r| == |ms|
    ensures forall i :: 0 <= i < |ms| ==>
              r[i] == MemberNames.Entry([], StringifyUnits(ms[i].key), [], ElementOf(ms[i].value))
  {
    if ms == [] then []
    else [MemberNames.Entry([], StringifyUnits(ms[0].key), [], ElementOf(ms[0].value))] + EntriesOf(ms[1..])
  }

  /** Every number is spelled without structural units. */
  predicate HasQuietNumbers(v: JsonValue) {
    match v
    case Number(n) => AllQuiet(n)
    case Array(items) => forall i :: 0 <= i < |items| ==> HasQuietNumbers(items[i])
    case Object(members) => forall i :: 0 <= i < |members| ==> HasQuietNumbers(members[i].value)
    case _ => true
  }

  lemma {:induction false} TreeOfIsTree(v: JsonValue)
    requires HasQuietNumbers(v)
    ensures IsTree(TreeOf(v))
    decreases v
  {
    hide StringifyUnits, ArePieces;
    assert IsBlank([]);
    match v
    case Array(items) =>
      forall i | 0 <= i < |items| ensures IsElement(ElementsOf(items)[i]) { TreeOfIsTree(items[i]); }
    case Object(members) =>
      forall i | 0 <= i < |members| ensures IsEntry(EntriesOf(members)[i]) { TreeOfIsTree(members[i].value); }
    case _ =>
  }

  /** The canonical text of a value is the text of its tree. */
  lemma {:induction false} TreePrintsCanonically(v: JsonValue)
    ensures PrintNode(TreeOf(v)) == Render(v)
    decreases v, 1
  {
    hide Spelling, StringifyUnits;
    match v
    case Array(items) =>
      ElementsPrint(items);
    case Object(members) =>
      EntriesPrint(members);
    case _ =>
  }

  lemma PrintPlain(v: JsonValue)
    ensures PrintElement(ElementOf(v)) == PrintNode(TreeOf(v))
  {
  }

  lemma {:induction false} ElementsPrint(items: seq<JsonValue>)
    ensures items != [] ==> PrintElements(ElementsOf(items)) == Join(RenderItems(items))
    decreases items, 0
  {
    hide PrintNode, Render, PrintElement;
    if items != [] {
      TreePrintsCanonically(items[0]);
      PrintPlain(items[0]);
      ElementsPrint(items[1..]);
      assert ElementsOf(items)[1..] == ElementsOf(items[1..]) && RenderItems(items)[1..] == RenderItems(items[1..]);
      assert |items| == 1 ==> RenderItems(items[1..]) == [];
    }
  }

  lemma PrintPlainEntry(m: Member<Text>)
    ensures PrintEntry(EntriesOf([m])[0]) == Quoted(m.key) + [COLON] + PrintNode(TreeOf(m.value))
  {
    hide Spelling, StringifyUnits;
    PrintPlain(m.value);
  }

  lemma {:induction false} EntriesPrint(ms: seq<Member<Text>>)
    ensures ms != [] ==> PrintEntries(EntriesOf(ms)) == Join(Pairs(RenderMembers(ms)))
    decreases ms, 0
  {
    hide PrintNode, Render, PrintEntry, Quoted, StringifyUnits;
    if ms != [] {
      TreePrintsCanonically(ms[0].value);
      PrintPlainEntry(ms[0]);
      EntriesPrint(ms[1..]);
      assert EntriesOf(ms)[1..] == EntriesOf(ms[1..]) && EntriesOf(ms)[0] == EntriesOf([ms[0]])[0];
      assert RenderMembers(ms)[1..] == RenderMembers(ms[1..]);
      assert Pairs(RenderMembers(ms))[1..] == Pairs(RenderMembers(ms[1..]));
    }
  }

  /** Some object in the value lists a name twice. */
  predicate ListsTwice(v: JsonValue) {
    match v
    case Array(items) => exists i :: 0 <= i < |items| && ListsTwice(items[i])
    case Object(members) =>
      || !DistinctKeys(members)
      || exists i :: 0 <= i < |members| && ListsTwice(members[i].value)
    case _ => false
  }

  /** The tree repeats a name exactly when the value does. */
  lemma {:induction false} TreeRepeats(v: JsonValue)
    ensures Repeats(TreeOf(v)) <==> ListsTwice(v)
    decreases v
  {
    hide StringifyUnits, Meaning;
    match v
    case Array(items) =>
      forall i | 0 <= i < |items| ensures Repeats(ElementsOf(items)[i].node) <==> ListsTwice(items[i]) {
        TreeRepeats(items[i]);
      }
    case Object(members) =>
      forall i | 0 <= i < |members|
        ensures Repeats(EntriesOf(members)[i].element.node) <==> ListsTwice(members[i].value)
        ensures Meaning(EntriesOf(members)[i].name) == members[i].key
      {
        TreeRepeats(members[i].value);
      }
    case _ =>
  }

  /** Numbers as the canonical texts assume them hold no structural unit. */
  lemma NumbersAreQuiet(t: Text)
    ensures IsNumberText(t) ==> AllQuiet(t)
  {
  }
}
