/**
 * The one-pass scan for repeated member names.
 *
 * A JSON text is given by its concrete syntax tree, which records everything the text leaves open: whitespace
 * anywhere it may stand, the order of members, and how each string is spelled. The scan sees only the text.
 */
module MemberNames {
  import opened JsonStrings
  import opened Texts

  datatype Node =
    | Scalar(token: Text)
    | Str(pieces: seq<Piece>)
    | List(blank: Text, elements: seq<Element>)
    | Record(blank: Text, entries: seq<Entry>)

  datatype Element = Element(before: Text, node: Node, after: Text)

  datatype Entry = Entry(before: Text, name: seq<Piece>, after: Text, element: Element)

  predicate IsBlank(t: Text) {
    forall i :: 0 <= i < |t| ==> t[i] == SPACE || t[i] == 9 || t[i] == 10 || t[i] == 13
  }

  /** A unit with no meaning to the scan. */
  predicate IsQuiet(u: CodeUnit) {
    u != QUOTE && u != OPEN_BRACE && u != CLOSE_BRACE && u != OPEN_BRACKET && u != CLOSE_BRACKET && u != COMMA
  }

  predicate AllQuiet(t: Text) {
    forall i :: 0 <= i < |t| ==> IsQuiet(t[i])
  }

  /**
   * The tree of a JSON text. Its scalars are the literals `true`, `false` and `null` and the numbers; all that
   * matters here is that none of them contains a quote or a structural unit.
   */
  predicate IsTree(n: Node) {
    match n
    case Scalar(token) => AllQuiet(token)
    case Str(pieces) => ArePieces(pieces)
    case List(blank, elements) =>
      IsBlank(blank) && forall i :: 0 <= i < |elements| ==> IsElement(elements[i])
    case Record(blank, entries) =>
      IsBlank(blank) && forall i :: 0 <= i < |entries| ==> IsEntry(entries[i])
  }

  predicate IsElement(e: Element) {
    IsBlank(e.before) && IsTree(e.node) && IsBlank(e.after)
  }

  predicate IsEntry(m: Entry) {
    IsBlank(m.before) && ArePieces(m.name) && IsBlank(m.after) && IsElement(m.element)
  }

  function PrintNode(n: Node): Text {
    match n
    case Scalar(token) => token
    case Str(pieces) => [QUOTE] + Spelling(pieces) + [QUOTE]
    case List(blank, elements) =>
      [OPEN_BRACKET] + (if elements == [] then blank else PrintElements(elements)) + [CLOSE_BRACKET]
    case Record(blank, entries) =>
      [OPEN_BRACE] + (if entries == [] then blank else PrintEntries(entries)) + [CLOSE_BRACE]
  }

  function PrintElement(e: Element): Text {
    e.before + PrintNode(e.node) + e.after
  }

  function PrintElements(es: seq<Element>): Text
    requires es != []
  {
    PrintElement(es[0]) + if |es| == 1 then [] else [COMMA] + PrintElements(es[1..])
  }

  function PrintEntry(m: Entry): Text {
    m.before + [QUOTE] + Spelling(m.name) + [QUOTE] + m.after + [COLON] + PrintElement(m.element)
  }

  function PrintEntries(ms: seq<Entry>): Text
    requires ms != []
  {
    PrintEntry(ms[0]) + if |ms| == 1 then [] else [COMMA] + PrintEntries(ms[1..])
  }

  /** Somewhere in the tree, one object has two members of the same decoded name. */
  predicate Repeats(n: Node) {
    match n
    case Scalar(_) => false
    case Str(_) => false
    case List(_, elements) =>
      exists i :: 0 <= i < |elements| && Repeats(elements[i].node)
    case Record(_, entries) =>
      || (exists i, j :: 0 <= i < j < |entries| && Meaning(entries[i].name) == Meaning(entries[j].name))
      || (exists i :: 0 <= i < |entries| && Repeats(entries[i].element.node))
  }

  // The scan

  datatype Container = ListContainer | RecordContainer(names: set<Text>, expectsName: bool)

  /** `Lost` stands for the scan running past the end of a text that is not JSON. */
  datatype Verdict = Lost | Repeated | Finished(open: seq<Container>)

  predicate ExpectsName(open: seq<Container>) {
    open != [] && open[|open| - 1].RecordContainer? && open[|open| - 1].expectsName
  }

  /** `containers[containers.length - 1] = top` */
  function WithTop(open: seq<Container>, top: Container): seq<Container>
    requires open != []
  {
    open[|open| - 1 := top]
  }

  /** The effect of a unit that is not a quote. */
  function AfterUnit(u: CodeUnit, open: seq<Container>): seq<Container> {
    if u == OPEN_BRACE then
      open + [RecordContainer({}, true)]
    else if u == OPEN_BRACKET then
      open + [ListContainer]
    else if (u == CLOSE_BRACE || u == CLOSE_BRACKET) && open != [] then
      open[..|open| - 1]
    else if u == COMMA && open != [] && open[|open| - 1].RecordContainer? then
      WithTop(open, open[|open| - 1].(expectsName := true))
    else
      open
  }

  /** The effect of a string with the given raw contents: nothing when its name is already taken. */
  function AfterString(raw: Text, open: seq<Container>): Verdict {
    if !ExpectsName(open) then
      Finished(open)
    else
      var top := open[|open| - 1];
      match Read(raw)
      case None => Lost
      case Some(name) =>
        if name in top.names then Repeated
        else Finished(WithTop(open, RecordContainer(top.names + {name}, false)))
  }

  function Scan(t: Text, open: seq<Container>): Verdict
    decreases |t|
  {
    if t == [] then
      Finished(open)
    else if t[0] == QUOTE then
      var end := ClosingQuote(t[1..]);
      if end.None? then
        Lost
      else
        var v := AfterString(t[1..end.value + 1], open);
        if v.Finished? then Scan(t[end.value + 2..], v.open) else v
    else
      Scan(t[1..], AfterUnit(t[0], open))
  }

  lemma ScanUnit(u: CodeUnit, rest: Text, open: seq<Container>)
    requires u != QUOTE
    ensures Scan([u] + rest, open) == Scan(rest, AfterUnit(u, open))
  {
    assert ([u] + rest)[1..] == rest;
  }

  lemma {:induction false} ScanQuiet(t: Text, rest: Text, open: seq<Container>)
    requires AllQuiet(t)
    ensures Scan(t + rest, open) == Scan(rest, open)
  {
    if t == [] {
      assert t + rest == rest;
    } else {
      assert t + rest == [t[0]] + (t[1..] + rest);
      ScanUnit(t[0], t[1..] + rest, open);
      ScanQuiet(t[1..], rest, open);
    }
  }

  lemma ScanString(ps: seq<Piece>, rest: Text, open: seq<Container>)
    requires ArePieces(ps)
    ensures var v := AfterString(Spelling(ps), open);
            Scan([QUOTE] + Spelling(ps) + [QUOTE] + rest, open) == if v.Finished? then Scan(rest, v.open) else v
  {
    hide AfterString, Spelling, ClosingQuote;
    var x := Spelling(ps);
    var t := [QUOTE] + x + [QUOTE] + rest;
    StringEndsAtItsQuote(ps, rest);
    TailAfterQuote(x, rest);
    assert t[1..|x| + 1] == x;
  }

  /** A value may start here: the scan is not waiting for a name. */
  predicate AtValue(open: seq<Container>) {
    !ExpectsName(open)
  }

  /** What the scan makes of a value followed by `rest`. */
  function Passed(repeats: bool, rest: Text, open: seq<Container>): Verdict {
    if repeats then Repeated else Scan(rest, open)
  }

  lemma {:induction false} ScanNode(n: Node, rest: Text, open: seq<Container>)
    requires IsTree(n) && AtValue(open)
    ensures Scan(PrintNode(n) + rest, open) == Passed(Repeats(n), rest, open)
    decreases n, 1
  {
    hide Scan;
    match n
    case Scalar(token) =>
      ScanQuiet(token, rest, open);
    case Str(pieces) =>
      ScanString(pieces, rest, open);
    case List(blank, elements) =>
      var inner := open + [ListContainer];
      var tail := [CLOSE_BRACKET] + rest;
      var middle := if elements == [] then blank else PrintElements(elements);
      assert PrintNode(n) + rest == [OPEN_BRACKET] + (middle + tail);
      ScanUnit(OPEN_BRACKET, middle + tail, open);
      if elements == [] {
        ScanQuiet(blank, tail, inner);
      } else {
        ScanElements(elements, tail, inner);
      }
      ScanUnit(CLOSE_BRACKET, rest, inner);
      assert inner[..|inner| - 1] == open;
    case Record(blank, entries) =>
      ScanRecord(blank, entries, rest, open);
      ClashesMeansRepeats(entries, {});
  }

  lemma {:induction false} ScanRecord(blank: Text, entries: seq<Entry>, rest: Text, open: seq<Container>)
    requires IsBlank(blank) && (forall i :: 0 <= i < |entries| ==> IsEntry(entries[i]))
    ensures Scan(PrintNode(Record(blank, entries)) + rest, open) == Passed(Clashes(entries, {}), rest, open)
    decreases entries, 1
  {
    hide Scan, PrintEntries, Clashes, NamesOf;
    var tail := [CLOSE_BRACE] + rest;
    var middle := if entries == [] then blank else PrintEntries(entries);
    assert PrintNode(Record(blank, entries)) + rest == [OPEN_BRACE] + (middle + tail);
    ScanUnit(OPEN_BRACE, middle + tail, open);
    if entries == [] {
      ScanQuiet(blank, tail, Inside(open, {}, true));
      CloseRecord(rest, open, {}, true);
      assert !Clashes(entries, {}) by { ClashesMeansRepeats(entries, {}); }
    } else {
      ScanEntries(entries, tail, open, {});
      CloseRecord(rest, open, NamesOf(entries, {}), false);
    }
  }

  lemma CloseRecord(rest: Text, open: seq<Container>, names: set<Text>, expectsName: bool)
    ensures Scan([CLOSE_BRACE] + rest, open + [RecordContainer(names, expectsName)]) == Scan(rest, open)
  {
    var inner := open + [RecordContainer(names, expectsName)];
    ScanUnit(CLOSE_BRACE, rest, inner);
    assert inner[..|inner| - 1] == open;
  }

  lemma {:induction false} ScanElement(e: Element, rest: Text, open: seq<Container>)
    requires IsElement(e) && AtValue(open)
    ensures Scan(PrintElement(e) + rest, open) == Passed(Repeats(e.node), rest, open)
    decreases e, 2
  {
    hide Scan;
    assert PrintElement(e) + rest == e.before + (PrintNode(e.node) + (e.after + rest));
    ScanQuiet(e.before, PrintNode(e.node) + (e.after + rest), open);
    ScanNode(e.node, e.after + rest, open);
    ScanQuiet(e.after, rest, open);
  }

  lemma {:induction false} ScanElements(es: seq<Element>, rest: Text, open: seq<Container>)
    requires es != [] && (forall i :: 0 <= i < |es| ==> IsElement(es[i]))
    requires open != [] && open[|open| - 1].ListContainer?
    ensures Scan(PrintElements(es) + rest, open)
         == Passed((exists i :: 0 <= i < |es| && Repeats(es[i].node)), rest, open)
    decreases es
  {
    hide Scan;
    if |es| == 1 {
      assert PrintElements(es) + rest == PrintElement(es[0]) + rest;
      ScanElement(es[0], rest, open);
    } else {
      var tail := PrintElements(es[1..]) + rest;
      assert PrintElements(es) + rest == PrintElement(es[0]) + ([COMMA] + tail);
      ScanElement(es[0], [COMMA] + tail, open);
      ScanUnit(COMMA, tail, open);
      ScanElements(es[1..], rest, open);
      assert forall i :: 0 < i < |es| ==> es[i] == es[1..][i - 1];
    }
  }

  /** The names of the given members, on top of the names already taken. */
  function NamesOf(ms: seq<Entry>, taken: set<Text>): set<Text> {
    taken + (set i | 0 <= i < |ms| :: Meaning(ms[i].name))
  }

  /** Some member of `ms` takes a taken name, or the name of an earlier one, or repeats inside. */
  predicate Clashes(ms: seq<Entry>, taken: set<Text>) {
    ms != [] && (
      || Meaning(ms[0].name) in taken
      || Repeats(ms[0].element.node)
      || Clashes(ms[1..], taken + {Meaning(ms[0].name)}))
  }

  function Inside(open: seq<Container>, names: set<Text>, expectsName: bool): seq<Container> {
    open + [RecordContainer(names, expectsName)]
  }

  lemma ScanName(ps: seq<Piece>, rest: Text, open: seq<Container>, taken: set<Text>)
    requires ArePieces(ps)
    ensures Scan([QUOTE] + Spelling(ps) + [QUOTE] + rest, Inside(open, taken, true))
         == Passed(Meaning(ps) in taken, rest, Inside(open, taken + {Meaning(ps)}, false))
  {
    hide Scan, Spelling, Read, Meaning;
    ScanString(ps, rest, Inside(open, taken, true));
    ReadUndoesSpelling(ps);
    assert WithTop(Inside(open, taken, true), RecordContainer(taken + {Meaning(ps)}, false))
        == Inside(open, taken + {Meaning(ps)}, false);
  }

  lemma {:induction false} ScanEntry(m: Entry, rest: Text, open: seq<Container>, taken: set<Text>)
    requires IsEntry(m)
    ensures Scan(PrintEntry(m) + rest, Inside(open, taken, true))
         == Passed(Meaning(m.name) in taken || Repeats(m.element.node), rest,
                   Inside(open, taken + {Meaning(m.name)}, false))
    decreases m
  {
    hide Scan, Spelling, Meaning, PrintElement, Repeats;
    var value := PrintElement(m.element) + rest;
    var colon := [COLON] + value;
    var name := [QUOTE] + Spelling(m.name) + [QUOTE] + (m.after + colon);
    var before, after := Inside(open, taken, true), Inside(open, taken + {Meaning(m.name)}, false);
    assert PrintEntry(m) + rest == m.before + name;
    ScanQuiet(m.before, name, before);
    ScanName(m.name, m.after + colon, open, taken);
    ScanQuiet(m.after, colon, after);
    ScanUnit(COLON, value, after);
    ScanElement(m.element, rest, after);
  }

  lemma {:induction false} ScanEntries(ms: seq<Entry>, rest: Text, open: seq<Container>, taken: set<Text>)
    requires ms != [] && (forall i :: 0 <= i < |ms| ==> IsEntry(ms[i]))
    ensures Scan(PrintEntries(ms) + rest, Inside(open, taken, true))
         == Passed(Clashes(ms, taken), rest, Inside(open, NamesOf(ms, taken), false))
    decreases ms, 0
  {
    hide Scan, Meaning, Repeats, PrintEntry;
    var name := Meaning(ms[0].name);
    var next := taken + {name};
    if |ms| == 1 {
      assert PrintEntries(ms) + rest == PrintEntry(ms[0]) + rest;
      ScanEntry(ms[0], rest, open, taken);
      assert NamesOf(ms, taken) == next;
    } else {
      var tail := PrintEntries(ms[1..]) + rest;
      assert PrintEntries(ms) + rest == PrintEntry(ms[0]) + ([COMMA] + tail);
      ScanEntry(ms[0], [COMMA] + tail, open, taken);
      ScanUnit(COMMA, tail, Inside(open, next, false));
      assert AfterUnit(COMMA, Inside(open, next, false)) == Inside(open, next, true);
      ScanEntries(ms[1..], rest, open, next);
      NamesOfTail(ms, taken);
    }
  }

  lemma NamesOfTail(ms: seq<Entry>, taken: set<Text>)
    requires ms != []
    ensures NamesOf(ms, taken) == NamesOf(ms[1..], taken + {Meaning(ms[0].name)})
  {
    hide Meaning;
    forall t | t in NamesOf(ms, taken)
      ensures t in NamesOf(ms[1..], taken + {Meaning(ms[0].name)})
    {
      if t !in taken {
        var i :| 0 <= i < |ms| && t == Meaning(ms[i].name);
        assert i > 0 ==> ms[i] == ms[1..][i - 1];
      }
    }
  }

  /** The running check agrees with the comparison of all pairs. */
  lemma {:induction false} ClashesMeansRepeats(ms: seq<Entry>, taken: set<Text>)
    ensures Clashes(ms, taken) <==>
      || (exists i :: 0 <= i < |ms| && Meaning(ms[i].name) in taken)
      || (exists i, j :: 0 <= i < j < |ms| && Meaning(ms[i].name) == Meaning(ms[j].name))
      || (exists i :: 0 <= i < |ms| && Repeats(ms[i].element.node))
  {
    hide Meaning, Repeats;
    if ms != [] {
      ClashesMeansRepeats(ms[1..], taken + {Meaning(ms[0].name)});
      assert forall i :: 0 < i < |ms| ==> ms[i] == ms[1..][i - 1];
      assert forall i :: 0 <= i < |ms| - 1 ==> ms[1..][i] == ms[i + 1];
    }
  }

  /** The inner loop: from an opening quote to its closing quote. */
  method SkipString(text: Text, start: nat) returns (index: nat)
    requires start < |text| && text[start] == QUOTE
    requires ClosingQuote(text[start + 1..]).Some?
    ensures index == start + 1 + ClosingQuote(text[start + 1..]).value < |text|
  {
    index := start + 1;
    while text[index] != QUOTE
      invariant start < index < |text|
      invariant ClosingQuote(text[index..]).Some?
      invariant index + ClosingQuote(text[index..]).value == start + 1 + ClosingQuote(text[start + 1..]).value
      decreases |text| - index
    {
      assert text[index..][1..] == text[index + 1..];
      if text[index] == BACKSLASH {
        assert text[index..][2..] == text[index + 2..];
        index := index + 1;
      }
      index := index + 1;
    }
  }

  lemma ScanAtQuote(text: Text, start: nat, open: seq<Container>)
    requires start < |text| && text[start] == QUOTE
    requires Scan(text[start..], open) != Lost
    ensures ClosingQuote(text[start + 1..]).Some?
    ensures var end := start + 1 + ClosingQuote(text[start + 1..]).value;
            var v := AfterString(text[start + 1..end], open);
            v != Lost && Scan(text[start..], open) == if v.Finished? then Scan(text[end + 1..], v.open) else v
  {
    hide AfterString, ClosingQuote;
    var t := text[start..];
    assert t[1..] == text[start + 1..];
    var k := ClosingQuote(t[1..]).value;
    assert t[1..k + 1] == text[start + 1..start + 1 + k];
    assert t[k + 2..] == text[start + 1 + k + 1..];
  }

  /** The one-pass scan rejects exactly the texts in which some object repeats a name. */
  method AssertUniqueJsonMemberNames(text: Text, ghost tree: Element) returns (unique: bool)
    requires IsElement(tree) && text == PrintElement(tree)
    ensures unique <==> !Repeats(tree.node)
  {
    hide Repeats, IsElement, PrintElement, Read, AfterUnit, ClosingQuote, Scan;
    ghost var whole := Scan(text, []);
    ScanElement(tree, [], []);
    assert text + [] == text && Scan([], []) == Finished([]) by { ScanNothing([]); }
    var open: seq<Container> := [];
    var index := 0;
    assert text[0..] == text;
    while index < |text|
      invariant 0 <= index <= |text|
      invariant Scan(text[index..], open) == whole
    {
      if text[index] == QUOTE {
        ScanAtQuote(text, index, open);
        var start := index;
        index := SkipString(text, start);
        if ExpectsName(open) {
          var names := open[|open| - 1].names;
          var name := Read(text[start + 1..index]).value;
          if name in names {
            return false;
          }
          open := WithTop(open, RecordContainer(names + {name}, false));
        }
      } else {
        assert text[index..] == [text[index]] + text[index + 1..];
        ScanUnit(text[index], text[index + 1..], open);
        open := AfterUnit(text[index], open);
      }
      index := index + 1;
    }
    assert text[index..] == [];
    ScanNothing(open);
    return true;
  }

  lemma ScanNothing(open: seq<Container>)
    ensures Scan([], open) == Finished(open)
  {
  }
}
