/**
 * Canonical JSON text (RFC 8785) and the deep equality it must agree with.
 *
 * A number is any `N`: the host's own number formatting is a parameter, described by what the text relies on.
 */
module CanonicalJson {
  import opened Json
  import opened JsonStrings
  import opened Outcomes
  import opened Sorting
  import opened Texts

  /** The scalars beside null, booleans and strings: a number, or the absent value of an optional member. */
  datatype Leaf<+N> = Undefined | Numeric(n: N)

  type Loose<+N> = Value<Leaf<N>>

  /** `spell` is `JSON.stringify` of a number, without a result for the non-finite ones. */
  datatype Numbers<!N(==)> = Numbers(spell: N -> Option<Text>, zero: N, negativeZero: N)

  predicate IsNumberUnit(u: CodeUnit) {
    IsDigit(u) || u == MINUS || u == 43 || u == 46 || u == 101
  }

  predicate IsNumberText(t: Text) {
    t != [] && (IsDigit(t[0]) || t[0] == MINUS) && forall i :: 0 <= i < |t| ==> IsNumberUnit(t[i])
  }

  /** Distinct numbers have distinct spellings, except that both zeros are spelled `0`. */
  ghost predicate Formats<N(!new)>(f: Numbers<N>) {
    && f.zero != f.negativeZero
    && f.spell(f.zero) == Some([ZERO])
    && f.spell(f.negativeZero) == Some([ZERO])
    && (forall n :: f.spell(n).Some? ==> IsNumberText(f.spell(n).value))
    && (forall m, n :: f.spell(m).Some? && f.spell(m) == f.spell(n) && m != f.negativeZero && n != f.negativeZero
          ==> m == n)
  }

  const NULL_TEXT: Text := [110, 117, 108, 108]
  const TRUE_TEXT: Text := [116, 114, 117, 101]
  const FALSE_TEXT: Text := [102, 97, 108, 115, 101]

  /** A member as the serializer joins it. */
  datatype Printed = Printed(key: Text, text: Text)

  predicate PrintedBefore(a: Printed, b: Printed) {
    Less(a.key, b.key)
  }

  /** `texts.join(",")` */
  function Join(texts: seq<Text>): Text {
    if texts == [] then [] else if |texts| == 1 then texts[0] else texts[0] + [COMMA] + Join(texts[1..])
  }

  function Pairs(ps: seq<Printed>): (r: seq<Text>)
    ensures |r| == |ps|
  {
    if ps == [] then [] else [Quoted(ps[0].key) + [COLON] + ps[0].text] + Pairs(ps[1..])
  }

  /**
   * The serializers. One omits members whose value is absent (`omits`), the other refuses them. Nothing stands for
   * the error raised on a value without a JSON spelling.
   */
  function Canonical<N>(f: Numbers<N>, omits: bool, v: Loose<N>): Option<Text> {
    match v
    case Null => Some(NULL_TEXT)
    case Bool(b) => Some(if b then TRUE_TEXT else FALSE_TEXT)
    case Number(Undefined) => None
    case Number(Numeric(n)) => f.spell(n)
    case String(t) => Some(Quoted(t))
    case Array(items) =>
      var texts := CanonicalItems(f, omits, items);
      if texts.None? then None else Some([OPEN_BRACKET] + Join(texts.value) + [CLOSE_BRACKET])
    case Object(members) =>
      var entries := CanonicalMembers(f, omits, members);
      if entries.None? then None
      else Some([OPEN_BRACE] + Join(Pairs(Sort(PrintedBefore, entries.value))) + [CLOSE_BRACE])
  }

  function CanonicalItems<N>(f: Numbers<N>, omits: bool, items: seq<Loose<N>>): Option<seq<Text>> {
    if items == [] then
      Some([])
    else
      var first := Canonical(f, omits, items[0]);
      var rest := CanonicalItems(f, omits, items[1..]);
      if first.None? || rest.None? then None else Some([first.value] + rest.value)
  }

  function CanonicalMembers<N>(f: Numbers<N>, omits: bool, ms: seq<Member<Leaf<N>>>): Option<seq<Printed>> {
    if ms == [] then
      Some([])
    else
      var rest := CanonicalMembers(f, omits, ms[1..]);
      if omits && IsAbsent(ms[0].value) then
        rest
      else
        var first := Canonical(f, omits, ms[0].value);
        if first.None? || rest.None? then None else Some([Printed(ms[0].key, first.value)] + rest.value)
  }

  predicate IsAbsent<N>(v: Loose<N>) {
    v.Number? && v.n.Undefined?
  }

  // Deep equality

  function Keys<N>(ms: seq<Member<N>>): (r: seq<Text>)
    ensures |r| == |ms|
    ensures forall i :: 0 <= i < |ms| ==> r[i] == ms[i].key
  {
    seq(|ms|, i requires 0 <= i < |ms| => ms[i].key)
  }

  function SortedKeys<N>(ms: seq<Member<N>>): (r: seq<Text>)
    ensures |r| == |ms|
    ensures forall k :: k in r <==> k in Keys(ms)
  {
    SameElements(Sort(Less, Keys(ms)), Keys(ms));
    Sort(Less, Keys(ms))
  }

  function ValueAt<N>(ms: seq<Member<N>>, key: Text): (r: Value<N>)
    requires key in Keys(ms)
    ensures exists i :: 0 <= i < |ms| && ms[i] == Member(key, r)
  {
    Lookup(ms, key).value
  }

  /** Scalars are equal when they are the same value; `-0` and `0` are not, and not-a-number equals itself. */
  predicate DeepEqual<N(==)>(a: Loose<N>, b: Loose<N>)
    decreases a
  {
    if a.Array? && b.Array? then
      |a.items| == |b.items| && forall i :: 0 <= i < |a.items| ==> DeepEqual(a.items[i], b.items[i])
    else if a.Object? && b.Object? then
      var ks, ls := SortedKeys(a.members), SortedKeys(b.members);
      |ks| == |ls| && forall i :: 0 <= i < |ks| ==>
        ks[i] == ls[i] && DeepEqual(ValueAt(a.members, ks[i]), ValueAt(b.members, ls[i]))
    else
      !IsContainer(a) && !IsContainer(b) && a == b
  }

  // What a canonical text spells

  predicate MemberBefore<N>(a: Member<N>, b: Member<N>) {
    Less(a.key, b.key)
  }

  /** Members in order and numbers spelled. */
  function Normal<N>(f: Numbers<N>, v: Loose<N>): JsonValue {
    match v
    case Null => Null
    case Bool(b) => Bool(b)
    case Number(Undefined) => Number([])
    case Number(Numeric(n)) => Number(if f.spell(n).Some? then f.spell(n).value else [])
    case String(t) => String(t)
    case Array(items) => Array(NormalItems(f, items))
    case Object(members) => Object(Sort(MemberBefore, NormalMembers(f, members)))
  }

  function NormalItems<N>(f: Numbers<N>, items: seq<Loose<N>>): (r: seq<JsonValue>)
    ensures |r| == |items|
    ensures forall i :: 0 <= i < |items| ==> r[i] == Normal(f, items[i])
  {
    if items == [] then [] else [Normal(f, items[0])] + NormalItems(f, items[1..])
  }

  function NormalMembers<N>(f: Numbers<N>, ms: seq<Member<Leaf<N>>>): (r: seq<Member<Text>>)
    ensures |r| == |ms|
    ensures forall i :: 0 <= i < |ms| ==> r[i] == Member(ms[i].key, Normal(f, ms[i].value))
  {
    if ms == [] then [] else [Member(ms[0].key, Normal(f, ms[0].value))] + NormalMembers(f, ms[1..])
  }

  function Render(v: JsonValue): Text {
    match v
    case Null => NULL_TEXT
    case Bool(b) => if b then TRUE_TEXT else FALSE_TEXT
    case Number(t) => t
    case String(t) => Quoted(t)
    case Array(items) => [OPEN_BRACKET] + Join(RenderItems(items)) + [CLOSE_BRACKET]
    case Object(members) => [OPEN_BRACE] + Join(Pairs(RenderMembers(members))) + [CLOSE_BRACE]
  }

  function RenderItems(items: seq<JsonValue>): (r: seq<Text>)
    ensures |r| == |items|
  {
    if items == [] then [] else [Render(items[0])] + RenderItems(items[1..])
  }

  function RenderMembers(ms: seq<Member<Text>>): (r: seq<Printed>)
    ensures |r| == |ms|
  {
    if ms == [] then [] else [Printed(ms[0].key, Render(ms[0].value))] + RenderMembers(ms[1..])
  }

  // Unique readability

  predicate Readable(v: JsonValue) {
    match v
    case Number(t) => IsNumberText(t)
    case Array(items) => forall i :: 0 <= i < |items| ==> Readable(items[i])
    case Object(members) => forall i :: 0 <= i < |members| ==> Readable(members[i].value)
    case _ => true
  }

  /** What may follow a value. */
  predicate Delimited(t: Text) {
    t != [] ==> t[0] == COMMA || t[0] == CLOSE_BRACKET || t[0] == CLOSE_BRACE
  }

  /** The kind of a value, told by the first unit of its text. */
  function FirstUnit(v: JsonValue): CodeUnit {
    match v
    case Null => 110
    case Bool(b) => if b then 116 else 102
    case Number(t) => if t == [] then 0 else t[0]
    case String(_) => QUOTE
    case Array(_) => OPEN_BRACKET
    case Object(_) => OPEN_BRACE
  }

  lemma TextBegins(v: JsonValue, r: Text)
    requires Readable(v)
    ensures Render(v) != [] && (Render(v) + r)[0] == Render(v)[0] == FirstUnit(v)
  {
    hide Join, Quoted;
    if v.String? {
      assert Quoted(v.t)[0] == QUOTE by { QuotedBegins(v.t); }
    }
  }

  lemma QuotedBegins(t: Text)
    ensures Quoted(t) != [] && Quoted(t)[0] == QUOTE
  {
  }

  lemma NumberEnds(a: Text, b: Text, r: Text, s: Text)
    requires forall i :: 0 <= i < |a| ==> IsNumberUnit(a[i])
    requires forall i :: 0 <= i < |b| ==> IsNumberUnit(b[i])
    requires Delimited(r) && Delimited(s)
    requires a + r == b + s
    ensures a == b && r == s
  {
    if |a| < |b| {
      NextUnit(a, r, b, s);
    } else if |b| < |a| {
      NextUnit(b, s, a, r);
    } else {
      CutAt(a, r, b, s);
    }
  }

  lemma NextUnit(a: Text, r: Text, b: Text, s: Text)
    requires |a| < |b| && a + r == b + s
    ensures r != [] && r[0] == b[|a|]
  {
    assert (a + r)[|a|] == (b + s)[|a|];
  }

  lemma CutAt(a: Text, r: Text, b: Text, s: Text)
    requires |a| == |b| && a + r == b + s
    ensures a == b && r == s
  {
    assert a == (a + r)[..|a|] && b == (b + s)[..|b|];
    assert r == (a + r)[|a|..] && s == (b + s)[|b|..];
  }

  /** A canonical text, followed by anything that may follow a value, is the text of one value only. */
  lemma {:induction false} RenderIsReadable(a: JsonValue, b: JsonValue, r: Text, s: Text)
    requires Readable(a) && Readable(b)
    requires Delimited(r) && Delimited(s)
    requires Render(a) + r == Render(b) + s
    ensures a == b && r == s
    decreases a
  {
    hide Join, Quoted, Pairs, RenderItems, RenderMembers;
    TextBegins(a, r);
    TextBegins(b, s);
    match a
    case Null =>
      CutAt(NULL_TEXT, r, NULL_TEXT, s);
    case Bool(c) =>
      CutAt(Render(a), r, Render(b), s);
    case Number(t) =>
      NumberEnds(t, b.n, r, s);
    case String(t) =>
      QuotedIsReadable(t, b.t, r, s);
    case Array(items) =>
      var x, y := Join(RenderItems(items)), Join(RenderItems(b.items));
      Unwrap(OPEN_BRACKET, x, CLOSE_BRACKET, r, y, s);
      ItemsAreReadable(items, b.items, r, s);
    case Object(members) =>
      var x, y := Join(Pairs(RenderMembers(members))), Join(Pairs(RenderMembers(b.members)));
      Unwrap(OPEN_BRACE, x, CLOSE_BRACE, r, y, s);
      MembersAreReadable(members, b.members, r, s);
  }

  lemma Unwrap(first: CodeUnit, x: Text, last: CodeUnit, r: Text, y: Text, s: Text)
    requires ([first] + x + [last]) + r == ([first] + y + [last]) + s
    ensures x + ([last] + r) == y + ([last] + s)
  {
    assert ([first] + x + [last]) + r == [first] + (x + ([last] + r));
    assert ([first] + y + [last]) + s == [first] + (y + ([last] + s));
    CutAt([first], x + ([last] + r), [first], y + ([last] + s));
  }

  /** The joined texts begin with the first text; what follows it is a delimiter. */
  function AfterFirst(texts: seq<Text>, close: CodeUnit, r: Text): Text
    requires texts != []
  {
    if |texts| == 1 then [close] + r else [COMMA] + (Join(texts[1..]) + ([close] + r))
  }

  lemma JoinNothing(close: CodeUnit, r: Text)
    ensures Join([]) + ([close] + r) == [close] + r
  {
  }

  lemma JoinBegins(texts: seq<Text>, close: CodeUnit, r: Text)
    requires texts != []
    ensures Join(texts) + ([close] + r) == texts[0] + AfterFirst(texts, close, r)
  {
  }

  lemma AfterFirstAgrees(ts: seq<Text>, us: seq<Text>, close: CodeUnit, r: Text, s: Text)
    requires ts != [] && us != [] && close != COMMA
    requires AfterFirst(ts, close, r) == AfterFirst(us, close, s)
    ensures |ts| == 1 <==> |us| == 1
    ensures |ts| == 1 ==> r == s
    ensures |ts| > 1 ==> Join(ts[1..]) + ([close] + r) == Join(us[1..]) + ([close] + s)
  {
    hide Join;
    var t, u := AfterFirst(ts, close, r), AfterFirst(us, close, s);
    assert t[0] == if |ts| == 1 then close else COMMA;
    assert u[0] == if |us| == 1 then close else COMMA;
    assert t[1..] == u[1..];
    assert |ts| > 1 ==> t[1..] == Join(ts[1..]) + ([close] + r);
    assert |us| > 1 ==> u[1..] == Join(us[1..]) + ([close] + s);
    assert |ts| == 1 ==> t[1..] == r;
    assert |us| == 1 ==> u[1..] == s;
  }

  lemma ItemsBegin(xs: seq<JsonValue>, r: Text)
    requires forall i :: 0 <= i < |xs| ==> Readable(xs[i])
    ensures var t := Join(RenderItems(xs)) + ([CLOSE_BRACKET] + r);
            t[0] == (if xs == [] then CLOSE_BRACKET else FirstUnit(xs[0])) && (xs == [] ==> t[1..] == r)
  {
    hide Render, Readable, FirstUnit, Join, AfterFirst;
    var ts := RenderItems(xs);
    if xs == [] {
      JoinNothing(CLOSE_BRACKET, r);
    } else {
      JoinBegins(ts, CLOSE_BRACKET, r);
      TextBegins(xs[0], AfterFirst(ts, CLOSE_BRACKET, r));
    }
  }

  lemma NotClosing(v: JsonValue)
    requires Readable(v)
    ensures FirstUnit(v) != CLOSE_BRACKET && FirstUnit(v) != CLOSE_BRACE
  {
  }

  lemma {:induction false} ItemsAreReadable(xs: seq<JsonValue>, ys: seq<JsonValue>, r: Text, s: Text)
    requires forall i :: 0 <= i < |xs| ==> Readable(xs[i])
    requires forall i :: 0 <= i < |ys| ==> Readable(ys[i])
    requires Join(RenderItems(xs)) + ([CLOSE_BRACKET] + r) == Join(RenderItems(ys)) + ([CLOSE_BRACKET] + s)
    ensures xs == ys && r == s
    decreases xs
  {
    hide Render, Join, Readable, FirstUnit;
    ItemsBegin(xs, r);
    ItemsBegin(ys, s);
    if xs == [] || ys == [] {
      if xs != [] { NotClosing(xs[0]); }
      if ys != [] { NotClosing(ys[0]); }
    } else {
      var ts, us := RenderItems(xs), RenderItems(ys);
      JoinBegins(ts, CLOSE_BRACKET, r);
      JoinBegins(us, CLOSE_BRACKET, s);
      RenderIsReadable(xs[0], ys[0], AfterFirst(ts, CLOSE_BRACKET, r), AfterFirst(us, CLOSE_BRACKET, s));
      AfterFirstAgrees(ts, us, CLOSE_BRACKET, r, s);
      if |xs| > 1 {
        ItemsAreReadable(xs[1..], ys[1..], r, s);
      }
      assert xs == [xs[0]] + xs[1..] && ys == [ys[0]] + ys[1..];
    }
  }

  lemma MembersBegin(ms: seq<Member<Text>>, r: Text)
    ensures var t := Join(Pairs(RenderMembers(ms))) + ([CLOSE_BRACE] + r);
            t[0] == (if ms == [] then CLOSE_BRACE else QUOTE) && (ms == [] ==> t[1..] == r)
  {
    hide Render, Quoted, Join, AfterFirst;
    var ts := Pairs(RenderMembers(ms));
    if ms == [] {
      JoinNothing(CLOSE_BRACE, r);
    } else {
      JoinBegins(ts, CLOSE_BRACE, r);
      QuotedBegins(ms[0].key);
      assert ts[0] == Quoted(ms[0].key) + [COLON] + Render(ms[0].value);
    }
  }

  lemma MemberIsReadable(m: Member<Text>, n: Member<Text>, t: Text, u: Text)
    requires Readable(m.value) && Readable(n.value)
    requires Delimited(t) && Delimited(u)
    requires Quoted(m.key) + [COLON] + Render(m.value) + t == Quoted(n.key) + [COLON] + Render(n.value) + u
    ensures m == n && t == u
    decreases m
  {
    hide Render, Quoted, Readable;
    var x, y := [COLON] + (Render(m.value) + t), [COLON] + (Render(n.value) + u);
    assert Quoted(m.key) + [COLON] + Render(m.value) + t == Quoted(m.key) + x;
    assert Quoted(n.key) + [COLON] + Render(n.value) + u == Quoted(n.key) + y;
    QuotedIsReadable(m.key, n.key, x, y);
    assert x[1..] == Render(m.value) + t && y[1..] == Render(n.value) + u;
    RenderIsReadable(m.value, n.value, t, u);
  }

  lemma {:induction false} MembersAreReadable(ms: seq<Member<Text>>, ns: seq<Member<Text>>, r: Text, s: Text)
    requires forall i :: 0 <= i < |ms| ==> Readable(ms[i].value)
    requires forall i :: 0 <= i < |ns| ==> Readable(ns[i].value)
    requires Join(Pairs(RenderMembers(ms))) + ([CLOSE_BRACE] + r)
          == Join(Pairs(RenderMembers(ns))) + ([CLOSE_BRACE] + s)
    ensures ms == ns && r == s
    decreases ms
  {
    hide Render, Join, Readable, Quoted;
    MembersBegin(ms, r);
    MembersBegin(ns, s);
    if ms != [] && ns != [] {
      var ts, us := Pairs(RenderMembers(ms)), Pairs(RenderMembers(ns));
      JoinBegins(ts, CLOSE_BRACE, r);
      JoinBegins(us, CLOSE_BRACE, s);
      assert ts[1..] == Pairs(RenderMembers(ms[1..])) && us[1..] == Pairs(RenderMembers(ns[1..]));
      MemberIsReadable(ms[0], ns[0], AfterFirst(ts, CLOSE_BRACE, r), AfterFirst(us, CLOSE_BRACE, s));
      AfterFirstAgrees(ts, us, CLOSE_BRACE, r, s);
      if |ms| > 1 {
        MembersAreReadable(ms[1..], ns[1..], r, s);
      }
      assert ms == [ms[0]] + ms[1..] && ns == [ns[0]] + ns[1..];
    }
  }

  // The serializers spell normal forms

  /** The value has a canonical text: its numbers are finite and nothing absent remains in it. */
  predicate Printable<N>(f: Numbers<N>, omits: bool, v: Loose<N>) {
    match v
    case Number(Undefined) => false
    case Number(Numeric(n)) => f.spell(n).Some?
    case Array(items) => forall i :: 0 <= i < |items| ==> Printable(f, omits, items[i])
    case Object(members) =>
      forall i :: 0 <= i < |members| ==>
        Printable(f, omits, members[i].value) || (omits && IsAbsent(members[i].value))
    case _ => true
  }

  /** The value a canonical text stands for: absent members left out and a single zero. */
  function Settled<N>(f: Numbers<N>, omits: bool, v: Loose<N>): Loose<N> {
    match v
    case Number(Numeric(n)) => Number(Numeric(if n == f.negativeZero then f.zero else n))
    case Array(items) => Array(SettledItems(f, omits, items))
    case Object(members) => Object(SettledMembers(f, omits, members))
    case _ => v
  }

  function SettledItems<N>(f: Numbers<N>, omits: bool, items: seq<Loose<N>>): (r: seq<Loose<N>>)
    ensures |r| == |items|
    ensures forall i :: 0 <= i < |items| ==> r[i] == Settled(f, omits, items[i])
  {
    if items == [] then [] else [Settled(f, omits, items[0])] + SettledItems(f, omits, items[1..])
  }

  function SettledMembers<N>(f: Numbers<N>, omits: bool, ms: seq<Member<Leaf<N>>>): seq<Member<Leaf<N>>> {
    if ms == [] then
      []
    else if omits && IsAbsent(ms[0].value) then
      SettledMembers(f, omits, ms[1..])
    else
      [Member(ms[0].key, Settled(f, omits, ms[0].value))] + SettledMembers(f, omits, ms[1..])
  }

  lemma RenderMembersIsMap(ms: seq<Member<Text>>)
    ensures RenderMembers(ms) == Map((m: Member<Text>) => Printed(m.key, Render(m.value)), ms)
  {
    hide Render;
    if ms != [] {
      RenderMembersIsMap(ms[1..]);
      assert ms == [ms[0]] + ms[1..];
    }
  }

  /** Each serializer yields the text of the settled value's normal form, or refuses the value. */
  lemma {:induction false} CanonicalSpellsNormal<N>(f: Numbers<N>, omits: bool, v: Loose<N>)
    requires f.spell(f.zero) == f.spell(f.negativeZero)
    ensures Canonical(f, omits, v)
         == if Printable(f, omits, v) then Some(Render(Normal(f, Settled(f, omits, v)))) else None
    decreases v
  {
    hide Join, Pairs;
    match v
    case Array(items) =>
      ItemsSpellNormal(f, omits, items);
    case Object(members) =>
      MembersSpellNormal(f, omits, members);
      var ms := NormalMembers(f, SettledMembers(f, omits, members));
      var g := (m: Member<Text>) => Printed(m.key, Render(m.value));
      SortCommutes(MemberBefore, PrintedBefore, g, ms);
      RenderMembersIsMap(Sort(MemberBefore, ms));
      RenderMembersIsMap(ms);
    case _ =>
  }

  lemma {:induction false} ItemsSpellNormal<N>(f: Numbers<N>, omits: bool, items: seq<Loose<N>>)
    requires f.spell(f.zero) == f.spell(f.negativeZero)
    ensures CanonicalItems(f, omits, items)
         == if forall i :: 0 <= i < |items| ==> Printable(f, omits, items[i])
            then Some(RenderItems(NormalItems(f, SettledItems(f, omits, items)))) else None
    decreases items
  {
    hide Canonical, Render, Normal, Settled, Printable;
    if items != [] {
      CanonicalSpellsNormal(f, omits, items[0]);
      ItemsSpellNormal(f, omits, items[1..]);
      assert forall i :: 0 < i < |items| ==> items[i] == items[1..][i - 1];
    }
  }

  lemma {:induction false} MembersSpellNormal<N>(f: Numbers<N>, omits: bool, ms: seq<Member<Leaf<N>>>)
    requires f.spell(f.zero) == f.spell(f.negativeZero)
    ensures CanonicalMembers(f, omits, ms)
         == if forall i :: 0 <= i < |ms| ==> Printable(f, omits, ms[i].value) || (omits && IsAbsent(ms[i].value))
            then Some(RenderMembers(NormalMembers(f, SettledMembers(f, omits, ms)))) else None
    decreases ms
  {
    hide Canonical, Render, Normal, Settled, Printable;
    if ms != [] {
      CanonicalSpellsNormal(f, omits, ms[0].value);
      MembersSpellNormal(f, omits, ms[1..]);
      assert forall i :: 0 < i < |ms| ==> ms[i] == ms[1..][i - 1];
    }
  }

  // Normal forms agree with deep equality

  /** No number is refused or negative zero, and nothing is absent. */
  predicate Calm<N>(f: Numbers<N>, v: Loose<N>) {
    match v
    case Number(Undefined) => false
    case Number(Numeric(n)) => f.spell(n).Some? && n != f.negativeZero
    case Array(items) => forall i :: 0 <= i < |items| ==> Calm(f, items[i])
    case Object(members) => forall i :: 0 <= i < |members| ==> Calm(f, members[i].value)
    case _ => true
  }

  /** Each settled member comes from a member that is kept. */
  lemma {:induction false} SettledFrom<N>(f: Numbers<N>, omits: bool, ms: seq<Member<Leaf<N>>>, k: nat) returns (i: nat)
    requires k < |SettledMembers(f, omits, ms)|
    ensures i < |ms| && !(omits && IsAbsent(ms[i].value))
    ensures SettledMembers(f, omits, ms)[k] == Member(ms[i].key, Settled(f, omits, ms[i].value))
  {
    hide Settled, IsAbsent;
    if omits && IsAbsent(ms[0].value) {
      i := SettledFrom(f, omits, ms[1..], k);
      i := i + 1;
    } else if k == 0 {
      i := 0;
    } else {
      i := SettledFrom(f, omits, ms[1..], k - 1);
      i := i + 1;
    }
  }

  lemma {:induction false} SettledMembersAreDistinct<N>(f: Numbers<N>, omits: bool, ms: seq<Member<Leaf<N>>>)
    requires DistinctKeys(ms)
    ensures DistinctKeys(SettledMembers(f, omits, ms))
  {
    hide Settled, IsAbsent;
    if ms != [] {
      var tail := SettledMembers(f, omits, ms[1..]);
      SettledMembersAreDistinct(f, omits, ms[1..]);
      forall k | 0 <= k < |tail|
        ensures tail[k].key != ms[0].key
      {
        var i := SettledFrom(f, omits, ms[1..], k);
      }
    }
  }

  lemma {:induction false} SettledIsCalm<N>(f: Numbers<N>, omits: bool, v: Loose<N>)
    requires f.zero != f.negativeZero && f.spell(f.zero).Some?
    requires Printable(f, omits, v) && Admitted(v)
    ensures Calm(f, Settled(f, omits, v)) && Admitted(Settled(f, omits, v))
    decreases v
  {
    match v
    case Array(items) =>
      forall i | 0 <= i < |items|
        ensures Calm(f, Settled(f, omits, items[i])) && Admitted(Settled(f, omits, items[i]))
      {
        SettledIsCalm(f, omits, items[i]);
      }
    case Object(members) =>
      SettledMembersAreDistinct(f, omits, members);
      var settled := SettledMembers(f, omits, members);
      forall k | 0 <= k < |settled|
        ensures Calm(f, settled[k].value) && Admitted(settled[k].value)
      {
        var i := SettledFrom(f, omits, members, k);
        SettledIsCalm(f, omits, members[i].value);
      }
    case _ =>
  }

  /** Settling changes nothing in a value without absent members and negative zeros. */
  lemma {:induction false} CalmIsSettled<N>(f: Numbers<N>, omits: bool, v: Loose<N>)
    requires Calm(f, v)
    ensures Settled(f, omits, v) == v && Printable(f, omits, v)
    decreases v
  {
    match v
    case Array(items) =>
      forall i | 0 <= i < |items|
        ensures Settled(f, omits, items[i]) == items[i] && Printable(f, omits, items[i])
      {
        CalmIsSettled(f, omits, items[i]);
      }
    case Object(members) =>
      CalmMembersAreSettled(f, omits, members);
    case _ =>
  }

  lemma {:induction false} CalmMembersAreSettled<N>(f: Numbers<N>, omits: bool, ms: seq<Member<Leaf<N>>>)
    requires forall i :: 0 <= i < |ms| ==> Calm(f, ms[i].value)
    ensures SettledMembers(f, omits, ms) == ms
    ensures forall i :: 0 <= i < |ms| ==> Printable(f, omits, ms[i].value)
    decreases ms
  {
    hide Settled, Printable;
    if ms != [] {
      assert !IsAbsent(ms[0].value);
      CalmIsSettled(f, omits, ms[0].value);
      CalmMembersAreSettled(f, omits, ms[1..]);
      assert ms == [ms[0]] + ms[1..];
      assert forall i :: 0 < i < |ms| ==> ms[i] == ms[1..][i - 1];
    }
  }

  lemma {:induction false} NormalIsReadable<N(!new)>(f: Numbers<N>, v: Loose<N>)
    requires Formats(f) && Calm(f, v)
    ensures Readable(Normal(f, v))
    decreases v
  {
    match v
    case Array(items) =>
      forall i | 0 <= i < |items|
        ensures Readable(Normal(f, items[i]))
      {
        NormalIsReadable(f, items[i]);
      }
    case Object(members) =>
      var ms := NormalMembers(f, members);
      forall i | 0 <= i < |members|
        ensures Readable(ms[i].value)
      {
        NormalIsReadable(f, members[i].value);
      }
      var sorted := Sort(MemberBefore, ms);
      SameElements(sorted, ms);
      forall k | 0 <= k < |sorted|
        ensures Readable(sorted[k].value)
      {
        var j := SortedFrom(MemberBefore, ms, k);
      }
    case _ =>
  }

  /** Sorting the members sorts the keys. */
  lemma SortedKeysShow<N>(ms: seq<Member<N>>)
    ensures |SortedKeys(ms)| == |Sort(MemberBefore, ms)| == |ms|
    ensures forall i :: 0 <= i < |ms| ==> SortedKeys(ms)[i] == Sort(MemberBefore, ms)[i].key
  {
    hide Sort;
    SameElements(Sort(MemberBefore, ms), ms);
    var key := (m: Member<N>) => m.key;
    SortCommutes(MemberBefore, Less, key, ms);
    assert Map(key, ms) == Keys(ms);
  }

  /** Beside each sorted key stands the value the object holds under it. */
  lemma SortedValueShows<N>(ms: seq<Member<N>>, i: nat)
    requires DistinctKeys(ms) && i < |ms|
    ensures |SortedKeys(ms)| == |Sort(MemberBefore, ms)| == |ms|
    ensures ValueAt(ms, SortedKeys(ms)[i]) == Sort(MemberBefore, ms)[i].value
  {
    hide Sort, SortedKeys;
    SortedKeysShow(ms);
    var j := SortedFrom(MemberBefore, ms, i);
    assert Keys(ms)[j] == ms[j].key;
    LookupAt(ms, j);
  }

  lemma SortedNormalShows<N>(f: Numbers<N>, ms: seq<Member<Leaf<N>>>)
    ensures var (sorted, normal) := (Sort(MemberBefore, ms), Sort(MemberBefore, NormalMembers(f, ms)));
            && |sorted| == |normal| == |ms|
            && forall i :: 0 <= i < |ms| ==> normal[i] == Member(sorted[i].key, Normal(f, sorted[i].value))
  {
    hide Normal, Sort;
    SameElements(Sort(MemberBefore, ms), ms);
    var normal := (m: Member<Leaf<N>>) => Member(m.key, Normal(f, m.value));
    SortCommutes(MemberBefore, MemberBefore, normal, ms);
    assert Map(normal, ms) == NormalMembers(f, ms);
  }

  lemma ScalarsAgree<N(!new)>(f: Numbers<N>, a: Loose<N>, b: Loose<N>)
    requires Formats(f) && Calm(f, a) && Calm(f, b)
    requires !(a.Array? && b.Array?) && !(a.Object? && b.Object?)
    ensures Normal(f, a) == Normal(f, b) <==> DeepEqual(a, b)
  {
    hide Sort, NormalMembers, NormalItems;
  }

  /** Two values without absent members and negative zeros have one normal form exactly when they are deeply equal. */
  lemma {:induction false} NormalAgreesWithDeepEqual<N(!new)>(f: Numbers<N>, a: Loose<N>, b: Loose<N>)
    requires Formats(f)
    requires Calm(f, a) && Calm(f, b) && Admitted(a) && Admitted(b)
    ensures Normal(f, a) == Normal(f, b) <==> DeepEqual(a, b)
    decreases a
  {
    hide Formats, Sort, NormalItems, NormalMembers, SortedKeys, ValueAt;
    if a.Array? && b.Array? {
      forall i | 0 <= i < |a.items| && i < |b.items|
        ensures Normal(f, a.items[i]) == Normal(f, b.items[i]) <==> DeepEqual(a.items[i], b.items[i])
      {
        NormalAgreesWithDeepEqual(f, a.items[i], b.items[i]);
      }
      ItemsAgree(f, a.items, b.items);
    } else if a.Object? && b.Object? {
      var sa, sb := Sort(MemberBefore, a.members), Sort(MemberBefore, b.members);
      forall i | 0 <= i < |sa| && i < |sb|
        ensures Normal(f, sa[i].value) == Normal(f, sb[i].value) <==> DeepEqual(sa[i].value, sb[i].value)
      {
        SameElements(sa, a.members);
        SameElements(sb, b.members);
        var p := SortedFrom(MemberBefore, a.members, i);
        var q := SortedFrom(MemberBefore, b.members, i);
        NormalAgreesWithDeepEqual(f, a.members[p].value, b.members[q].value);
      }
      ObjectDeepEqual(a.members, b.members);
      ObjectNormalEqual(f, a.members, b.members);
    } else {
      ScalarsAgree(f, a, b);
    }
  }

  lemma ItemsAgree<N(!new)>(f: Numbers<N>, xs: seq<Loose<N>>, ys: seq<Loose<N>>)
    requires forall i :: 0 <= i < |xs| && i < |ys| ==>
               (Normal(f, xs[i]) == Normal(f, ys[i]) <==> DeepEqual(xs[i], ys[i]))
    ensures NormalItems(f, xs) == NormalItems(f, ys)
       <==> |xs| == |ys| && forall i :: 0 <= i < |xs| ==> DeepEqual(xs[i], ys[i])
  {
    hide Normal, DeepEqual, NormalItems;
    if NormalItems(f, xs) == NormalItems(f, ys) {
      forall i | 0 <= i < |xs| ensures DeepEqual(xs[i], ys[i]) {
        assert NormalItems(f, xs)[i] == NormalItems(f, ys)[i];
      }
    }
  }

  /** Deep equality of objects compares the sorted members one by one. */
  lemma ObjectDeepEqual<N>(ms: seq<Member<Leaf<N>>>, ns: seq<Member<Leaf<N>>>)
    requires DistinctKeys(ms) && DistinctKeys(ns)
    ensures var (sa, sb) := (Sort(MemberBefore, ms), Sort(MemberBefore, ns));
            && |sa| == |ms| && |sb| == |ns|
            && (DeepEqual(Object(ms), Object(ns)) <==>
                  |sa| == |sb| && forall i :: 0 <= i < |sa| ==>
                    sa[i].key == sb[i].key && DeepEqual(sa[i].value, sb[i].value))
  {
    hide Sort, ValueAt, SortedKeys, DistinctKeys;
    var sa, sb := Sort(MemberBefore, ms), Sort(MemberBefore, ns);
    SortedKeysShow(ms);
    SortedKeysShow(ns);
    forall i | 0 <= i < |ms| ensures ValueAt(ms, SortedKeys(ms)[i]) == sa[i].value { SortedValueShows(ms, i); }
    forall i | 0 <= i < |ns| ensures ValueAt(ns, SortedKeys(ns)[i]) == sb[i].value { SortedValueShows(ns, i); }
  }

  lemma ObjectNormalEqual<N>(f: Numbers<N>, ms: seq<Member<Leaf<N>>>, ns: seq<Member<Leaf<N>>>)
    ensures var (sa, sb) := (Sort(MemberBefore, ms), Sort(MemberBefore, ns));
            Normal(f, Object(ms)) == Normal(f, Object(ns)) <==>
              |sa| == |sb| && forall i :: 0 <= i < |sa| ==>
                sa[i].key == sb[i].key && Normal(f, sa[i].value) == Normal(f, sb[i].value)
  {
    hide Sort, NormalMembers;
    var sa, sb := Sort(MemberBefore, ms), Sort(MemberBefore, ns);
    SortedNormalShows(f, ms);
    SortedNormalShows(f, ns);
    SameElements(sa, ms);
    SameElements(sb, ns);
    var na, nb := Sort(MemberBefore, NormalMembers(f, ms)), Sort(MemberBefore, NormalMembers(f, ns));
    assert Normal(f, Object(ms)) == Object(na) && Normal(f, Object(ns)) == Object(nb);
    hide Normal;
    if na == nb {
      forall i | 0 <= i < |sa|
        ensures sa[i].key == sb[i].key && Normal(f, sa[i].value) == Normal(f, sb[i].value)
      {
        assert na[i] == nb[i];
      }
    }
  }

  // Main results

  /**
   * Whenever two values have canonical texts, the texts are equal exactly when the values are deeply equal once
   * absent members are left out and negative zero is read as zero.
   */
  lemma CanonicalIdentifiesValues<N(!new)>(f: Numbers<N>, omits: bool, a: Loose<N>, b: Loose<N>)
    requires Formats(f) && Admitted(a) && Admitted(b)
    requires Canonical(f, omits, a).Some? && Canonical(f, omits, b).Some?
    ensures Canonical(f, omits, a) == Canonical(f, omits, b)
       <==> DeepEqual(Settled(f, omits, a), Settled(f, omits, b))
  {
    hide Canonical, Settled, DeepEqual, Normal, Render, Calm, Admitted, Readable;
    var sa, sb := Settled(f, omits, a), Settled(f, omits, b);
    CanonicalSpellsNormal(f, omits, a);
    CanonicalSpellsNormal(f, omits, b);
    SettledIsCalm(f, omits, a);
    SettledIsCalm(f, omits, b);
    NormalIsReadable(f, sa);
    NormalIsReadable(f, sb);
    NormalAgreesWithDeepEqual(f, sa, sb);
    if Render(Normal(f, sa)) == Render(Normal(f, sb)) {
      RenderIsReadable(Normal(f, sa), Normal(f, sb), [], []);
    }
  }

  /** A value has a canonical text exactly when no number in it is non-finite and nothing absent would be written. */
  lemma CanonicalExists<N>(f: Numbers<N>, omits: bool, v: Loose<N>)
    requires f.spell(f.zero) == f.spell(f.negativeZero)
    ensures Canonical(f, omits, v).Some? <==> Printable(f, omits, v)
  {
    CanonicalSpellsNormal(f, omits, v);
  }

  /** On finite values without absent members and negative zeros, equal texts mean deeply equal values. */
  lemma CanonicalAgreesWithDeepEqual<N(!new)>(f: Numbers<N>, omits: bool, a: Loose<N>, b: Loose<N>)
    requires Formats(f) && Admitted(a) && Admitted(b)
    requires Calm(f, a) && Calm(f, b)
    ensures Canonical(f, omits, a).Some? && Canonical(f, omits, b).Some?
    ensures Canonical(f, omits, a) == Canonical(f, omits, b) <==> DeepEqual(a, b)
  {
    hide Canonical, Settled, DeepEqual, Calm, Admitted, Printable;
    CalmIsSettled(f, omits, a);
    CalmIsSettled(f, omits, b);
    CanonicalExists(f, omits, a);
    CanonicalExists(f, omits, b);
    CanonicalIdentifiesValues(f, omits, a, b);
  }

  /** Outside those values the agreement fails: both zeros have the text `0` and are not deeply equal. */
  lemma ZerosShareTheirText<N(!new)>(f: Numbers<N>, omits: bool)
    requires Formats(f)
    ensures var (zero, negative) := (Number(Numeric(f.zero)), Number(Numeric(f.negativeZero)));
            Canonical(f, omits, zero) == Canonical(f, omits, negative) == Some([ZERO]) && !DeepEqual(zero, negative)
  {
  }

  /** An object with an absent member shares its text with the empty object, and is not deeply equal to it. */
  lemma AbsentMembersShareTheirText<N>(f: Numbers<N>, key: Text)
    ensures var (bare, absent) := (Object([]), Object([Member(key, Number(Undefined))]));
            Canonical(f, true, bare) == Canonical(f, true, absent) != None && !DeepEqual(bare, absent)
  {
    var ms: seq<Member<Leaf<N>>> := [Member(key, Number(Undefined))];
    assert ms[1..] == [];
    assert CanonicalMembers(f, true, ms) == Some([]);
  }

  lemma {:induction false} SettledMembersConcatenate<N>(f: Numbers<N>, omits: bool,
                                                        xs: seq<Member<Leaf<N>>>, ys: seq<Member<Leaf<N>>>)
    ensures SettledMembers(f, omits, xs + ys) == SettledMembers(f, omits, xs) + SettledMembers(f, omits, ys)
  {
    hide Settled, IsAbsent;
    if xs == [] {
      assert xs + ys == ys;
    } else {
      assert (xs + ys)[0] == xs[0] && (xs + ys)[1..] == xs[1..] + ys;
      SettledMembersConcatenate(f, omits, xs[1..], ys);
    }
  }

  lemma SettledMembersAround<N>(f: Numbers<N>, omits: bool, before: seq<Member<Leaf<N>>>, m: Member<Leaf<N>>,
                                after: seq<Member<Leaf<N>>>)
    ensures multiset(SettledMembers(f, omits, before + ([m] + after)))
         == multiset(SettledMembers(f, omits, [m])) + multiset(SettledMembers(f, omits, before + after))
  {
    hide SettledMembers;
    SettledMembersConcatenate(f, omits, before, after);
    SettledMembersConcatenate(f, omits, [m], after);
    SettledMembersConcatenate(f, omits, before, [m] + after);
  }

  lemma {:induction false} SettledMembersRearranged<N>(f: Numbers<N>, omits: bool,
                                                       ms: seq<Member<Leaf<N>>>, ns: seq<Member<Leaf<N>>>)
    requires multiset(ms) == multiset(ns)
    ensures multiset(SettledMembers(f, omits, ms)) == multiset(SettledMembers(f, omits, ns))
    decreases ms
  {
    hide SettledMembers;
    if ms != [] {
      var before, after := TakeOut(ms, ns);
      SettledMembersRearranged(f, omits, ms[1..], before + after);
      SettledMembersAround(f, omits, before, ms[0], after);
      SettledMembersAround(f, omits, [], ms[0], ms[1..]);
      assert [] + ms[1..] == ms[1..] && [] + ([ms[0]] + ms[1..]) == ms;
    } else {
      assert ns == [] by { SameElements(ms, ns); }
    }
  }

  lemma MemberOrder<N(!new)>()
    ensures StrictOrder<Member<N>>(MemberBefore)
  {
    forall x: Member<N>, y: Member<N>, z: Member<N>
      ensures !MemberBefore(x, x)
      ensures MemberBefore(x, y) && MemberBefore(y, z) ==> MemberBefore(x, z)
      ensures !MemberBefore(x, y) && !MemberBefore(y, z) ==> !MemberBefore(x, z)
    {
      LessIsIrreflexive(x.key);
      if MemberBefore(x, y) && MemberBefore(y, z) {
        LessIsTransitive(x.key, y.key, z.key);
      }
      if !MemberBefore(x, y) && !MemberBefore(y, z) && MemberBefore(x, z) {
        LessIsTotal(x.key, y.key);
        LessIsTotal(y.key, z.key);
        if x.key != y.key && y.key != z.key {
          LessIsTransitive(z.key, y.key, x.key);
          LessIsTransitive(x.key, z.key, x.key);
        }
      }
    }
  }

  /** Members of distinct keys have a single sorted arrangement. */
  lemma SortForgetsOrder<N(!new)>(ms: seq<Member<N>>, ns: seq<Member<N>>)
    requires multiset(ms) == multiset(ns) && DistinctKeys(ms)
    ensures Sort(MemberBefore, ms) == Sort(MemberBefore, ns)
  {
    MemberOrder<N>();
    SortIsOrdered(MemberBefore, ms);
    SortIsOrdered(MemberBefore, ns);
    assert Separated(MemberBefore, ms) by {
      forall i, j | 0 <= i < j < |ms|
        ensures MemberBefore(ms[i], ms[j]) || MemberBefore(ms[j], ms[i])
      {
        LessIsTotal(ms[i].key, ms[j].key);
      }
    }
    SeparatedByRearrangement(MemberBefore, ms, Sort(MemberBefore, ms));
    OrderedIsUnique(MemberBefore, Sort(MemberBefore, ms), Sort(MemberBefore, ns));
  }

  /** The order of the outermost members does not matter. */
  lemma OutermostOrderIsIrrelevant<N(!new)>(f: Numbers<N>, omits: bool,
                                            ms: seq<Member<Leaf<N>>>, ns: seq<Member<Leaf<N>>>)
    requires f.spell(f.zero) == f.spell(f.negativeZero)
    requires multiset(ms) == multiset(ns) && DistinctKeys(ms)
    ensures Canonical(f, omits, Object(ms)) == Canonical(f, omits, Object(ns))
  {
    hide Canonical, Render, Sort, DistinctKeys, SettledMembers, NormalMembers;
    CanonicalSpellsNormal(f, omits, Object(ms));
    CanonicalSpellsNormal(f, omits, Object(ns));
    SameElements(ms, ns);
    PrintableMembersRearranged(f, omits, ms, ns);
    PrintableMembersRearranged(f, omits, ns, ms);
    var sm, sn := SettledMembers(f, omits, ms), SettledMembers(f, omits, ns);
    SettledMembersRearranged(f, omits, ms, ns);
    SettledMembersAreDistinct(f, omits, ms);
    SortForgetsOrder(sm, sn);
    SortedNormalShows(f, sm);
    SortedNormalShows(f, sn);
    SameElements(sm, sn);
    assert Sort(MemberBefore, NormalMembers(f, sm)) == Sort(MemberBefore, NormalMembers(f, sn));
  }

  lemma PrintableMembersRearranged<N>(f: Numbers<N>, omits: bool,
                                      ms: seq<Member<Leaf<N>>>, ns: seq<Member<Leaf<N>>>)
    requires multiset(ms) == multiset(ns)
    ensures Printable(f, omits, Object(ms)) ==> Printable(f, omits, Object(ns))
  {
    forall j | Printable(f, omits, Object(ms)) && 0 <= j < |ns|
      ensures Printable(f, omits, ns[j].value) || (omits && IsAbsent(ns[j].value))
    {
      assert ns[j] in multiset(ns);
      var i :| 0 <= i < |ms| && ms[i] == ns[j];
    }
  }

  /** The same value, except that any object in it may list its members in another order. */
  ghost predicate Rearranged<N(!new)>(a: Loose<N>, b: Loose<N>)
    decreases a
  {
    if a.Array? && b.Array? then
      |a.items| == |b.items| && forall i :: 0 <= i < |a.items| ==> Rearranged(a.items[i], b.items[i])
    else if a.Object? && b.Object? then
      exists ms: seq<Member<Leaf<N>>> :: multiset(ms) == multiset(b.members) && |ms| == |a.members|
        && forall i :: 0 <= i < |ms| ==> ms[i].key == a.members[i].key && Rearranged(a.members[i].value, ms[i].value)
    else
      !IsContainer(a) && a == b
  }

  lemma RearrangedIsAbsent<N(!new)>(a: Loose<N>, b: Loose<N>)
    requires Rearranged(a, b)
    ensures IsAbsent(a) == IsAbsent(b)
    ensures a.Array? ==> b.Array?
    ensures a.Object? ==> b.Object?
    ensures !IsContainer(a) ==> a == b
  {
  }

  lemma {:induction false} ItemsAlike<N>(f: Numbers<N>, omits: bool, xs: seq<Loose<N>>, ys: seq<Loose<N>>)
    requires |xs| == |ys| && forall i :: 0 <= i < |xs| ==> Canonical(f, omits, xs[i]) == Canonical(f, omits, ys[i])
    ensures CanonicalItems(f, omits, xs) == CanonicalItems(f, omits, ys)
    ensures Canonical(f, omits, Array(xs)) == Canonical(f, omits, Array(ys))
  {
    if xs != [] {
      hide Canonical;
      ItemsAlike(f, omits, xs[1..], ys[1..]);
    }
  }

  lemma {:induction false} MembersAlike<N>(f: Numbers<N>, omits: bool,
                                           ms: seq<Member<Leaf<N>>>, ns: seq<Member<Leaf<N>>>)
    requires |ms| == |ns|
    requires forall i :: 0 <= i < |ms| ==>
               && ms[i].key == ns[i].key && IsAbsent(ms[i].value) == IsAbsent(ns[i].value)
               && Canonical(f, omits, ms[i].value) == Canonical(f, omits, ns[i].value)
    ensures CanonicalMembers(f, omits, ms) == CanonicalMembers(f, omits, ns)
    ensures Canonical(f, omits, Object(ms)) == Canonical(f, omits, Object(ns))
  {
    hide IsAbsent, Sort;
    if ms != [] {
      hide Canonical;
      MembersAlike(f, omits, ms[1..], ns[1..]);
    }
  }

  /** The order in which the objects of a value list their members changes neither its text nor whether it has one. */
  lemma {:induction false} MemberOrderIsIrrelevant<N(!new)>(f: Numbers<N>, omits: bool, a: Loose<N>, b: Loose<N>)
    requires f.spell(f.zero) == f.spell(f.negativeZero)
    requires Admitted(a) && Rearranged(a, b)
    ensures Canonical(f, omits, a) == Canonical(f, omits, b)
    decreases a, 1
  {
    hide Canonical, IsAbsent, DistinctKeys;
    RearrangedIsAbsent(a, b);
    match a
    case Array(items) =>
      forall i | 0 <= i < |items| ensures Canonical(f, omits, items[i]) == Canonical(f, omits, b.items[i]) {
        MemberOrderIsIrrelevant(f, omits, items[i], b.items[i]);
      }
      ItemsAlike(f, omits, items, b.items);
    case Object(members) =>
      ObjectOrderIsIrrelevant(f, omits, a, b);
    case _ =>
  }

  lemma {:induction false} ObjectOrderIsIrrelevant<N(!new)>(f: Numbers<N>, omits: bool, a: Loose<N>, b: Loose<N>)
    requires f.spell(f.zero) == f.spell(f.negativeZero)
    requires Admitted(a) && Rearranged(a, b) && a.Object? && b.Object?
    ensures Canonical(f, omits, a) == Canonical(f, omits, b)
    decreases a, 0
  {
    hide Canonical, IsAbsent, DistinctKeys, Admitted, Rearranged;
    var members := a.members;
    var ms := RearrangedMembers(a, b);
    forall i | 0 <= i < |ms|
      ensures Canonical(f, omits, members[i].value) == Canonical(f, omits, ms[i].value)
      ensures IsAbsent(members[i].value) == IsAbsent(ms[i].value)
    {
      MemberOrderIsIrrelevant(f, omits, members[i].value, ms[i].value);
      RearrangedIsAbsent(members[i].value, ms[i].value);
    }
    MembersAlike(f, omits, members, ms);
    OutermostOrderIsIrrelevant(f, omits, ms, b.members);
  }

  lemma RearrangedMembers<N(!new)>(a: Loose<N>, b: Loose<N>) returns (ms: seq<Member<Leaf<N>>>)
    requires Admitted(a) && Rearranged(a, b) && a.Object? && b.Object?
    ensures multiset(ms) == multiset(b.members) && |ms| == |a.members| && DistinctKeys(ms)
    ensures forall i :: 0 <= i < |ms| ==> ms[i].key == a.members[i].key
    ensures forall i :: 0 <= i < |ms| ==> Admitted(a.members[i].value) && Rearranged(a.members[i].value, ms[i].value)
  {
    hide DistinctKeys;
    ms :| multiset(ms) == multiset(b.members) && |ms| == |a.members|
      && forall i :: 0 <= i < |ms| ==> ms[i].key == a.members[i].key && Rearranged(a.members[i].value, ms[i].value);
    SameKeysAreDistinct(a.members, ms);
  }

  lemma SameKeysAreDistinct<N>(ms: seq<Member<N>>, ns: seq<Member<N>>)
    requires DistinctKeys(ms) && |ms| == |ns| && forall i :: 0 <= i < |ms| ==> ns[i].key == ms[i].key
    ensures DistinctKeys(ns)
  {
  }

  /** A canonical text lists the members of every object in strictly ascending order of their names. */
  lemma MembersAscend<N(!new)>(f: Numbers<N>, ms: seq<Member<Leaf<N>>>)
    requires DistinctKeys(ms)
    ensures var listed := Normal(f, Object(ms)).members;
            forall i, j :: 0 <= i < j < |listed| ==> Less(listed[i].key, listed[j].key)
  {
    hide Normal;
    var ns := NormalMembers(f, ms);
    var listed := Sort(MemberBefore, ns);
    assert Normal(f, Object(ms)) == Object(listed) by { NormalOfObject(f, ms); }
    MemberOrder<Text>();
    SortIsOrdered(MemberBefore, ns);
    assert Separated(MemberBefore, ns) by {
      forall i, j | 0 <= i < j < |ns|
        ensures MemberBefore(ns[i], ns[j]) || MemberBefore(ns[j], ns[i])
      {
        LessIsTotal(ns[i].key, ns[j].key);
      }
    }
    SeparatedByRearrangement(MemberBefore, ns, listed);
    StrictlyOrdered(MemberBefore, listed);
    assert forall i, j :: 0 <= i < j < |listed| ==> MemberBefore(listed[i], listed[j]);
  }

  lemma NormalOfObject<N>(f: Numbers<N>, ms: seq<Member<Leaf<N>>>)
    ensures Normal(f, Object(ms)) == Object(Sort(MemberBefore, NormalMembers(f, ms)))
  {
  }

  /** Comparing a value with itself, the shortcut for identical references would change nothing. */
  lemma {:induction false} DeepEqualReflexive<N>(v: Loose<N>)
    requires Admitted(v)
    ensures DeepEqual(v, v)
    decreases v
  {
    hide SortedKeys, ValueAt;
    match v
    case Array(items) =>
      forall i | 0 <= i < |items| ensures DeepEqual(items[i], items[i]) { DeepEqualReflexive(items[i]); }
    case Object(members) =>
      forall i | 0 <= i < |SortedKeys(members)|
        ensures DeepEqual(ValueAt(members, SortedKeys(members)[i]), ValueAt(members, SortedKeys(members)[i]))
      {
        var key := SortedKeys(members)[i];
        assert key in SortedKeys(members);
        var j :| 0 <= j < |members| && members[j] == Member(key, ValueAt(members, key));
        DeepEqualReflexive(members[j].value);
      }
    case _ =>
  }

  // The texts, shape by shape

  /** The texts with a comma between each and the next. */
  function Commas(texts: seq<Text>): Text {
    if texts == [] then []
    else if |texts| == 1 then texts[0]
    else Commas(texts[..|texts| - 1]) + Ascii(",") + texts[|texts| - 1]
  }

  lemma {:induction false} JoinIsCommas(texts: seq<Text>)
    ensures Join(texts) == Commas(texts)
  {
    if |texts| > 1 {
      var n := |texts| - 1;
      JoinIsCommas(texts[..n]);
      JoinOfAppend(texts[..n], texts[n]);
      assert texts == texts[..n] + [texts[n]] && Ascii(",") == [COMMA];
    }
  }

  lemma {:induction false} JoinOfAppend(texts: seq<Text>, last: Text)
    requires texts != []
    ensures Join(texts + [last]) == Join(texts) + [COMMA] + last
  {
    if |texts| == 1 {
      assert (texts + [last])[1..] == [last];
    } else {
      assert (texts + [last])[1..] == texts[1..] + [last];
      JoinOfAppend(texts[1..], last);
    }
  }

  /** The texts of scalars; an absent value and a number that is not finite have none. */
  lemma ScalarTexts<N>(f: Numbers<N>, omits: bool, n: N, t: Text)
    ensures Canonical(f, omits, Null) == Some(Ascii("null"))
    ensures Canonical(f, omits, Bool(true)) == Some(Ascii("true"))
    ensures Canonical(f, omits, Bool(false)) == Some(Ascii("false"))
    ensures Canonical(f, omits, Number(Undefined)) == None
    ensures Canonical(f, omits, Number(Numeric(n))) == f.spell(n)
    ensures Canonical(f, omits, String(t)) == Some(Quoted(t))
  {
    assert NULL_TEXT == Ascii("null") && TRUE_TEXT == Ascii("true") && FALSE_TEXT == Ascii("false");
  }

  /** An array is the texts of its items between brackets, with commas. */
  lemma ArrayText<N>(f: Numbers<N>, omits: bool, items: seq<Loose<N>>, texts: seq<Text>)
    requires |texts| == |items| && forall i :: 0 <= i < |items| ==> Canonical(f, omits, items[i]) == Some(texts[i])
    ensures Canonical(f, omits, Array(items)) == Some(Ascii("[") + Commas(texts) + Ascii("]"))
  {
    hide Canonical, Join, Commas;
    TextsOfItems(f, omits, items, texts);
    JoinIsCommas(texts);
    assert Ascii("[") == [OPEN_BRACKET] && Ascii("]") == [CLOSE_BRACKET];
    ArrayUnfolds(f, omits, items);
  }

  lemma ArrayUnfolds<N>(f: Numbers<N>, omits: bool, items: seq<Loose<N>>)
    ensures var texts := CanonicalItems(f, omits, items);
            Canonical(f, omits, Array(items))
            == if texts.None? then None else Some([OPEN_BRACKET] + Join(texts.value) + [CLOSE_BRACKET])
  {
  }

  lemma {:induction false} TextsOfItems<N>(f: Numbers<N>, omits: bool, items: seq<Loose<N>>, texts: seq<Text>)
    requires |texts| == |items| && forall i :: 0 <= i < |items| ==> Canonical(f, omits, items[i]) == Some(texts[i])
    ensures CanonicalItems(f, omits, items) == Some(texts)
  {
    hide Canonical;
    if items != [] {
      TextsOfItems(f, omits, items[1..], texts[1..]);
      assert texts == [texts[0]] + texts[1..];
    }
  }

  /** A member is its quoted name, a colon and the text of its value. */
  function MemberTexts<N>(ms: seq<Member<N>>, texts: seq<Text>): (r: seq<Text>)
    requires |texts| == |ms|
    ensures |r| == |ms|
  {
    seq(|ms|, i requires 0 <= i < |ms| => Quoted(ms[i].key) + Ascii(":") + texts[i])
  }

  /** An object whose members are listed in the order of their names is their texts between braces, with commas. */
  lemma ObjectText<N>(f: Numbers<N>, omits: bool, ms: seq<Member<Leaf<N>>>, texts: seq<Text>)
    requires |texts| == |ms| && forall i :: 0 <= i < |ms| ==> Canonical(f, omits, ms[i].value) == Some(texts[i])
    requires forall i, j :: 0 <= i < j < |ms| ==> Less(ms[i].key, ms[j].key)
    ensures Canonical(f, omits, Object(ms)) == Some(Ascii("{") + Commas(MemberTexts(ms, texts)) + Ascii("}"))
  {
    hide Canonical, Join, Commas, Quoted, Sort, Less, Pairs, CanonicalMembers;
    var ps := TextsOfMembers(f, omits, ms, texts);
    forall i, j | 0 <= i < j < |ps| ensures !PrintedBefore(ps[j], ps[i]) {
      assert Less(ms[i].key, ms[j].key);
      LessIsOneWay(ms[i].key, ms[j].key);
    }
    SortKeepsAscending(PrintedBefore, ps);
    JoinIsCommas(MemberTexts(ms, texts));
    PairsAreMemberTexts(ms, ps, texts);
    assert Ascii("{") == [OPEN_BRACE] && Ascii("}") == [CLOSE_BRACE];
    ObjectUnfolds(f, omits, ms);
  }

  lemma ObjectUnfolds<N>(f: Numbers<N>, omits: bool, ms: seq<Member<Leaf<N>>>)
    ensures var entries := CanonicalMembers(f, omits, ms);
            Canonical(f, omits, Object(ms))
            == if entries.None? then None
               else Some([OPEN_BRACE] + Join(Pairs(Sort(PrintedBefore, entries.value))) + [CLOSE_BRACE])
  {
  }

  lemma LessIsOneWay(a: Text, b: Text)
    requires Less(a, b)
    ensures !Less(b, a)
  {
    if a == b { LessIsIrreflexive(a); } else { LessIsTotal(a, b); }
  }

  lemma {:induction false} TextsOfMembers<N>(f: Numbers<N>, omits: bool, ms: seq<Member<Leaf<N>>>, texts: seq<Text>)
    returns (ps: seq<Printed>)
    requires |texts| == |ms| && forall i :: 0 <= i < |ms| ==> Canonical(f, omits, ms[i].value) == Some(texts[i])
    ensures CanonicalMembers(f, omits, ms) == Some(ps) && |ps| == |ms|
    ensures forall i :: 0 <= i < |ms| ==> ps[i] == Printed(ms[i].key, texts[i])
  {
    ps := [];
    if ms != [] {
      var rest := TextsOfMembers(f, omits, ms[1..], texts[1..]);
      ps := [Printed(ms[0].key, texts[0])] + rest;
    }
  }

  lemma {:induction false} PairsAreMemberTexts<N>(ms: seq<Member<N>>, ps: seq<Printed>, texts: seq<Text>)
    requires |texts| == |ps| == |ms|
    requires forall i :: 0 <= i < |ms| ==> ps[i] == Printed(ms[i].key, texts[i])
    ensures Pairs(ps) == MemberTexts(ms, texts)
  {
    hide Quoted;
    assert Ascii(":") == [COLON];
    if ms != [] {
      PairsAreMemberTexts(ms[1..], ps[1..], texts[1..]);
      assert MemberTexts(ms, texts)[1..] == MemberTexts(ms[1..], texts[1..]);
    }
  }

  /** An absent member is as if it were not there for the one serializer, and refused by the other. */
  lemma {:induction false} AbsentMember<N>(f: Numbers<N>, before: seq<Member<Leaf<N>>>, key: Text,
                                           after: seq<Member<Leaf<N>>>)
    ensures var with := before + [Member(key, Number(Undefined))] + after;
            && Canonical(f, true, Object(with)) == Canonical(f, true, Object(before + after))
            && Canonical(f, false, Object(with)) == None
  {
    hide Canonical, Join, Sort, Pairs, CanonicalMembers;
    var with := before + [Member(key, Number(Undefined))] + after;
    MembersWithAbsent(f, before, key, after);
    ObjectUnfolds(f, true, with);
    ObjectUnfolds(f, true, before + after);
    ObjectUnfolds(f, false, with);
  }

  lemma {:induction false} MembersWithAbsent<N>(f: Numbers<N>, before: seq<Member<Leaf<N>>>, key: Text,
                                                after: seq<Member<Leaf<N>>>)
    ensures var with := before + [Member(key, Number(Undefined))] + after;
            && CanonicalMembers(f, true, with) == CanonicalMembers(f, true, before + after)
            && CanonicalMembers(f, false, with) == None
  {
    var with := before + [Member(key, Number(Undefined))] + after;
    if before == [] {
      assert with[1..] == after && before + after == after;
    } else {
      assert with[1..] == before[1..] + [Member(key, Number(Undefined))] + after;
      assert (before + after)[1..] == before[1..] + after;
      MembersWithAbsent(f, before[1..], key, after);
    }
  }

  /** Scalars are deeply equal when they are the same, arrays when their items are, and no two kinds ever are. */
  lemma DeepEqualByKind<N>(a: Loose<N>, b: Loose<N>)
    ensures !IsContainer(a) || !IsContainer(b) ==> (DeepEqual(a, b) <==> a == b)
    ensures a.Array? && b.Array? ==>
              (DeepEqual(a, b) <==>
                 |a.items| == |b.items| && forall i :: 0 <= i < |a.items| ==> DeepEqual(a.items[i], b.items[i]))
    ensures a.Array? && b.Object? ==> !DeepEqual(a, b) && !DeepEqual(b, a)
  {
  }
}
