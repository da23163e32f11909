/**
 * The check that a response is marked `private` and `no-store`.
 *
 * A header value is a comma-separated list of directives (section 5.2 of RFC 9111); commas, quotes and backslashes
 * inside a quoted string (section 5.6.4 of RFC 9110) belong to an argument and separate nothing.
 */
module CacheControl {
  import opened Outcomes
  import opened Texts

  // Directives and how they are written

  predicate IsLetter(u: CodeUnit) {
    65 <= u <= 90 || 97 <= u <= 122
  }

  /** A unit of a token: a letter, a digit, or one of ``!#$%&'*+-.^_`|~``. */
  predicate IsTokenUnit(u: CodeUnit) {
    || IsLetter(u) || IsDigit(u)
    || u == 33 || (35 <= u <= 39) || u == 42 || u == 43 || u == 45 || u == 46
    || (94 <= u <= 96) || u == 124 || u == 126
  }

  predicate IsToken(t: Text) {
    t != [] && forall i :: 0 <= i < |t| ==> IsTokenUnit(t[i])
  }

  predicate IsQuotedUnit(u: CodeUnit) {
    u == TAB || u == 0x20 || u == 0x21 || 0x23 <= u <= 0x5B || 0x5D <= u <= 0x7E || 0x80 <= u <= 0xFF
  }

  predicate IsEscapable(u: CodeUnit) {
    u == TAB || 0x20 <= u <= 0x7E || 0x80 <= u <= 0xFF
  }

  /** A unit inside quotes, plain or after a backslash. */
  datatype Piece = Plain(u: CodeUnit) | Escaped(u: CodeUnit)

  predicate IsPiece(p: Piece) {
    match p
    case Plain(u) => IsQuotedUnit(u)
    case Escaped(u) => IsEscapable(u)
  }

  datatype Directive =
    | Bare(name: Text)
    | WithToken(name: Text, argument: Text)
    | WithQuoted(name: Text, pieces: seq<Piece>)

  predicate IsDirective(d: Directive) {
    && IsToken(d.name)
    && match d
       case Bare(_) => true
       case WithToken(_, argument) => IsToken(argument)
       case WithQuoted(_, pieces) => forall i :: 0 <= i < |pieces| ==> IsPiece(pieces[i])
  }

  function SpellPieces(ps: seq<Piece>): Text {
    if ps == [] then []
    else (match ps[0] case Plain(u) => [u] case Escaped(u) => [BACKSLASH, u]) + SpellPieces(ps[1..])
  }

  function Spell(d: Directive): Text {
    match d
    case Bare(name) => name
    case WithToken(name, argument) => name + [EQUALS] + argument
    case WithQuoted(name, pieces) => name + [EQUALS, QUOTE] + SpellPieces(pieces) + [QUOTE]
  }

  /** A member of the list: a directive or nothing, with optional whitespace around it. */
  datatype Slot = Slot(before: Text, directive: Option<Directive>, after: Text)

  predicate IsSpaces(t: Text) {
    forall i :: 0 <= i < |t| ==> t[i] == SPACE || t[i] == TAB
  }

  predicate IsSlot(s: Slot) {
    IsSpaces(s.before) && IsSpaces(s.after) && (s.directive.Some? ==> IsDirective(s.directive.value))
  }

  function SpellSlot(s: Slot): Text {
    s.before + (if s.directive.Some? then Spell(s.directive.value) else []) + s.after
  }

  /** The header value that lists the given members. */
  function Print(slots: seq<Slot>): Text
    requires slots != []
  {
    SpellSlot(slots[0]) + if |slots| == 1 then [] else [COMMA] + Print(slots[1..])
  }

  function Lower(t: Text): Text {
    // The letters outside ASCII that a directive may hold stay outside ASCII in lower case.
    seq(|t|, i requires 0 <= i < |t| => if 65 <= t[i] <= 90 then t[i] + 32 else t[i])
  }

  const PRIVATE: Text := [112, 114, 105, 118, 97, 116, 101]
  const NO_STORE: Text := [110, 111, 45, 115, 116, 111, 114, 101]

  /** The member is the directive of the given name, in any letter case and without an argument. */
  predicate IsBare(s: Slot, name: Text) {
    s.directive.Some? && s.directive.value.Bare? && Lower(s.directive.value.name) == name
  }

  predicate Lists(slots: seq<Slot>, name: Text) {
    exists i :: 0 <= i < |slots| && IsBare(slots[i], name)
  }

  // Recognition of one member

  function TrimStart(t: Text): Text {
    if t != [] && (t[0] == SPACE || t[0] == TAB) then TrimStart(t[1..]) else t
  }

  function TrimEnd(t: Text): Text {
    if t != [] && (t[|t| - 1] == SPACE || t[|t| - 1] == TAB) then TrimEnd(t[..|t| - 1]) else t
  }

  function Trim(t: Text): Text {
    TrimEnd(TrimStart(t))
  }

  /** How many units at the start of the text belong to a token. */
  function TokenLength(t: Text): (n: nat)
    ensures n <= |t| && (n < |t| ==> !IsTokenUnit(t[n]))
    ensures forall i :: 0 <= i < n ==> IsTokenUnit(t[i])
  {
    if t != [] && IsTokenUnit(t[0]) then 1 + TokenLength(t[1..]) else 0
  }

  /** The rest of a quoted string after its opening quote, up to the end of the text. */
  predicate ClosesAtEnd(t: Text) {
    if t == [] then false
    else if t[0] == QUOTE then |t| == 1
    else if t[0] == BACKSLASH then |t| > 1 && IsEscapable(t[1]) && ClosesAtEnd(t[2..])
    else IsQuotedUnit(t[0]) && ClosesAtEnd(t[1..])
  }

  /** The pattern of a directive: `token`, `token=token` or `token="quoted"`. */
  predicate MatchesDirective(t: Text) {
    var n := TokenLength(t);
    n > 0 && (
      || n == |t|
      || (t[n] == EQUALS && (
            || IsToken(t[n + 1..])
            || (n + 1 < |t| && t[n + 1] == QUOTE && ClosesAtEnd(t[n + 2..])))))
  }

  lemma {:induction false} PiecesClose(ps: seq<Piece>)
    requires forall i :: 0 <= i < |ps| ==> IsPiece(ps[i])
    ensures ClosesAtEnd(SpellPieces(ps) + [QUOTE])
  {
    var t := SpellPieces(ps) + [QUOTE];
    if ps != [] {
      var n := if ps[0].Plain? then 1 else 2;
      assert t[n..] == SpellPieces(ps[1..]) + [QUOTE];
      PiecesClose(ps[1..]);
    }
  }

  lemma {:induction false} ClosingTextHasPieces(t: Text) returns (ps: seq<Piece>)
    requires ClosesAtEnd(t)
    ensures forall i :: 0 <= i < |ps| ==> IsPiece(ps[i])
    ensures t == SpellPieces(ps) + [QUOTE]
  {
    if t[0] == QUOTE {
      ps := [];
      assert t == [QUOTE];
    } else {
      var n := if t[0] == BACKSLASH then 2 else 1;
      var rest := ClosingTextHasPieces(t[n..]);
      var p := if n == 2 then Escaped(t[1]) else Plain(t[0]);
      ps := [p] + rest;
      assert ps[1..] == rest;
      assert t == t[..n] + t[n..];
    }
  }

  lemma {:induction false} TokenThenOther(name: Text, rest: Text)
    requires forall i :: 0 <= i < |name| ==> IsTokenUnit(name[i])
    requires rest != [] ==> !IsTokenUnit(rest[0])
    ensures TokenLength(name + rest) == |name|
  {
    if name != [] {
      assert (name + rest)[1..] == name[1..] + rest;
      TokenThenOther(name[1..], rest);
    } else {
      assert name + rest == rest;
    }
  }

  /** Every directive matches the pattern. */
  lemma DirectiveMatches(d: Directive)
    requires IsDirective(d)
    ensures MatchesDirective(Spell(d))
  {
    hide SpellPieces, ClosesAtEnd;
    var t := Spell(d);
    match d
    case Bare(name) =>
      TokenThenOther(name, []);
      assert name + [] == t;
    case WithToken(name, argument) =>
      assert t == name + ([EQUALS] + argument);
      TokenThenOther(name, [EQUALS] + argument);
      assert t[|name| + 1..] == argument;
    case WithQuoted(name, pieces) =>
      var rest := SpellPieces(pieces) + [QUOTE];
      assert t == name + ([EQUALS, QUOTE] + rest);
      TokenThenOther(name, [EQUALS, QUOTE] + rest);
      assert t[|name| + 2..] == rest;
      PiecesClose(pieces);
  }

  /** Every text that matches the pattern is a directive. */
  lemma MatchIsDirective(t: Text) returns (d: Directive)
    requires MatchesDirective(t)
    ensures IsDirective(d) && Spell(d) == t
  {
    hide SpellPieces, ClosesAtEnd;
    var n := TokenLength(t);
    var name := t[..n];
    if n == |t| {
      d := Bare(name);
    } else if IsToken(t[n + 1..]) {
      d := WithToken(name, t[n + 1..]);
      assert t == name + [EQUALS] + t[n + 1..];
    } else {
      var pieces := ClosingTextHasPieces(t[n + 2..]);
      d := WithQuoted(name, pieces);
      assert t == name + [EQUALS, QUOTE] + t[n + 2..];
    }
  }

  // Cutting the value into members

  /** The members of the value, given the part of the current one already scanned; nothing when a quote stays open. */
  function Segments(t: Text, quoted: bool, escaped: bool, current: Text): Option<seq<Text>>
    decreases |t|
  {
    if t == [] then
      if quoted || escaped then None else Some([current])
    else if escaped then
      Segments(t[1..], quoted, false, current + [t[0]])
    else if quoted && t[0] == BACKSLASH then
      Segments(t[1..], quoted, true, current + [t[0]])
    else if t[0] == QUOTE then
      Segments(t[1..], !quoted, false, current + [t[0]])
    else if !quoted && t[0] == COMMA then
      Behind([current], Segments(t[1..], false, false, []))
    else
      Segments(t[1..], quoted, false, current + [t[0]])
  }

  function Behind(done: seq<Text>, rest: Option<seq<Text>>): Option<seq<Text>> {
    if rest.Some? then Some(done + rest.value) else None
  }

  /** An empty member is tolerated; any other must be a directive. */
  predicate Consumable(segment: Text) {
    Trim(segment) == [] || MatchesDirective(Trim(segment))
  }

  predicate Names(segment: Text, name: Text) {
    Lower(Trim(segment)) == name
  }

  predicate Accepts(t: Text) {
    var segments := Segments(t, false, false, []);
    && segments.Some?
    && (forall i :: 0 <= i < |segments.value| ==> Consumable(segments.value[i]))
    && (exists i :: 0 <= i < |segments.value| && Names(segments.value[i], PRIVATE))
    && (exists i :: 0 <= i < |segments.value| && Names(segments.value[i], NO_STORE))
  }

  lemma SegmentsStep(u: CodeUnit, rest: Text, quoted: bool, escaped: bool, current: Text)
    ensures Segments([u] + rest, quoted, escaped, current) ==
            if escaped then Segments(rest, quoted, false, current + [u])
            else if quoted && u == BACKSLASH then Segments(rest, quoted, true, current + [u])
            else if u == QUOTE then Segments(rest, !quoted, false, current + [u])
            else if !quoted && u == COMMA then Behind([current], Segments(rest, false, false, []))
            else Segments(rest, quoted, false, current + [u])
  {
    assert ([u] + rest)[1..] == rest;
  }

  lemma {:induction false} SegmentsPastPlain(x: Text, rest: Text, current: Text)
    requires forall i :: 0 <= i < |x| ==> x[i] != QUOTE && x[i] != COMMA
    ensures Segments(x + rest, false, false, current) == Segments(rest, false, false, current + x)
    decreases |x|
  {
    hide Segments;
    if x == [] {
      assert x + rest == rest && current + x == current;
    } else {
      assert x + rest == [x[0]] + (x[1..] + rest) && current + x == current + [x[0]] + x[1..];
      SegmentsStep(x[0], x[1..] + rest, false, false, current);
      SegmentsPastPlain(x[1..], rest, current + [x[0]]);
    }
  }

  lemma {:induction false} SegmentsPastPieces(ps: seq<Piece>, rest: Text, current: Text)
    requires forall i :: 0 <= i < |ps| ==> IsPiece(ps[i])
    ensures Segments(SpellPieces(ps) + rest, true, false, current)
         == Segments(rest, true, false, current + SpellPieces(ps))
    decreases |ps|
  {
    hide Segments;
    var x := SpellPieces(ps);
    if ps == [] {
      assert x + rest == rest && current + x == current;
    } else {
      var more := SpellPieces(ps[1..]) + rest;
      match ps[0]
      case Plain(u) =>
        assert x + rest == [u] + more && current + x == current + [u] + SpellPieces(ps[1..]);
        SegmentsStep(u, more, true, false, current);
        SegmentsPastPieces(ps[1..], rest, current + [u]);
      case Escaped(u) =>
        assert x + rest == [BACKSLASH] + ([u] + more);
        assert current + x == current + [BACKSLASH] + [u] + SpellPieces(ps[1..]);
        SegmentsStep(BACKSLASH, [u] + more, true, false, current);
        SegmentsStep(u, more, true, true, current + [BACKSLASH]);
        SegmentsPastPieces(ps[1..], rest, current + [BACKSLASH] + [u]);
    }
  }

  lemma SegmentsPastDirective(d: Directive, rest: Text, current: Text)
    requires IsDirective(d)
    ensures Segments(Spell(d) + rest, false, false, current) == Segments(rest, false, false, current + Spell(d))
  {
    hide Segments, SpellPieces;
    if d.WithQuoted? {
      var head := d.name + [EQUALS];
      var x := SpellPieces(d.pieces);
      assert Spell(d) + rest == head + ([QUOTE] + (x + ([QUOTE] + rest)));
      assert current + Spell(d) == current + head + [QUOTE] + x + [QUOTE];
      SegmentsPastPlain(head, [QUOTE] + (x + ([QUOTE] + rest)), current);
      SegmentsStep(QUOTE, x + ([QUOTE] + rest), false, false, current + head);
      SegmentsPastPieces(d.pieces, [QUOTE] + rest, current + head + [QUOTE]);
      SegmentsStep(QUOTE, rest, true, false, current + head + [QUOTE] + x);
    } else {
      SegmentsPastPlain(Spell(d), rest, current);
    }
  }

  lemma SegmentsPastSlot(s: Slot, rest: Text)
    requires IsSlot(s)
    ensures Segments(SpellSlot(s) + rest, false, false, []) == Segments(rest, false, false, SpellSlot(s))
  {
    hide Segments, Spell, IsDirective;
    var middle := if s.directive.Some? then Spell(s.directive.value) else [];
    assert SpellSlot(s) + rest == s.before + (middle + (s.after + rest));
    assert [] + s.before == s.before;
    SegmentsPastPlain(s.before, middle + (s.after + rest), []);
    if s.directive.Some? {
      SegmentsPastDirective(s.directive.value, s.after + rest, s.before);
    } else {
      assert middle + (s.after + rest) == s.after + rest && s.before + middle == s.before;
    }
    SegmentsPastPlain(s.after, rest, s.before + middle);
  }

  function SpellSlots(slots: seq<Slot>): (r: seq<Text>)
    ensures |r| == |slots|
    ensures forall i :: 0 <= i < |slots| ==> r[i] == SpellSlot(slots[i])
  {
    seq(|slots|, i requires 0 <= i < |slots| => SpellSlot(slots[i]))
  }

  /** The scan cuts a printed list into exactly its members. */
  lemma {:induction false} SegmentsOfPrint(slots: seq<Slot>)
    requires slots != [] && forall i :: 0 <= i < |slots| ==> IsSlot(slots[i])
    ensures Segments(Print(slots), false, false, []) == Some(SpellSlots(slots))
    decreases |slots|
  {
    hide Segments, SpellSlot, IsSlot;
    var first := SpellSlot(slots[0]);
    if |slots| == 1 {
      SegmentsPastSlot(slots[0], []);
      SegmentsAtEnd(first);
      assert first + [] == Print(slots);
      assert SpellSlots(slots) == [first];
    } else {
      var rest := Print(slots[1..]);
      SegmentsPastSlot(slots[0], [COMMA] + rest);
      SegmentsStep(COMMA, rest, false, false, first);
      SegmentsOfPrint(slots[1..]);
      assert Print(slots) == first + ([COMMA] + rest);
      assert SpellSlots(slots) == [first] + SpellSlots(slots[1..]);
    }
  }

  lemma SegmentsAtEnd(current: Text)
    ensures Segments([], false, false, current) == Some([current])
  {
  }

  // Whitespace

  lemma {:induction false} TrimStartOf(before: Text, core: Text)
    requires IsSpaces(before)
    requires core != [] ==> core[0] != SPACE && core[0] != TAB
    ensures TrimStart(before + core) == core
    decreases |before|
  {
    if before == [] {
      assert before + core == core;
    } else {
      assert (before + core)[1..] == before[1..] + core;
      TrimStartOf(before[1..], core);
    }
  }

  lemma {:induction false} TrimEndOf(core: Text, after: Text)
    requires IsSpaces(after)
    requires core != [] ==> core[|core| - 1] != SPACE && core[|core| - 1] != TAB
    ensures TrimEnd(core + after) == core
    decreases |after|
  {
    if after == [] {
      assert core + after == core;
    } else {
      assert (core + after)[..|core + after| - 1] == core + after[..|after| - 1];
      TrimEndOf(core, after[..|after| - 1]);
    }
  }

  lemma TrimOf(before: Text, core: Text, after: Text)
    requires IsSpaces(before) && IsSpaces(after)
    requires core != [] ==> core[0] != SPACE && core[0] != TAB
    requires core != [] ==> core[|core| - 1] != SPACE && core[|core| - 1] != TAB
    ensures Trim(before + core + after) == core
  {
    if core == [] {
      assert before + core + after == before + after + [];
      TrimStartOf(before + after, []);
    } else {
      assert before + core + after == before + (core + after);
      TrimStartOf(before, core + after);
      TrimEndOf(core, after);
    }
  }

  lemma {:induction false} TrimStartTakes(t: Text) returns (before: Text)
    ensures IsSpaces(before) && t == before + TrimStart(t)
  {
    if t != [] && (t[0] == SPACE || t[0] == TAB) {
      var more := TrimStartTakes(t[1..]);
      before := [t[0]] + more;
      assert t == [t[0]] + t[1..];
    } else {
      before := [];
    }
  }

  lemma {:induction false} TrimEndTakes(t: Text) returns (after: Text)
    ensures IsSpaces(after) && t == TrimEnd(t) + after
  {
    if t != [] && (t[|t| - 1] == SPACE || t[|t| - 1] == TAB) {
      var more := TrimEndTakes(t[..|t| - 1]);
      after := more + [t[|t| - 1]];
      assert t == t[..|t| - 1] + [t[|t| - 1]];
    } else {
      after := [];
    }
  }

  lemma DirectiveEnds(d: Directive)
    requires IsDirective(d)
    ensures var t := Spell(d);
            && t != [] && t[0] != SPACE && t[0] != TAB
            && t[|t| - 1] != SPACE && t[|t| - 1] != TAB
  {
    hide SpellPieces;
  }

  /** Trimming a member leaves its directive, or nothing. */
  lemma TrimOfSlot(s: Slot)
    requires IsSlot(s)
    ensures Trim(SpellSlot(s)) == if s.directive.Some? then Spell(s.directive.value) else []
  {
    hide Trim, Spell, IsDirective;
    if s.directive.Some? {
      DirectiveEnds(s.directive.value);
      TrimOf(s.before, Spell(s.directive.value), s.after);
    } else {
      TrimOf(s.before, [], s.after);
    }
  }

  /** Only a directive without an argument has the name as its whole text. */
  lemma NamesMeansBare(d: Directive, name: Text)
    requires IsDirective(d) && (name == PRIVATE || name == NO_STORE)
    ensures Lower(Spell(d)) == name <==> d.Bare? && Lower(d.name) == name
  {
    hide SpellPieces;
    if !d.Bare? {
      var t := Spell(d);
      assert t[|d.name|] == EQUALS;
      assert Lower(t)[|d.name|] == EQUALS;
      assert EQUALS !in name;
    }
  }

  lemma SlotNames(s: Slot, name: Text)
    requires IsSlot(s) && (name == PRIVATE || name == NO_STORE)
    ensures Consumable(SpellSlot(s))
    ensures Names(SpellSlot(s), name) <==> IsBare(s, name)
  {
    hide Trim, Spell, IsDirective, MatchesDirective, SpellSlot;
    TrimOfSlot(s);
    if s.directive.Some? {
      DirectiveMatches(s.directive.value);
      NamesMeansBare(s.directive.value, name);
    }
  }

  /** Every member the scan accepts is an optional directive in optional whitespace. */
  lemma ConsumableIsSlot(segment: Text) returns (s: Slot)
    requires Consumable(segment)
    ensures IsSlot(s) && SpellSlot(s) == segment
  {
    hide MatchesDirective, Spell, IsDirective, TrimStart, TrimEnd;
    var before := TrimStartTakes(segment);
    var after := TrimEndTakes(TrimStart(segment));
    var core := Trim(segment);
    assert segment == before + (core + after);
    if core == [] {
      s := Slot(before, None, after);
    } else {
      var d := MatchIsDirective(core);
      s := Slot(before, Some(d), after);
    }
  }

  // Both directions

  function Join(segments: seq<Text>): Text
    requires segments != []
  {
    segments[0] + if |segments| == 1 then [] else [COMMA] + Join(segments[1..])
  }

  /** The members, joined by commas, are the value. */
  lemma {:induction false} SegmentsJoin(t: Text, quoted: bool, escaped: bool, current: Text)
    requires Segments(t, quoted, escaped, current).Some?
    ensures var segments := Segments(t, quoted, escaped, current).value;
            segments != [] && Join(segments) == current + t
    decreases |t|
  {
    hide Join;
    if t == [] {
      assert current + t == current;
      JoinOne(current);
    } else {
      assert current + t == current + [t[0]] + t[1..];
      if !escaped && !quoted && t[0] == COMMA {
        SegmentsJoin(t[1..], false, false, []);
        assert [] + t[1..] == t[1..];
        JoinMore(current, Segments(t[1..], false, false, []).value);
      } else if escaped {
        SegmentsJoin(t[1..], quoted, false, current + [t[0]]);
      } else if quoted && t[0] == BACKSLASH {
        SegmentsJoin(t[1..], quoted, true, current + [t[0]]);
      } else if t[0] == QUOTE {
        SegmentsJoin(t[1..], !quoted, false, current + [t[0]]);
      } else {
        SegmentsJoin(t[1..], quoted, false, current + [t[0]]);
      }
    }
  }

  lemma JoinOne(segment: Text)
    ensures Join([segment]) == segment
  {
  }

  lemma JoinMore(segment: Text, segments: seq<Text>)
    requires segments != []
    ensures Join([segment] + segments) == segment + [COMMA] + Join(segments)
  {
    assert ([segment] + segments)[1..] == segments;
  }

  lemma {:induction false} SegmentsAreSlots(segments: seq<Text>) returns (slots: seq<Slot>)
    requires segments != [] && forall i :: 0 <= i < |segments| ==> Consumable(segments[i])
    ensures slots != [] && (forall i :: 0 <= i < |slots| ==> IsSlot(slots[i]))
    ensures SpellSlots(slots) == segments && Print(slots) == Join(segments)
    decreases |segments|
  {
    hide Consumable, IsSlot, SpellSlot;
    var first := ConsumableIsSlot(segments[0]);
    if |segments| == 1 {
      slots := [first];
    } else {
      var rest := SegmentsAreSlots(segments[1..]);
      slots := [first] + rest;
      assert slots[1..] == rest;
      assert segments == [segments[0]] + segments[1..];
    }
  }

  /** On a printed list the scan sees exactly the members' directives, whatever commas and quotes they hold. */
  lemma ScanRecoversDirectives(slots: seq<Slot>)
    requires slots != [] && forall i :: 0 <= i < |slots| ==> IsSlot(slots[i])
    ensures var segments := Segments(Print(slots), false, false, []);
            && segments.Some? && |segments.value| == |slots|
            && forall i :: 0 <= i < |slots| ==>
                 Trim(segments.value[i]) == if slots[i].directive.Some? then Spell(slots[i].directive.value) else []
  {
    hide Segments, Trim, SpellSlot, IsSlot, Spell;
    SegmentsOfPrint(slots);
    forall i | 0 <= i < |slots|
      ensures Trim(SpellSlots(slots)[i]) == if slots[i].directive.Some? then Spell(slots[i].directive.value) else []
    {
      TrimOfSlot(slots[i]);
    }
  }

  /** A printed list is accepted exactly when bare `private` and bare `no-store` are both in it. */
  lemma ListAccepted(slots: seq<Slot>)
    requires slots != [] && forall i :: 0 <= i < |slots| ==> IsSlot(slots[i])
    ensures Accepts(Print(slots)) <==> Lists(slots, PRIVATE) && Lists(slots, NO_STORE)
  {
    hide Segments, Consumable, Names, SpellSlot, IsSlot, IsBare;
    SegmentsOfPrint(slots);
    forall i | 0 <= i < |slots|
      ensures Consumable(SpellSlot(slots[i]))
      ensures Names(SpellSlot(slots[i]), PRIVATE) <==> IsBare(slots[i], PRIVATE)
      ensures Names(SpellSlot(slots[i]), NO_STORE) <==> IsBare(slots[i], NO_STORE)
    {
      SlotNames(slots[i], PRIVATE);
      SlotNames(slots[i], NO_STORE);
    }
  }

  /** A value is accepted exactly when it is a list of directives with bare `private` and bare `no-store` in it. */
  lemma AcceptedMeansListed(t: Text)
    ensures Accepts(t) <==>
      exists slots :: slots != [] && (forall i :: 0 <= i < |slots| ==> IsSlot(slots[i]))
        && Print(slots) == t && Lists(slots, PRIVATE) && Lists(slots, NO_STORE)
  {
    hide Segments, Consumable, Names, SpellSlot, IsSlot, Lists;
    forall slots | slots != [] && (forall i :: 0 <= i < |slots| ==> IsSlot(slots[i]))
      ensures Accepts(Print(slots)) <==> Lists(slots, PRIVATE) && Lists(slots, NO_STORE)
    {
      ListAccepted(slots);
    }
    if Accepts(t) {
      SegmentsJoin(t, false, false, []);
      var slots := SegmentsAreSlots(Segments(t, false, false, []).value);
      assert [] + t == t;
      assert Print(slots) == t;
    }
  }

  // The loop

  /** What the members scanned so far amount to. */
  ghost predicate Consumed(done: seq<Text>, isPrivate: bool, noStore: bool) {
    && (forall i :: 0 <= i < |done| ==> Consumable(done[i]))
    && (isPrivate <==> exists i :: 0 <= i < |done| && Names(done[i], PRIVATE))
    && (noStore <==> exists i :: 0 <= i < |done| && Names(done[i], NO_STORE))
  }

  lemma ConsumedOneMore(done: seq<Text>, segment: Text, isPrivate: bool, noStore: bool)
    requires Consumed(done, isPrivate, noStore) && Consumable(segment)
    ensures Consumed(done + [segment], isPrivate || Names(segment, PRIVATE), noStore || Names(segment, NO_STORE))
  {
    hide Consumable, Names;
    var more := done + [segment];
    assert more[|done|] == segment;
    assert forall i :: 0 <= i < |done| ==> more[i] == done[i];
  }

  /** The inner function of the loop: nothing when the member is malformed, else which name it bears. */
  method Consume(segment: Text, isPrivate: bool, noStore: bool) returns (marks: Option<(bool, bool)>)
    ensures marks.Some? <==> Consumable(segment)
    ensures marks.Some? ==> marks.value == (isPrivate || Names(segment, PRIVATE), noStore || Names(segment, NO_STORE))
  {
    hide MatchesDirective;
    var directive := Trim(segment);
    if directive == [] {
      assert Lower(directive) == [];
      return Some((isPrivate, noStore));
    }
    if !MatchesDirective(directive) {
      return None;
    }
    var name := Lower(directive);
    return Some((isPrivate || name == PRIVATE, noStore || name == NO_STORE));
  }

  lemma RejectedMember(t: Text, done: seq<Text>, rest: Option<seq<Text>>, i: nat)
    requires Segments(t, false, false, []) == Behind(done, rest)
    requires i < |done| && !Consumable(done[i])
    ensures !Accepts(t)
  {
    hide Consumable, Segments;
    if rest.Some? {
      assert (done + rest.value)[i] == done[i];
    }
  }

  lemma BehindMore(done: seq<Text>, segment: Text, rest: Option<seq<Text>>)
    ensures Behind(done, Behind([segment], rest)) == Behind(done + [segment], rest)
  {
    if rest.Some? {
      assert done + ([segment] + rest.value) == done + [segment] + rest.value;
    }
  }

  /** The header is required, and accepted exactly when its value is. */
  method AssertPrivateNoStore(header: Option<Text>) returns (ok: bool)
    ensures ok <==> header.Some? && Accepts(header.value)
  {
    hide Consumable, Names, Segments, Consumed, Behind;
    if header.None? {
      return false;
    }
    var value := header.value;
    var quoted, escaped, start, isPrivate, noStore := false, false, 0, false, false;
    ghost var done: seq<Text> := [];
    ghost var whole := Segments(value, false, false, []);
    NothingConsumed(whole);
    assert value[0..] == value && value[0..0] == [];
    var index := 0;
    while index < |value|
      invariant 0 <= start <= index <= |value|
      invariant whole == Behind(done, Segments(value[index..], quoted, escaped, value[start..index]))
      invariant Consumed(done, isPrivate, noStore)
      invariant escaped ==> quoted
    {
      var character := value[index];
      ghost var current := value[start..index];
      assert value[index..] == [character] + value[index + 1..];
      assert value[start..index + 1] == current + [character];
      SegmentsStep(character, value[index + 1..], quoted, escaped, current);
      if escaped {
        escaped := false;
      } else if quoted && character == BACKSLASH {
        escaped := true;
      } else if character == QUOTE {
        quoted := !quoted;
      } else if !quoted && character == COMMA {
        var rest := Segments(value[index + 1..], false, false, []);
        BehindMore(done, current, rest);
        var marks := Consume(value[start..index], isPrivate, noStore);
        done := done + [current];
        if marks.None? {
          RejectedMember(value, done, rest, |done| - 1);
          return false;
        }
        ConsumedOneMore(done[..|done| - 1], current, isPrivate, noStore);
        assert done[..|done| - 1] + [current] == done;
        isPrivate, noStore := marks.value.0, marks.value.1;
        start := index + 1;
        assert value[start..index + 1] == [];
      }
      index := index + 1;
    }
    assert value[index..] == [] && value[start..index] == value[start..];
    if quoted || escaped {
      OpenQuote(value, done, quoted, escaped, value[start..]);
      return false;
    }
    LastMember(done, value[start..]);
    var marks := Consume(value[start..], isPrivate, noStore);
    if marks.None? {
      RejectedMember(value, done + [value[start..]], Some([]), |done|);
      return false;
    }
    ConsumedOneMore(done, value[start..], isPrivate, noStore);
    isPrivate, noStore := marks.value.0, marks.value.1;
    AllConsumed(value, done + [value[start..]], isPrivate, noStore);
    return isPrivate && noStore;
  }

  lemma OpenQuote(t: Text, done: seq<Text>, quoted: bool, escaped: bool, current: Text)
    requires Segments(t, false, false, []) == Behind(done, Segments([], quoted, escaped, current))
    requires quoted || escaped
    ensures !Accepts(t)
  {
  }

  lemma LastMember(done: seq<Text>, current: Text)
    ensures Behind(done, Segments([], false, false, current)) == Some(done + [current])
    ensures Behind(done + [current], Some([])) == Some(done + [current])
  {
    assert done + [current] + [] == done + [current];
  }

  lemma AllConsumed(t: Text, done: seq<Text>, isPrivate: bool, noStore: bool)
    requires Segments(t, false, false, []) == Some(done)
    requires Consumed(done, isPrivate, noStore)
    ensures Accepts(t) <==> isPrivate && noStore
  {
    hide Consumable, Names, Segments;
  }

  lemma NothingConsumed(whole: Option<seq<Text>>)
    ensures Consumed([], false, false)
    ensures Behind([], whole) == whole
  {
    if whole.Some? {
      assert [] + whole.value == whole.value;
    }
  }

  // The classes of units and the names in their own terms

  const SMALL := "abcdefghijklmnopqrstuvwxyz"
  const CAPITAL := "ABCDEFGHIJKLMNOPQRSTUVWXYZ"
  const MARKS := "!#$%&'*+-.^_`|~"

  predicate IsOneOf(u: CodeUnit, s: string) {
    exists k :: 0 <= k < |s| && u == s[k] as int
  }

  /** The unit is the letter, small or capital. */
  predicate IsLetterAt(u: CodeUnit, k: int) {
    0 <= k < 26 && (u == SMALL[k] as int || u == CAPITAL[k] as int)
  }

  /** Section 5.6.2 of RFC 9110. */
  lemma TokenUnitsAreExact(u: CodeUnit)
    ensures IsTokenUnit(u) <==> IsDigit(u) || IsOneOf(u, MARKS) || exists k :: IsLetterAt(u, k)
  {
    assert IsLetterAt(u, u - 65) || IsLetterAt(u, u - 97) || !IsLetter(u) by { LettersAreExact(u); }
    MarksAreExact(u);
    forall k | IsLetterAt(u, k) ensures IsLetter(u) { LetterAt(k); }
  }

  lemma LetterAt(k: int)
    requires 0 <= k < 26
    ensures SMALL[k] as int == 97 + k && CAPITAL[k] as int == 65 + k
  {
  }

  lemma LettersAreExact(u: CodeUnit)
    ensures 65 <= u <= 90 ==> IsLetterAt(u, u - 65)
    ensures 97 <= u <= 122 ==> IsLetterAt(u, u - 97)
  {
    if 65 <= u <= 90 { LetterAt(u - 65); }
    if 97 <= u <= 122 { LetterAt(u - 97); }
  }

  lemma MarksAreExact(u: CodeUnit)
    ensures IsOneOf(u, MARKS) <==>
              || u == 33 || (35 <= u <= 39) || u == 42 || u == 43 || u == 45 || u == 46
              || (94 <= u <= 96) || u == 124 || u == 126
  {
    assert |MARKS| == 15;
    var k := if u == 33 then 0 else if 35 <= u <= 39 then u - 34 else if u == 42 then 6 else if u == 43 then 7
             else if u == 45 then 8 else if u == 46 then 9 else if 94 <= u <= 96 then u - 84
             else if u == 124 then 13 else 14;
    assert MARKS[k] as int == u || !(u == 33 || (35 <= u <= 39) || u == 42 || u == 43 || u == 45 || u == 46
                                      || (94 <= u <= 96) || u == 124 || u == 126);
  }

  /** Section 5.6.4 of RFC 9110: tabs, visible characters, spaces and what is beyond ASCII in a byte. */
  lemma QuotedUnitsAreExact(u: CodeUnit)
    ensures IsEscapable(u) <==> u == TAB || (' ' as int <= u <= 0xFF && u != 0x7F)
    ensures IsQuotedUnit(u) <==> IsEscapable(u) && u != '"' as int && u != '\\' as int
  {
  }

  /** The text is the word, in any letter case. */
  ghost predicate IsWord(t: Text, word: string) {
    |t| == |word| && forall i :: 0 <= i < |t| ==>
      t[i] == word[i] as int || exists k :: IsLetterAt(t[i], k) && word[i] == SMALL[k]
  }

  lemma LowerIsWord(t: Text, word: string)
    requires forall i :: 0 <= i < |word| ==> word[i] < '\U{80}' && !('A' <= word[i] <= 'Z')
    ensures Lower(t) == Ascii(word) <==> IsWord(t, word)
  {
    if |t| == |word| {
      forall i | 0 <= i < |t|
        ensures Lower(t)[i] == word[i] as int <==>
                  t[i] == word[i] as int || exists k :: IsLetterAt(t[i], k) && word[i] == SMALL[k]
      {
        LowerUnit(t[i], word[i]);
      }
    }
  }

  lemma LowerUnit(u: CodeUnit, c: char)
    requires c < '\U{80}' && !('A' <= c <= 'Z')
    ensures (if 65 <= u <= 90 then u + 32 else u) == c as int <==>
              u == c as int || exists k :: IsLetterAt(u, k) && c == SMALL[k]
  {
    LettersAreExact(u);
    if 65 <= u <= 90 { LetterAt(u - 65); }
    forall k | IsLetterAt(u, k) && c == SMALL[k] ensures (if 65 <= u <= 90 then u + 32 else u) == c as int {
      LetterAt(k);
    }
  }

  lemma NamesByName()
    ensures PRIVATE == Ascii("private") && NO_STORE == Ascii("no-store")
  {
  }

  /** A member counts for `private` or `no-store` when it is that word, in any letter case, without an argument. */
  lemma BareMeansWord(s: Slot)
    ensures IsBare(s, PRIVATE) <==>
              s.directive.Some? && s.directive.value.Bare? && IsWord(s.directive.value.name, "private")
    ensures IsBare(s, NO_STORE) <==>
              s.directive.Some? && s.directive.value.Bare? && IsWord(s.directive.value.name, "no-store")
  {
    hide Lower, IsWord;
    NamesByName();
    if s.directive.Some? {
      LowerIsWord(s.directive.value.name, "private");
      LowerIsWord(s.directive.value.name, "no-store");
    }
  }
}
