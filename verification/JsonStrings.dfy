/** JSON strings (section 7 of RFC 8259): spelling piece by piece, reading back, and where a string ends. */
module JsonStrings {
  import opened Outcomes
  import opened Texts

  const LOWER_U: CodeUnit := 117

  /** One way of spelling one code unit inside quotes. */
  datatype Piece =
    | Plain(u: CodeUnit)
    | Short(letter: CodeUnit)
    | Unicode(d0: CodeUnit, d1: CodeUnit, d2: CodeUnit, d3: CodeUnit)

  function HexDigit(u: CodeUnit): Option<nat> {
    if IsDigit(u) then Some(u - ZERO)
    else if 65 <= u <= 70 then Some(u - 55)
    else if 97 <= u <= 102 then Some(u - 87)
    else None
  }

  predicate IsHex(u: CodeUnit) {
    HexDigit(u).Some?
  }

  function Hex(d0: CodeUnit, d1: CodeUnit, d2: CodeUnit, d3: CodeUnit): CodeUnit
    requires IsHex(d0) && IsHex(d1) && IsHex(d2) && IsHex(d3)
  {
    0x1000 * HexDigit(d0).value + 0x100 * HexDigit(d1).value + 0x10 * HexDigit(d2).value + HexDigit(d3).value
  }

  /** What a backslash and a single letter stand for. */
  function ShortEscape(letter: CodeUnit): Option<CodeUnit> {
    if letter == QUOTE || letter == BACKSLASH || letter == SLASH then Some(letter)
    else if letter == 98 then Some(8)
    else if letter == 102 then Some(12)
    else if letter == 110 then Some(10)
    else if letter == 114 then Some(13)
    else if letter == 116 then Some(9)
    else None
  }

  predicate IsPlain(u: CodeUnit) {
    u >= 0x20 && u != QUOTE && u != BACKSLASH
  }

  predicate IsPiece(p: Piece) {
    match p
    case Plain(u) => IsPlain(u)
    case Short(letter) => ShortEscape(letter).Some?
    case Unicode(d0, d1, d2, d3) => IsHex(d0) && IsHex(d1) && IsHex(d2) && IsHex(d3)
  }

  predicate ArePieces(ps: seq<Piece>) {
    forall i :: 0 <= i < |ps| ==> IsPiece(ps[i])
  }

  function SpellPiece(p: Piece): Text {
    match p
    case Plain(u) => [u]
    case Short(letter) => [BACKSLASH, letter]
    case Unicode(d0, d1, d2, d3) => [BACKSLASH, LOWER_U, d0, d1, d2, d3]
  }

  /** The code unit a piece spells; of no interest when it is not a piece. */
  function Denotes(p: Piece): CodeUnit {
    if !IsPiece(p) then
      0
    else
      match p
      case Plain(u) => u
      case Short(letter) => ShortEscape(letter).value
      case Unicode(d0, d1, d2, d3) => Hex(d0, d1, d2, d3)
  }

  function Spelling(ps: seq<Piece>): Text {
    if ps == [] then [] else SpellPiece(ps[0]) + Spelling(ps[1..])
  }

  function Meaning(ps: seq<Piece>): Text {
    if ps == [] then [] else [Denotes(ps[0])] + Meaning(ps[1..])
  }

  function Prepend(u: CodeUnit, rest: Option<Text>): Option<Text> {
    match rest
    case Some(t) => Some([u] + t)
    case None => None
  }

  /** What `JSON.parse` reads between the quotes; nothing when the spelling is not a JSON string. */
  function Read(t: Text): Option<Text> {
    if t == [] then
      Some([])
    else if t[0] == BACKSLASH then
      if |t| < 2 then
        None
      else if t[1] == LOWER_U then
        if |t| >= 6 && IsHex(t[2]) && IsHex(t[3]) && IsHex(t[4]) && IsHex(t[5]) then
          Prepend(Hex(t[2], t[3], t[4], t[5]), Read(t[6..]))
        else
          None
      else if ShortEscape(t[1]).Some? then
        Prepend(ShortEscape(t[1]).value, Read(t[2..]))
      else
        None
    else if IsPlain(t[0]) then
      Prepend(t[0], Read(t[1..]))
    else
      None
  }

  /** Where the scan that skips one unit after each backslash meets the closing quote. */
  function ClosingQuote(t: Text): (r: Option<nat>)
    ensures r.Some? ==> r.value < |t| && t[r.value] == QUOTE
  {
    if t == [] then
      None
    else if t[0] == QUOTE then
      Some(0)
    else if t[0] != BACKSLASH then
      Further(1, ClosingQuote(t[1..]))
    else if |t| == 1 then
      None
    else
      Further(2, ClosingQuote(t[2..]))
  }

  function Further(n: nat, r: Option<nat>): Option<nat> {
    if r.Some? then Some(n + r.value) else None
  }

  lemma PieceIsRead(p: Piece, rest: Text)
    requires IsPiece(p)
    ensures Read(SpellPiece(p) + rest) == Prepend(Denotes(p), Read(rest))
  {
    hide Hex;
    var t := SpellPiece(p) + rest;
    assert t[|SpellPiece(p)|..] == rest;
    match p
    case Plain(u) =>
      assert t[0] == u;
    case Short(letter) =>
      assert t[0] == BACKSLASH && t[1] == letter;
    case Unicode(d0, d1, d2, d3) =>
      assert t[0] == BACKSLASH && t[1] == LOWER_U && t[2] == d0 && t[3] == d1 && t[4] == d2 && t[5] == d3;
  }

  lemma {:induction false} ReadUndoesSpelling(ps: seq<Piece>)
    requires ArePieces(ps)
    ensures Read(Spelling(ps)) == Some(Meaning(ps))
  {
    hide Read, SpellPiece, Denotes;
    if ps != [] {
      ReadUndoesSpelling(ps[1..]);
      PieceIsRead(ps[0], Spelling(ps[1..]));
    } else {
      NothingIsRead();
    }
  }

  lemma NothingIsRead()
    ensures Read([]) == Some([])
  {
  }

  lemma QuoteCloses(rest: Text)
    ensures ClosingQuote([QUOTE] + rest) == Some(0)
  {
  }

  lemma {:induction false} StringEndsAtItsQuote(ps: seq<Piece>, rest: Text)
    requires ArePieces(ps)
    ensures ClosingQuote(Spelling(ps) + [QUOTE] + rest) == Some(|Spelling(ps)|)
  {
    hide ClosingQuote, IsPiece, SpellPiece;
    var t := Spelling(ps) + [QUOTE] + rest;
    if ps == [] {
      assert t == [QUOTE] + rest;
      QuoteCloses(rest);
    } else {
      StringEndsAtItsQuote(ps[1..], rest);
      var tail := Spelling(ps[1..]) + [QUOTE] + rest;
      PieceIsSkipped(ps[0], tail);
      assert t == SpellPiece(ps[0]) + tail;
    }
  }

  lemma PieceIsSkipped(p: Piece, tail: Text)
    requires IsPiece(p)
    requires ClosingQuote(tail).Some?
    ensures ClosingQuote(SpellPiece(p) + tail) == Some(|SpellPiece(p)| + ClosingQuote(tail).value)
  {
    hide ClosingQuote, IsPiece;
    match p
    case Plain(u) =>
      PieceIsHarmless(p);
      UnitIsSkipped(u, tail);
    case Short(letter) =>
      EscapeIsSkipped(letter, tail);
    case Unicode(d0, d1, d2, d3) =>
      PieceIsHarmless(p);
      var digits := [d0] + ([d1] + ([d2] + ([d3] + tail)));
      DigitsAreSkipped(d0, d1, d2, d3, tail);
      EscapeIsSkipped(LOWER_U, digits);
      SixUnits(d0, d1, d2, d3, tail);
  }

  predicate AreHarmless(d0: CodeUnit, d1: CodeUnit, d2: CodeUnit, d3: CodeUnit) {
    QUOTE !in {d0, d1, d2, d3} && BACKSLASH !in {d0, d1, d2, d3}
  }

  lemma PieceIsHarmless(p: Piece)
    requires IsPiece(p)
    ensures p.Plain? ==> p.u !in {QUOTE, BACKSLASH}
    ensures p.Unicode? ==> AreHarmless(p.d0, p.d1, p.d2, p.d3)
  {
  }

  lemma DigitsAreSkipped(d0: CodeUnit, d1: CodeUnit, d2: CodeUnit, d3: CodeUnit, tail: Text)
    requires AreHarmless(d0, d1, d2, d3)
    requires ClosingQuote(tail).Some?
    ensures ClosingQuote([d0] + ([d1] + ([d2] + ([d3] + tail)))) == Some(4 + ClosingQuote(tail).value)
  {
    hide ClosingQuote;
    UnitIsSkipped(d3, tail);
    UnitIsSkipped(d2, [d3] + tail);
    UnitIsSkipped(d1, [d2] + ([d3] + tail));
    UnitIsSkipped(d0, [d1] + ([d2] + ([d3] + tail)));
  }

  lemma SixUnits(d0: CodeUnit, d1: CodeUnit, d2: CodeUnit, d3: CodeUnit, tail: Text)
    ensures [BACKSLASH, LOWER_U, d0, d1, d2, d3] + tail
         == [BACKSLASH, LOWER_U] + ([d0] + ([d1] + ([d2] + ([d3] + tail))))
  {
  }

  lemma ClosesLater(t: Text)
    requires t != [] && t[0] != QUOTE
    ensures t[0] != BACKSLASH ==> ClosingQuote(t) == Further(1, ClosingQuote(t[1..]))
    ensures t[0] == BACKSLASH && |t| > 1 ==> ClosingQuote(t) == Further(2, ClosingQuote(t[2..]))
  {
  }

  lemma EscapeIsSkipped(u: CodeUnit, tail: Text)
    requires ClosingQuote(tail).Some?
    ensures ClosingQuote([BACKSLASH, u] + tail) == Some(2 + ClosingQuote(tail).value)
  {
    hide ClosingQuote;
    var t := [BACKSLASH, u] + tail;
    assert t[0] == BACKSLASH && t[2..] == tail;
    ClosesLater(t);
  }

  lemma UnitIsSkipped(u: CodeUnit, tail: Text)
    requires u != QUOTE && u != BACKSLASH
    requires ClosingQuote(tail).Some?
    ensures ClosingQuote([u] + tail) == Some(1 + ClosingQuote(tail).value)
  {
    hide ClosingQuote;
    var t := [u] + tail;
    assert t[0] == u && t[1..] == tail;
    ClosesLater(t);
  }

  function LowerHex(n: nat): CodeUnit
    requires n < 16
    ensures HexDigit(LowerHex(n)) == Some(n)
  {
    if n < 10 then ZERO + n else 87 + n
  }

  /** The four digits of `\u00xx` and of escaped surrogates, most significant first. */
  function HexPiece(u: CodeUnit): (p: Piece)
    ensures IsPiece(p) && Denotes(p) == u
  {
    var (high, low) := (u / 0x100, u % 0x100);
    assert high / 16 * 16 + high % 16 == high && low / 16 * 16 + low % 16 == low;
    Unicode(LowerHex(high / 16), LowerHex(high % 16), LowerHex(low / 16), LowerHex(low % 16))
  }

  /** How `JSON.stringify` spells a code unit that is not half of a surrogate pair. */
  function StringifyUnit(u: CodeUnit): (p: Piece)
    ensures IsPiece(p) && Denotes(p) == u
  {
    if u == QUOTE || u == BACKSLASH then Short(u)
    else if u == 8 then Short(98)
    else if u == 9 then Short(116)
    else if u == 10 then Short(110)
    else if u == 12 then Short(102)
    else if u == 13 then Short(114)
    else if u < 0x20 || IsHighSurrogate(u) || IsLowSurrogate(u) then HexPiece(u)
    else Plain(u)
  }

  function StringifyUnits(t: Text): (ps: seq<Piece>)
    ensures ArePieces(ps) && Meaning(ps) == t
  {
    if t == [] then
      []
    else if IsHighSurrogate(t[0]) && |t| > 1 && IsLowSurrogate(t[1]) then
      [Plain(t[0]), Plain(t[1])] + StringifyUnits(t[2..])
    else
      [StringifyUnit(t[0])] + StringifyUnits(t[1..])
  }

  /** `JSON.stringify` of a string. */
  function Quoted(t: Text): Text {
    [QUOTE] + Spelling(StringifyUnits(t)) + [QUOTE]
  }

  /** A quoted string can be read back, and followed by anything it still ends in the same place. */
  lemma QuotedIsReadable(a: Text, b: Text, r: Text, s: Text)
    requires Quoted(a) + r == Quoted(b) + s
    ensures a == b && r == s
  {
    hide Spelling, StringifyUnits, ClosingQuote, Read, Meaning;
    var p, q := StringifyUnits(a), StringifyUnits(b);
    var x, y := Spelling(p), Spelling(q);
    StringEndsAtItsQuote(p, r);
    StringEndsAtItsQuote(q, s);
    TailAfterQuote(x, r);
    TailAfterQuote(y, s);
    assert x == y by {
      assert x == (x + [QUOTE] + r)[..|x|] && y == (y + [QUOTE] + s)[..|y|];
    }
    ReadUndoesSpelling(p);
    ReadUndoesSpelling(q);
  }

  lemma TailAfterQuote(x: Text, r: Text)
    ensures ([QUOTE] + x + [QUOTE] + r)[1..] == x + [QUOTE] + r
    ensures ([QUOTE] + x + [QUOTE] + r)[|x| + 2..] == r
  {
  }

  lemma {:induction false} ScalarTextConcatenates(a: Text, b: Text)
    requires IsUnicodeScalarText(a) && IsUnicodeScalarText(b)
    ensures IsUnicodeScalarText(a + b)
  {
    if a == [] {
      assert a + b == b;
    } else {
      var n := if IsHighSurrogate(a[0]) then 2 else 1;
      assert (a + b)[n..] == a[n..] + b;
      ScalarTextConcatenates(a[n..], b);
    }
  }

  lemma {:induction false} NoSurrogates(t: Text)
    requires forall i :: 0 <= i < |t| ==> !IsHighSurrogate(t[i]) && !IsLowSurrogate(t[i])
    ensures IsUnicodeScalarText(t)
  {
    if t != [] {
      NoSurrogates(t[1..]);
    }
  }

  /** Whatever the string holds, half pairs included, its quoted form is well-formed Unicode. */
  lemma QuotedIsScalarText(t: Text)
    ensures IsUnicodeScalarText(Quoted(t))
  {
    hide Spelling, StringifyUnits, IsUnicodeScalarText;
    NoSurrogates([QUOTE]);
    SpellingIsScalarText(t);
    ScalarTextConcatenates([QUOTE], Spelling(StringifyUnits(t)));
    ScalarTextConcatenates([QUOTE] + Spelling(StringifyUnits(t)), [QUOTE]);
  }

  lemma {:induction false} SpellingIsScalarText(t: Text)
    ensures IsUnicodeScalarText(Spelling(StringifyUnits(t)))
  {
    var ps := StringifyUnits(t);
    if t != [] {
      if IsHighSurrogate(t[0]) && |t| > 1 && IsLowSurrogate(t[1]) {
        SpellingIsScalarText(t[2..]);
        var rest := Spelling(StringifyUnits(t[2..]));
        assert ps[1..][1..] == StringifyUnits(t[2..]);
        assert Spelling(ps) == [t[0], t[1]] + rest;
        assert ([t[0], t[1]] + rest)[2..] == rest;
      } else {
        SpellingIsScalarText(t[1..]);
        UnitIsSpelledScalar(t[0]);
        assert ps[1..] == StringifyUnits(t[1..]);
        ScalarTextConcatenates(SpellPiece(ps[0]), Spelling(ps[1..]));
      }
    }
  }

  lemma UnitIsSpelledScalar(u: CodeUnit)
    ensures IsUnicodeScalarText(SpellPiece(StringifyUnit(u)))
  {
    hide IsUnicodeScalarText;
    NoSurrogates(SpellPiece(StringifyUnit(u)));
  }

  // The grammar in its own terms

  const DIGITS := "0123456789abcdef"
  const UPPER_DIGITS := "0123456789ABCDEF"

  /** The letters of the short escapes, and the code units they stand for. */
  const ESCAPES := "\"\\/bfnrt"
  const ESCAPED := "\"\\/\U{8}\U{C}\n\r\t"

  /** A digit of the value in either case. */
  predicate IsDigitOf(d: CodeUnit, n: nat) {
    n < 16 && (d == DIGITS[n] as int || d == UPPER_DIGITS[n] as int)
  }

  /** The ways section 7 of RFC 8259 gives to spell one code unit. */
  ghost predicate Spells(t: Text, u: CodeUnit) {
    || (t == [u] && u >= ' ' as int && u != '"' as int && u != '\\' as int)
    || (|t| == 2 && t[0] == '\\' as int
        && exists k :: 0 <= k < 8 && t[1] == ESCAPES[k] as int && u == ESCAPED[k] as int)
    || (|t| == 6 && t[0] == '\\' as int && t[1] == 'u' as int
        && IsDigitOf(t[2], u / 4096) && IsDigitOf(t[3], u / 256 % 16)
        && IsDigitOf(t[4], u / 16 % 16) && IsDigitOf(t[5], u % 16))
  }

  lemma HexDigitIsExact(d: CodeUnit, n: nat)
    ensures HexDigit(d) == Some(n) <==> IsDigitOf(d, n)
  {
  }

  lemma ShortEscapeIsExact(letter: CodeUnit, u: CodeUnit)
    ensures ShortEscape(letter) == Some(u) <==>
              exists k :: 0 <= k < 8 && letter == ESCAPES[k] as int && u == ESCAPED[k] as int
  {
    assert |ESCAPES| == |ESCAPED| == 8;
    if ShortEscape(letter) == Some(u) {
      var k := if letter == QUOTE then 0 else if letter == BACKSLASH then 1 else if letter == SLASH then 2
               else if letter == 98 then 3 else if letter == 102 then 4 else if letter == 110 then 5
               else if letter == 114 then 6 else 7;
      assert letter == ESCAPES[k] as int && u == ESCAPED[k] as int;
    }
  }

  /** The pieces are exactly the spellings of single code units. */
  lemma PieceIsExact(p: Piece, u: CodeUnit)
    ensures IsPiece(p) && Denotes(p) == u ==> Spells(SpellPiece(p), u)
  {
    hide HexDigit, ShortEscape, IsDigitOf;
    match p
    case Plain(_) =>
    case Short(letter) =>
      ShortEscapeIsExact(letter, u);
    case Unicode(d0, d1, d2, d3) =>
      if IsPiece(p) {
        var (n0, n1, n2, n3) := (HexDigit(d0).value, HexDigit(d1).value, HexDigit(d2).value, HexDigit(d3).value);
        HexDigitIsExact(d0, n0);
        HexDigitIsExact(d1, n1);
        HexDigitIsExact(d2, n2);
        HexDigitIsExact(d3, n3);
        assert n0 < 16 && n1 < 16 && n2 < 16 && n3 < 16 by { DigitsAreSmall(d0, d1, d2, d3); }
        FourDigits(Hex(d0, d1, d2, d3), n0, n1, n2, n3);
      }
  }

  lemma DigitsAreSmall(d0: CodeUnit, d1: CodeUnit, d2: CodeUnit, d3: CodeUnit)
    requires IsHex(d0) && IsHex(d1) && IsHex(d2) && IsHex(d3)
    ensures HexDigit(d0).value < 16 && HexDigit(d1).value < 16 && HexDigit(d2).value < 16 && HexDigit(d3).value < 16
  {
  }

  /** The last digit of a number, and what is before it. */
  lemma LastDigit(a: nat, n: nat)
    requires n < 16
    ensures (16 * a + n) / 16 == a && (16 * a + n) % 16 == n
  {
  }

  lemma DigitsOf(u: nat)
    ensures u / 256 == u / 16 / 16 && u / 4096 == u / 16 / 16 / 16
    ensures u == 4096 * (u / 4096) + 256 * (u / 256 % 16) + 16 * (u / 16 % 16) + u % 16
  {
    var a := u / 16;
    var c := a / 16;
    assert u == 16 * a + u % 16 && a == 16 * c + a % 16;
    assert u == 256 * c + (16 * (a % 16) + u % 16);
    var e := c / 16;
    assert c == 16 * e + c % 16;
    assert u == 4096 * e + (256 * (c % 16) + (16 * (a % 16) + u % 16));
  }

  lemma FourDigits(u: nat, n0: nat, n1: nat, n2: nat, n3: nat)
    requires n0 < 16 && n1 < 16 && n2 < 16 && n3 < 16
    ensures u == 4096 * n0 + 256 * n1 + 16 * n2 + n3 && u < 0x1_0000 <==>
              n0 == u / 4096 && n1 == u / 256 % 16 && n2 == u / 16 % 16 && n3 == u % 16 && u < 0x1_0000
  {
    DigitsOf(u);
    if u == 4096 * n0 + 256 * n1 + 16 * n2 + n3 {
      var a := 256 * n0 + 16 * n1 + n2;
      LastDigit(a, n3);
      LastDigit(16 * n0 + n1, n2);
      LastDigit(n0, n1);
    }
  }

  lemma SpelledByPiece(t: Text, u: CodeUnit) returns (p: Piece)
    requires Spells(t, u)
    ensures IsPiece(p) && SpellPiece(p) == t && Denotes(p) == u
  {
    hide HexDigit, ShortEscape, IsDigitOf;
    if |t| == 1 {
      p := Plain(u);
    } else if |t| == 2 {
      p := Short(t[1]);
      ShortEscapeIsExact(t[1], u);
    } else {
      var (n0, n1, n2, n3) := (u / 4096, u / 256 % 16, u / 16 % 16, u % 16);
      p := Unicode(t[2], t[3], t[4], t[5]);
      HexDigitIsExact(t[2], n0);
      HexDigitIsExact(t[3], n1);
      HexDigitIsExact(t[4], n2);
      HexDigitIsExact(t[5], n3);
      FourDigits(u, n0, n1, n2, n3);
    }
  }

  function Joined(parts: seq<Text>): Text {
    if parts == [] then [] else parts[0] + Joined(parts[1..])
  }

  /** Each part spells the unit at its place. */
  ghost predicate SpellAll(parts: seq<Text>, w: Text) {
    |parts| == |w| && forall i :: 0 <= i < |w| ==> Spells(parts[i], w[i])
  }

  function Parts(ps: seq<Piece>): (r: seq<Text>)
    ensures |r| == |ps| && forall i :: 0 <= i < |ps| ==> r[i] == SpellPiece(ps[i])
  {
    if ps == [] then [] else [SpellPiece(ps[0])] + Parts(ps[1..])
  }

  /** The pieces of a string spell its meaning, by the grammar. */
  lemma {:induction false} PiecesSpellTheirMeaning(ps: seq<Piece>)
    requires ArePieces(ps)
    ensures SpellAll(Parts(ps), Meaning(ps)) && Joined(Parts(ps)) == Spelling(ps)
  {
    hide SpellPiece, IsPiece, Denotes, Spells;
    if ps != [] {
      PiecesSpellTheirMeaning(ps[1..]);
      PieceIsExact(ps[0], Denotes(ps[0]));
      SpellAllStep(Parts(ps), Meaning(ps));
      assert Parts(ps)[1..] == Parts(ps[1..]);
    }
  }

  lemma SpellAllStep(parts: seq<Text>, w: Text)
    requires parts != [] && w != []
    ensures SpellAll(parts, w) <==> Spells(parts[0], w[0]) && SpellAll(parts[1..], w[1..])
  {
    hide Spells;
    assert |parts| == |w| ==> forall i :: 0 < i < |w| ==> parts[i] == parts[1..][i - 1] && w[i] == w[1..][i - 1];
    assert |parts| == |w| ==> forall i :: 0 <= i < |w| - 1 ==> parts[1..][i] == parts[i + 1] && w[1..][i] == w[i + 1];
  }

  /** A text is read as a string exactly when it is spelled by parts that each spell a unit of that string. */
  lemma ReadIsExact(t: Text, w: Text)
    ensures Read(t) == Some(w) <==> exists parts :: SpellAll(parts, w) && Joined(parts) == t
  {
    hide Read, SpellAll, Joined;
    forall parts | SpellAll(parts, w) && Joined(parts) == t ensures Read(t) == Some(w) {
      var ps := SpelledByPieces(parts, w);
      PiecesSpellTheirMeaning(ps);
      ReadUndoesSpelling(ps);
    }
    if Read(t) == Some(w) {
      var ps := ReadPieces(t);
      PiecesSpellTheirMeaning(ps);
      ReadUndoesSpelling(ps);
    }
  }

  lemma Uncons<T>(s: seq<T>)
    requires s != []
    ensures s == [s[0]] + s[1..]
  {
  }

  lemma PiecesOfCons(p: Piece, rest: seq<Piece>)
    requires IsPiece(p) && ArePieces(rest)
    ensures ArePieces([p] + rest)
    ensures Parts([p] + rest) == [SpellPiece(p)] + Parts(rest) && Meaning([p] + rest) == [Denotes(p)] + Meaning(rest)
  {
    hide SpellPiece, Denotes, IsPiece;
    assert ([p] + rest)[1..] == rest;
  }

  lemma {:induction false} SpelledByPieces(parts: seq<Text>, w: Text) returns (ps: seq<Piece>)
    requires SpellAll(parts, w)
    ensures ArePieces(ps) && Parts(ps) == parts && Meaning(ps) == w
    decreases |parts|
  {
    if parts == [] {
      ps := [];
    } else {
      assert |w| == |parts|;
      hide SpellPiece, Denotes, Spells, IsPiece, ArePieces, Parts, Meaning, SpellAll;
      SpellAllStep(parts, w);
      var rest := SpelledByPieces(parts[1..], w[1..]);
      var p := SpelledByPiece(parts[0], w[0]);
      PiecesOfCons(p, rest);
      ps := [p] + rest;
      Uncons(w);
      Uncons(parts);
    }
  }

  /** What can be read is made of pieces. */
  lemma {:induction false} ReadPieces(t: Text) returns (ps: seq<Piece>)
    requires Read(t).Some?
    ensures ArePieces(ps) && Spelling(ps) == t
    decreases |t|
  {
    hide Hex, HexDigit, ShortEscape;
    if t == [] {
      ps := [];
    } else {
      var p := if t[0] != BACKSLASH then Plain(t[0])
               else if t[1] == LOWER_U then Unicode(t[2], t[3], t[4], t[5]) else Short(t[1]);
      var rest := ReadPieces(t[|SpellPiece(p)|..]);
      ps := [p] + rest;
      assert ps[1..] == rest && t == SpellPiece(p) + t[|SpellPiece(p)|..];
    }
  }

  // The shortest spelling

  /** The digits of an escape by number are in lower case. */
  predicate IsLower(part: Text) {
    |part| == 6 ==> forall i :: 2 <= i < 6 ==> exists n :: 0 <= n < 16 && part[i] == DIGITS[n] as int
  }

  predicate AreLower(parts: seq<Text>) {
    forall k :: 0 <= k < |parts| ==> IsLower(parts[k])
  }

  lemma LowerDigit(d: CodeUnit, n: nat)
    requires IsHex(d) && exists m :: 0 <= m < 16 && d == DIGITS[m] as int
    ensures HexDigit(d) == Some(n) ==> d == LowerHex(n)
  {
  }

  lemma LowerHexIsLower(n: nat)
    requires n < 16
    ensures LowerHex(n) == DIGITS[n] as int
  {
  }

  lemma HexPieceIsLower(u: CodeUnit)
    ensures IsLower(SpellPiece(HexPiece(u)))
  {
    var p := HexPiece(u);
    LowerHexIsLower(u / 0x100 / 16);
    LowerHexIsLower(u / 0x100 % 16);
    LowerHexIsLower(u % 0x100 / 16);
    LowerHexIsLower(u % 0x100 % 16);
    var t := SpellPiece(p);
    assert t == [BACKSLASH, LOWER_U, p.d0, p.d1, p.d2, p.d3];
  }

  lemma LowerStep(ps: seq<Piece>)
    requires ps != []
    ensures AreLower(Parts(ps)) <==> IsLower(SpellPiece(ps[0])) && AreLower(Parts(ps[1..]))
  {
    hide IsLower, SpellPiece;
    assert forall i :: 0 < i < |ps| ==> Parts(ps)[i] == Parts(ps[1..])[i - 1];
    assert forall i :: 0 <= i < |ps| - 1 ==> Parts(ps[1..])[i] == Parts(ps)[i + 1];
  }

  lemma {:induction false} QuotedIsLower(t: Text)
    ensures AreLower(Parts(StringifyUnits(t)))
  {
    hide HexPiece, IsLower, AreLower, SpellPiece, Parts;
    var ps := StringifyUnits(t);
    if t == [] {
      NothingIsLower();
    } else {
      LowerStep(ps);
      if IsHighSurrogate(t[0]) && |t| > 1 && IsLowSurrogate(t[1]) {
        QuotedIsLower(t[2..]);
        LowerStep(ps[1..]);
        ShortPartsAreLower(Plain(t[0]));
        ShortPartsAreLower(Plain(t[1]));
        assert ps[1..][1..] == StringifyUnits(t[2..]);
      } else {
        QuotedIsLower(t[1..]);
        UnitIsSpelledLower(t[0]);
        assert ps[1..] == StringifyUnits(t[1..]);
      }
    }
  }

  lemma UnitIsSpelledLower(u: CodeUnit)
    ensures IsLower(SpellPiece(StringifyUnit(u)))
  {
    hide IsLower, HexPiece;
    HexPieceIsLower(u);
    ShortPartsAreLower(StringifyUnit(u));
  }

  lemma NothingIsLower()
    ensures AreLower(Parts([]))
  {
  }

  lemma ShortPartsAreLower(p: Piece)
    ensures !p.Unicode? ==> IsLower(SpellPiece(p))
  {
  }

  predicate IsSurrogate(u: CodeUnit) {
    IsHighSurrogate(u) || IsLowSurrogate(u)
  }

  lemma SameDigits(p: Piece, q: Piece, u: CodeUnit)
    requires p.Unicode? && q.Unicode? && IsPiece(p) && IsPiece(q) && Denotes(p) == u && Denotes(q) == u
    ensures HexDigit(p.d0) == HexDigit(q.d0) && HexDigit(p.d1) == HexDigit(q.d1)
    ensures HexDigit(p.d2) == HexDigit(q.d2) && HexDigit(p.d3) == HexDigit(q.d3)
  {
    hide HexDigit;
    DigitsAreSmall(p.d0, p.d1, p.d2, p.d3);
    DigitsAreSmall(q.d0, q.d1, q.d2, q.d3);
    FourDigits(u, HexDigit(p.d0).value, HexDigit(p.d1).value, HexDigit(p.d2).value, HexDigit(p.d3).value);
    FourDigits(u, HexDigit(q.d0).value, HexDigit(q.d1).value, HexDigit(q.d2).value, HexDigit(q.d3).value);
  }

  lemma LowerPieceIsUnique(p: Piece, q: Piece, u: CodeUnit)
    requires p.Unicode? && q.Unicode? && IsPiece(p) && IsPiece(q) && Denotes(p) == u && Denotes(q) == u
    requires IsLower(SpellPiece(p)) && IsLower(SpellPiece(q))
    ensures p == q
  {
    hide HexDigit, Hex, LowerHex;
    SameDigits(p, q, u);
    forall i | 2 <= i < 6 ensures SpellPiece(p)[i] == SpellPiece(q)[i] {
      var (d, e) := (SpellPiece(p)[i], SpellPiece(q)[i]);
      LowerDigit(d, HexDigit(d).value);
      LowerDigit(e, HexDigit(e).value);
    }
    assert p.d0 == SpellPiece(p)[2] && p.d1 == SpellPiece(p)[3] && p.d2 == SpellPiece(p)[4] && p.d3 == SpellPiece(p)[5];
    assert q.d0 == SpellPiece(q)[2] && q.d1 == SpellPiece(q)[3] && q.d2 == SpellPiece(q)[4] && q.d3 == SpellPiece(q)[5];
  }

  /** Of the pieces that spell a unit and are no bare surrogate, the serializer takes the shortest one. */
  lemma ShortestPiece(p: Piece, u: CodeUnit)
    requires IsPiece(p) && Denotes(p) == u && !(p.Plain? && IsSurrogate(u))
    ensures |SpellPiece(StringifyUnit(u))| <= |SpellPiece(p)|
    ensures |SpellPiece(StringifyUnit(u))| == |SpellPiece(p)| && IsLower(SpellPiece(p)) ==> p == StringifyUnit(u)
  {
    hide Hex, HexPiece, IsLower;
    if p.Unicode? && StringifyUnit(u).Unicode? && IsLower(SpellPiece(p)) {
      HexPieceIsLower(u);
      LowerPieceIsUnique(p, StringifyUnit(u), u);
    }
  }

  lemma {:induction false} ScalarTail(a: Text, b: Text)
    requires IsUnicodeScalarText(a + b) && forall i :: 0 <= i < |a| ==> !IsSurrogate(a[i])
    ensures IsUnicodeScalarText(b)
  {
    if a == [] {
      assert a + b == b;
    } else {
      assert (a + b)[1..] == a[1..] + b;
      ScalarTail(a[1..], b);
    }
  }

  lemma PieceHasNoSurrogate(p: Piece)
    requires IsPiece(p) && !(p.Plain? && IsSurrogate(p.u))
    ensures forall i :: 0 <= i < |SpellPiece(p)| ==> !IsSurrogate(SpellPiece(p)[i])
  {
  }

  /** A text that begins with half of a pair goes on with the other half, which only a plain piece spells. */
  lemma PairIsPlain(ps: seq<Piece>)
    requires ArePieces(ps) && ps != [] && IsUnicodeScalarText(Spelling(ps)) && ps[0].Plain? && IsSurrogate(ps[0].u)
    ensures IsHighSurrogate(ps[0].u) && |ps| > 1 && ps[1].Plain? && IsLowSurrogate(ps[1].u)
    ensures IsUnicodeScalarText(Spelling(ps[2..]))
  {
    hide Spelling, IsPiece;
    var t, tail := Spelling(ps), Spelling(ps[1..]);
    SpellingStep(ps);
    assert t[1..] == tail;
    SpellingStep(ps[1..]);
    PieceBegins(ps[1]);
    assert tail[0] == SpellPiece(ps[1])[0];
    assert ps[1..][1..] == ps[2..] && t[2..] == tail[1..] == Spelling(ps[2..]);
  }

  lemma SpellingStep(ps: seq<Piece>)
    ensures ps == [] ==> Spelling(ps) == []
    ensures ps != [] ==> Spelling(ps) == SpellPiece(ps[0]) + Spelling(ps[1..])
  {
  }

  lemma PieceBegins(p: Piece)
    ensures SpellPiece(p) != []
    ensures !p.Plain? ==> SpellPiece(p)[0] == BACKSLASH
  {
  }

  lemma MeaningStep(ps: seq<Piece>)
    requires ps != []
    ensures |Meaning(ps)| == |ps| && Meaning(ps)[0] == Denotes(ps[0]) && Meaning(ps)[1..] == Meaning(ps[1..])
    ensures |ps| > 1 ==> Meaning(ps)[1] == Denotes(ps[1]) && Meaning(ps)[2..] == Meaning(ps[2..])
    ensures Spelling(ps) == SpellPiece(ps[0]) + Spelling(ps[1..])
  {
    MeaningLength(ps);
    if |ps| > 1 {
      assert ps[1..][1..] == ps[2..] && Meaning(ps[1..]) == [Denotes(ps[1])] + Meaning(ps[2..]);
    }
  }

  lemma {:induction false} MeaningLength(ps: seq<Piece>)
    ensures |Meaning(ps)| == |ps|
  {
    if ps != [] {
      MeaningLength(ps[1..]);
    }
  }

  /** No other spelling of the string as well-formed Unicode is shorter; in lower case there is no other as short. */
  lemma {:induction false} StringifiedIsShortest(t: Text, ps: seq<Piece>)
    requires ArePieces(ps) && Meaning(ps) == t && IsUnicodeScalarText(Spelling(ps))
    ensures |Spelling(StringifyUnits(t))| <= |Spelling(ps)|
    ensures |Spelling(StringifyUnits(t))| == |Spelling(ps)| && AreLower(Parts(ps)) ==> ps == StringifyUnits(t)
    decreases |t|, 1
  {
    hide Meaning, Spelling, SpellPiece, Denotes, IsPiece, StringifyUnit, IsUnicodeScalarText, AreLower, Parts, IsLower;
    MeaningLength(ps);
    SpellingStep(StringifyUnits(t));
    if t != [] {
      MeaningStep(ps);
      LowerStep(ps);
      if IsHighSurrogate(t[0]) && |t| > 1 && IsLowSurrogate(t[1]) {
        ShortestPair(t, ps);
      } else {
        assert !(ps[0].Plain? && IsSurrogate(t[0])) by { LoneIsEscaped(t, ps); }
        PieceHasNoSurrogateOf(ps[0], t[0]);
        ScalarTail(SpellPiece(ps[0]), Spelling(ps[1..]));
        StringifiedIsShortest(t[1..], ps[1..]);
        ShortestPiece(ps[0], t[0]);
        assert StringifyUnits(t)[1..] == StringifyUnits(t[1..]);
        assert ps == [ps[0]] + ps[1..];
      }
    }
  }

  lemma PlainMeans(p: Piece)
    requires IsPiece(p)
    ensures p.Plain? ==> Denotes(p) == p.u && |SpellPiece(p)| == 1
    ensures p.Short? ==> !IsSurrogate(Denotes(p)) && |SpellPiece(p)| == 2
    ensures p.Unicode? ==> |SpellPiece(p)| == 6
  {
  }

  lemma PieceHasNoSurrogateOf(p: Piece, u: CodeUnit)
    requires IsPiece(p) && Denotes(p) == u && !(p.Plain? && IsSurrogate(u))
    ensures forall i :: 0 <= i < |SpellPiece(p)| ==> !IsSurrogate(SpellPiece(p)[i])
  {
    PlainMeans(p);
    PieceHasNoSurrogate(p);
  }

  lemma LoneIsEscaped(t: Text, ps: seq<Piece>)
    requires ArePieces(ps) && ps != [] && Meaning(ps) == t && IsUnicodeScalarText(Spelling(ps))
    requires t != [] && !(IsHighSurrogate(t[0]) && |t| > 1 && IsLowSurrogate(t[1]))
    ensures !(ps[0].Plain? && IsSurrogate(t[0]))
  {
    hide Meaning, Spelling, IsPiece, Denotes, IsUnicodeScalarText;
    MeaningStep(ps);
    MeaningLength(ps);
    PlainMeans(ps[0]);
    if ps[0].Plain? && IsSurrogate(t[0]) {
      PairIsPlain(ps);
      PlainMeans(ps[1]);
    }
  }

  lemma {:induction false} ShortestPair(t: Text, ps: seq<Piece>)
    requires ArePieces(ps) && Meaning(ps) == t && IsUnicodeScalarText(Spelling(ps))
    requires |t| > 1 && IsHighSurrogate(t[0]) && IsLowSurrogate(t[1])
    ensures |Spelling(StringifyUnits(t))| <= |Spelling(ps)|
    ensures |Spelling(StringifyUnits(t))| == |Spelling(ps)| && AreLower(Parts(ps)) ==> ps == StringifyUnits(t)
    decreases |t|, 0
  {
    hide Meaning, Spelling, SpellPiece, Denotes, IsPiece, IsUnicodeScalarText, AreLower, Parts, IsLower;
    MeaningLength(ps);
    MeaningStep(ps);
    LowerStep(ps);
    LowerStep(ps[1..]);
    PlainMeans(ps[0]);
    PlainMeans(ps[1]);
    PairSpelling(ps);
    var qs := StringifyUnits(t);
    PairSpelling(qs);
    assert qs[0] == Plain(t[0]) && qs[1] == Plain(t[1]) && qs[2..] == StringifyUnits(t[2..]);
    PlainMeans(qs[0]);
    PlainMeans(qs[1]);
    if ps[0].Plain? {
      PairIsPlain(ps);
    } else {
      PieceHasNoSurrogateOf(ps[0], t[0]);
      SpellingStep(ps);
      ScalarTail(SpellPiece(ps[0]), Spelling(ps[1..]));
      if ps[1].Plain? {
        PairIsPlain(ps[1..]);
      } else {
        PieceHasNoSurrogateOf(ps[1], t[1]);
        SpellingStep(ps[1..]);
        assert ps[1..][1..] == ps[2..];
        ScalarTail(SpellPiece(ps[1]), Spelling(ps[2..]));
      }
    }
    StringifiedIsShortest(t[2..], ps[2..]);
    assert ps == [ps[0], ps[1]] + ps[2..] && ps[1..][1..] == ps[2..];
  }

  lemma PairSpelling(ps: seq<Piece>)
    requires |ps| > 1
    ensures |Spelling(ps)| == |SpellPiece(ps[0])| + |SpellPiece(ps[1])| + |Spelling(ps[2..])|
  {
    hide SpellPiece;
    assert ps[1..][1..] == ps[2..] && Spelling(ps[1..]) == SpellPiece(ps[1]) + Spelling(ps[2..]);
  }

  /**
   * A quoted string is the shortest text that the grammar reads as the string and that is well-formed Unicode, with
   * lower-case digits where it escapes by number; there is no other such text.
   */
  lemma QuotedIsCanonical(t: Text, parts: seq<Text>)
    requires SpellAll(parts, t) && IsUnicodeScalarText(Joined(parts))
    ensures |Quoted(t)| <= |Joined(parts)| + 2
    ensures |Quoted(t)| == |Joined(parts)| + 2 && AreLower(parts) ==> Quoted(t) == [QUOTE] + Joined(parts) + [QUOTE]
  {
    hide Spelling, StringifyUnits, SpellAll, Joined, AreLower, Meaning, Parts;
    var ps := SpelledByPieces(parts, t);
    PiecesSpellTheirMeaning(ps);
    StringifiedIsShortest(t, ps);
  }

  /** A quoted string is itself such a text. */
  lemma QuotedIsSpelled(t: Text) returns (parts: seq<Text>)
    ensures SpellAll(parts, t) && AreLower(parts) && IsUnicodeScalarText(Joined(parts))
    ensures Quoted(t) == [QUOTE] + Joined(parts) + [QUOTE]
  {
    hide Spelling, StringifyUnits, SpellAll, Joined, AreLower, Parts;
    parts := Parts(StringifyUnits(t));
    PiecesSpellTheirMeaning(StringifyUnits(t));
    QuotedIsLower(t);
    SpellingIsScalarText(t);
  }
}
