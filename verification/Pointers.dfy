/** JSON Pointers (RFC 6901): the spelling of a path and the path of a spelling. */
module Pointers {
  import opened Outcomes
  import opened Texts

  type Path = seq<Text>

  /** `text.replace(/u/g, by)` for a single code unit. */
  function ReplaceUnit(t: Text, u: CodeUnit, spelled: Text): Text {
    if t == [] then [] else (if t[0] == u then spelled else [t[0]]) + ReplaceUnit(t[1..], u, spelled)
  }

  /** `text.replace(/ab/g, by)` for a pair of code units, scanning from the left. */
  function ReplacePair(t: Text, a: CodeUnit, b: CodeUnit, single: CodeUnit): Text {
    if t == [] then
      []
    else if |t| > 1 && t[0] == a && t[1] == b then
      [single] + ReplacePair(t[2..], a, b, single)
    else
      [t[0]] + ReplacePair(t[1..], a, b, single)
  }

  function EscapeKey(key: Text): Text {
    ReplaceUnit(ReplaceUnit(key, TILDE, [TILDE, ZERO]), SLASH, [TILDE, ONE])
  }

  function UnescapeToken(token: Text): Text {
    ReplacePair(ReplacePair(token, TILDE, ONE, SLASH), TILDE, ZERO, TILDE)
  }

  /** `text.split("/")` */
  function Split(t: Text): (r: seq<Text>)
    ensures r != []
  {
    if t == [] then
      [[]]
    else if t[0] == SLASH then
      [[]] + Split(t[1..])
    else
      var rest := Split(t[1..]);
      [[t[0]] + rest[0]] + rest[1..]
  }

  function UnescapeAll(tokens: seq<Text>): (r: Path)
    ensures |r| == |tokens|
  {
    if tokens == [] then [] else [UnescapeToken(tokens[0])] + UnescapeAll(tokens[1..])
  }

  /** Each tilde introduces `~0` or `~1`. */
  predicate TildesEscaped(t: Text) {
    if t == [] then
      true
    else if t[0] == TILDE then
      |t| > 1 && (t[1] == ZERO || t[1] == ONE) && TildesEscaped(t[2..])
    else
      TildesEscaped(t[1..])
  }

  /** The pattern `(?:\/(?:[^~]|~[01])*)*`, whose `[^~]` admits further slashes. */
  predicate IsPointer(t: Text) {
    t == [] || (t[0] == SLASH && TildesEscaped(t))
  }

  function Tokens(t: Text): Path
    requires IsPointer(t)
  {
    if t == [] then [] else UnescapeAll(Split(t[1..]))
  }

  /** Mask spellings are decoded only when they are Unicode scalar text. */
  function DecodeMask(t: Text): Option<Path> {
    if IsUnicodeScalarText(t) && IsPointer(t) then Some(Tokens(t)) else None
  }

  function PointerTo(key: Text): Text {
    [SLASH] + EscapeKey(key)
  }

  function Encode(path: Path): Text {
    if path == [] then [] else PointerTo(path[0]) + Encode(path[1..])
  }

  function EscapeUnit(u: CodeUnit): Text {
    if u == TILDE then [TILDE, ZERO] else if u == SLASH then [TILDE, ONE] else [u]
  }

  /** The two replacement passes act like one pass over code units. */
  lemma EscapeFirstUnit(u: CodeUnit, key: Text)
    ensures EscapeKey([u] + key) == EscapeUnit(u) + EscapeKey(key)
  {
    var inner := ReplaceUnit(key, TILDE, [TILDE, ZERO]);
    assert ([u] + key)[1..] == key;
    if u == TILDE {
      assert ReplaceUnit([u] + key, TILDE, [TILDE, ZERO]) == [TILDE] + ([ZERO] + inner);
      assert ([TILDE] + ([ZERO] + inner))[1..] == [ZERO] + inner;
      assert ([ZERO] + inner)[1..] == inner;
      var outer := EscapeKey(key);
      assert ReplaceUnit([ZERO] + inner, SLASH, [TILDE, ONE]) == [ZERO] + outer;
      assert ReplaceUnit([TILDE] + ([ZERO] + inner), SLASH, [TILDE, ONE]) == [TILDE] + ([ZERO] + outer);
    } else {
      assert ([u] + inner)[1..] == inner;
    }
  }

  lemma UnescapeFirstUnit(u: CodeUnit, rest: Text)
    ensures UnescapeToken(EscapeUnit(u) + rest) == [u] + UnescapeToken(rest)
  {
    var inner := ReplacePair(rest, TILDE, ONE, SLASH);
    var t := EscapeUnit(u) + rest;
    if u == TILDE {
      assert t[1..] == [ZERO] + rest && t[1..][1..] == rest;
      assert ReplacePair(t, TILDE, ONE, SLASH) == [TILDE] + ([ZERO] + inner);
      assert ([TILDE] + ([ZERO] + inner))[2..] == inner;
    } else if u == SLASH {
      assert t[2..] == rest;
      assert ([SLASH] + inner)[1..] == inner;
    } else {
      assert t[1..] == rest;
      assert ([u] + inner)[1..] == inner;
    }
  }

  /** Decoding undoes encoding for every key, including empty keys and keys holding `~` or `/`. */
  lemma {:induction false} UnescapeUndoesEscape(key: Text)
    ensures UnescapeToken(EscapeKey(key)) == key
  {
    if key != [] {
      assert key == [key[0]] + key[1..];
      EscapeFirstUnit(key[0], key[1..]);
      UnescapeFirstUnit(key[0], EscapeKey(key[1..]));
      UnescapeUndoesEscape(key[1..]);
    }
  }

  /** Encoding undoes decoding for every well-formed token. */
  lemma {:induction false} EscapeUndoesUnescape(token: Text)
    requires TildesEscaped(token) && SLASH !in token
    ensures EscapeKey(UnescapeToken(token)) == token
  {
    if token != [] {
      var u, rest := token[0], token[1..];
      if u == TILDE {
        u, rest := if token[1] == ZERO then TILDE else SLASH, token[2..];
      }
      assert token == EscapeUnit(u) + rest;
      UnescapeFirstUnit(u, rest);
      EscapeFirstUnit(u, UnescapeToken(rest));
      EscapeUndoesUnescape(rest);
    }
  }

  lemma {:induction false} EscapedKeyIsToken(key: Text)
    ensures SLASH !in EscapeKey(key)
    ensures TildesEscaped(EscapeKey(key))
  {
    if key != [] {
      assert key == [key[0]] + key[1..];
      EscapeFirstUnit(key[0], key[1..]);
      EscapedKeyIsToken(key[1..]);
      var t := EscapeKey(key);
      assert key[0] == TILDE || key[0] == SLASH ==> t[2..] == EscapeKey(key[1..]);
      assert key[0] != TILDE && key[0] != SLASH ==> t[1..] == EscapeKey(key[1..]);
    }
  }

  lemma {:induction false} TildesEscapedConcatenation(a: Text, b: Text)
    requires TildesEscaped(a)
    ensures TildesEscaped(a + b) == TildesEscaped(b)
  {
    if a == [] {
      assert a + b == b;
    } else {
      var n := if a[0] == TILDE then 2 else 1;
      assert (a + b)[n..] == a[n..] + b;
      TildesEscapedConcatenation(a[n..], b);
    }
  }

  lemma {:induction false} SplitAfterToken(a: Text, b: Text)
    requires SLASH !in a
    ensures Split(a) == [a]
    ensures Split(a + [SLASH] + b) == [a] + Split(b)
  {
    var t := a + [SLASH] + b;
    if a == [] {
      assert t[1..] == b;
    } else {
      assert a == [a[0]] + a[1..];
      assert t[1..] == a[1..] + [SLASH] + b;
      SplitAfterToken(a[1..], b);
    }
  }

  lemma {:induction false} EncodedPathIsPointer(path: Path)
    ensures IsPointer(Encode(path))
    ensures TildesEscaped(Encode(path))
  {
    if path != [] {
      EncodedPathIsPointer(path[1..]);
      EscapedKeyIsToken(path[0]);
      assert PointerTo(path[0])[1..] == EscapeKey(path[0]);
      TildesEscapedConcatenation(PointerTo(path[0]), Encode(path[1..]));
    }
  }

  /** Every path survives being spelled and read back. */
  lemma {:induction false} DecodeUndoesEncode(path: Path)
    ensures IsPointer(Encode(path))
    ensures Tokens(Encode(path)) == path
  {
    EncodedPathIsPointer(path);
    if path != [] {
      var key, rest := path[0], path[1..];
      DecodeUndoesEncode(rest);
      EscapedKeyIsToken(key);
      UnescapeUndoesEscape(key);
      if rest == [] {
        assert Encode(path)[1..] == EscapeKey(key);
        SplitAfterToken(EscapeKey(key), []);
      } else {
        assert Encode(path)[1..] == EscapeKey(key) + [SLASH] + Encode(rest)[1..];
        SplitAfterToken(EscapeKey(key), Encode(rest)[1..]);
      }
    }
  }

  lemma SingleKeyPointer(key: Text)
    ensures IsPointer(PointerTo(key))
    ensures Tokens(PointerTo(key)) == [key]
  {
    DecodeUndoesEncode([key]);
    assert Encode([key]) == PointerTo(key);
  }

  lemma EncodeFirstToken(a: Text, tokens: seq<Text>)
    requires TildesEscaped(a) && SLASH !in a
    ensures Encode(UnescapeAll([a] + tokens)) == [SLASH] + a + Encode(UnescapeAll(tokens))
    ensures Encode(UnescapeAll([])) == []
  {
    EscapeUndoesUnescape(a);
    assert ([a] + tokens)[1..] == tokens;
    var path := UnescapeAll([a] + tokens);
    assert path[0] == UnescapeToken(a) && path[1..] == UnescapeAll(tokens);
  }

  lemma TildesAfterSlash(a: Text, b: Text)
    requires TildesEscaped(a) && TildesEscaped(a + [SLASH] + b)
    ensures TildesEscaped(b)
  {
    assert a + [SLASH] + b == a + ([SLASH] + b);
    TildesEscapedConcatenation(a, [SLASH] + b);
    assert ([SLASH] + b)[1..] == b;
  }

  lemma {:induction false} EncodeOfSplit(t: Text)
    requires TildesEscaped(t)
    ensures Encode(UnescapeAll(Split(t))) == [SLASH] + t
    decreases |t|
  {
    hide Split, UnescapeAll, Encode, UnescapeToken, EscapeKey;
    if SLASH in t {
      var i := FirstSlash(t);
      var a, b := t[..i], t[i + 1..];
      assert t == a + [SLASH] + b;
      TildesBeforeSlash(t, i);
      TildesAfterSlash(a, b);
      SplitAfterToken(a, b);
      EncodeOfSplit(b);
      EncodeFirstToken(a, Split(b));
      assert [SLASH] + a + ([SLASH] + b) == [SLASH] + t;
    } else {
      SplitAfterToken(t, []);
      EncodeFirstToken(t, []);
      assert [t] + [] == [t] && [SLASH] + t + [] == [SLASH] + t;
    }
  }

  lemma {:induction false} FirstSlash(t: Text) returns (i: nat)
    requires SLASH in t
    ensures i < |t| && t[i] == SLASH && SLASH !in t[..i]
  {
    if t[0] == SLASH {
      i := 0;
    } else {
      i := FirstSlash(t[1..]);
      assert t[..i + 1] == [t[0]] + t[1..][..i];
      i := i + 1;
    }
  }

  lemma {:induction false} TildesBeforeSlash(t: Text, i: nat)
    requires i < |t| && t[i] == SLASH && SLASH !in t[..i]
    requires TildesEscaped(t)
    ensures TildesEscaped(t[..i])
  {
    if i > 0 {
      var n := if t[0] == TILDE then 2 else 1;
      assert n <= i;
      assert t[..i][n..] == t[n..][..i - n];
      forall k | 0 <= k < i - n ensures t[n..][k] != SLASH { assert t[n..][k] == t[..i][k + n]; }
      TildesBeforeSlash(t[n..], i - n);
    }
  }

  /** Every pointer text survives being read and spelled again. */
  lemma EncodeUndoesDecode(t: Text)
    requires IsPointer(t)
    ensures Encode(Tokens(t)) == t
  {
    if t != [] {
      EncodeOfSplit(t[1..]);
    }
  }
}
