/** Strings as the program sees them: sequences of UTF-16 code units, ordered code unit by code unit. */
module Texts {

  type CodeUnit = u: int | 0 <= u < 0x1_0000
  type Text = seq<CodeUnit>

  const TAB: CodeUnit := 9
  const SPACE: CodeUnit := 32
  const QUOTE: CodeUnit := 34
  const COMMA: CodeUnit := 44
  const MINUS: CodeUnit := 45
  const SLASH: CodeUnit := 47
  const ZERO: CodeUnit := 48
  const ONE: CodeUnit := 49
  const COLON: CodeUnit := 58
  const EQUALS: CodeUnit := 61
  const OPEN_BRACKET: CodeUnit := 91
  const BACKSLASH: CodeUnit := 92
  const CLOSE_BRACKET: CodeUnit := 93
  const OPEN_BRACE: CodeUnit := 123
  const CLOSE_BRACE: CodeUnit := 125
  const TILDE: CodeUnit := 126

  predicate IsDigit(u: CodeUnit) {
    ZERO <= u <= ZERO + 9
  }

  predicate IsHighSurrogate(u: CodeUnit) {
    0xD800 <= u <= 0xDBFF
  }

  predicate IsLowSurrogate(u: CodeUnit) {
    0xDC00 <= u <= 0xDFFF
  }

  /** Every surrogate is half of a pair. */
  predicate IsUnicodeScalarText(t: Text) {
    if t == [] then
      true
    else if IsHighSurrogate(t[0]) then
      |t| > 1 && IsLowSurrogate(t[1]) && IsUnicodeScalarText(t[2..])
    else
      !IsLowSurrogate(t[0]) && IsUnicodeScalarText(t[1..])
  }

  /** The `<` of the language on strings. */
  predicate Less(a: Text, b: Text) {
    if b == [] then
      false
    else if a == [] then
      true
    else
      a[0] < b[0] || (a[0] == b[0] && Less(a[1..], b[1..]))
  }

  lemma LessIsIrreflexive(a: Text)
    ensures !Less(a, a)
  {
  }

  lemma {:induction false} LessIsTransitive(a: Text, b: Text, c: Text)
    requires Less(a, b) && Less(b, c)
    ensures Less(a, c)
  {
    if a != [] && a[0] == b[0] == c[0] {
      LessIsTransitive(a[1..], b[1..], c[1..]);
    }
  }

  lemma {:induction false} LessIsTotal(a: Text, b: Text)
    ensures a != b ==> Less(a, b) != Less(b, a)
  {
    if a != [] && b != [] && a[0] == b[0] {
      assert a == [a[0]] + a[1..] && b == [b[0]] + b[1..];
      LessIsTotal(a[1..], b[1..]);
    }
  }

  // The units by name

  /** The code units of a text of the program's own, which holds ASCII characters only. */
  function Ascii(s: string): (t: Text)
    requires forall i :: 0 <= i < |s| ==> s[i] < '\U{80}'
    ensures |t| == |s| && forall i :: 0 <= i < |s| ==> t[i] == s[i] as int
  {
    seq(|s|, i requires 0 <= i < |s| => s[i] as int)
  }

  lemma UnitsByName()
    ensures Ascii("\t \",-/01:=") == [TAB, SPACE, QUOTE, COMMA, MINUS, SLASH, ZERO, ONE, COLON, EQUALS]
    ensures Ascii("[\\]{}~") == [OPEN_BRACKET, BACKSLASH, CLOSE_BRACKET, OPEN_BRACE, CLOSE_BRACE, TILDE]
    ensures forall u: CodeUnit :: IsDigit(u) <==> '0' as int <= u <= '9' as int
  {
  }

  // Order

  /** One text is before another exactly when it is a proper beginning of it or smaller where they first differ. */
  lemma LessIsLexicographic(a: Text, b: Text)
    ensures Less(a, b) <==> exists k :: 0 <= k <= |a| && IsLessAt(a, b, k)
  {
    if Less(a, b) {
      var k := FirstDifference(a, b);
    }
    forall k | 0 <= k <= |a| && IsLessAt(a, b, k) ensures Less(a, b) {
      LessAt(a, b, k);
    }
  }

  /** The texts agree before `k`, where the first one ends or has the smaller unit. */
  predicate IsLessAt(a: Text, b: Text, k: nat) {
    k <= |a| && k < |b| && a[..k] == b[..k] && (k == |a| || a[k] < b[k])
  }

  lemma {:induction false} FirstDifference(a: Text, b: Text) returns (k: nat)
    requires Less(a, b)
    ensures IsLessAt(a, b, k)
  {
    if a == [] || a[0] < b[0] {
      k := 0;
    } else {
      k := FirstDifference(a[1..], b[1..]);
      assert a[..k + 1] == [a[0]] + a[1..][..k] && b[..k + 1] == [b[0]] + b[1..][..k];
      k := k + 1;
    }
  }

  lemma {:induction false} LessAt(a: Text, b: Text, k: nat)
    requires IsLessAt(a, b, k)
    ensures Less(a, b)
  {
    if k > 0 {
      assert a[0] == a[..k][0] == b[..k][0] == b[0];
      assert a[1..][..k - 1] == a[..k][1..] && b[1..][..k - 1] == b[..k][1..];
      LessAt(a[1..], b[1..], k - 1);
    }
  }

  // Unicode

  /** A character, by its number: any but the surrogates. */
  type Character = c: int | 0 <= c < 0x11_0000 && !(0xD800 <= c < 0xE000)

  /** The code units of a character (section 2.1 of RFC 2781). */
  function Units(c: Character): Text {
    if c < 0x1_0000 then
      [c]
    else
      var n := c - 0x1_0000;
      assert 0 <= n < 0x10_0000 && 0 <= n / 0x400 < 0x400 && 0 <= n % 0x400 < 0x400;
      [0xD800 + n / 0x400, 0xDC00 + n % 0x400]
  }

  function Utf16(s: seq<Character>): Text {
    if s == [] then [] else Units(s[0]) + Utf16(s[1..])
  }

  lemma {:induction false} Utf16IsScalarText(s: seq<Character>)
    ensures IsUnicodeScalarText(Utf16(s))
  {
    if s != [] {
      Utf16IsScalarText(s[1..]);
      var t := Utf16(s);
      assert t[|Units(s[0])|..] == Utf16(s[1..]);
      assert t[0] == Units(s[0])[0];
      assert |Units(s[0])| == 2 ==> t[1] == Units(s[0])[1];
    }
  }

  lemma {:induction false} ScalarTextIsUtf16(t: Text) returns (s: seq<Character>)
    requires IsUnicodeScalarText(t)
    ensures Utf16(s) == t
  {
    if t == [] {
      s := [];
    } else if IsHighSurrogate(t[0]) {
      var high: int, low: int := t[0], t[1];
      var c: Character := 0x1_0000 + (high - 0xD800) * 0x400 + (low - 0xDC00);
      assert Units(c) == [t[0], t[1]];
      var rest := ScalarTextIsUtf16(t[2..]);
      s := [c] + rest;
      assert s[1..] == rest && t == [t[0], t[1]] + t[2..];
    } else {
      var c: Character := t[0];
      var rest := ScalarTextIsUtf16(t[1..]);
      s := [c] + rest;
      assert s[1..] == rest && t == [t[0]] + t[1..];
    }
  }

  /** Scalar text is what strings of characters are encoded as. */
  lemma ScalarTextIsExact(t: Text)
    ensures IsUnicodeScalarText(t) <==> exists s :: Utf16(s) == t
  {
    if IsUnicodeScalarText(t) {
      var s := ScalarTextIsUtf16(t);
    }
    forall s | Utf16(s) == t ensures IsUnicodeScalarText(t) {
      Utf16IsScalarText(s);
    }
  }
}
