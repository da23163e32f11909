/** Decimal spellings of natural numbers, and the comparison that never converts them to numbers. */
module Decimals {
  import opened Texts

  predicate IsDigits(t: Text) {
    forall i :: 0 <= i < |t| ==> IsDigit(t[i])
  }

  /** The pattern `0|[1-9][0-9]*`. */
  predicate IsCanonical(t: Text) {
    t != [] && IsDigits(t) && (t[0] == ZERO ==> |t| == 1)
  }

  /** The number a run of digits denotes. */
  function Value(t: Text): nat
    requires IsDigits(t)
  {
    if t == [] then 0 else 10 * Value(t[..|t| - 1]) + (t[|t| - 1] - ZERO)
  }

  /** `String(n)`. */
  function Spell(n: nat): (t: Text)
    ensures IsCanonical(t)
    ensures t[0] == ZERO ==> n == 0
  {
    if n < 10 then [ZERO + n] else Spell(n / 10) + [ZERO + n % 10]
  }

  lemma {:induction false} ValueOfSpell(n: nat)
    ensures Value(Spell(n)) == n
  {
    if n >= 10 {
      var t := Spell(n);
      assert t[..|t| - 1] == Spell(n / 10);
      ValueOfSpell(n / 10);
    } else {
      assert Spell(n)[..0] == [];
    }
  }

  lemma {:induction false} SpellOfValue(t: Text)
    requires IsCanonical(t)
    ensures Spell(Value(t)) == t
  {
    var front := t[..|t| - 1];
    if front != [] {
      SpellOfValue(front);
      PositiveValue(front);
      assert t == front + [t[|t| - 1]];
    } else {
      assert t == [t[0]];
    }
  }

  lemma {:induction false} PositiveValue(t: Text)
    requires IsCanonical(t) && t[0] != ZERO
    ensures Value(t) > 0
  {
    if |t| > 1 {
      PositiveValue(t[..|t| - 1]);
    }
  }

  /** Greater, decided on the digits alone: first by length, then by code units. */
  predicate Exceeds(a: Text, b: Text) {
    |a| > |b| || (|a| == |b| && Less(b, a))
  }

  lemma {:induction false} LessByLastUnit(a: Text, b: Text)
    requires |a| == |b| > 0
    ensures var n := |a| - 1;
            Less(a, b) <==> Less(a[..n], b[..n]) || (a[..n] == b[..n] && a[n] < b[n])
  {
    var n := |a| - 1;
    if n > 0 {
      LessByLastUnit(a[1..], b[1..]);
      assert a[1..][..n - 1] == a[..n][1..] && b[1..][..n - 1] == b[..n][1..];
      assert a[..n] == [a[0]] + a[..n][1..] && b[..n] == [b[0]] + b[..n][1..];
    } else {
      assert Less(a[1..], b[1..]) == false;
    }
  }

  lemma {:induction false} EqualLengthComparison(a: Text, b: Text)
    requires IsDigits(a) && IsDigits(b) && |a| == |b|
    ensures Less(a, b) <==> Value(a) < Value(b)
    ensures Value(a) == Value(b) ==> a == b
  {
    if a != [] {
      var n := |a| - 1;
      EqualLengthComparison(a[..n], b[..n]);
      LessByLastUnit(a, b);
      assert a == a[..n] + [a[n]] && b == b[..n] + [b[n]];
    }
  }

  lemma {:induction false} ShorterIsSmaller(a: Text, b: Text)
    requires IsCanonical(a) && IsCanonical(b) && |a| < |b|
    ensures Value(a) < Value(b)
  {
    var x, y := a[..|a| - 1], b[..|b| - 1];
    if x == [] {
      PositiveValue(y);
    } else {
      ShorterIsSmaller(x, y);
    }
  }

  /** On canonical spellings of any length the comparison is the comparison of numbers. */
  lemma ExceedsIsGreaterThan(a: Text, b: Text)
    requires IsCanonical(a) && IsCanonical(b)
    ensures Exceeds(a, b) <==> Value(a) > Value(b)
  {
    if |a| < |b| {
      ShorterIsSmaller(a, b);
    } else if |a| > |b| {
      ShorterIsSmaller(b, a);
    } else {
      EqualLengthComparison(b, a);
    }
  }

  /** The greatest signed 64-bit integer, spelled out. */
  const MAXIMUM_ORDINAL: Text := Spell(9223372036854775807)

  predicate AdmitsOrdinal(t: Text) {
    !Exceeds(t, MAXIMUM_ORDINAL)
  }

  /** An ordinal of any length is admitted exactly when it fits a signed 64-bit integer. */
  lemma OrdinalAdmission(t: Text)
    requires IsCanonical(t)
    ensures AdmitsOrdinal(t) <==> Value(t) < 0x8000_0000_0000_0000
  {
    ValueOfSpell(9223372036854775807);
    ExceedsIsGreaterThan(t, MAXIMUM_ORDINAL);
  }

  /** A page of `count` rows is refused under an issued limit exactly when it holds more rows. */
  lemma PageLimitRefusal(count: nat, limit: Text)
    requires IsCanonical(limit)
    ensures Exceeds(Spell(count), limit) <==> count > Value(limit)
  {
    ValueOfSpell(count);
    ExceedsIsGreaterThan(Spell(count), limit);
  }
}
