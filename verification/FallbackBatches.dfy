/** Cutting a list of identifiers into command lines of bounded size. */
module FallbackBatches {
  import opened Outcomes
  import opened Texts

  const FALLBACK_ARGUMENT_BYTES := 16 * 1024

  /** `dep`, `list`, `--json` and `--` */
  const FIXED_ARGUMENTS: seq<Text> :=
    [[100, 101, 112], [108, 105, 115, 116], [45, 45, 106, 115, 111, 110], [45, 45]]

  datatype PartitionError = IdentifierTooLarge

  /** The bytes of a string in UTF-8; half of a surrogate pair is written as the three-byte replacement. */
  function ByteLength(t: Text): nat {
    if t == [] then 0
    else if t[0] < 0x80 then 1 + ByteLength(t[1..])
    else if t[0] < 0x800 then 2 + ByteLength(t[1..])
    else if IsHighSurrogate(t[0]) && |t| > 1 && IsLowSurrogate(t[1]) then 4 + ByteLength(t[2..])
    else 3 + ByteLength(t[1..])
  }

  /** An argument and its terminator. */
  function Cost(argument: Text): nat {
    ByteLength(argument) + 1
  }

  function TotalCost(arguments: seq<Text>): nat {
    if arguments == [] then 0 else TotalCost(arguments[..|arguments| - 1]) + Cost(arguments[|arguments| - 1])
  }

  /** The bytes of the command that asks for the given sources. */
  function CommandBytes(batch: seq<Text>): nat {
    TotalCost(FIXED_ARGUMENTS) + TotalCost(batch)
  }

  predicate Fits(batch: seq<Text>) {
    CommandBytes(batch) <= FALLBACK_ARGUMENT_BYTES
  }

  function Concatenation(batches: seq<seq<Text>>): seq<Text> {
    if batches == [] then [] else batches[0] + Concatenation(batches[1..])
  }

  /** A cut of the sources, in order, into commands of bounded size. */
  predicate IsSplit(batches: seq<seq<Text>>, sources: seq<Text>) {
    Concatenation(batches) == sources && forall k :: 0 <= k < |batches| ==> Fits(batches[k])
  }

  lemma {:induction false} TotalCostConcatenates(a: seq<Text>, b: seq<Text>)
    ensures TotalCost(a + b) == TotalCost(a) + TotalCost(b)
  {
    hide Cost;
    if b == [] {
      assert a + b == a;
    } else {
      var n := |a + b| - 1;
      assert (a + b)[..n] == a + b[..|b| - 1];
      TotalCostConcatenates(a, b[..|b| - 1]);
    }
  }

  /** The fixed arguments take nineteen bytes. */
  lemma FixedArgumentsFit()
    ensures TotalCost(FIXED_ARGUMENTS) == 19
    ensures Fits([])
  {
    var dep, list, json, dashes := FIXED_ARGUMENTS[0], FIXED_ARGUMENTS[1], FIXED_ARGUMENTS[2], FIXED_ARGUMENTS[3];
    AsciiBytes(dep);
    AsciiBytes(list);
    AsciiBytes(json);
    AsciiBytes(dashes);
    assert FIXED_ARGUMENTS[..3][..2] == [dep] + [list] && FIXED_ARGUMENTS[..3] == [dep] + [list] + [json];
    TotalCostConcatenates([dep], [list]);
  }

  lemma {:induction false} AsciiBytes(t: Text)
    requires forall i :: 0 <= i < |t| ==> t[i] < 0x80
    ensures ByteLength(t) == |t|
  {
    if t != [] {
      AsciiBytes(t[1..]);
    }
  }

  /** The bytes of a character in UTF-8 (section 3 of RFC 3629). */
  function Utf8Length(c: Character): nat {
    if c < 0x80 then 1 else if c < 0x800 then 2 else if c < 0x1_0000 then 3 else 4
  }

  function Utf8Total(s: seq<Character>): nat {
    if s == [] then 0 else Utf8Length(s[0]) + Utf8Total(s[1..])
  }

  /** The texts do not split a surrogate pair. */
  predicate KeepsPairs(a: Text, b: Text) {
    !(a != [] && b != [] && IsHighSurrogate(a[|a| - 1]) && IsLowSurrogate(b[0]))
  }

  lemma {:induction false} BytesAdd(a: Text, b: Text)
    requires KeepsPairs(a, b)
    ensures ByteLength(a + b) == ByteLength(a) + ByteLength(b)
    decreases |a|
  {
    if a == [] {
      assert a + b == b;
    } else if IsHighSurrogate(a[0]) && |a| > 1 && IsLowSurrogate(a[1]) {
      assert (a + b)[2..] == a[2..] + b;
      BytesAdd(a[2..], b);
    } else {
      assert (a + b)[1..] == a[1..] + b;
      BytesAdd(a[1..], b);
    }
  }

  /** Well-formed Unicode takes the bytes of its characters. */
  lemma {:induction false} BytesAreUtf8(s: seq<Character>)
    ensures ByteLength(Utf16(s)) == Utf8Total(s)
  {
    if s != [] {
      BytesAreUtf8(s[1..]);
      BytesAdd(Units(s[0]), Utf16(s[1..])) by { UnitsKeepPairs(s[0], Utf16(s[1..])); }
      assert ByteLength(Units(s[0])) == Utf8Length(s[0]) by { UnitBytes(s[0]); }
    }
  }

  lemma UnitsKeepPairs(c: Character, t: Text)
    ensures KeepsPairs(Units(c), t)
  {
  }

  lemma UnitBytes(c: Character)
    ensures ByteLength(Units(c)) == Utf8Length(c)
  {
    assert Units(c)[1..] == if |Units(c)| == 2 then [Units(c)[1]] else [];
    assert |Units(c)| == 2 ==> Units(c)[2..] == [];
  }

  /** Half of a surrogate pair alone takes three bytes. */
  lemma HalfPairTakesThree(u: CodeUnit)
    ensures IsHighSurrogate(u) || IsLowSurrogate(u) ==> ByteLength([u]) == 3
  {
    assert [u][1..] == [];
  }

  /** The fixed arguments by name. */
  lemma FixedArgumentsByName()
    ensures FIXED_ARGUMENTS == [Ascii("dep"), Ascii("list"), Ascii("--json"), Ascii("--")]
  {
    assert FIXED_ARGUMENTS[0] == Ascii("dep") && FIXED_ARGUMENTS[1] == Ascii("list");
    assert FIXED_ARGUMENTS[2] == Ascii("--json") && FIXED_ARGUMENTS[3] == Ascii("--");
  }

  lemma {:induction false} ConcatenationOfAppend(batches: seq<seq<Text>>, batch: seq<Text>)
    ensures Concatenation(batches + [batch]) == Concatenation(batches) + batch
  {
    if batches != [] {
      assert (batches + [batch])[1..] == batches[1..] + [batch];
      ConcatenationOfAppend(batches[1..], batch);
    }
  }

  /** No batch is empty, and none could have taken the first source of the next one. */
  predicate Saturated(batches: seq<seq<Text>>) {
    && (forall k :: 0 <= k < |batches| ==> batches[k] != [])
    && forall k :: 0 <= k < |batches| - 1 ==> !Fits(batches[k] + [batches[k + 1][0]])
  }

  /** What the loop has made of the sources it has seen: closed batches and the batch being filled. */
  ghost predicate Progress(batches: seq<seq<Text>>, batch: seq<Text>, seen: seq<Text>) {
    && IsSplit(batches + [batch], seen)
    && (batch == [] ==> batches == [])
    && (batch != [] ==> Saturated(batches + [batch]))
  }

  /** The batch is full: close it and start another. */
  lemma ProgressByCut(batches: seq<seq<Text>>, batch: seq<Text>, seen: seq<Text>, source: Text)
    requires Progress(batches, batch, seen) && batch != []
    requires Fits([source]) && !Fits(batch + [source])
    ensures Progress(batches + [batch], [source], seen + [source])
  {
    hide Fits;
    var before, after := batches + [batch], batches + [batch] + [[source]];
    ConcatenationOfAppend(before, [source]);
    forall k | 0 <= k < |after|
      ensures Fits(after[k]) && after[k] != []
      ensures k < |after| - 1 ==> !Fits(after[k] + [after[k + 1][0]])
    {
      if k < |batches| {
        assert after[k] == before[k] && after[k + 1] == before[k + 1];
      } else {
        assert after[|batches|] == before[|batches|] == batch;
      }
    }
  }

  lemma ProgressByGrowth(batches: seq<seq<Text>>, batch: seq<Text>, seen: seq<Text>, source: Text)
    requires Progress(batches, batch, seen)
    requires Fits(batch + [source])
    ensures Progress(batches, batch + [source], seen + [source])
  {
    hide Fits;
    var before, after := batches + [batch], batches + [batch + [source]];
    ConcatenationOfAppend(batches, batch);
    ConcatenationOfAppend(batches, batch + [source]);
    forall k | 0 <= k < |after|
      ensures Fits(after[k]) && after[k] != []
      ensures k < |after| - 1 ==> after[k + 1] != [] && !Fits(after[k] + [after[k + 1][0]])
    {
      if k < |batches| {
        assert after[k] == before[k] && before[k + 1] != [] && after[k + 1][0] == before[k + 1][0];
      }
    }
  }

  lemma NothingYet()
    requires Fits([])
    ensures Progress([], [], [])
  {
    ConcatenationOfAppend([], []);
  }

  lemma ProgressWithout(batches: seq<seq<Text>>, batch: seq<Text>, seen: seq<Text>)
    requires Progress(batches, batch, seen)
    ensures batch == [] ==> batches == []
  {
  }

  lemma ProgressEnds(batches: seq<seq<Text>>, batch: seq<Text>, sources: seq<Text>)
    requires Progress(batches, batch, sources)
    ensures var all := if batch == [] then [] else batches + [batch];
            && IsSplit(all, sources)
            && (forall k :: 0 <= k < |all| ==> all[k] != [])
            && forall other :: IsSplit(other, sources) ==> |all| <= |other|
  {
    hide Fits;
    var all := if batch == [] then [] else batches + [batch];
    ConcatenationOfAppend(batches, batch);
    assert [] + sources == sources;
    forall other | IsSplit(other, sources)
      ensures |all| <= |other|
    {
      SaturatedIsFewest(all, other, []);
    }
  }

  /** A command that fits keeps fitting when sources are left out at either end. */
  lemma FitsPart(before: seq<Text>, middle: seq<Text>, after: seq<Text>)
    requires Fits(before + middle + after)
    ensures Fits(middle)
  {
    TotalCostConcatenates(before + middle, after);
    TotalCostConcatenates(before, middle);
  }

  /** No split that has at least as much to carry gets by with fewer batches than a saturated one. */
  lemma {:induction false} SaturatedIsFewest(batches: seq<seq<Text>>, other: seq<seq<Text>>, extra: seq<Text>)
    requires Saturated(batches)
    requires IsSplit(other, extra + Concatenation(batches))
    ensures |batches| <= |other|
    decreases batches
  {
    hide Fits;
    if |batches| > 0 {
      var whole := extra + Concatenation(batches);
      var rest := Concatenation(batches[1..]);
      assert whole == extra + batches[0] + rest;
      if |batches| > 1 {
        assert other != [];
        var taken := |other[0]|;
        assert other[0] == whole[..taken] && Concatenation(other[1..]) == whole[taken..];
        if taken > |extra| + |batches[0]| {
          var first := batches[1][0];
          assert rest[0] == first;
          assert other[0] == extra + (batches[0] + [first]) + other[0][|extra| + |batches[0]| + 1..];
          FitsPart(extra, batches[0] + [first], other[0][|extra| + |batches[0]| + 1..]);
        } else {
          var left := (extra + batches[0])[taken..];
          assert whole[taken..] == left + rest;
          SaturatedIsFewest(batches[1..], other[1..], left);
        }
      }
    }
  }

  /**
   * The greedy partition fails exactly when one identifier alone is too large; otherwise it is a split of the
   * sources into non-empty batches, and no split has fewer.
   */
  method PartitionDependencyFallbackSources(sources: seq<Text>)
    returns (r: Result<seq<seq<Text>>, PartitionError>)
    ensures r.Err? <==> exists i :: 0 <= i < |sources| && !Fits([sources[i]])
    ensures r.Ok? ==> IsSplit(r.value, sources) && forall k :: 0 <= k < |r.value| ==> r.value[k] != []
    ensures r.Ok? ==> forall other :: IsSplit(other, sources) ==> |r.value| <= |other|
  {
    hide ByteLength, IsSplit, Cost, Progress;
    FixedArgumentsFit();
    NothingYet();
    var fixedBytes := TotalCost(FIXED_ARGUMENTS);
    var batches: seq<seq<Text>> := [];
    var batch: seq<Text> := [];
    var batchBytes := fixedBytes;
    for i := 0 to |sources|
      invariant batchBytes == CommandBytes(batch)
      invariant Progress(batches, batch, sources[..i])
      invariant forall k :: 0 <= k < i ==> Fits([sources[k]])
    {
      var source := sources[i];
      var sourceBytes := Cost(source);
      TotalCostConcatenates(batch, [source]);
      assert sources[..i + 1] == sources[..i] + [source];
      if fixedBytes + sourceBytes > FALLBACK_ARGUMENT_BYTES {
        return Err(IdentifierTooLarge);
      }
      if batch != [] && batchBytes + sourceBytes > FALLBACK_ARGUMENT_BYTES {
        ProgressByCut(batches, batch, sources[..i], source);
        batches := batches + [batch];
        batch := [];
        batchBytes := fixedBytes;
      } else {
        ProgressByGrowth(batches, batch, sources[..i], source);
      }
      batch := batch + [source];
      batchBytes := batchBytes + sourceBytes;
    }
    assert sources[..|sources|] == sources;
    ProgressEnds(batches, batch, sources);
    ProgressWithout(batches, batch, sources);
    if batch != [] {
      batches := batches + [batch];
    }
    return Ok(batches);
  }

  /** A batch fits when nineteen bytes and its identifiers, a terminator behind each, take at most sixteen kibibytes. */
  lemma FitsIff(batch: seq<Text>)
    ensures Fits(batch) <==> 19 + TotalCost(batch) <= 16384
    ensures batch != [] ==>
              var n := |batch| - 1;
              TotalCost(batch) == TotalCost(batch[..n]) + ByteLength(batch[n]) + 1
    ensures TotalCost([]) == 0
  {
    FixedArgumentsFit();
  }
}
