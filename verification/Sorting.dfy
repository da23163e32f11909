/** What the program may rely on when it sorts with a comparison: a stable, ordered rearrangement. */
module Sorting {

  ghost predicate StrictOrder<T(!new)>(less: (T, T) -> bool) {
    && (forall x :: !less(x, x))
    && (forall x, y, z :: less(x, y) && less(y, z) ==> less(x, z))
    && (forall x, y, z :: !less(x, y) && !less(y, z) ==> !less(x, z))
  }

  /** No later element belongs before an earlier one. */
  ghost predicate Ordered<T>(less: (T, T) -> bool, xs: seq<T>) {
    forall i, j :: 0 <= i < j < |xs| ==> !less(xs[j], xs[i])
  }

  /** Of any two elements, one is strictly first. */
  ghost predicate Separated<T>(less: (T, T) -> bool, xs: seq<T>) {
    forall i, j :: 0 <= i < j < |xs| ==> less(xs[i], xs[j]) || less(xs[j], xs[i])
  }

  function Insert<T>(less: (T, T) -> bool, x: T, xs: seq<T>): (r: seq<T>)
    ensures multiset(r) == multiset{x} + multiset(xs)
  {
    if xs == [] then
      [x]
    else if less(xs[0], x) then
      assert xs == [xs[0]] + xs[1..];
      [xs[0]] + Insert(less, x, xs[1..])
    else
      [x] + xs
  }

  function Sort<T>(less: (T, T) -> bool, xs: seq<T>): (r: seq<T>)
    ensures multiset(r) == multiset(xs)
  {
    if xs == [] then
      []
    else
      assert xs == [xs[0]] + xs[1..];
      Insert(less, xs[0], Sort(less, xs[1..]))
  }

  lemma SameElements<T>(xs: seq<T>, ys: seq<T>)
    requires multiset(xs) == multiset(ys)
    ensures |xs| == |ys|
    ensures forall x :: x in xs <==> x in ys
  {
    assert |multiset(xs)| == |xs| && |multiset(ys)| == |ys|;
    assert forall x :: x in xs <==> x in multiset(xs);
    assert forall x :: x in ys <==> x in multiset(ys);
  }

  /** Each place of the sorted list holds an element of the list. */
  lemma SortedFrom<T>(less: (T, T) -> bool, xs: seq<T>, k: nat) returns (j: nat)
    requires k < |xs|
    ensures |Sort(less, xs)| == |xs|
    ensures j < |xs| && xs[j] == Sort(less, xs)[k]
  {
    var sorted := Sort(less, xs);
    assert |multiset(sorted)| == |sorted| && |multiset(xs)| == |xs|;
    assert sorted[k] in multiset(sorted);
    j :| 0 <= j < |xs| && xs[j] == sorted[k];
  }

  lemma {:induction false} InsertKeepsOrder<T(!new)>(less: (T, T) -> bool, x: T, xs: seq<T>)
    requires StrictOrder(less)
    requires Ordered(less, xs)
    ensures Ordered(less, Insert(less, x, xs))
  {
    if xs != [] {
      if less(xs[0], x) {
        InsertKeepsOrder(less, x, xs[1..]);
        var tail := Insert(less, x, xs[1..]);
        assert multiset(tail) == multiset([x] + xs[1..]);
        SameElements(tail, [x] + xs[1..]);
        forall j | 0 <= j < |tail|
          ensures !less(tail[j], xs[0])
        {
          assert tail[j] in [x] + xs[1..];
        }
      } else {
        assert !less(xs[0], x);
      }
    }
  }

  lemma {:induction false} SortIsOrdered<T(!new)>(less: (T, T) -> bool, xs: seq<T>)
    requires StrictOrder(less)
    ensures Ordered(less, Sort(less, xs))
  {
    if xs != [] {
      SortIsOrdered(less, xs[1..]);
      InsertKeepsOrder(less, xs[0], Sort(less, xs[1..]));
    }
  }

  function Filter<T>(xs: seq<T>, keep: T -> bool): seq<T> {
    if xs == [] then [] else (if keep(xs[0]) then [xs[0]] else []) + Filter(xs[1..], keep)
  }

  lemma FilterStep<T>(xs: seq<T>, keep: T -> bool)
    requires xs != []
    ensures Filter(xs, keep) == if keep(xs[0]) then [xs[0]] + Filter(xs[1..], keep) else Filter(xs[1..], keep)
  {
  }

  lemma {:induction false} InsertIsStable<T(!new)>(less: (T, T) -> bool, x: T, xs: seq<T>, tied: T -> bool)
    requires forall y, z :: tied(y) && tied(z) ==> !less(y, z)
    ensures Filter(Insert(less, x, xs), tied) == if tied(x) then [x] + Filter(xs, tied) else Filter(xs, tied)
  {
    hide Filter;
    var r := Insert(less, x, xs);
    FilterStep(r, tied);
    if xs != [] && less(xs[0], x) {
      assert !(tied(xs[0]) && tied(x));
      InsertIsStable(less, x, xs[1..], tied);
      FilterStep(xs, tied);
      assert r[0] == xs[0] && r[1..] == Insert(less, x, xs[1..]);
    } else {
      assert r[0] == x && r[1..] == xs;
    }
  }

  /** Elements that are tied with one another stay in the order they had. */
  lemma {:induction false} SortIsStable<T(!new)>(less: (T, T) -> bool, xs: seq<T>, tied: T -> bool)
    requires forall y, z :: tied(y) && tied(z) ==> !less(y, z)
    ensures Filter(Sort(less, xs), tied) == Filter(xs, tied)
  {
    hide Filter, Insert;
    if xs == [] {
      assert Sort(less, xs) == xs;
    } else {
      SortIsStable(less, xs[1..], tied);
      InsertIsStable(less, xs[0], Sort(less, xs[1..]), tied);
      FilterStep(xs, tied);
    }
  }

  lemma HeadsAgree<T(!new)>(less: (T, T) -> bool, xs: seq<T>, ys: seq<T>)
    requires StrictOrder(less)
    requires multiset(xs) == multiset(ys)
    requires Ordered(less, xs) && Ordered(less, ys)
    requires Separated(less, xs)
    requires xs != []
    ensures ys != [] && xs[0] == ys[0]
  {
    SameElements(xs, ys);
    assert xs[0] in xs && ys[0] in ys;
    var i :| 0 <= i < |ys| && ys[i] == xs[0];
    var j :| 0 <= j < |xs| && xs[j] == ys[0];
  }

  lemma TailKeeps<T>(less: (T, T) -> bool, xs: seq<T>)
    requires xs != []
    ensures multiset(xs[1..]) == multiset(xs) - multiset{xs[0]}
    ensures Ordered(less, xs) ==> Ordered(less, xs[1..])
    ensures Separated(less, xs) ==> Separated(less, xs[1..])
  {
    assert xs == [xs[0]] + xs[1..];
  }

  /** A list has only one ordered rearrangement when its elements are separated. */
  lemma {:induction false} OrderedIsUnique<T(!new)>(less: (T, T) -> bool, xs: seq<T>, ys: seq<T>)
    requires StrictOrder(less)
    requires multiset(xs) == multiset(ys)
    requires Ordered(less, xs) && Ordered(less, ys)
    requires Separated(less, xs)
    ensures xs == ys
  {
    hide StrictOrder, Ordered, Separated;
    SameElements(xs, ys);
    if xs != [] {
      HeadsAgree(less, xs, ys);
      TailKeeps(less, xs);
      TailKeeps(less, ys);
      OrderedIsUnique(less, xs[1..], ys[1..]);
    }
  }

  /** An ordered list of separated elements ascends strictly. */
  lemma StrictlyOrdered<T>(less: (T, T) -> bool, xs: seq<T>)
    requires Ordered(less, xs) && Separated(less, xs)
    ensures forall i, j :: 0 <= i < j < |xs| ==> less(xs[i], xs[j])
  {
  }

  /** Being separated does not depend on the arrangement. */
  lemma {:induction false} SeparatedByRearrangement<T(!new)>(less: (T, T) -> bool, xs: seq<T>, ys: seq<T>)
    requires multiset(xs) == multiset(ys)
    requires Separated(less, xs)
    requires forall x :: !less(x, x)
    ensures Separated(less, ys)
  {
    forall i, j | 0 <= i < j < |ys|
      ensures less(ys[i], ys[j]) || less(ys[j], ys[i])
    {
      if ys[i] == ys[j] {
        OccursTwice(ys, i, j);
        SeparatedHasNoRepeat(less, xs, ys[i]);
      } else {
        SameElements(xs, ys);
        var p :| 0 <= p < |xs| && xs[p] == ys[i];
        var q :| 0 <= q < |xs| && xs[q] == ys[j];
      }
    }
  }

  lemma WithoutFirst<T>(x: T, xs: seq<T>, before: seq<T>, after: seq<T>)
    requires multiset([x] + xs) == multiset(before + ([x] + after))
    ensures multiset(xs) == multiset(before + after)
  {
    assert multiset(xs) == multiset([x] + xs) - multiset{x};
    assert multiset(before + after) == multiset(before + ([x] + after)) - multiset{x};
  }

  /** A rearrangement holds the first element somewhere, around which it rearranges the others. */
  lemma TakeOut<T>(xs: seq<T>, ys: seq<T>) returns (before: seq<T>, after: seq<T>)
    requires xs != [] && multiset(xs) == multiset(ys)
    ensures ys == before + ([xs[0]] + after)
    ensures multiset(xs[1..]) == multiset(before + after)
  {
    assert xs[0] in multiset(ys);
    var j :| 0 <= j < |ys| && ys[j] == xs[0];
    before, after := ys[..j], ys[j + 1..];
    assert ys == before + ([xs[0]] + after) && xs == [xs[0]] + xs[1..];
    WithoutFirst(xs[0], xs[1..], before, after);
  }

  lemma OccursTwice<T>(ys: seq<T>, i: nat, j: nat)
    requires i < j < |ys| && ys[i] == ys[j]
    ensures multiset(ys)[ys[i]] >= 2
  {
    assert ys == ys[..i] + [ys[i]] + ys[i + 1..j] + [ys[j]] + ys[j + 1..];
  }

  lemma {:induction false} SeparatedHasNoRepeat<T(!new)>(less: (T, T) -> bool, xs: seq<T>, x: T)
    requires Separated(less, xs)
    requires forall x :: !less(x, x)
    ensures multiset(xs)[x] <= 1
  {
    if xs != [] {
      assert xs == [xs[0]] + xs[1..];
      SeparatedHasNoRepeat(less, xs[1..], x);
      if xs[0] == x {
        assert x !in xs[1..];
      }
    }
  }

  function Map<A, B>(g: A -> B, xs: seq<A>): (r: seq<B>)
    ensures |r| == |xs|
    ensures forall i :: 0 <= i < |xs| ==> r[i] == g(xs[i])
  {
    if xs == [] then [] else [g(xs[0])] + Map(g, xs[1..])
  }

  /** The translation `g` keeps the order among the given elements. */
  ghost predicate KeepsOrder<A, B>(p: (A, A) -> bool, q: (B, B) -> bool, g: A -> B, xs: seq<A>) {
    forall a, b :: a in xs && b in xs ==> p(a, b) == q(g(a), g(b))
  }

  lemma KeepsOrderOnPart<A, B>(p: (A, A) -> bool, q: (B, B) -> bool, g: A -> B, xs: seq<A>, ys: seq<A>)
    requires KeepsOrder(p, q, g, xs)
    requires forall y :: y in ys ==> y in xs
    ensures KeepsOrder(p, q, g, ys)
  {
  }

  lemma {:induction false} InsertCommutes<A, B>(p: (A, A) -> bool, q: (B, B) -> bool, g: A -> B, x: A, xs: seq<A>)
    requires KeepsOrder(p, q, g, [x] + xs)
    ensures Map(g, Insert(p, x, xs)) == Insert(q, g(x), Map(g, xs))
  {
    if xs != [] {
      assert x in [x] + xs && xs[0] in [x] + xs;
      assert p(xs[0], x) == q(g(xs[0]), g(x));
      hide KeepsOrder;
      KeepsOrderOnPart(p, q, g, [x] + xs, [x] + xs[1..]);
      InsertCommutes(p, q, g, x, xs[1..]);
      MapTail(g, xs);
      if p(xs[0], x) {
      } else {
      }
    }
  }

  lemma MapTail<A, B>(g: A -> B, xs: seq<A>)
    requires xs != []
    ensures Map(g, xs)[0] == g(xs[0]) && Map(g, xs)[1..] == Map(g, xs[1..])
  {
  }

  /** Sorting before or after a translation that keeps the order is the same. */
  lemma {:induction false} SortCommutes<A, B>(p: (A, A) -> bool, q: (B, B) -> bool, g: A -> B, xs: seq<A>)
    requires KeepsOrder(p, q, g, xs)
    ensures Map(g, Sort(p, xs)) == Sort(q, Map(g, xs))
  {
    hide KeepsOrder, Insert, Map, Sort;
    SortUnfolds(p, xs);
    SortUnfolds(q, Map(g, xs));
    if xs != [] {
      MapTail(g, xs);
      KeepsOrderOnPart(p, q, g, xs, xs[1..]);
      SortCommutes(p, q, g, xs[1..]);
      var sorted := Sort(p, xs[1..]);
      SortedPart(p, xs);
      KeepsOrderOnPart(p, q, g, xs, [xs[0]] + sorted);
      InsertCommutes(p, q, g, xs[0], sorted);
    } else {
    }
  }

  lemma SortedPart<T>(less: (T, T) -> bool, xs: seq<T>)
    requires xs != []
    ensures forall x :: x in [xs[0]] + Sort(less, xs[1..]) ==> x in xs
  {
    var part := [xs[0]] + Sort(less, xs[1..]);
    assert xs == [xs[0]] + xs[1..];
    forall x | x in part
      ensures x in xs
    {
      assert x in multiset(part) && multiset(part) == multiset(xs);
    }
  }

  lemma SortUnfolds<T>(less: (T, T) -> bool, xs: seq<T>)
    ensures Sort(less, xs) == if xs == [] then [] else Insert(less, xs[0], Sort(less, xs[1..]))
  {
  }

  /** A list in strict order is left as it is. */
  lemma {:induction false} SortKeepsAscending<T>(less: (T, T) -> bool, xs: seq<T>)
    requires forall i, j :: 0 <= i < j < |xs| ==> !less(xs[j], xs[i])
    ensures Sort(less, xs) == xs
  {
    if xs != [] {
      SortKeepsAscending(less, xs[1..]);
    }
  }
}
