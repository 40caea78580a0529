/** `join` (an inner equi-join, enumerated by a nested counted loop) and
    `group_join` (one row per outer element with its group of inner
    elements). */
module Joins {
  import opened Operators
  import opened SetOps
  import opened Groups

  /** Pairs an outer element with an inner one. */
  function PairWith<O, I>(o: O): I -> (O, I)
  {
    i => (o, i)
  }

  /** Every (outer, inner) pair, outer-major and inner-minor. */
  function Product<O, I>(outer: seq<O>, inner: seq<I>): seq<(O, I)>
  {
    if outer == [] then [] else Select(inner, PairWith(outer[0])) + Product(outer[1..], inner)
  }

  /** The predicate "the outer key equals the inner key". */
  function SameKey<O, I, K(==)>(ok: O -> K, ik: I -> K): ((O, I)) -> bool
  {
    (p: (O, I)) => ok(p.0) == ik(p.1)
  }

  /** `join(inner, outer_key, inner_key, result_func)`: `result_func` of every
      pair whose keys are equal, outer-major and inner-minor. */
  function Join<O, I, K(==), R>(outer: seq<O>, inner: seq<I>, ok: O -> K, ik: I -> K, f: ((O, I)) -> R): seq<R>
  {
    Select(Where(Product(outer, inner), SameKey(ok, ik)), f)
  }

  /** The product has one pair per outer and inner element. */
  lemma {:induction false} ProductLength<O, I>(outer: seq<O>, inner: seq<I>)
    ensures |Product(outer, inner)| == |outer| * |inner|
  {
    if outer != [] {
      ProductLength(outer[1..], inner);
      assert |outer| * |inner| == |inner| + (|outer| - 1) * |inner|;
    }
  }

  /** Position `a * |inner| + b` of the product holds `(outer[a], inner[b])`. */
  lemma {:induction false} ProductAt<O, I>(outer: seq<O>, inner: seq<I>, a: nat, b: nat)
    requires a < |outer| && b < |inner|
    ensures a * |inner| + b < |Product(outer, inner)|
    ensures Product(outer, inner)[a * |inner| + b] == (outer[a], inner[b])
  {
    var n := |inner|;
    var head, rest := Select(inner, PairWith(outer[0])), Product(outer[1..], inner);
    assert Product(outer, inner) == head + rest;
    if a == 0 {
      assert a * n + b == b;
      assert Product(outer, inner)[b] == head[b];
    } else {
      ProductAt(outer[1..], inner, a - 1, b);
      var i := (a - 1) * n + b;
      assert a * n + b == n + i by {
        MulStep(a, n);
      }
      assert i < |rest|;
      assert Product(outer, inner)[n + i] == rest[i];
    }
  }

  lemma MulStep(a: int, n: int)
    ensures a * n == n + (a - 1) * n
  {
  }

  /** The product of a concatenation of outer sequences. */
  lemma {:induction false} ProductConcat<O, I>(a: seq<O>, b: seq<O>, inner: seq<I>)
    ensures Product(a + b, inner) == Product(a, inner) + Product(b, inner)
  {
    if a == [] {
      assert a + b == b;
    } else {
      assert (a + b)[1..] == a[1..] + b;
      ProductConcat(a[1..], b, inner);
    }
  }

  /** Outer-major: the join of a concatenation of outer sequences is the
      concatenation of their joins. */
  lemma JoinConcat<O, I, K, R>(a: seq<O>, b: seq<O>, inner: seq<I>, ok: O -> K, ik: I -> K, f: ((O, I)) -> R)
    ensures Join(a + b, inner, ok, ik, f) == Join(a, inner, ok, ik, f) + Join(b, inner, ok, ik, f)
  {
    ProductConcat(a, b, inner);
    WhereConcat(Product(a, inner), Product(b, inner), SameKey(ok, ik));
    SelectConcat(Where(Product(a, inner), SameKey(ok, ik)), Where(Product(b, inner), SameKey(ok, ik)), f);
  }

  /** Inner-minor: one outer element is paired with exactly the inner elements
      whose key equals its key, in inner order. */
  lemma JoinSingle<O, I, K, R>(o: O, inner: seq<I>, ok: O -> K, ik: I -> K, f: ((O, I)) -> R)
    ensures Join([o], inner, ok, ik, f) == Select(Select(Matching(inner, ik, ok(o)), PairWith(o)), f)
  {
    assert Product([o], inner) == Select(inner, PairWith(o)) + [];
    assert Select(inner, PairWith(o)) + [] == Select(inner, PairWith(o));
    WhereSelect(inner, PairWith(o), SameKey(ok, ik), KeyIs(ik, ok(o)));
  }

  /** An outer element whose key no inner element has contributes nothing. */
  lemma JoinNoMatch<O, I, K, R>(o: O, inner: seq<I>, ok: O -> K, ik: I -> K, f: ((O, I)) -> R)
    requires forall j :: 0 <= j < |inner| ==> ik(inner[j]) != ok(o)
    ensures Join([o], inner, ok, ik, f) == []
  {
    JoinSingle(o, inner, ok, ik, f);
    MatchingAbsent(inner, ik, ok(o));
  }

  /** The join has one result per matching position of the product, and the
      position `a * |inner| + b` of the product is the pair of `outer[a]` and
      `inner[b]`: one result per matching pair. */
  lemma JoinLength<O, I, K, R>(outer: seq<O>, inner: seq<I>, ok: O -> K, ik: I -> K, f: ((O, I)) -> R)
    ensures |Join(outer, inner, ok, ik, f)| == |Hits(Product(outer, inner), SameKey(ok, ik))|
    ensures forall a, b :: 0 <= a < |outer| && 0 <= b < |inner| ==>
      (a * |inner| + b in Hits(Product(outer, inner), SameKey(ok, ik)) <==> ok(outer[a]) == ik(inner[b]))
  {
    WhereLength(Product(outer, inner), SameKey(ok, ik));
    forall a, b | 0 <= a < |outer| && 0 <= b < |inner|
      ensures a * |inner| + b in Hits(Product(outer, inner), SameKey(ok, ik)) <==> ok(outer[a]) == ik(inner[b])
    {
      ProductAt(outer, inner, a, b);
    }
  }

  /** Scanning one more inner element for a fixed outer element. */
  lemma JoinInnerStep<O, I, K, R>(o: O, u: seq<I>, y: I, ok: O -> K, ik: I -> K, f: ((O, I)) -> R)
    ensures Join([o], u + [y], ok, ik, f) ==
      Join([o], u, ok, ik, f) + (if ok(o) == ik(y) then [f((o, y))] else [])
  {
    JoinSingle(o, u, ok, ik, f);
    JoinSingle(o, u + [y], ok, ik, f);
    MatchingSnoc(u, y, ik, ok(o));
    var m := Matching(u, ik, ok(o));
    var tail := if ok(o) == ik(y) then [y] else [];
    SelectConcat(m, tail, PairWith(o));
    SelectConcat(Select(m, PairWith(o)), Select(tail, PairWith(o)), f);
  }

  /** The inner loop of `JoinEnumerable.__iter__`: scan every inner element
      and emit `result_func((o, inner))` when its key matches `o`'s. */
  method JoinRow<O, I, K(==), R>(o: O, inner: seq<I>, ok: O -> K, ik: I -> K, f: ((O, I)) -> R)
    returns (row: seq<R>)
    ensures row == Join([o], inner, ok, ik, f)
  {
    row := [];
    var key := ok(o);
    var j := 0;
    assert Product([o], inner[..0]) == [];
    while j < |inner|
      invariant 0 <= j <= |inner|
      invariant row == Join([o], inner[..j], ok, ik, f)
    {
      var y := inner[j];
      JoinInnerStep(o, inner[..j], y, ok, ik, f);
      assert inner[..j + 1] == inner[..j] + [y];
      if key == ik(y) {
        row := row + [f((o, y))];
      }
      j := j + 1;
    }
    assert inner[..j] == inner;
  }

  /** `JoinEnumerable.__iter__`: the outer loop, one inner scan per outer
      element, in outer order. */
  method EnumerateJoin<O, I, K(==), R>(outer: seq<O>, inner: seq<I>, ok: O -> K, ik: I -> K, f: ((O, I)) -> R)
    returns (r: seq<R>)
    ensures r == Join(outer, inner, ok, ik, f)
  {
    r := [];
    var i := 0;
    while i < |outer|
      invariant 0 <= i <= |outer|
      invariant r == Join(outer[..i], inner, ok, ik, f)
    {
      var o := outer[i];
      var row := JoinRow(o, inner, ok, ik, f);
      assert outer[..i + 1] == outer[..i] + [o];
      JoinConcat(outer[..i], [o], inner, ok, ik, f);
      r := r + row;
      i := i + 1;
    }
    assert outer[..i] == outer;
  }

  /** The group `group_join` builds for an outer key: key record `{"id": key}`
      and the inner elements with that key, in inner order. */
  function JoinGroup<I, K(==)>(inner: seq<I>, ik: I -> K, kv: K): Grouping<K, I>
  {
    Grouping(map["id" := kv], Matching(inner, ik, kv))
  }

  /** `group_join(inner, outer_key, inner_key, result_func)`: one row per
      outer element. */
  function GroupJoin<O, I, K(==), R>(outer: seq<O>, inner: seq<I>, ok: O -> K, ik: I -> K,
                                     f: ((O, Grouping<K, I>)) -> R): seq<R>
  {
    Select(outer, o => f((o, JoinGroup(inner, ik, ok(o)))))
  }

  /** Exactly one row per outer element, in outer order; the row's group is
      keyed `{"id": outer_key(o)}`, holds every inner element with that key
      with its multiplicity and nothing else, and is empty exactly when no
      inner element has that key. */
  lemma GroupJoinSpec<O, I, K, R>(outer: seq<O>, inner: seq<I>, ok: O -> K, ik: I -> K,
                                  f: ((O, Grouping<K, I>)) -> R)
    ensures |GroupJoin(outer, inner, ok, ik, f)| == |outer|
    ensures forall a :: 0 <= a < |outer| ==>
      GroupJoin(outer, inner, ok, ik, f)[a] == f((outer[a], JoinGroup(inner, ik, ok(outer[a]))))
    ensures forall a :: 0 <= a < |outer| ==>
      var g := JoinGroup(inner, ik, ok(outer[a]));
      g.key == map["id" := ok(outer[a])] &&
      (forall y :: multiset(g.elements)[y] == if ik(y) == ok(outer[a]) then multiset(inner)[y] else 0) &&
      (g.elements == [] <==> ok(outer[a]) !in KeysOf(inner, ik))
  {
    forall a | 0 <= a < |outer|
      ensures var g := JoinGroup(inner, ik, ok(outer[a]));
        (forall y :: multiset(g.elements)[y] == if ik(y) == ok(outer[a]) then multiset(inner)[y] else 0) &&
        (g.elements == [] <==> ok(outer[a]) !in KeysOf(inner, ik))
    {
      var kv := ok(outer[a]);
      WhereMultiset(inner, KeyIs(ik, kv));
      if kv in KeysOf(inner, ik) {
        MatchingHead(inner, ik, kv);
      } else {
        MatchingAbsent(inner, ik, kv);
      }
    }
  }

  /** `join` is `group_join` with each group unfolded: the join row of an
      outer element pairs it with each member of its `group_join` group. */
  lemma GroupJoinUnfoldsToJoin<O, I, K, R>(o: O, inner: seq<I>, ok: O -> K, ik: I -> K, f: ((O, I)) -> R)
    ensures Join([o], inner, ok, ik, f) == Select(Select(JoinGroup(inner, ik, ok(o)).elements, PairWith(o)), f)
  {
    JoinSingle(o, inner, ok, ik, f);
  }
}
