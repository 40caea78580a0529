/** Sorting: `order_by`, `order_by_descending`, `then_by`,
    `then_by_descending` and the `SortedEnumerable` that carries the list of
    sort directives. Python's `sorted` is a stable sort; it is specified here
    by a stable insertion sort. Sort keys are integers. */
module Ordering {
  import opened Operators

  /** An `OrderingDirection`: a key function and whether it sorts in
      descending order. */
  datatype Directive<!T> = Directive(key: T -> int, descending: bool)

  /** `a` sorts strictly before `b` under the directive. */
  predicate Before<T>(d: Directive<T>, a: T, b: T)
  {
    if d.descending then d.key(a) > d.key(b) else d.key(a) < d.key(b)
  }

  /** `a` and `b` have the same key under the directive. */
  predicate Tied<T>(d: Directive<T>, a: T, b: T)
  {
    d.key(a) == d.key(b)
  }

  /** Lexicographic order over a list of directives, most significant first. */
  predicate LexBefore<T>(ds: seq<Directive<T>>, a: T, b: T)
    decreases |ds|
  {
    ds != [] && (Before(ds[0], a, b) || (Tied(ds[0], a, b) && LexBefore(ds[1..], a, b)))
  }

  /** `a` and `b` have the same key under every directive. */
  predicate AllTied<T>(ds: seq<Directive<T>>, a: T, b: T)
    decreases |ds|
  {
    ds == [] || (Tied(ds[0], a, b) && AllTied(ds[1..], a, b))
  }

  /** The predicate "tied with `x` under every directive". */
  function TiedWith<T>(ds: seq<Directive<T>>, x: T): T -> bool
  {
    y => AllTied(ds, x, y)
  }

  /** No element sorts strictly before an element that precedes it. */
  predicate LexSorted<T>(ds: seq<Directive<T>>, s: seq<T>)
  {
    forall i, j :: 0 <= i < j < |s| ==> !LexBefore(ds, s[j], s[i])
  }

  /** Stable insertion of `x` into `s`: `x` goes before the first element
      that does not sort strictly before it. */
  function Insert<T>(d: Directive<T>, x: T, s: seq<T>): (r: seq<T>)
    ensures multiset(r) == multiset(s) + multiset{x}
  {
    if s == [] || !Before(d, s[0], x) then [x] + s
    else
      assert s == [s[0]] + s[1..];
      [s[0]] + Insert(d, x, s[1..])
  }

  /** `sorted(s, key=d.key, reverse=d.descending)`: a permutation of `s`. */
  function StableSort<T>(d: Directive<T>, s: seq<T>): (r: seq<T>)
    ensures multiset(r) == multiset(s)
  {
    if s == [] then []
    else
      assert s == [s[0]] + s[1..];
      Insert(d, s[0], StableSort(d, s[1..]))
  }

  /** The data of a `SortedEnumerable` built over `s` with directives `ds`:
      one stable sort per directive, least significant first. */
  function OrderBy<T>(s: seq<T>, ds: seq<Directive<T>>): (r: seq<T>)
    ensures multiset(r) == multiset(s)
    decreases |ds|
  {
    if ds == [] then s else StableSort(ds[0], OrderBy(s, ds[1..]))
  }

  /** Insertion keeps lexicographic order when `x` is not after any element
      of `s` on the less significant directives. */
  lemma {:induction false} InsertLex<T>(ds: seq<Directive<T>>, x: T, s: seq<T>)
    requires ds != [] && LexSorted(ds, s)
    requires forall y :: y in s ==> !LexBefore(ds[1..], y, x)
    ensures LexSorted(ds, Insert(ds[0], x, s))
    decreases |s|
  {
    var d := ds[0];
    var r := Insert(d, x, s);
    if s == [] || !Before(d, s[0], x) {
      assert r == [x] + s;
      forall i, j | 0 <= i < j < |r| ensures !LexBefore(ds, r[j], r[i]) {
        assert r[j] == s[j - 1] && s[j - 1] in s;
        if i > 0 {
          assert r[i] == s[i - 1];
        } else if j > 1 {
          assert !LexBefore(ds, s[j - 1], s[0]);
        }
      }
    } else {
      var tail := s[1..];
      var rt := Insert(d, x, tail);
      assert forall i, j :: 0 <= i < j < |tail| ==> tail[i] == s[i + 1] && tail[j] == s[j + 1];
      assert forall y :: y in tail ==> y in s;
      InsertLex(ds, x, tail);
      assert r == [s[0]] + rt;
      forall i, j | 0 <= i < j < |r| ensures !LexBefore(ds, r[j], r[i]) {
        if i > 0 {
          assert r[i] == rt[i - 1] && r[j] == rt[j - 1];
        } else {
          var z := rt[j - 1];
          assert z in multiset(rt);
          if z != x {
            assert z in tail;
            var k :| 0 <= k < |tail| && tail[k] == z;
            assert s[k + 1] == z;
          }
        }
      }
    }
  }

  /** A stable sort by the most significant directive of input already in
      order on the remaining directives yields lexicographic order. */
  lemma {:induction false} SortLex<T>(ds: seq<Directive<T>>, t: seq<T>)
    requires ds != [] && LexSorted(ds[1..], t)
    ensures LexSorted(ds, StableSort(ds[0], t))
    decreases |t|
  {
    if t != [] {
      var tail := t[1..];
      assert forall i, j :: 0 <= i < j < |tail| ==> tail[i] == t[i + 1] && tail[j] == t[j + 1];
      SortLex(ds, tail);
      var sorted := StableSort(ds[0], tail);
      forall y | y in sorted ensures !LexBefore(ds[1..], y, t[0]) {
        assert y in multiset(tail);
        var k :| 0 <= k < |tail| && tail[k] == y;
        assert t[k + 1] == y;
      }
      InsertLex(ds, t[0], sorted);
    }
  }

  /** `SortedEnumerable`'s data is in lexicographic order on its directives. */
  lemma {:induction false} OrderBySorted<T>(s: seq<T>, ds: seq<Directive<T>>)
    ensures LexSorted(ds, OrderBy(s, ds))
    decreases |ds|
  {
    if ds != [] {
      OrderBySorted(s, ds[1..]);
      SortLex(ds, OrderBy(s, ds[1..]));
    }
  }

  /** Insertion does not reorder a class of elements that are all tied. */
  lemma {:induction false} InsertKeepsClass<T>(d: Directive<T>, x: T, s: seq<T>, p: T -> bool, kv: int)
    requires forall a :: p(a) ==> d.key(a) == kv
    ensures Where(Insert(d, x, s), p) == (if p(x) then [x] else []) + Where(s, p)
    decreases |s|
  {
    if s == [] || !Before(d, s[0], x) {
      WhereCons(x, s, p);
    } else {
      var tail := s[1..];
      InsertKeepsClass(d, x, tail, p, kv);
      WhereCons(s[0], Insert(d, x, tail), p);
      WhereCons(s[0], tail, p);
      assert [s[0]] + tail == s;
      if p(x) {
        assert !p(s[0]);
      }
    }
  }

  /** A stable sort does not reorder a class of elements that are all tied. */
  lemma {:induction false} SortKeepsClass<T>(d: Directive<T>, t: seq<T>, p: T -> bool, kv: int)
    requires forall a :: p(a) ==> d.key(a) == kv
    ensures Where(StableSort(d, t), p) == Where(t, p)
    decreases |t|
  {
    if t != [] {
      var tail := t[1..];
      SortKeepsClass(d, tail, p, kv);
      InsertKeepsClass(d, t[0], StableSort(d, tail), p, kv);
      WhereCons(t[0], tail, p);
      assert [t[0]] + tail == t;
    }
  }

  /** Tied on a concatenation of directive lists means tied on both parts. */
  lemma {:induction false} AllTiedConcat<T>(ds: seq<Directive<T>>, es: seq<Directive<T>>, a: T, b: T)
    ensures AllTied(ds + es, a, b) == (AllTied(ds, a, b) && AllTied(es, a, b))
    decreases |ds|
  {
    if ds == [] {
      assert ds + es == es;
    } else {
      assert (ds + es)[0] == ds[0] && (ds + es)[1..] == ds[1..] + es;
      AllTiedConcat(ds[1..], es, a, b);
    }
  }

  /** Stability: the elements tied with `x` on every directive keep their
      input order. */
  lemma {:induction false} OrderByStable<T>(s: seq<T>, ds: seq<Directive<T>>, x: T)
    ensures Where(OrderBy(s, ds), TiedWith(ds, x)) == Where(s, TiedWith(ds, x))
    decreases |ds|
  {
    if ds != [] {
      var rest := ds[1..];
      var o := OrderBy(s, rest);
      var p := TiedWith(ds, x);
      OrderByStable(s, rest, x);
      SortKeepsClass(ds[0], o, p, ds[0].key(x));
      var onFirst := (y: T) => Tied(ds[0], x, y);
      WhereWhere(o, TiedWith(rest, x), onFirst, p);
      WhereWhere(s, TiedWith(rest, x), onFirst, p);
    }
  }

  /** Agreement on a class of tied elements carries over to every finer
      class. */
  lemma StableRefines<T>(a: seq<T>, b: seq<T>, p: T -> bool, q: T -> bool)
    requires forall y :: q(y) ==> p(y)
    requires Where(a, p) == Where(b, p)
    ensures Where(a, q) == Where(b, q)
  {
    WhereWhere(a, p, q, q);
    WhereWhere(b, p, q, q);
  }

  /** `then_by(d)` re-sorts the already sorted data by the extended directive
      list. The result is a permutation of the original input, is in
      lexicographic order on the extended list, and keeps the input order of
      the elements tied on every directive of it. */
  lemma ThenByOrder<T>(s: seq<T>, ds: seq<Directive<T>>, d: Directive<T>, x: T)
    ensures multiset(OrderBy(OrderBy(s, ds), ds + [d])) == multiset(s)
    ensures LexSorted(ds + [d], OrderBy(OrderBy(s, ds), ds + [d]))
    ensures Where(OrderBy(OrderBy(s, ds), ds + [d]), TiedWith(ds + [d], x)) == Where(s, TiedWith(ds + [d], x))
  {
    var o := OrderBy(s, ds);
    OrderBySorted(o, ds + [d]);
    OrderByStable(o, ds + [d], x);
    OrderByStable(s, ds, x);
    forall y | TiedWith(ds + [d], x)(y) ensures TiedWith(ds, x)(y) {
      AllTiedConcat(ds, [d], x, y);
    }
    StableRefines(o, s, TiedWith(ds, x), TiedWith(ds + [d], x));
  }

  /** A `SortedEnumerable`: its data, sorted once at construction, and the
      directive list it was sorted by. */
  class SortedEnumerable<T> {
    const data: seq<T>
    const keyFuncs: seq<Directive<T>>
    /** The input the data was sorted from. */
    ghost const source: seq<T>

    /** The data is a stable lexicographic sort of the source. */
    ghost predicate Valid()
      reads this
    {
      multiset(data) == multiset(source) &&
      LexSorted(keyFuncs, data) &&
      forall x :: x in source ==> Where(data, TiedWith(keyFuncs, x)) == Where(source, TiedWith(keyFuncs, x))
    }

    /** `__init__`: sort by each directive in reverse order, so that the
        first directive is the most significant. */
    constructor (s: seq<T>, ks: seq<Directive<T>>)
      ensures keyFuncs == ks && source == s
      ensures data == OrderBy(s, ks)
      ensures Valid()
    {
      var d := s;
      var i := |ks|;
      while i > 0
        invariant 0 <= i <= |ks|
        invariant d == OrderBy(s, ks[i..])
      {
        i := i - 1;
        assert ks[i..][1..] == ks[i + 1..];
        d := StableSort(ks[i], d);
      }
      assert ks[0..] == ks;
      data := d;
      keyFuncs := ks;
      source := s;
      new;
      OrderBySorted(s, ks);
      forall x | x in s ensures Where(d, TiedWith(ks, x)) == Where(s, TiedWith(ks, x)) {
        OrderByStable(s, ks, x);
      }
    }

    /** `then_by(func)` / `then_by_descending(func)`: a new object over this
        object's sorted data, sorted by the directive list extended with
        `d`. */
    method ThenBy(d: Directive<T>) returns (r: SortedEnumerable<T>)
      ensures fresh(r) && r.Valid()
      ensures r.source == data && r.keyFuncs == keyFuncs + [d]
      ensures r.data == OrderBy(data, keyFuncs + [d])
    {
      r := new SortedEnumerable(data, keyFuncs + [d]);
    }
  }

  /** `order_by(key)`. */
  method OrderByAscending<T>(s: seq<T>, key: T -> int) returns (r: SortedEnumerable<T>)
    ensures fresh(r) && r.Valid() && r.source == s
    ensures r.data == OrderBy(s, [Directive(key, false)])
  {
    r := new SortedEnumerable(s, [Directive(key, false)]);
  }

  /** `order_by_descending(key)`. */
  method OrderByDescending<T>(s: seq<T>, key: T -> int) returns (r: SortedEnumerable<T>)
    ensures fresh(r) && r.Valid() && r.source == s
    ensures r.data == OrderBy(s, [Directive(key, true)])
  {
    r := new SortedEnumerable(s, [Directive(key, true)]);
  }
}
