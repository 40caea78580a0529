/** The terminal operations of `Enumerable`: each consumes a sequence and
    returns a scalar, an element, or raises. Elements are never Python's
    `None`, so `None` is only ever the "no element" sentinel, modelled by
    `Option`. */
module Terminals {
  import opened Wrappers
  import opened Operators
  import opened SetOps
  import opened Ordering

  /** `count(predicate)`: the number of elements that pass; `count()` is
      `Count(s, x => true)`. */
  function Count<T>(s: seq<T>, p: T -> bool): (c: nat)
    ensures c == |Hits(s, p)| && c <= |s|
  {
    WhereLength(s, p);
    |Where(s, p)|
  }

  /** The elements that pass and the elements that fail add up to all. */
  lemma CountComplement<T>(s: seq<T>, p: T -> bool, q: T -> bool)
    requires forall x :: q(x) == !p(x)
    ensures Count(s, p) + Count(s, q) == |s|
  {
    WhereComplement(s, p, q);
    assert |multiset(Where(s, p)) + multiset(Where(s, q))| == |multiset(s)|;
  }

  /** `sum(func)`: the sum of the projections. */
  function Sum<T>(s: seq<T>, f: T -> int): int
  {
    if s == [] then 0 else f(s[0]) + Sum(s[1..], f)
  }

  /** The sum of a concatenation is the sum of the sums. */
  lemma {:induction false} SumConcat<T>(a: seq<T>, b: seq<T>, f: T -> int)
    ensures Sum(a + b, f) == Sum(a, f) + Sum(b, f)
  {
    if a == [] {
      assert a + b == b;
    } else {
      assert (a + b)[1..] == a[1..] + b;
      SumConcat(a[1..], b, f);
    }
  }

  /** The left fold of `f` over `s` from `a`: what `aggregate` computes. */
  function FoldLeft<A, T>(f: (A, T) -> A, a: A, s: seq<T>): A
  {
    if s == [] then a else FoldLeft(f, f(a, s[0]), s[1..])
  }

  /** Folding one more element applies `f` once more, last. */
  lemma {:induction false} FoldLeftSnoc<A, T>(f: (A, T) -> A, a: A, s: seq<T>, x: T)
    ensures FoldLeft(f, a, s + [x]) == f(FoldLeft(f, a, s), x)
  {
    if s == [] {
      assert s + [x] == [x];
    } else {
      assert (s + [x])[1..] == s[1..] + [x];
      FoldLeftSnoc(f, f(a, s[0]), s[1..], x);
    }
  }

  /** Folding a concatenation folds the second part from the first's result. */
  lemma {:induction false} FoldLeftConcat<A, T>(f: (A, T) -> A, a: A, s: seq<T>, t: seq<T>)
    ensures FoldLeft(f, a, s + t) == FoldLeft(f, FoldLeft(f, a, s), t)
  {
    if s == [] {
      assert s + t == t;
    } else {
      assert (s + t)[1..] == s[1..] + t;
      FoldLeftConcat(f, f(a, s[0]), s[1..], t);
    }
  }

  /** The step "add the projection of the next element". */
  function AddProjection<T>(f: T -> int): (int, T) -> int
  {
    (acc, x) => acc + f(x)
  }

  /** `sum(func)` is `aggregate(lambda acc, x: acc + func(x), 0)`. */
  lemma {:induction false} SumIsFold<T>(s: seq<T>, f: T -> int, a: int)
    ensures FoldLeft(AddProjection(f), a, s) == a + Sum(s, f)
  {
    if s != [] {
      SumIsFold(s[1..], f, a + f(s[0]));
    }
  }

  /** `aggregate(func, seed)` with a seed: the loop folds every element into
      the running result. */
  method AggregateWithSeed<A, T>(s: seq<T>, f: (A, T) -> A, seed: A) returns (r: A)
    ensures r == FoldLeft(f, seed, s)
  {
    r := seed;
    var i := 0;
    while i < |s|
      invariant 0 <= i <= |s|
      invariant r == FoldLeft(f, seed, s[..i])
    {
      FoldLeftSnoc(f, seed, s[..i], s[i]);
      assert s[..i + 1] == s[..i] + [s[i]];
      r := f(r, s[i]);
      i := i + 1;
    }
    assert s[..i] == s;
  }

  /** `aggregate(func)` without a seed: the first element is the seed
      (`first()`, which raises `IndexError` on an empty sequence) and the loop
      skips position 0. */
  method Aggregate<T>(s: seq<T>, f: (T, T) -> T) returns (r: Result<T>)
    ensures s == [] ==> r == Failure(IndexOutOfRange)
    ensures s != [] ==> r == Success(FoldLeft(f, s[0], s[1..]))
  {
    if |s| == 0 {
      return Failure(IndexOutOfRange);
    }
    var acc := s[0];
    var i := 0;
    while i < |s|
      invariant 0 <= i <= |s|
      invariant i == 0 ==> acc == s[0]
      invariant i > 0 ==> acc == FoldLeft(f, s[0], s[1..i])
    {
      if i != 0 {
        FoldLeftSnoc(f, s[0], s[1..i], s[i]);
        assert s[1..i + 1] == s[1..i] + [s[i]];
        acc := f(acc, s[i]);
      } else {
        assert s[1..1] == [];
      }
      i := i + 1;
    }
    assert s[1..i] == s[1..];
    r := Success(acc);
  }

  /** The least of a non-empty list of integers. */
  function MinOf(xs: seq<int>): (m: int)
    requires xs != []
    ensures m in xs
    ensures forall i :: 0 <= i < |xs| ==> m <= xs[i]
  {
    if |xs| == 1 then xs[0]
    else
      var rest := MinOf(xs[1..]);
      assert forall i :: 1 <= i < |xs| ==> xs[i] == xs[1..][i - 1];
      if xs[0] <= rest then xs[0] else rest
  }

  /** The greatest of a non-empty list of integers. */
  function MaxOf(xs: seq<int>): (m: int)
    requires xs != []
    ensures m in xs
    ensures forall i :: 0 <= i < |xs| ==> xs[i] <= m
  {
    if |xs| == 1 then xs[0]
    else
      var rest := MaxOf(xs[1..]);
      assert forall i :: 1 <= i < |xs| ==> xs[i] == xs[1..][i - 1];
      if xs[0] >= rest then xs[0] else rest
  }

  /** `min(func)`: the least projection; `NoElementsError` when empty. */
  function Min<T>(s: seq<T>, f: T -> int): (r: Result<int>)
    ensures r.Failure? <==> s == []
    ensures r.Failure? ==> r.error == EmptySequence
    ensures r.Success? ==> r.value in Select(s, f) && forall i :: 0 <= i < |s| ==> r.value <= f(s[i])
  {
    if s == [] then Failure(EmptySequence) else Success(MinOf(Select(s, f)))
  }

  /** `max(func)`: the greatest projection; `NoElementsError` when empty. */
  function Max<T>(s: seq<T>, f: T -> int): (r: Result<int>)
    ensures r.Failure? <==> s == []
    ensures r.Failure? ==> r.error == EmptySequence
    ensures r.Success? ==> r.value in Select(s, f) && forall i :: 0 <= i < |s| ==> f(s[i]) <= r.value
  {
    if s == [] then Failure(EmptySequence) else Success(MaxOf(Select(s, f)))
  }

  /** The median of an odd number of projections, or the two middle
      projections of an even number, whose mean `median` returns. */
  datatype MedianValue = Middle(value: int) | MeanOf(lower: int, upper: int)

  /** `order_by(func).select(func)`: the projections in ascending order. */
  function SortedProjections<T>(s: seq<T>, f: T -> int): seq<int>
  {
    Select(OrderBy(s, [Directive(f, false)]), f)
  }

  /** The sorted projections are ascending and are the projections of the
      elements, each with its multiplicity. */
  lemma SortedProjectionsSpec<T>(s: seq<T>, f: T -> int)
    ensures |SortedProjections(s, f)| == |s|
    ensures forall i, j :: 0 <= i < j < |s| ==> SortedProjections(s, f)[i] <= SortedProjections(s, f)[j]
    ensures forall i :: 0 <= i < |s| ==> SortedProjections(s, f)[i] in Select(s, f)
    ensures multiset(SortedProjections(s, f)) == multiset(Select(s, f))
  {
    var d := Directive(f, false);
    var o := OrderBy(s, [d]);
    OrderBySorted(s, [d]);
    SelectMultiset(o, s, f);
    assert |o| == |multiset(o)| == |multiset(s)| == |s|;
    forall i, j | 0 <= i < j < |s| ensures f(o[i]) <= f(o[j]) {
      assert !LexBefore([d], o[j], o[i]);
    }
    forall i | 0 <= i < |s| ensures f(o[i]) in Select(s, f) {
      assert o[i] in multiset(o);
      var k :| 0 <= k < |s| && s[k] == o[i];
      assert Select(s, f)[k] == f(o[i]);
    }
  }

  /** `median(func)`: the middle sorted projection, or the two middle ones;
      `NoElementsError` when empty. */
  function Median<T>(s: seq<T>, f: T -> int): Result<MedianValue>
  {
    if s == [] then Failure(EmptySequence)
    else
      var r := SortedProjections(s, f);
      var i := |s| / 2;
      SortedProjectionsSpec(s, f);
      if |s| % 2 == 1 then Success(Middle(r[i])) else Success(MeanOf(r[i - 1], r[i]))
  }

  /** The median splits the sorted projections in two halves of equal size:
      none before it is greater, none after it is smaller, and it is the
      projection of an element. */
  lemma MedianSpec<T>(s: seq<T>, f: T -> int)
    ensures |SortedProjections(s, f)| == |s|
    ensures Median(s, f).Failure? <==> s == []
    ensures Median(s, f).Failure? ==> Median(s, f).error == EmptySequence
    ensures Median(s, f).Success? ==> (Median(s, f).value.Middle? <==> |s| % 2 == 1)
    ensures Median(s, f).Success? && Median(s, f).value.Middle? ==>
      var m, r := Median(s, f).value.value, SortedProjections(s, f);
      m in Select(s, f) &&
      (forall j :: 0 <= j < |s| / 2 ==> r[j] <= m) &&
      (forall j :: |s| / 2 < j < |s| ==> m <= r[j])
    ensures Median(s, f).Success? && Median(s, f).value.MeanOf? ==>
      var lo, hi, r := Median(s, f).value.lower, Median(s, f).value.upper, SortedProjections(s, f);
      lo in Select(s, f) && hi in Select(s, f) && lo <= hi &&
      lo == r[|s| / 2 - 1] && hi == r[|s| / 2] &&
      (forall j :: 0 <= j < |s| / 2 ==> r[j] <= lo) &&
      (forall j :: |s| / 2 <= j < |s| ==> hi <= r[j])
  {
    SortedProjectionsSpec(s, f);
  }

  /** For an odd number of elements the median is an order statistic of the
      unsorted projections: it is one of them, at most half of the others are
      smaller and at most half are greater. */
  lemma MedianOdd<T>(s: seq<T>, f: T -> int)
    requires |s| % 2 == 1
    ensures Median(s, f).Success? && Median(s, f).value.Middle?
    ensures var m := Median(s, f).value.value;
      m in Select(s, f) &&
      Count(Select(s, f), LessThan(m)) <= |s| / 2 &&
      Count(Select(s, f), GreaterThan(m)) <= |s| / 2
  {
    var r, h := SortedProjections(s, f), |s| / 2;
    SortedPositionCounts(s, f, h);
    assert Median(s, f) == Success(Middle(r[h]));
  }

  /** For an even number `2h` of elements the two middle values are the
      `h`-th and the `h+1`-th smallest of the unsorted projections. */
  lemma MedianEven<T>(s: seq<T>, f: T -> int)
    requires s != [] && |s| % 2 == 0
    ensures Median(s, f).Success? && Median(s, f).value.MeanOf?
    ensures var lo, hi, h := Median(s, f).value.lower, Median(s, f).value.upper, |s| / 2;
      lo in Select(s, f) && hi in Select(s, f) && lo <= hi &&
      Count(Select(s, f), LessThan(lo)) <= h - 1 &&
      Count(Select(s, f), GreaterThan(lo)) <= h &&
      Count(Select(s, f), LessThan(hi)) <= h &&
      Count(Select(s, f), GreaterThan(hi)) <= h - 1
  {
    var r, h := SortedProjections(s, f), |s| / 2;
    SortedPositionCounts(s, f, h - 1);
    SortedPositionCounts(s, f, h);
    assert Median(s, f) == Success(MeanOf(r[h - 1], r[h]));
    SortedProjectionsSpec(s, f);
  }

  /** The sorted projection at position `i` is a projection with at most `i`
      smaller projections and at most `|s| - 1 - i` greater ones. */
  lemma SortedPositionCounts<T>(s: seq<T>, f: T -> int, i: nat)
    requires i < |s|
    ensures |SortedProjections(s, f)| == |s|
    ensures var v := SortedProjections(s, f)[i];
      v in Select(s, f) &&
      Count(Select(s, f), LessThan(v)) <= i &&
      Count(Select(s, f), GreaterThan(v)) <= |s| - 1 - i
  {
    SortedProjectionsSpec(s, f);
    var r := SortedProjections(s, f);
    OrderStatistic(r, i);
    CountPermutation(r, Select(s, f), LessThan(r[i]));
    CountPermutation(r, Select(s, f), GreaterThan(r[i]));
  }

  /** The predicate "less than `m`". */
  function LessThan(m: int): int -> bool
  {
    x => x < m
  }

  /** The predicate "greater than `m`". */
  function GreaterThan(m: int): int -> bool
  {
    x => x > m
  }

  /** Projecting two sequences with the same elements gives two sequences
      with the same elements. */
  lemma {:induction false} SelectMultiset<T, U>(a: seq<T>, b: seq<T>, f: T -> U)
    requires multiset(a) == multiset(b)
    ensures multiset(Select(a, f)) == multiset(Select(b, f))
    decreases |a|
  {
    if a == [] {
      assert |b| == |multiset(b)| == 0;
    } else {
      var k := Unpick(a, b);
      var rest := b[..k] + b[k + 1..];
      SelectMultiset(a[1..], rest, f);
      SelectRemove(b, k, f);
      assert Select(a, f) == [f(a[0])] + Select(a[1..], f);
      assert multiset(Select(a, f)) == multiset(Select(a[1..], f)) + multiset{f(a[0])};
    }
  }

  /** The first element of `a` sits at some position `k` of a sequence `b`
      with the same elements, and the rest of `a` has the same elements as
      `b` without position `k`. */
  lemma Unpick<T>(a: seq<T>, b: seq<T>) returns (k: nat)
    requires a != [] && multiset(a) == multiset(b)
    ensures k < |b| && b[k] == a[0]
    ensures multiset(a[1..]) == multiset(b[..k] + b[k + 1..])
  {
    assert a[0] in multiset(b);
    k :| 0 <= k < |b| && b[k] == a[0];
    RemoveAt(b, k);
    assert a == [a[0]] + a[1..];
    assert multiset(a) == multiset(a[1..]) + multiset{a[0]};
    MultisetCancel(multiset(a[1..]), multiset(b[..k] + b[k + 1..]), a[0]);
  }

  /** Adding the same element to two multisets keeps them apart. */
  lemma MultisetCancel<T>(m: multiset<T>, n: multiset<T>, x: T)
    requires m + multiset{x} == n + multiset{x}
    ensures m == n
  {
    assert m == m + multiset{x} - multiset{x};
  }

  /** Taking out the element at position `k` takes it out of the elements. */
  lemma RemoveAt<T>(b: seq<T>, k: nat)
    requires k < |b|
    ensures multiset(b) == multiset(b[..k] + b[k + 1..]) + multiset{b[k]}
  {
    assert b == b[..k] + [b[k]] + b[k + 1..];
  }

  /** Taking out the element at position `k` takes its projection out of the
      projections. */
  lemma SelectRemove<T, U>(b: seq<T>, k: nat, f: T -> U)
    requires k < |b|
    ensures multiset(Select(b, f)) == multiset(Select(b[..k] + b[k + 1..], f)) + multiset{f(b[k])}
  {
    var front, back := b[..k], b[k + 1..];
    assert b == front + ([b[k]] + back);
    SelectConcat(front, [b[k]] + back, f);
    SelectConcat([b[k]], back, f);
    SelectConcat(front, back, f);
    assert Select(b, f) == Select(front, f) + ([f(b[k])] + Select(back, f));
  }

  /** Counting does not depend on the order of the elements. */
  lemma {:induction false} CountPermutation<T>(a: seq<T>, b: seq<T>, p: T -> bool)
    requires multiset(a) == multiset(b)
    ensures Count(a, p) == Count(b, p)
    decreases |a|
  {
    if a == [] {
      assert |b| == |multiset(b)| == 0;
    } else {
      var k := Unpick(a, b);
      CountPermutation(a[1..], b[..k] + b[k + 1..], p);
      WhereRemove(b, k, p);
      assert a == [a[0]] + a[1..];
      WhereCons(a[0], a[1..], p);
    }
  }

  /** Taking out the element at position `k` takes it out of the filtered
      sequence when it passes, and leaves that sequence's length alone when
      it fails. */
  lemma WhereRemove<T>(b: seq<T>, k: nat, p: T -> bool)
    requires k < |b|
    ensures |Where(b, p)| == |Where(b[..k] + b[k + 1..], p)| + (if p(b[k]) then 1 else 0)
  {
    var front, back := b[..k], b[k + 1..];
    assert b == front + ([b[k]] + back);
    WhereConcat(front, [b[k]] + back, p);
    WhereCons(b[k], back, p);
    WhereConcat(front, back, p);
  }

  /** When no element from position `h` on passes, at most `h` pass. */
  lemma {:induction false} CountNoneFrom<T>(r: seq<T>, p: T -> bool, h: nat)
    requires h <= |r|
    requires forall j :: h <= j < |r| ==> !p(r[j])
    ensures Count(r, p) <= h
    decreases |r|
  {
    if |r| > h {
      var init := r[..|r| - 1];
      assert r == init + [r[|r| - 1]];
      WhereSnoc(init, r[|r| - 1], p);
      CountNoneFrom(init, p, h);
    }
  }

  /** When no element before position `h` passes, at most `|r| - h` pass. */
  lemma {:induction false} CountNoneBefore<T>(r: seq<T>, p: T -> bool, h: nat)
    requires h <= |r|
    requires forall j :: 0 <= j < h ==> !p(r[j])
    ensures Count(r, p) <= |r| - h
    decreases h
  {
    if h > 0 {
      assert r == [r[0]] + r[1..];
      WhereCons(r[0], r[1..], p);
      CountNoneBefore(r[1..], p, h - 1);
    }
  }

  /** In an ascending sequence the value at position `i` has at most `i`
      smaller values and at most `|r| - 1 - i` greater ones. */
  lemma OrderStatistic(r: seq<int>, i: nat)
    requires i < |r|
    requires forall a, b :: 0 <= a < b < |r| ==> r[a] <= r[b]
    ensures Count(r, LessThan(r[i])) <= i
    ensures Count(r, GreaterThan(r[i])) <= |r| - 1 - i
  {
    CountNoneFrom(r, LessThan(r[i]), i);
    CountNoneBefore(r, GreaterThan(r[i]), i + 1);
  }

  /** `element_at(n)`: the element at position `n`; `IndexError` for a
      negative position and for one past the end. */
  function ElementAt<T>(s: seq<T>, n: int): Result<T>
  {
    if 0 <= n < |s| then Success(s[n]) else Failure(IndexOutOfRange)
  }

  /** `element_at_or_default(n)`: `None` wherever `element_at` raises. */
  function ElementAtOrDefault<T>(s: seq<T>, n: int): Option<T>
  {
    match ElementAt(s, n)
    case Success(x) => Some(x)
    case Failure(_) => None
  }

  /** `element_at` succeeds exactly on positions of the sequence, and its
      default variant agrees with it there and is `None` elsewhere. */
  lemma ElementAtSpec<T>(s: seq<T>, n: int)
    ensures ElementAt(s, n).Success? <==> 0 <= n < |s|
    ensures ElementAt(s, n).Success? ==> ElementAt(s, n).value == s[n]
    ensures ElementAt(s, n).Failure? ==> ElementAt(s, n).error == IndexOutOfRange
    ensures ElementAtOrDefault(s, n) == if 0 <= n < |s| then Some(s[n]) else None
  {
  }

  /** `first(func)`: `where(func).element_at(0)`. */
  function First<T>(s: seq<T>, p: T -> bool): Result<T>
  {
    ElementAt(Where(s, p), 0)
  }

  /** `first_or_default(func)`. */
  function FirstOrDefault<T>(s: seq<T>, p: T -> bool): Option<T>
  {
    ElementAtOrDefault(Where(s, p), 0)
  }

  /** `last(func)`: `where(func).reverse().first()`. */
  function Last<T>(s: seq<T>, p: T -> bool): Result<T>
  {
    ElementAt(Reverse(Where(s, p)), 0)
  }

  /** `last_or_default(func)`. */
  function LastOrDefault<T>(s: seq<T>, p: T -> bool): Option<T>
  {
    ElementAtOrDefault(Reverse(Where(s, p)), 0)
  }

  /** The filtered sequence is non-empty exactly when some element passes,
      and it starts with the first element that passes. */
  lemma {:induction false} WhereHead<T>(s: seq<T>, p: T -> bool)
    ensures Where(s, p) != [] <==> exists i :: 0 <= i < |s| && p(s[i])
    ensures Where(s, p) != [] ==>
      exists i :: 0 <= i < |s| && p(s[i]) && Where(s, p)[0] == s[i] && forall j :: 0 <= j < i ==> !p(s[j])
  {
    if s != [] {
      var y, tail := s[0], s[1..];
      WhereHead(tail, p);
      WhereCons(y, tail, p);
      assert s == [y] + tail;
      if p(y) {
        assert Where(s, p)[0] == s[0];
      } else {
        assert Where(s, p) == Where(tail, p);
        if Where(s, p) != [] {
          var i :| 0 <= i < |tail| && p(tail[i]) && Where(tail, p)[0] == tail[i] &&
            forall j :: 0 <= j < i ==> !p(tail[j]);
          assert s[i + 1] == tail[i];
          forall j | 0 <= j < i + 1 ensures !p(s[j]) {
            if j > 0 {
              assert s[j] == tail[j - 1];
            }
          }
        }
        if exists i :: 0 <= i < |s| && p(s[i]) {
          var i :| 0 <= i < |s| && p(s[i]);
          assert tail[i - 1] == s[i];
        }
      }
    }
  }

  /** The filtered sequence ends with the last element that passes. */
  lemma {:induction false} WhereLast<T>(s: seq<T>, p: T -> bool)
    ensures Where(s, p) != [] ==>
      exists i :: 0 <= i < |s| && p(s[i]) && Where(s, p)[|Where(s, p)| - 1] == s[i] &&
        forall j :: i < j < |s| ==> !p(s[j])
  {
    if s != [] {
      var a, x := s[..|s| - 1], s[|s| - 1];
      assert s == a + [x];
      WhereLast(a, p);
      WhereSnoc(a, x, p);
      if !p(x) && Where(s, p) != [] {
        WhereLastSkip(a, x, p);
      }
    }
  }

  /** A failing last element leaves the last passing one in place. */
  lemma WhereLastSkip<T>(a: seq<T>, x: T, p: T -> bool)
    requires !p(x) && Where(a + [x], p) == Where(a, p) != []
    requires exists i :: (0 <= i < |a| && p(a[i]) && Where(a, p)[|Where(a, p)| - 1] == a[i] &&
                          forall j :: i < j < |a| ==> !p(a[j]))
    ensures exists i :: (0 <= i < |a + [x]| && p((a + [x])[i]) &&
                         Where(a + [x], p)[|Where(a + [x], p)| - 1] == (a + [x])[i] &&
                         forall j :: i < j < |a + [x]| ==> !p((a + [x])[j]))
  {
    var s := a + [x];
    var i :| 0 <= i < |a| && p(a[i]) && Where(a, p)[|Where(a, p)| - 1] == a[i] &&
      forall j :: i < j < |a| ==> !p(a[j]);
    assert s[i] == a[i];
    forall j | i < j < |s| ensures !p(s[j]) {
      if j < |a| {
        assert s[j] == a[j];
      }
    }
  }

  /** `first` finds the first element that passes, and raises `IndexError`
      exactly when none does; `first_or_default` gives `None` instead. */
  lemma FirstSpec<T>(s: seq<T>, p: T -> bool)
    ensures First(s, p).Success? <==> exists i :: 0 <= i < |s| && p(s[i])
    ensures First(s, p).Failure? ==> First(s, p).error == IndexOutOfRange
    ensures First(s, p).Success? ==>
      exists i :: 0 <= i < |s| && p(s[i]) && First(s, p).value == s[i] && forall j :: 0 <= j < i ==> !p(s[j])
    ensures FirstOrDefault(s, p) == if First(s, p).Success? then Some(First(s, p).value) else None
  {
    WhereHead(s, p);
  }

  /** `last` finds the last element that passes, and raises `IndexError`
      exactly when none does; `last_or_default` gives `None` instead. */
  lemma LastSpec<T>(s: seq<T>, p: T -> bool)
    ensures Last(s, p).Success? <==> exists i :: 0 <= i < |s| && p(s[i])
    ensures Last(s, p).Failure? ==> Last(s, p).error == IndexOutOfRange
    ensures Last(s, p).Success? ==>
      exists i :: 0 <= i < |s| && p(s[i]) && Last(s, p).value == s[i] && forall j :: i < j < |s| ==> !p(s[j])
    ensures LastOrDefault(s, p) == if Last(s, p).Success? then Some(Last(s, p).value) else None
  {
    WhereHead(s, p);
    WhereLast(s, p);
  }

  /** `single(predicate)`: the one element that passes; `NoMatchingElement`
      when none does, `MoreThanOneMatchingElement` when several do. */
  function Single<T>(s: seq<T>, p: T -> bool): Result<T>
  {
    var w := Where(s, p);
    if |w| == 0 then Failure(NoMatchingElement)
    else if |w| > 1 then Failure(MoreThanOneMatchingElement)
    else Success(w[0])
  }

  /** `single_or_default(predicate)`: `None` instead of `NoMatchingElement`;
      `MoreThanOneMatchingElement` still raises. */
  function SingleOrDefault<T>(s: seq<T>, p: T -> bool): Result<Option<T>>
  {
    match Single(s, p)
    case Success(x) => Success(Some(x))
    case Failure(NoMatchingElement) => Success(None)
    case Failure(e) => Failure(e)
  }

  /** Two different positions pass exactly when at least two positions do. */
  lemma TwoHits<T>(s: seq<T>, p: T -> bool)
    ensures |Hits(s, p)| >= 2 <==> exists i, j :: 0 <= i < j < |s| && p(s[i]) && p(s[j])
  {
    var h := Hits(s, p);
    if |h| >= 2 {
      var i :| i in h;
      assert |h - {i}| == |h| - 1;
      var j :| j in h - {i};
      if i < j {
        assert 0 <= i < j < |s| && p(s[i]) && p(s[j]);
      } else {
        assert 0 <= j < i < |s| && p(s[j]) && p(s[i]);
      }
    }
    if exists i, j :: 0 <= i < j < |s| && p(s[i]) && p(s[j]) {
      var i, j :| 0 <= i < j < |s| && p(s[i]) && p(s[j]);
      SubsetCard({i, j}, h);
    }
  }

  /** `single` fails with `NoMatchingElement` exactly when no element
      passes, with `MoreThanOneMatchingElement` exactly when two do, and
      otherwise returns the element at the only passing position. */
  lemma SingleSpec<T>(s: seq<T>, p: T -> bool)
    ensures Single(s, p) == Failure(NoMatchingElement) <==> forall i :: 0 <= i < |s| ==> !p(s[i])
    ensures Single(s, p) == Failure(MoreThanOneMatchingElement) <==>
      exists i, j :: 0 <= i < j < |s| && p(s[i]) && p(s[j])
    ensures Single(s, p).Success? ==>
      exists i :: 0 <= i < |s| && p(s[i]) && Single(s, p).value == s[i] &&
        forall j :: 0 <= j < |s| && j != i ==> !p(s[j])
  {
    WhereHead(s, p);
    WhereLength(s, p);
    TwoHits(s, p);
    if Single(s, p).Success? {
      var i :| 0 <= i < |s| && p(s[i]) && Where(s, p)[0] == s[i] && forall j :: 0 <= j < i ==> !p(s[j]);
      forall j | 0 <= j < |s| && j != i ensures !p(s[j]) {
        if p(s[j]) {
          SubsetCard({i, j}, Hits(s, p));
        }
      }
    }
  }

  /** `single_or_default` is `single` with only the no-match case turned
      into `None`. */
  lemma SingleOrDefaultSpec<T>(s: seq<T>, p: T -> bool)
    ensures SingleOrDefault(s, p) == Success(None) <==> forall i :: 0 <= i < |s| ==> !p(s[i])
    ensures SingleOrDefault(s, p) == Failure(MoreThanOneMatchingElement) <==>
      exists i, j :: 0 <= i < j < |s| && p(s[i]) && p(s[j])
    ensures Single(s, p).Success? <==> SingleOrDefault(s, p).Success? && SingleOrDefault(s, p).value.Some?
    ensures Single(s, p).Success? ==> SingleOrDefault(s, p) == Success(Some(Single(s, p).value))
  {
    SingleSpec(s, p);
  }

  /** `any(predicate)`: `first_or_default(predicate) is not None`. */
  function Any<T>(s: seq<T>, p: T -> bool): bool
  {
    FirstOrDefault(s, p).Some?
  }

  /** `all(predicate)`: Python's `all` over the predicate's results. */
  function All<T>(s: seq<T>, p: T -> bool): bool
  {
    s == [] || (p(s[0]) && All(s[1..], p))
  }

  /** `any` holds exactly when some element passes. */
  lemma AnySpec<T>(s: seq<T>, p: T -> bool)
    ensures Any(s, p) <==> exists i :: 0 <= i < |s| && p(s[i])
  {
    FirstSpec(s, p);
  }

  /** `all` holds exactly when every element passes, which is when no
      element fails. */
  lemma {:induction false} AllSpec<T>(s: seq<T>, p: T -> bool, q: T -> bool)
    requires forall x :: q(x) == !p(x)
    ensures All(s, p) <==> forall i :: 0 <= i < |s| ==> p(s[i])
    ensures All(s, p) <==> !Any(s, q)
  {
    AnySpec(s, q);
    if s != [] {
      AllSpec(s[1..], p, q);
      assert forall i :: 1 <= i < |s| ==> s[i] == s[1..][i - 1];
    }
  }

  /** The predicate "equal to `v`". */
  function EqualTo<K(==)>(v: K): K -> bool
  {
    x => x == v
  }

  /** `contains(element, key)`: `select(key).any(lambda x: x == key(element))`. */
  function Contains<T, K(==)>(s: seq<T>, e: T, key: T -> K): bool
  {
    Any(Select(s, key), EqualTo(key(e)))
  }

  /** `contains` holds exactly when some element has the same key as `e`. */
  lemma ContainsSpec<T, K>(s: seq<T>, e: T, key: T -> K)
    ensures Contains(s, e, key) <==> key(e) in KeysOf(s, key)
  {
    AnySpec(Select(s, key), EqualTo(key(e)));
    if key(e) in KeysOf(s, key) {
      var i :| 0 <= i < |s| && key(s[i]) == key(e);
      assert Select(s, key)[i] == key(e);
    }
  }
}
