/** The stateless operators of `Enumerable`: each turns one (or two) finite
    sequences into another, element by element, with no auxiliary storage.
    A query node is modelled by its finite backing sequence. */
module Operators {

  /** Number of leading positions that `take(n)` keeps and `skip(n)` drops:
      `n` clamped into `0 .. len`. */
  function Clamp(n: int, len: nat): (c: nat)
    ensures c <= len
    ensures n <= 0 ==> c == 0
    ensures 0 <= n <= len ==> c == n
    ensures len <= n ==> c == len
  {
    if n <= 0 then 0 else if n >= len then len else n
  }

  /** `select(func)`: `func` applied to every element, in order. */
  function Select<T, U>(s: seq<T>, f: T -> U): (r: seq<U>)
    ensures |r| == |s|
    ensures forall i :: 0 <= i < |s| ==> r[i] == f(s[i])
  {
    if s == [] then [] else [f(s[0])] + Select(s[1..], f)
  }

  /** `select(lambda x: x)` gives the input back. */
  lemma SelectIdentity<T>(s: seq<T>, f: T -> T)
    requires forall x :: f(x) == x
    ensures Select(s, f) == s
  {
    assert forall i :: 0 <= i < |s| ==> Select(s, f)[i] == s[i];
  }

  /** Projection distributes over concatenation. */
  lemma {:induction false} SelectConcat<T, U>(a: seq<T>, b: seq<T>, f: T -> U)
    ensures Select(a + b, f) == Select(a, f) + Select(b, f)
  {
    if a != [] {
      assert (a + b)[1..] == a[1..] + b;
      SelectConcat(a[1..], b, f);
    } else {
      assert a + b == b;
    }
  }

  /** `where(predicate)`: the elements that pass, in input order. */
  function Where<T>(s: seq<T>, p: T -> bool): (r: seq<T>)
    ensures |r| <= |s|
    ensures forall x :: x in r ==> x in s && p(x)
  {
    if s == [] then []
    else
      assert s == [s[0]] + s[1..];
      (if p(s[0]) then [s[0]] else []) + Where(s[1..], p)
  }

  /** Every element that passes is kept with its full multiplicity, every
      other element is dropped. */
  lemma {:induction false} WhereMultiset<T>(s: seq<T>, p: T -> bool)
    ensures forall x :: multiset(Where(s, p))[x] == if p(x) then multiset(s)[x] else 0
  {
    if s != [] {
      var y, tail := s[0], s[1..];
      WhereMultiset(tail, p);
      assert s == [y] + tail;
      assert Where(s, p) == (if p(y) then [y] else []) + Where(tail, p);
    }
  }

  /** Filtering a sequence extended at the front by one element. */
  lemma WhereCons<T>(x: T, s: seq<T>, p: T -> bool)
    ensures Where([x] + s, p) == (if p(x) then [x] else []) + Where(s, p)
  {
    assert ([x] + s)[1..] == s;
  }

  /** Filtering distributes over concatenation; with the singleton cases this
      pins down the order of `Where`'s output: it is the input order. */
  lemma {:induction false} WhereConcat<T>(a: seq<T>, b: seq<T>, p: T -> bool)
    ensures Where(a + b, p) == Where(a, p) + Where(b, p)
  {
    if a == [] {
      assert a + b == b;
    } else {
      assert (a + b)[1..] == a[1..] + b;
      WhereConcat(a[1..], b, p);
    }
  }

  /** Filtering a sequence extended by one element. */
  lemma WhereSnoc<T>(a: seq<T>, x: T, p: T -> bool)
    ensures Where(a + [x], p) == Where(a, p) + (if p(x) then [x] else [])
  {
    WhereConcat(a, [x], p);
    assert Where([x], p) == (if p(x) then [x] else []) + Where([x][1..], p);
  }

  /** `where(lambda x: True)` is the identity and `where(lambda x: False)` is empty. */
  lemma {:induction false} WhereAllOrNone<T>(s: seq<T>, p: T -> bool)
    ensures (forall x :: p(x)) ==> Where(s, p) == s
    ensures (forall x :: !p(x)) ==> Where(s, p) == []
  {
    if s != [] {
      WhereAllOrNone(s[1..], p);
      assert s == [s[0]] + s[1..];
    }
  }

  /** Filtering a sequence all of whose elements pass gives it back. */
  lemma {:induction false} WhereKeepsAll<T>(s: seq<T>, p: T -> bool)
    requires forall i :: 0 <= i < |s| ==> p(s[i])
    ensures Where(s, p) == s
  {
    if s != [] {
      WhereKeepsAll(s[1..], p);
      assert s == [s[0]] + s[1..];
    }
  }

  /** Filtering projected elements is projecting the elements whose
      projection passes. */
  lemma {:induction false} WhereSelect<T, U>(s: seq<T>, g: T -> U, p: U -> bool, q: T -> bool)
    requires forall x :: q(x) == p(g(x))
    ensures Where(Select(s, g), p) == Select(Where(s, q), g)
  {
    if s != [] {
      var y, tail := s[0], s[1..];
      WhereSelect(tail, g, p, q);
      assert s == [y] + tail;
      assert Select(s, g) == [g(y)] + Select(tail, g);
      WhereCons(g(y), Select(tail, g), p);
      WhereCons(y, tail, q);
      SelectConcat(if q(y) then [y] else [], Where(tail, q), g);
    }
  }

  /** Filtering twice is filtering once by the conjunction. */
  lemma {:induction false} WhereWhere<T>(s: seq<T>, p: T -> bool, q: T -> bool, both: T -> bool)
    requires forall x :: both(x) == (p(x) && q(x))
    ensures Where(Where(s, p), q) == Where(s, both)
  {
    if s != [] {
      WhereWhere(s[1..], p, q, both);
      var head := if p(s[0]) then [s[0]] else [];
      WhereConcat(head, Where(s[1..], p), q);
      if p(s[0]) {
        assert Where(head, q) == (if q(s[0]) then [s[0]] else []) + Where(head[1..], q);
      }
    }
  }

  /** Filtering by a predicate and by its negation splits `s` in two. */
  lemma {:induction false} WhereComplement<T>(s: seq<T>, p: T -> bool, q: T -> bool)
    requires forall x :: q(x) == !p(x)
    ensures multiset(Where(s, p)) + multiset(Where(s, q)) == multiset(s)
  {
    if s != [] {
      var y, tail := s[0], s[1..];
      WhereComplement(tail, p, q);
      assert s == [y] + tail;
      var wp, wq := Where(tail, p), Where(tail, q);
      assert multiset(s) == multiset{y} + multiset(tail);
      if p(y) {
        assert Where(s, p) == [y] + wp && Where(s, q) == wq;
        assert multiset([y] + wp) == multiset{y} + multiset(wp);
      } else {
        assert Where(s, p) == wp && Where(s, q) == [y] + wq;
        assert multiset([y] + wq) == multiset{y} + multiset(wq);
      }
    }
  }

  /** Filtering by two predicates that never hold together, and by their
      disjunction: the two results together make up the third. */
  lemma {:induction false} WhereDisjoint<T>(s: seq<T>, p: T -> bool, q: T -> bool, either: T -> bool)
    requires forall x :: !(p(x) && q(x))
    requires forall x :: either(x) == (p(x) || q(x))
    ensures multiset(Where(s, p)) + multiset(Where(s, q)) == multiset(Where(s, either))
  {
    if s != [] {
      var y, tail := s[0], s[1..];
      WhereDisjoint(tail, p, q, either);
      assert s == [y] + tail;
      WhereCons(y, tail, p);
      WhereCons(y, tail, q);
      WhereCons(y, tail, either);
      DisjointStep(y, Where(tail, p), Where(tail, q), Where(tail, either), p(y), q(y), either(y));
    }
  }

  /** One element added in front of at most one of two parts that make up a
      whole is added in front of the whole. */
  lemma DisjointStep<T>(y: T, wp: seq<T>, wq: seq<T>, we: seq<T>, bp: bool, bq: bool, be: bool)
    requires !(bp && bq) && be == (bp || bq)
    requires multiset(wp) + multiset(wq) == multiset(we)
    ensures multiset((if bp then [y] else []) + wp) + multiset((if bq then [y] else []) + wq)
      == multiset((if be then [y] else []) + we)
  {
  }

  /** The positions of `s` whose element passes `p`. */
  ghost function Hits<T>(s: seq<T>, p: T -> bool): set<nat>
  {
    set i: nat | i < |s| && p(s[i])
  }

  /** The hit positions of a sequence extended by one element. */
  lemma HitsSnoc<T>(a: seq<T>, x: T, p: T -> bool)
    ensures Hits(a + [x], p) == Hits(a, p) + (if p(x) then {|a|} else {})
    ensures |a| !in Hits(a, p)
  {
    var s := a + [x];
    forall i: nat
      ensures i in Hits(s, p) <==> i in Hits(a, p) + (if p(x) then {|a|} else {})
    {
      if i < |a| {
        assert s[i] == a[i];
      }
    }
  }

  /** `count(predicate)` is `len(where(predicate))`; it equals the number of
      positions whose element passes. */
  lemma {:induction false} WhereLength<T>(s: seq<T>, p: T -> bool)
    ensures |Where(s, p)| == |Hits(s, p)|
  {
    if s == [] {
      assert Hits(s, p) == {};
    } else {
      var a, x := s[..|s| - 1], s[|s| - 1];
      assert s == a + [x];
      WhereLength(a, p);
      WhereSnoc(a, x, p);
      HitsSnoc(a, x, p);
    }
  }

  /** The predicate "the key of `x` under `k` is `kv`". */
  function KeyIs<T, K(==)>(k: T -> K, kv: K): T -> bool
  {
    x => k(x) == kv
  }

  /** The elements of `s` whose key is `kv`, in input order:
      `where(lambda i: key(i) == kv)`. */
  function Matching<T, K(==)>(s: seq<T>, k: T -> K, kv: K): (r: seq<T>)
    ensures forall x :: x in r ==> x in s && k(x) == kv
  {
    Where(s, KeyIs(k, kv))
  }

  /** Matching a sequence extended by one element. */
  lemma MatchingSnoc<T, K>(a: seq<T>, x: T, k: T -> K, kv: K)
    ensures Matching(a + [x], k, kv) == Matching(a, k, kv) + (if k(x) == kv then [x] else [])
  {
    WhereSnoc(a, x, KeyIs(k, kv));
  }

  /** `select_many(func)`: the sub-sequences `func` returns, concatenated in
      input order. */
  function SelectMany<T, U>(s: seq<T>, f: T -> seq<U>): (r: seq<U>)
  {
    if s == [] then [] else f(s[0]) + SelectMany(s[1..], f)
  }

  /** `SelectMany` is the concatenation homomorphism generated by `f`. */
  lemma {:induction false} SelectManyConcat<T, U>(a: seq<T>, b: seq<T>, f: T -> seq<U>)
    ensures SelectMany(a + b, f) == SelectMany(a, f) + SelectMany(b, f)
    ensures SelectMany([], f) == [] && SelectMany(b[..0], f) == []
    ensures |b| == 1 ==> SelectMany(b, f) == f(b[0])
  {
    if a == [] {
      assert a + b == b;
    } else {
      assert (a + b)[1..] == a[1..] + b;
      SelectManyConcat(a[1..], b, f);
    }
    if |b| == 1 {
      assert b[1..] == [];
    }
  }

  /** `take(n)`: exactly the elements at positions below `n`. */
  function Take<T>(s: seq<T>, n: int): (r: seq<T>)
    ensures |r| == Clamp(n, |s|)
    ensures forall i :: 0 <= i < |r| ==> r[i] == s[i]
  {
    if s == [] || n <= 0 then [] else [s[0]] + Take(s[1..], n - 1)
  }

  /** `skip(n)`: exactly the elements at positions `n` and above. */
  function Skip<T>(s: seq<T>, n: int): (r: seq<T>)
    ensures |r| == |s| - Clamp(n, |s|)
    ensures forall i :: 0 <= i < |r| ==> r[i] == s[i + Clamp(n, |s|)]
  {
    if s == [] || n <= 0 then s else Skip(s[1..], n - 1)
  }

  /** For every `n`, `take(n)` followed by `skip(n)` is the input. */
  lemma TakeSkip<T>(s: seq<T>, n: int)
    ensures Take(s, n) + Skip(s, n) == s
  {
    var t, d := Take(s, n), Skip(s, n);
    var c := |t|;
    assert t == s[..c] && d == s[c..];
    assert s[..c] + s[c..] == s;
  }

  /** `skip_last(n)` is `take(count() - n)`. */
  function SkipLast<T>(s: seq<T>, n: int): (r: seq<T>)
    ensures |r| == Clamp(|s| - n, |s|)
    ensures r == s[..|r|]
  {
    Take(s, |s| - n)
  }

  /** `take_last(n)` is `skip(count() - n)`. */
  function TakeLast<T>(s: seq<T>, n: int): (r: seq<T>)
    ensures |r| == Clamp(n, |s|)
    ensures r == s[|s| - |r|..]
  {
    Skip(s, |s| - n)
  }

  /** Dropping the last `n` and keeping the last `n` split the input. */
  lemma SkipLastTakeLast<T>(s: seq<T>, n: int)
    ensures SkipLast(s, n) + TakeLast(s, n) == s
  {
    TakeSkip(s, |s| - n);
  }

  /** `take_while(predicate)`: the longest prefix whose elements all pass. */
  function TakeWhile<T>(s: seq<T>, p: T -> bool): (r: seq<T>)
    ensures |r| <= |s| && r == s[..|r|]
    ensures forall i :: 0 <= i < |r| ==> p(r[i])
    ensures |r| < |s| ==> !p(s[|r|])
  {
    if s == [] || !p(s[0]) then [] else [s[0]] + TakeWhile(s[1..], p)
  }

  /** `skip_while(predicate)`: everything from the first element that fails
      on, whatever the predicate says of later elements. */
  function SkipWhile<T>(s: seq<T>, p: T -> bool): (r: seq<T>)
    ensures |r| <= |s| && r == s[|s| - |r|..]
    ensures forall i :: 0 <= i < |s| - |r| ==> p(s[i])
    ensures r != [] ==> !p(r[0])
  {
    if s == [] then [] else if p(s[0]) then SkipWhile(s[1..], p) else s
  }

  /** The two `while` operators split the input at the first failing element. */
  lemma TakeWhileSkipWhile<T>(s: seq<T>, p: T -> bool)
    ensures TakeWhile(s, p) + SkipWhile(s, p) == s
  {
    var t, d := TakeWhile(s, p), SkipWhile(s, p);
    var m := |t|;
    assert t == s[..m] && d == s[m..];
    assert s[..m] + s[m..] == s;
  }

  /** `reverse()`: the input in reverse positional order. */
  function Reverse<T>(s: seq<T>): (r: seq<T>)
    ensures |r| == |s|
    ensures forall i :: 0 <= i < |s| ==> r[i] == s[|s| - 1 - i]
  {
    if s == [] then [] else Reverse(s[1..]) + [s[0]]
  }

  /** Reversing twice gives the input back. */
  lemma ReverseReverse<T>(s: seq<T>)
    ensures Reverse(Reverse(s)) == s
  {
    var r := Reverse(Reverse(s));
    assert forall i :: 0 <= i < |s| ==> r[i] == s[i];
  }

  /** `concat(other)`: all of `a`, then all of `b`. */
  function Concat<T>(a: seq<T>, b: seq<T>): (r: seq<T>)
    ensures |r| == |a| + |b|
    ensures forall i :: 0 <= i < |a| ==> r[i] == a[i]
    ensures forall i :: 0 <= i < |b| ==> r[|a| + i] == b[i]
  {
    a + b
  }

  /** `append(element)` is `concat(Enumerable([element]))`. */
  function Append<T>(s: seq<T>, x: T): (r: seq<T>)
    ensures |r| == |s| + 1 && r[|s|] == x && r[..|s|] == s
  {
    Concat(s, [x])
  }

  /** `prepend(element)` is `Enumerable([element]).concat(self)`. */
  function Prepend<T>(s: seq<T>, x: T): (r: seq<T>)
    ensures |r| == |s| + 1 && r[0] == x && r[1..] == s
  {
    Concat([x], s)
  }

  /** `zip(other, func)`: `func((a[i], b[i]))` for every position both have. */
  function Zip<T, U, R>(a: seq<T>, b: seq<U>, f: ((T, U)) -> R): (r: seq<R>)
    ensures |r| == if |a| <= |b| then |a| else |b|
    ensures forall i :: 0 <= i < |r| ==> r[i] == f((a[i], b[i]))
  {
    if a == [] || b == [] then [] else [f((a[0], b[0]))] + Zip(a[1..], b[1..], f)
  }

  /** `ZipEnumerable.__iter__`: a counted loop over the positions both
      sequences have. */
  method EnumerateZip<T, U, R>(a: seq<T>, b: seq<U>, f: ((T, U)) -> R) returns (r: seq<R>)
    ensures r == Zip(a, b, f)
  {
    var n := if |a| <= |b| then |a| else |b|;
    r := [];
    var i := 0;
    while i < n
      invariant 0 <= i <= n
      invariant |r| == i && forall j :: 0 <= j < i ==> r[j] == f((a[j], b[j]))
    {
      r := r + [f((a[i], b[i]))];
      i := i + 1;
    }
  }

  /** Reversal turns a concatenation round. */
  lemma {:induction false} ReverseConcat<T>(a: seq<T>, b: seq<T>)
    ensures Reverse(Concat(a, b)) == Concat(Reverse(b), Reverse(a))
  {
    var l, r := Reverse(a + b), Reverse(b) + Reverse(a);
    assert forall i :: 0 <= i < |b| ==> l[i] == r[i];
    assert forall i :: |b| <= i < |l| ==> l[i] == Reverse(a)[i - |b|] == r[i];
  }

  /** Appending to a sequence and reversing it is prepending to its reversal. */
  lemma ReverseAppend<T>(s: seq<T>, x: T)
    ensures Reverse(Append(s, x)) == Prepend(Reverse(s), x)
  {
    ReverseConcat(s, [x]);
    assert Reverse([x]) == [x];
  }

  /** `Enumerable.repeat(element, length)`: `length` copies, none when
      `length <= 0`. */
  function Repeat<T>(x: T, n: int): (r: seq<T>)
    ensures |r| == if n <= 0 then 0 else n
    ensures forall i :: 0 <= i < |r| ==> r[i] == x
    decreases n
  {
    if n <= 0 then [] else [x] + Repeat(x, n - 1)
  }

  /** `RepeatEnumerable.__iter__`: a counted loop yielding the element. */
  method EnumerateRepeat<T>(x: T, n: int) returns (r: seq<T>)
    ensures r == Repeat(x, n)
  {
    r := [];
    var i := 0;
    while i < n
      invariant 0 <= i && |r| == i
      invariant if n > 0 then i <= n else i == 0
      invariant forall j :: 0 <= j < |r| ==> r[j] == x
    {
      r := r + [x];
      i := i + 1;
    }
    assert |r| == |Repeat(x, n)|;
  }

  /** `Enumerable.range(start, length)`: `start, start + 1, ...`, `length` values. */
  function Range(start: int, n: int): (r: seq<int>)
    ensures |r| == if n <= 0 then 0 else n
    ensures forall i :: 0 <= i < |r| ==> r[i] == start + i
    decreases n
  {
    if n <= 0 then [] else [start] + Range(start + 1, n - 1)
  }

  /** `default_if_empty(value)`: `[value]` for an empty input, else the input. */
  function DefaultIfEmpty<T>(s: seq<T>, x: T): (r: seq<T>)
    ensures s == [] ==> r == [x]
    ensures s != [] ==> r == s
  {
    if |s| == 0 then [x] else s
  }
}
