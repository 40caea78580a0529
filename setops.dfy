/** The keyed set operators: `distinct`, `union`, `intersect` and `except_`.
    Keys are compared by value: two elements have "the same key" when their
    projections are equal. A Python dictionary, which iterates in insertion
    order, is modelled by a map together with the sequence of its keys in
    insertion order. */
module SetOps {
  import opened Operators

  /** The set of keys the elements of `s` project to. */
  function KeysOf<T, K>(s: seq<T>, k: T -> K): set<K>
  {
    set i | 0 <= i < |s| :: k(s[i])
  }

  lemma KeysOfSnoc<T, K>(a: seq<T>, x: T, k: T -> K)
    ensures KeysOf(a + [x], k) == KeysOf(a, k) + {k(x)}
  {
    var s := a + [x];
    forall kv | kv in KeysOf(s, k) ensures kv in KeysOf(a, k) + {k(x)} {
      var i :| 0 <= i < |s| && k(s[i]) == kv;
      if i < |a| {
        assert s[i] == a[i];
      }
    }
    forall kv | kv in KeysOf(a, k) ensures kv in KeysOf(s, k) {
      var i :| 0 <= i < |a| && k(a[i]) == kv;
      assert s[i] == a[i];
    }
    assert s[|a|] == x;
  }

  lemma KeysOfConcat<T, K>(a: seq<T>, b: seq<T>, k: T -> K)
    ensures KeysOf(a + b, k) == KeysOf(a, k) + KeysOf(b, k)
  {
    var s := a + b;
    forall kv | kv in KeysOf(s, k) ensures kv in KeysOf(a, k) + KeysOf(b, k) {
      var i :| 0 <= i < |s| && k(s[i]) == kv;
      if i < |a| {
        assert s[i] == a[i];
      } else {
        assert s[i] == b[i - |a|];
      }
    }
    forall kv | kv in KeysOf(a, k) ensures kv in KeysOf(s, k) {
      var i :| 0 <= i < |a| && k(a[i]) == kv;
      assert s[i] == a[i];
    }
    forall kv | kv in KeysOf(b, k) ensures kv in KeysOf(s, k) {
      var i :| 0 <= i < |b| && k(b[i]) == kv;
      assert s[|a| + i] == b[i];
    }
  }

  /** No two elements of `r` share a key. */
  predicate NoDupKeys<T, K(==)>(r: seq<T>, k: T -> K)
  {
    forall i, j :: 0 <= i < j < |r| ==> k(r[i]) != k(r[j])
  }

  /** The position of the first element of `s` whose key is `kv`. */
  function FirstIndex<T, K(==)>(s: seq<T>, k: T -> K, kv: K): (i: nat)
    requires kv in KeysOf(s, k)
    ensures i < |s| && k(s[i]) == kv
    ensures forall j :: 0 <= j < i ==> k(s[j]) != kv
  {
    if k(s[0]) == kv then 0
    else
      assert kv in KeysOf(s[1..], k) by {
        var j :| 0 <= j < |s| && k(s[j]) == kv;
        assert s[1..][j - 1] == s[j];
      }
      1 + FirstIndex(s[1..], k, kv)
  }

  /** The first occurrence of a key is not moved by appending elements. */
  lemma FirstIndexPrefix<T, K>(a: seq<T>, b: seq<T>, k: T -> K, kv: K)
    requires kv in KeysOf(a, k)
    ensures kv in KeysOf(a + b, k)
    ensures FirstIndex(a + b, k, kv) == FirstIndex(a, k, kv)
  {
    KeysOfConcat(a, b, k);
    var i0, i1 := FirstIndex(a, k, kv), FirstIndex(a + b, k, kv);
    assert (a + b)[i0] == a[i0];
  }

  /** The first occurrence of a key that shows up only in the appended element. */
  lemma FirstIndexNew<T, K>(a: seq<T>, x: T, k: T -> K)
    requires k(x) !in KeysOf(a, k)
    ensures k(x) in KeysOf(a + [x], k) && FirstIndex(a + [x], k, k(x)) == |a|
  {
    KeysOfSnoc(a, x, k);
    var i1 := FirstIndex(a + [x], k, k(x));
    assert forall i :: 0 <= i < |a| ==> (a + [x])[i] == a[i];
  }

  /** `distinct(key)`: the first element of every key, in first-seen key
      order. Defined by the loop of `DistinctEnumerable.__iter__`: an element
      is kept exactly when its key has not been seen before it. */
  function Distinct<T, K(==)>(s: seq<T>, k: T -> K): seq<T>
    decreases |s|
  {
    if s == [] then []
    else
      var a, x := s[..|s| - 1], s[|s| - 1];
      if k(x) in KeysOf(a, k) then Distinct(a, k) else Distinct(a, k) + [x]
  }

  lemma DistinctSnoc<T, K>(a: seq<T>, x: T, k: T -> K)
    ensures Distinct(a + [x], k) == if k(x) in KeysOf(a, k) then Distinct(a, k) else Distinct(a, k) + [x]
  {
    var s := a + [x];
    assert s[..|s| - 1] == a && s[|s| - 1] == x;
  }

  /** An element whose key is new keeps the keys distinct. */
  lemma NoDupKeysSnoc<T, K>(d: seq<T>, x: T, k: T -> K)
    requires NoDupKeys(d, k) && k(x) !in KeysOf(d, k)
    ensures NoDupKeys(d + [x], k)
  {
    var r := d + [x];
    forall i, j | 0 <= i < j < |r| ensures k(r[i]) != k(r[j]) {
      assert r[i] == d[i];
      if j == |d| {
        assert k(d[i]) in KeysOf(d, k);
      } else {
        assert r[j] == d[j];
      }
    }
  }

  /** `distinct(key)` keeps one element per key: no two of its elements share
      a key, it covers every key of the input, and it takes its elements from
      the input. */
  lemma {:induction false} DistinctSpec<T, K>(s: seq<T>, k: T -> K)
    ensures NoDupKeys(Distinct(s, k), k)
    ensures KeysOf(Distinct(s, k), k) == KeysOf(s, k)
    ensures |Distinct(s, k)| == |KeysOf(s, k)|
    ensures forall x :: x in Distinct(s, k) ==> x in s
    decreases |s|
  {
    if s != [] {
      var a, x := s[..|s| - 1], s[|s| - 1];
      assert s == a + [x];
      DistinctSpec(a, k);
      DistinctSnoc(a, x, k);
      KeysOfSnoc(a, x, k);
      var d := Distinct(a, k);
      if k(x) in KeysOf(a, k) {
        assert KeysOf(s, k) == KeysOf(a, k);
      } else {
        var r := d + [x];
        KeysOfSnoc(d, x, k);
        NoDupKeysSnoc(d, x, k);
        forall y | y in r ensures y in s {
          if y != x {
            assert y in d;
          }
        }
      }
    }
  }

  /** The keys of `distinct(key)`'s output, in order: the insertion order of
      the dictionary the source fills. */
  function DistinctKeys<T, K(==)>(s: seq<T>, k: T -> K): seq<K>
  {
    Select(Distinct(s, k), k)
  }

  /** The key order lists every key of the input exactly once. */
  lemma DistinctKeysSpec<T, K>(s: seq<T>, k: T -> K)
    ensures |DistinctKeys(s, k)| == |KeysOf(s, k)|
    ensures forall i, j :: 0 <= i < j < |DistinctKeys(s, k)| ==> DistinctKeys(s, k)[i] != DistinctKeys(s, k)[j]
    ensures forall kv :: kv in DistinctKeys(s, k) <==> kv in KeysOf(s, k)
  {
    DistinctSpec(s, k);
    var d := Distinct(s, k);
    var r := DistinctKeys(s, k);
    forall kv | kv in r ensures kv in KeysOf(d, k) {
      var i :| 0 <= i < |r| && r[i] == kv;
    }
    forall kv | kv in KeysOf(d, k) ensures kv in r {
      var i :| 0 <= i < |d| && k(d[i]) == kv;
      assert r[i] == kv;
    }
  }

  lemma DistinctKeysSnoc<T, K>(a: seq<T>, x: T, k: T -> K)
    ensures DistinctKeys(a + [x], k) ==
      if k(x) in KeysOf(a, k) then DistinctKeys(a, k) else DistinctKeys(a, k) + [k(x)]
  {
    DistinctSnoc(a, x, k);
    SelectConcat(Distinct(a, k), [x], k);
  }

  /** The dictionary `{key: first element with that key}` that the source
      fills while scanning `s` (`DistinctEnumerable.set`,
      `UnionEnumerable.union`): an entry is written only for an unseen key. */
  function FirstSeenMap<T, K(==)>(s: seq<T>, k: T -> K): map<K, T>
    decreases |s|
  {
    if s == [] then map[]
    else
      var a, x := s[..|s| - 1], s[|s| - 1];
      var m := FirstSeenMap(a, k);
      if k(x) in m then m else m[k(x) := x]
  }

  lemma FirstSeenMapSnoc<T, K>(a: seq<T>, x: T, k: T -> K)
    ensures FirstSeenMap(a + [x], k) ==
      if k(x) in FirstSeenMap(a, k) then FirstSeenMap(a, k) else FirstSeenMap(a, k)[k(x) := x]
  {
    var s := a + [x];
    assert s[..|s| - 1] == a && s[|s| - 1] == x;
  }

  /** The dictionary has an entry for exactly the keys of `s`, and each entry
      holds the first element of `s` with that key. */
  lemma {:induction false} FirstSeenMapSpec<T, K>(s: seq<T>, k: T -> K)
    ensures FirstSeenMap(s, k).Keys == KeysOf(s, k)
    ensures forall kv :: kv in FirstSeenMap(s, k) ==>
      kv in KeysOf(s, k) && FirstSeenMap(s, k)[kv] == s[FirstIndex(s, k, kv)]
    decreases |s|
  {
    if s != [] {
      var a, x := s[..|s| - 1], s[|s| - 1];
      assert s == a + [x];
      FirstSeenMapSpec(a, k);
      FirstSeenMapSnoc(a, x, k);
      KeysOfSnoc(a, x, k);
      var m := FirstSeenMap(s, k);
      forall kv | kv in m ensures kv in KeysOf(s, k) && m[kv] == s[FirstIndex(s, k, kv)] {
        if kv in KeysOf(a, k) {
          FirstIndexPrefix(a, [x], k, kv);
          assert s[FirstIndex(a, k, kv)] == a[FirstIndex(a, k, kv)];
        } else {
          FirstIndexNew(a, x, k);
        }
      }
    }
  }

  /** `distinct(key)` keeps, for every key, the first element seen with it. */
  lemma {:induction false} DistinctPicksFirst<T, K>(s: seq<T>, k: T -> K)
    ensures forall i :: 0 <= i < |Distinct(s, k)| ==>
      k(Distinct(s, k)[i]) in KeysOf(s, k) &&
      Distinct(s, k)[i] == s[FirstIndex(s, k, k(Distinct(s, k)[i]))]
    decreases |s|
  {
    var d := Distinct(s, k);
    if s != [] {
      var a, x := s[..|s| - 1], s[|s| - 1];
      assert s == a + [x];
      DistinctPicksFirst(a, k);
      DistinctSnoc(a, x, k);
      DistinctSpec(a, k);
      var da := Distinct(a, k);
      forall i | 0 <= i < |d|
        ensures k(d[i]) in KeysOf(s, k) && d[i] == s[FirstIndex(s, k, k(d[i]))]
      {
        if i < |da| {
          assert d[i] == da[i];
          var kv := k(da[i]);
          FirstIndexPrefix(a, [x], k, kv);
          assert s[FirstIndex(a, k, kv)] == a[FirstIndex(a, k, kv)];
        } else {
          FirstIndexNew(a, x, k);
        }
      }
    }
  }

  /** `distinct(key)` lists its elements in the order their keys were first
      seen. */
  lemma {:induction false} DistinctFirstSeenOrder<T, K>(s: seq<T>, k: T -> K)
    ensures forall i, j :: 0 <= i < j < |Distinct(s, k)| ==>
      k(Distinct(s, k)[i]) in KeysOf(s, k) && k(Distinct(s, k)[j]) in KeysOf(s, k) &&
      FirstIndex(s, k, k(Distinct(s, k)[i])) < FirstIndex(s, k, k(Distinct(s, k)[j]))
    decreases |s|
  {
    var d := Distinct(s, k);
    DistinctPicksFirst(s, k);
    if s != [] {
      var a, x := s[..|s| - 1], s[|s| - 1];
      assert s == a + [x];
      DistinctFirstSeenOrder(a, k);
      DistinctPicksFirst(a, k);
      DistinctSnoc(a, x, k);
      var da := Distinct(a, k);
      forall i, j | 0 <= i < j < |d|
        ensures FirstIndex(s, k, k(d[i])) < FirstIndex(s, k, k(d[j]))
      {
        assert d[i] == da[i];
        FirstIndexPrefix(a, [x], k, k(da[i]));
        if j < |da| {
          assert d[j] == da[j];
          FirstIndexPrefix(a, [x], k, k(da[j]));
        } else {
          FirstIndexNew(a, x, k);
        }
      }
    }
  }

  /** The key of every element is listed. */
  lemma DistinctKeysCover<T, K>(s: seq<T>, k: T -> K)
    ensures forall i :: 0 <= i < |s| ==> k(s[i]) in DistinctKeys(s, k)
  {
    DistinctSpec(s, k);
    var d := Distinct(s, k);
    forall i | 0 <= i < |s| ensures k(s[i]) in DistinctKeys(s, k) {
      assert k(s[i]) in KeysOf(d, k);
      var j :| 0 <= j < |d| && k(d[j]) == k(s[i]);
      assert DistinctKeys(s, k)[j] == k(d[j]);
    }
  }

  /** Every listed key is a key of `s`. */
  lemma DistinctKeysMember<T, K>(s: seq<T>, k: T -> K)
    ensures forall i :: 0 <= i < |DistinctKeys(s, k)| ==> DistinctKeys(s, k)[i] in KeysOf(s, k)
  {
    DistinctSpec(s, k);
    var d := Distinct(s, k);
    forall i | 0 <= i < |DistinctKeys(s, k)|
      ensures DistinctKeys(s, k)[i] in KeysOf(s, k)
    {
      assert DistinctKeys(s, k)[i] == k(d[i]);
    }
  }

  /** The key order is the order in which keys are first seen in `s`. */
  lemma DistinctKeysFirstSeen<T, K>(s: seq<T>, k: T -> K)
    ensures forall i :: 0 <= i < |DistinctKeys(s, k)| ==> DistinctKeys(s, k)[i] in KeysOf(s, k)
    ensures forall i, j :: 0 <= i < j < |DistinctKeys(s, k)| ==>
      FirstIndex(s, k, DistinctKeys(s, k)[i]) < FirstIndex(s, k, DistinctKeys(s, k)[j])
  {
    DistinctKeysMember(s, k);
    DistinctFirstSeenOrder(s, k);
    var d := Distinct(s, k);
    forall i, j | 0 <= i < j < |DistinctKeys(s, k)|
      ensures FirstIndex(s, k, DistinctKeys(s, k)[i]) < FirstIndex(s, k, DistinctKeys(s, k)[j])
    {
      assert DistinctKeys(s, k)[i] == k(d[i]) && DistinctKeys(s, k)[j] == k(d[j]);
    }
  }

  /** One step of the scan that fills the dictionary: an element whose key is
      not yet an entry adds that key, last, to the key order. */
  lemma ScanStep<T, K>(u: seq<T>, x: T, k: T -> K)
    ensures DistinctKeys(u + [x], k) ==
      if k(x) in FirstSeenMap(u, k) then DistinctKeys(u, k) else DistinctKeys(u, k) + [k(x)]
    ensures FirstSeenMap(u + [x], k) ==
      if k(x) in FirstSeenMap(u, k) then FirstSeenMap(u, k) else FirstSeenMap(u, k)[k(x) := x]
  {
    DistinctKeysSnoc(u, x, k);
    FirstSeenMapSnoc(u, x, k);
    FirstSeenMapSpec(u, k);
  }

  /** Reading the filled dictionary in key order gives `distinct`'s output. */
  lemma FirstSeenMapValues<T, K>(s: seq<T>, k: T -> K)
    ensures |DistinctKeys(s, k)| == |Distinct(s, k)|
    ensures forall i :: 0 <= i < |Distinct(s, k)| ==>
      DistinctKeys(s, k)[i] in FirstSeenMap(s, k) &&
      FirstSeenMap(s, k)[DistinctKeys(s, k)[i]] == Distinct(s, k)[i]
  {
    DistinctPicksFirst(s, k);
    FirstSeenMapSpec(s, k);
  }

  /** Scanning elements whose keys were all seen already changes neither the
      dictionary nor `distinct`'s output: iterating a second time repeats the
      first traversal. */
  lemma {:induction false} DistinctAbsorbs<T, K>(s: seq<T>, w: seq<T>, k: T -> K)
    requires KeysOf(w, k) <= KeysOf(s, k)
    ensures Distinct(s + w, k) == Distinct(s, k)
    ensures FirstSeenMap(s + w, k) == FirstSeenMap(s, k)
    decreases |w|
  {
    if w == [] {
      assert s + w == s;
    } else {
      var v, y := w[..|w| - 1], w[|w| - 1];
      assert w == v + [y];
      KeysOfSnoc(v, y, k);
      DistinctAbsorbs(s, v, k);
      assert s + w == (s + v) + [y];
      KeysOfConcat(s, v, k);
      FirstSeenMapSpec(s + v, k);
      DistinctSnoc(s + v, y, k);
      FirstSeenMapSnoc(s + v, y, k);
    }
  }

  /** `union(other, key)`: one element per key over `s` then `t`, in
      first-seen key order. */
  function Union<T, K(==)>(s: seq<T>, t: seq<T>, k: T -> K): seq<T>
  {
    Distinct(s + t, k)
  }

  /** `union` keeps one element per key, covers the keys of both sides and
      takes its elements from them. */
  lemma UnionSpec<T, K>(s: seq<T>, t: seq<T>, k: T -> K)
    ensures NoDupKeys(Union(s, t, k), k)
    ensures KeysOf(Union(s, t, k), k) == KeysOf(s, k) + KeysOf(t, k)
    ensures forall x :: x in Union(s, t, k) ==> x in s || x in t
  {
    DistinctSpec(s + t, k);
    KeysOfConcat(s, t, k);
  }

  /** The element `union` keeps for a key is `s`'s first element with that
      key when `s` has one, otherwise `t`'s. */
  lemma UnionPrefersSelf<T, K>(s: seq<T>, t: seq<T>, k: T -> K)
    ensures forall i :: 0 <= i < |Union(s, t, k)| ==>
      var x := Union(s, t, k)[i];
      (k(x) in KeysOf(s, k) ==> x == s[FirstIndex(s, k, k(x))]) &&
      (k(x) !in KeysOf(s, k) ==> k(x) in KeysOf(t, k) && x == t[FirstIndex(t, k, k(x))])
  {
    var u := s + t;
    var r := Union(s, t, k);
    DistinctPicksFirst(u, k);
    KeysOfConcat(s, t, k);
    forall i | 0 <= i < |r|
      ensures var x := r[i];
        (k(x) in KeysOf(s, k) ==> x == s[FirstIndex(s, k, k(x))]) &&
        (k(x) !in KeysOf(s, k) ==> k(x) in KeysOf(t, k) && x == t[FirstIndex(t, k, k(x))])
    {
      UnionElement(s, t, k, k(r[i]));
    }
  }

  /** The first element of `s + t` with key `kv`. */
  lemma UnionElement<T, K>(s: seq<T>, t: seq<T>, k: T -> K, kv: K)
    requires kv in KeysOf(s + t, k)
    ensures kv in KeysOf(s, k) ==> (s + t)[FirstIndex(s + t, k, kv)] == s[FirstIndex(s, k, kv)]
    ensures kv !in KeysOf(s, k) ==> kv in KeysOf(t, k) && (s + t)[FirstIndex(s + t, k, kv)] == t[FirstIndex(t, k, kv)]
  {
    var u := s + t;
    KeysOfConcat(s, t, k);
    if kv in KeysOf(s, k) {
      FirstIndexPrefix(s, t, k, kv);
      assert u[FirstIndex(s, k, kv)] == s[FirstIndex(s, k, kv)];
    } else {
      var j := FirstIndex(u, k, kv);
      var jt := FirstIndex(t, k, kv);
      assert u[|s| + jt] == t[jt];
      assert u[j] == t[j - |s|];
    }
  }

  /** The union is at least as long as the distinct keys of either side. */
  lemma UnionLength<T, K>(s: seq<T>, t: seq<T>, k: T -> K)
    ensures |Union(s, t, k)| == |KeysOf(s, k) + KeysOf(t, k)|
    ensures |Union(s, t, k)| >= |KeysOf(s, k)| && |Union(s, t, k)| >= |KeysOf(t, k)|
  {
    DistinctSpec(s + t, k);
    KeysOfConcat(s, t, k);
    SubsetCard(KeysOf(s, k), KeysOf(s, k) + KeysOf(t, k));
    SubsetCard(KeysOf(t, k), KeysOf(s, k) + KeysOf(t, k));
  }

  lemma SubsetCard<K>(a: set<K>, b: set<K>)
    requires a <= b
    ensures |a| <= |b|
  {
    assert b == a + (b - a);
  }

  /** The predicate "the key of `x` occurs among the keys of `t`". */
  function KeyIn<T, K(==)>(t: seq<T>, k: T -> K): T -> bool
  {
    x => k(x) in KeysOf(t, k)
  }

  /** The predicate "the key of `x` does not occur among the keys of `t`". */
  function KeyNotIn<T, K(==)>(t: seq<T>, k: T -> K): T -> bool
  {
    x => k(x) !in KeysOf(t, k)
  }

  /** `intersect(other, key)`: the elements of `s` whose key occurs in `t`,
      in `s`'s order. */
  function Intersect<T, K(==)>(s: seq<T>, t: seq<T>, k: T -> K): (r: seq<T>)
    ensures forall x :: x in r ==> x in s && k(x) in KeysOf(t, k)
  {
    Where(s, KeyIn(t, k))
  }

  /** `except_(other, key)`: the elements of `s` whose key does not occur in
      `t`, in `s`'s order. */
  function Except<T, K(==)>(s: seq<T>, t: seq<T>, k: T -> K): (r: seq<T>)
    ensures forall x :: x in r ==> x in s && k(x) !in KeysOf(t, k)
  {
    Where(s, KeyNotIn(t, k))
  }

  /** `intersect` and `except_` partition `s`: every element goes to exactly
      one of them with its full multiplicity, and no key is shared between
      the two outputs. */
  lemma IntersectExceptPartition<T, K>(s: seq<T>, t: seq<T>, k: T -> K)
    ensures multiset(Intersect(s, t, k)) + multiset(Except(s, t, k)) == multiset(s)
    ensures forall x :: multiset(Intersect(s, t, k))[x] == if k(x) in KeysOf(t, k) then multiset(s)[x] else 0
    ensures forall x, y :: x in Intersect(s, t, k) && y in Except(s, t, k) ==> k(x) != k(y)
  {
    WhereComplement(s, KeyIn(t, k), KeyNotIn(t, k));
    WhereMultiset(s, KeyIn(t, k));
  }

  /** The ordered dictionary behind `DistinctEnumerable`: `order` holds the
      keys in insertion order, `seen` maps each key to its element. */
  class DistinctEnumerable<T, K(==)> {
    const data: seq<T>
    const key: T -> K
    var order: seq<K>
    var seen: map<K, T>

    /** The dictionary is the one filled by scanning `u`. */
    ghost predicate Holds(u: seq<T>)
      reads this
    {
      order == DistinctKeys(u, key) && seen == FirstSeenMap(u, key)
    }

    /** Either nothing has been iterated yet, or the dictionary is full. */
    ghost predicate Valid()
      reads this
    {
      Holds([]) || Holds(data)
    }

    constructor (data: seq<T>, key: T -> K)
      ensures this.data == data && this.key == key
      ensures order == [] && seen == map[] && Valid()
    {
      this.data := data;
      this.key := key;
      order := [];
      seen := map[];
      new;
      assert Distinct([], key) == [];
    }

    /** The first loop of `__iter__`: record every unseen key. A dictionary
        that is already full is left as it is. */
    method Fill()
      requires Valid()
      modifies this
      ensures Holds(data)
    {
      ghost var pre := if Holds([]) then [] else data;
      var i := 0;
      assert pre + data[..i] == pre;
      while i < |data|
        invariant 0 <= i <= |data|
        invariant Holds(pre + data[..i])
      {
        var x := data[i];
        ghost var u := pre + data[..i];
        assert pre + data[..i + 1] == u + [x];
        ScanStep(u, x, key);
        if key(x) !in seen {
          seen := seen[key(x) := x];
          order := order + [key(x)];
        }
        i := i + 1;
      }
      assert data[..i] == data;
      if pre == data {
        DistinctAbsorbs(data, data, key);
      } else {
        assert pre + data == data;
      }
    }

    /** `__iter__`: fill the dictionary, then list its values in key order.
        A second traversal finds every key present and returns the same
        elements. */
    method Iterate() returns (r: seq<T>)
      requires Valid()
      modifies this
      ensures Holds(data) && Valid()
      ensures r == Distinct(data, key)
    {
      Fill();
      r := ValuesInOrder(order, seen, data, key);
    }
  }

  /** Reading a first-seen dictionary in insertion order. */
  method ValuesInOrder<T, K(==)>(order: seq<K>, m: map<K, T>, ghost u: seq<T>, k: T -> K) returns (r: seq<T>)
    requires order == DistinctKeys(u, k) && m == FirstSeenMap(u, k)
    ensures r == Distinct(u, k)
  {
    FirstSeenMapValues(u, k);
    ghost var d := Distinct(u, k);
    r := [];
    var j := 0;
    while j < |order|
      invariant 0 <= j <= |order| == |d|
      invariant r == d[..j]
    {
      assert m[order[j]] == d[j];
      assert d[..j + 1] == d[..j] + [d[j]];
      r := r + [m[order[j]]];
      j := j + 1;
    }
    assert d[..j] == d;
  }

  /** `distinct(key)` followed by a traversal. */
  method DistinctOf<T, K(==)>(s: seq<T>, k: T -> K) returns (r: seq<T>)
    ensures r == Distinct(s, k)
  {
    var d := new DistinctEnumerable(s, k);
    r := d.Iterate();
  }

  /** The ordered dictionary behind `UnionEnumerable`, filled at
      construction from `data` followed by `other`. */
  class UnionEnumerable<T, K(==)> {
    const data: seq<T>
    const other: seq<T>
    const key: T -> K
    var order: seq<K>
    var union: map<K, T>

    ghost predicate Loaded()
      reads this
    {
      order == DistinctKeys(data + other, key) && union == FirstSeenMap(data + other, key)
    }

    constructor (data: seq<T>, other: seq<T>, key: T -> K)
      ensures this.data == data && this.other == other && this.key == key
      ensures Loaded()
    {
      this.data := data;
      this.other := other;
      this.key := key;
      order := [];
      union := map[];
      new;
      LoadData();
    }

    /** `_load_data`: record the first element of every key of
        `data.concat(other)`. */
    method LoadData()
      requires order == [] && union == map[]
      modifies this
      ensures Loaded()
    {
      var all := data + other;
      assert Distinct(all[..0], key) == [];
      var i := 0;
      while i < |all|
        invariant 0 <= i <= |all|
        invariant order == DistinctKeys(all[..i], key) && union == FirstSeenMap(all[..i], key)
      {
        var x := all[i];
        assert all[..i + 1] == all[..i] + [x];
        ScanStep(all[..i], x, key);
        if key(x) !in union {
          union := union[key(x) := x];
          order := order + [key(x)];
        }
        i := i + 1;
      }
      assert all[..i] == all;
    }

    /** `__iter__`: the dictionary's values in key order. */
    method Iterate() returns (r: seq<T>)
      requires Loaded()
      ensures r == Union(data, other, key)
    {
      r := ValuesInOrder(order, union, data + other, key);
    }
  }
}
