/** `group_by`: the key record of a group, the groups in first-seen key order,
    and `GroupedEnumerable`, which fills a key-to-group dictionary in place. */
module Groups {
  import opened Wrappers
  import opened Operators
  import opened SetOps

  /** What a key selector returns: one value, or a tuple/list of values whose
      positions line up with the key names. */
  datatype KeyValue<V> = Scalar(v: V) | Parts(parts: seq<V>)

  /** `_can_enumerate`: the key value has a length and that length is not 0. */
  predicate CanEnumerate<V>(kv: KeyValue<V>)
  {
    kv.Parts? && |kv.parts| > 0
  }

  /** A `Grouping`: its `Key` record (field name to value) and its data. */
  datatype Grouping<K, T> = Grouping(key: map<string, K>, elements: seq<T>)

  /** The value recorded under the key name at position `i`: component `i` of
      an enumerable key value, otherwise the whole key value. */
  function Component<V>(kv: KeyValue<V>, i: nat): KeyValue<V>
    requires CanEnumerate(kv) ==> i < |kv.parts|
  {
    if CanEnumerate(kv) then Scalar(kv.parts[i]) else kv
  }

  /** The key record built when a key is first seen: each name in turn is
      given its component, a later name overwriting an equal earlier one. */
  function KeyRecord<V>(names: seq<string>, kv: KeyValue<V>): Result<map<string, KeyValue<V>>>
  {
    if names == [] then Success(map[])
    else
      var i := |names| - 1;
      match KeyRecord(names[..i], kv)
      case Failure(e) => Failure(e)
      case Success(m) =>
        if CanEnumerate(kv) && i >= |kv.parts| then Failure(IndexOutOfRange)
        else Success(m[names[i] := Component(kv, i)])
  }

  /** No later key name repeats the one at position `i`. */
  predicate LastOccurrence(names: seq<string>, i: int)
    requires 0 <= i < |names|
  {
    forall j :: i < j < |names| ==> names[j] != names[i]
  }

  /** Building a key record fails, with `IndexError`, exactly when an
      enumerable key value has fewer components than there are names. */
  lemma {:induction false} KeyRecordFails<V>(names: seq<string>, kv: KeyValue<V>)
    ensures KeyRecord(names, kv).Success? <==> (CanEnumerate(kv) ==> |names| <= |kv.parts|)
    ensures KeyRecord(names, kv).Failure? ==> KeyRecord(names, kv).error == IndexOutOfRange
  {
    if names != [] {
      KeyRecordFails(names[..|names| - 1], kv);
    }
  }

  /** A built key record has exactly the given names as fields. */
  lemma {:induction false} KeyRecordFields<V>(names: seq<string>, kv: KeyValue<V>)
    requires KeyRecord(names, kv).Success?
    ensures forall i :: 0 <= i < |names| ==> names[i] in KeyRecord(names, kv).value
    ensures forall n :: n in KeyRecord(names, kv).value ==> n in names
  {
    if names != [] {
      var i := |names| - 1;
      var a := names[..i];
      KeyRecordFields(a, kv);
      var r := KeyRecord(names, kv).value;
      assert r == KeyRecord(a, kv).value[names[i] := Component(kv, i)];
      forall n | n in r ensures n in names {
        if n != names[i] {
          var j :| 0 <= j < |a| && a[j] == n;
          assert names[j] == n;
        }
      }
      forall j | 0 <= j < |names| ensures names[j] in r {
        if j < i {
          assert names[j] == a[j];
        }
      }
    }
  }

  /** In a built key record, each name holds the component at the position
      where that name last occurs. */
  lemma {:induction false} KeyRecordValues<V>(names: seq<string>, kv: KeyValue<V>)
    requires KeyRecord(names, kv).Success?
    ensures forall i :: 0 <= i < |names| && LastOccurrence(names, i) ==>
      names[i] in KeyRecord(names, kv).value && KeyRecord(names, kv).value[names[i]] == Component(kv, i)
  {
    if names != [] {
      var i := |names| - 1;
      var a := names[..i];
      KeyRecordValues(a, kv);
      KeyRecordFails(names, kv);
      var r := KeyRecord(names, kv).value;
      assert r == KeyRecord(a, kv).value[names[i] := Component(kv, i)];
      forall j | 0 <= j < |names| && LastOccurrence(names, j)
        ensures names[j] in r && r[names[j]] == Component(kv, j)
      {
        if j < i {
          assert LastOccurrence(a, j);
          assert names[j] == a[j];
        }
      }
    }
  }

  /** The inner loop of `_load_data`: the key record of a new key, raising
      `IndexError` at the first name with no component. */
  method BuildKey<V>(names: seq<string>, kv: KeyValue<V>) returns (r: Result<map<string, KeyValue<V>>>)
    ensures r == KeyRecord(names, kv)
  {
    var m: map<string, KeyValue<V>> := map[];
    var i := 0;
    while i < |names|
      invariant 0 <= i <= |names|
      invariant KeyRecord(names[..i], kv) == Success(m)
    {
      assert names[..i + 1][..i] == names[..i];
      if CanEnumerate(kv) && i >= |kv.parts| {
        KeyRecordFails(names, kv);
        return Failure(IndexOutOfRange);
      }
      m := m[names[i] := Component(kv, i)];
      i := i + 1;
    }
    assert names[..i] == names;
    r := Success(m);
  }

  /** One group per key of `ks`, each with that key's record and the elements
      of `s` having that key, in input order; the first key whose record
      cannot be built makes the whole result fail. */
  function GroupsOf<T, V(==)>(ks: seq<KeyValue<V>>, s: seq<T>, k: T -> KeyValue<V>, names: seq<string>)
    : Result<seq<Grouping<KeyValue<V>, T>>>
  {
    if ks == [] then Success([])
    else
      var n := |ks| - 1;
      match GroupsOf(ks[..n], s, k, names)
      case Failure(e) => Failure(e)
      case Success(gs) =>
        match KeyRecord(names, ks[n])
        case Failure(e) => Failure(e)
        case Success(m) => Success(gs + [Grouping(m, Matching(s, k, ks[n]))])
  }

  /** `group_by(key_names, key)` before `result_func`: the groups of `s`, one
      per distinct key, in first-seen key order. */
  function Groups<T, V(==)>(s: seq<T>, k: T -> KeyValue<V>, names: seq<string>)
    : Result<seq<Grouping<KeyValue<V>, T>>>
  {
    GroupsOf(DistinctKeys(s, k), s, k, names)
  }

  /** `group_by(key_names, key, result_func)`. */
  function GroupBy<T, V(==), R>(s: seq<T>, k: T -> KeyValue<V>, names: seq<string>, f: Grouping<KeyValue<V>, T> -> R)
    : Result<seq<R>>
  {
    match Groups(s, k, names)
    case Failure(e) => Failure(e)
    case Success(gs) => Success(Select(gs, f))
  }

  /** The concatenation of the groups' elements, in group order. */
  function Flatten<K, T>(gs: seq<Grouping<K, T>>): seq<T>
  {
    if gs == [] then [] else gs[0].elements + Flatten(gs[1..])
  }

  /** Grouping succeeds exactly when every key's record can be built; the
      i-th group then carries the i-th key's record and its elements. */
  lemma {:induction false} GroupsOfSpec<T, V>(ks: seq<KeyValue<V>>, s: seq<T>, k: T -> KeyValue<V>, names: seq<string>)
    ensures GroupsOf(ks, s, k, names).Success? <==>
      forall i :: 0 <= i < |ks| ==> KeyRecord(names, ks[i]).Success?
    ensures GroupsOf(ks, s, k, names).Failure? ==> GroupsOf(ks, s, k, names).error == IndexOutOfRange
    ensures GroupsOf(ks, s, k, names).Success? ==>
      |GroupsOf(ks, s, k, names).value| == |ks| &&
      forall i :: 0 <= i < |ks| ==>
        GroupsOf(ks, s, k, names).value[i] == Grouping(KeyRecord(names, ks[i]).value, Matching(s, k, ks[i]))
  {
    if ks != [] {
      var n := |ks| - 1;
      GroupsOfSpec(ks[..n], s, k, names);
      KeyRecordFails(names, ks[n]);
      assert forall i :: 0 <= i < n ==> ks[..n][i] == ks[i];
    }
  }

  /** A key that no element has matches nothing. */
  lemma {:induction false} MatchingAbsent<T, K>(s: seq<T>, k: T -> K, kv: K)
    requires kv !in KeysOf(s, k)
    ensures Matching(s, k, kv) == []
  {
    if s != [] {
      var y, tail := s[0], s[1..];
      assert s == [y] + tail;
      KeysOfConcat([y], tail, k);
      assert k(y) in KeysOf([y], k);
      MatchingAbsent(tail, k, kv);
      WhereCons(y, tail, KeyIs(k, kv));
    }
  }

  /** A key that some element has matches a non-empty run of elements, led by
      the first element with that key. */
  lemma {:induction false} MatchingHead<T, K>(s: seq<T>, k: T -> K, kv: K)
    requires kv in KeysOf(s, k)
    ensures Matching(s, k, kv) != []
    ensures Matching(s, k, kv)[0] == s[FirstIndex(s, k, kv)]
  {
    var y, tail := s[0], s[1..];
    assert s == [y] + tail;
    WhereCons(y, tail, KeyIs(k, kv));
    if k(y) != kv {
      assert kv in KeysOf(tail, k) by {
        var j :| 0 <= j < |s| && k(s[j]) == kv;
        assert tail[j - 1] == s[j];
      }
      MatchingHead(tail, k, kv);
    }
  }

  /** Grouping succeeds exactly when the key record of every element's key
      can be built; when it fails it fails with `IndexError`. */
  lemma GroupsSucceed<T, V>(s: seq<T>, k: T -> KeyValue<V>, names: seq<string>)
    ensures Groups(s, k, names).Success? <==>
      forall i :: 0 <= i < |s| ==> KeyRecord(names, k(s[i])).Success?
    ensures Groups(s, k, names).Failure? ==> Groups(s, k, names).error == IndexOutOfRange
  {
    var ks := DistinctKeys(s, k);
    GroupsOfSpec(ks, s, k, names);
    DistinctKeysCover(s, k);
    DistinctKeysMember(s, k);
    if Groups(s, k, names).Success? {
      forall i | 0 <= i < |s| ensures KeyRecord(names, k(s[i])).Success? {
        assert k(s[i]) in ks;
        var j :| 0 <= j < |ks| && ks[j] == k(s[i]);
      }
    }
    if forall i :: 0 <= i < |s| ==> KeyRecord(names, k(s[i])).Success? {
      forall j | 0 <= j < |ks| ensures KeyRecord(names, ks[j]).Success? {
        var i :| 0 <= i < |s| && k(s[i]) == ks[j];
      }
    }
  }

  /** There is one group per distinct key, in first-seen key order: the i-th
      group holds exactly the elements with the i-th distinct key, in input
      order, and carries that key's record. */
  lemma GroupsSpec<T, V>(s: seq<T>, k: T -> KeyValue<V>, names: seq<string>)
    requires Groups(s, k, names).Success?
    ensures |Groups(s, k, names).value| == |DistinctKeys(s, k)| == |KeysOf(s, k)|
    ensures forall i :: 0 <= i < |DistinctKeys(s, k)| ==>
      Success(Groups(s, k, names).value[i].key) == KeyRecord(names, DistinctKeys(s, k)[i]) &&
      Groups(s, k, names).value[i].elements == Matching(s, k, DistinctKeys(s, k)[i])
  {
    GroupsOfSpec(DistinctKeys(s, k), s, k, names);
    DistinctKeysSpec(s, k);
  }

  /** An element of the input is in a group exactly when its key is that
      group's key, so it lands in exactly one group; no group is empty. */
  lemma GroupsMembership<T, V>(s: seq<T>, k: T -> KeyValue<V>, names: seq<string>)
    requires Groups(s, k, names).Success?
    ensures |Groups(s, k, names).value| == |DistinctKeys(s, k)|
    ensures forall i, x :: 0 <= i < |Groups(s, k, names).value| && x in s ==>
      (x in Groups(s, k, names).value[i].elements <==> k(x) == DistinctKeys(s, k)[i])
    ensures forall i :: 0 <= i < |Groups(s, k, names).value| ==> Groups(s, k, names).value[i].elements != []
  {
    GroupsSpec(s, k, names);
    DistinctKeysFirstSeen(s, k);
    var gs, ks := Groups(s, k, names).value, DistinctKeys(s, k);
    forall i, x | 0 <= i < |gs| && x in s && k(x) == ks[i]
      ensures x in gs[i].elements
    {
      WhereMultiset(s, KeyIs(k, ks[i]));
      assert multiset(gs[i].elements)[x] == multiset(s)[x];
    }
    forall i | 0 <= i < |gs| ensures gs[i].elements != [] {
      MatchingHead(s, k, ks[i]);
    }
  }

  /** The leading elements of the groups, in group order, are exactly what
      `distinct(key)` returns: each group starts with the element that
      introduced its key, and groups follow first-seen key order. */
  lemma GroupsLeaders<T, V>(s: seq<T>, k: T -> KeyValue<V>, names: seq<string>)
    requires Groups(s, k, names).Success?
    ensures |Groups(s, k, names).value| == |Distinct(s, k)|
    ensures forall i :: 0 <= i < |Groups(s, k, names).value| ==>
      Groups(s, k, names).value[i].elements != [] &&
      Groups(s, k, names).value[i].elements[0] == Distinct(s, k)[i]
  {
    GroupsSpec(s, k, names);
    DistinctKeysFirstSeen(s, k);
    DistinctPicksFirst(s, k);
    var gs, ks, d := Groups(s, k, names).value, DistinctKeys(s, k), Distinct(s, k);
    forall i | 0 <= i < |gs| ensures gs[i].elements != [] && gs[i].elements[0] == d[i] {
      assert ks[i] == k(d[i]);
      MatchingHead(s, k, ks[i]);
    }
  }

  /** The predicate "the key of `x` is one of `ks`". */
  function KeyAmong<T, K(==)>(ks: seq<K>, k: T -> K): T -> bool
  {
    x => k(x) in ks
  }

  /** The bucket of a key: the elements of `s` with that key. */
  function BucketOf<T, K(==)>(s: seq<T>, k: T -> K): K -> seq<T>
  {
    kv => Matching(s, k, kv)
  }

  /** The elements of a group. */
  function ElementsOf<K, T>(): Grouping<K, T> -> seq<T>
  {
    (g: Grouping<K, T>) => g.elements
  }

  /** The buckets of pairwise different keys together hold every element
      whose key is one of them, each exactly once. */
  lemma {:induction false} BucketsPartition<T, K>(ks: seq<K>, s: seq<T>, k: T -> K)
    requires forall i, j :: 0 <= i < j < |ks| ==> ks[i] != ks[j]
    ensures multiset(SelectMany(ks, BucketOf(s, k))) == multiset(Where(s, KeyAmong(ks, k)))
  {
    var f := BucketOf(s, k);
    if ks == [] {
      WhereMultiset(s, KeyAmong(ks, k));
      assert multiset(Where(s, KeyAmong(ks, k))) == multiset{};
    } else {
      var kv, rest := ks[0], ks[1..];
      BucketsPartition(rest, s, k);
      assert kv !in rest;
      assert SelectMany(ks, f) == f(kv) + SelectMany(rest, f);
      WhereDisjoint(s, KeyIs(k, kv), KeyAmong(rest, k), KeyAmong(ks, k));
    }
  }

  /** Concatenating sequences element-wise equal under two projections. */
  lemma {:induction false} SelectManyPointwise<A, B, U>(a: seq<A>, b: seq<B>, f: A -> seq<U>, g: B -> seq<U>)
    requires |a| == |b|
    requires forall i :: 0 <= i < |a| ==> f(a[i]) == g(b[i])
    ensures SelectMany(a, f) == SelectMany(b, g)
  {
    if a != [] {
      SelectManyPointwise(a[1..], b[1..], f, g);
    }
  }

  /** The groups' elements, concatenated, are a permutation of the input:
      every element lands in exactly one group. */
  lemma GroupsPartition<T, V>(s: seq<T>, k: T -> KeyValue<V>, names: seq<string>)
    requires Groups(s, k, names).Success?
    ensures multiset(Flatten(Groups(s, k, names).value)) == multiset(s)
  {
    var gs, ks := Groups(s, k, names).value, DistinctKeys(s, k);
    GroupsSpec(s, k, names);
    DistinctKeysSpec(s, k);
    FlattenIsSelectMany(gs);
    SelectManyPointwise(gs, ks, ElementsOf(), BucketOf(s, k));
    BucketsPartition(ks, s, k);
    DistinctKeysCover(s, k);
    WhereKeepsAll(s, KeyAmong(ks, k));
  }

  /** `Flatten` is `select_many` of the elements. */
  lemma {:induction false} FlattenIsSelectMany<K, T>(gs: seq<Grouping<K, T>>)
    ensures Flatten(gs) == SelectMany(gs, ElementsOf())
  {
    if gs != [] {
      FlattenIsSelectMany(gs[1..]);
    }
  }

  /** The dictionary maps `kv` to its key record and to the elements of `u`
      with key `kv`. */
  ghost predicate GroupOf<T, V>(grouping: map<KeyValue<V>, Grouping<KeyValue<V>, T>>, kv: KeyValue<V>,
                                u: seq<T>, k: T -> KeyValue<V>, names: seq<string>)
  {
    kv in grouping && KeyRecord(names, kv).Success? &&
    grouping[kv] == Grouping(KeyRecord(names, kv).value, Matching(u, k, kv))
  }

  /** The dictionary state after `_load_data` has scanned `u` without error:
      the key order is the first-seen key order and each key maps to its
      record and to the elements of `u` with that key. */
  ghost predicate Loaded<T, V>(order: seq<KeyValue<V>>, grouping: map<KeyValue<V>, Grouping<KeyValue<V>, T>>,
                               u: seq<T>, k: T -> KeyValue<V>, names: seq<string>)
  {
    order == DistinctKeys(u, k) &&
    grouping.Keys == KeysOf(u, k) &&
    forall i :: 0 <= i < |order| ==> GroupOf(grouping, order[i], u, k, names)
  }

  /** A new key gets a fresh group holding just the element. */
  lemma LoadNew<T, V>(order: seq<KeyValue<V>>, grouping: map<KeyValue<V>, Grouping<KeyValue<V>, T>>,
                      u: seq<T>, x: T, k: T -> KeyValue<V>, names: seq<string>)
    requires Loaded(order, grouping, u, k, names)
    requires k(x) !in grouping && KeyRecord(names, k(x)).Success?
    ensures Loaded(order + [k(x)], grouping[k(x) := Grouping(KeyRecord(names, k(x)).value, [x])], u + [x], k, names)
  {
    DistinctKeysSnoc(u, x, k);
    KeysOfSnoc(u, x, k);
    LoadNewGroups(order, grouping, u, x, k, names);
  }

  lemma LoadNewGroups<T, V>(order: seq<KeyValue<V>>, grouping: map<KeyValue<V>, Grouping<KeyValue<V>, T>>,
                            u: seq<T>, x: T, k: T -> KeyValue<V>, names: seq<string>)
    requires forall i :: 0 <= i < |order| ==> GroupOf(grouping, order[i], u, k, names)
    requires order == DistinctKeys(u, k) && grouping.Keys == KeysOf(u, k)
    requires k(x) !in grouping && KeyRecord(names, k(x)).Success?
    ensures forall i :: 0 <= i < |order| + 1 ==>
      GroupOf(grouping[k(x) := Grouping(KeyRecord(names, k(x)).value, [x])], (order + [k(x)])[i], u + [x], k, names)
  {
    DistinctKeysMember(u, k);
    MatchingAbsent(u, k, k(x));
    var g := grouping[k(x) := Grouping(KeyRecord(names, k(x)).value, [x])];
    var o := order + [k(x)];
    forall i | 0 <= i < |o| ensures GroupOf(g, o[i], u + [x], k, names) {
      MatchingSnoc(u, x, k, o[i]);
      if i < |order| {
        assert o[i] == order[i] && order[i] in KeysOf(u, k);
        assert GroupOf(grouping, order[i], u, k, names);
      }
    }
  }

  /** A key seen before gets the element appended to its group. */
  lemma LoadOld<T, V>(order: seq<KeyValue<V>>, grouping: map<KeyValue<V>, Grouping<KeyValue<V>, T>>,
                      u: seq<T>, x: T, k: T -> KeyValue<V>, names: seq<string>)
    requires Loaded(order, grouping, u, k, names)
    requires k(x) in grouping
    ensures Loaded(order, grouping[k(x) := Grouping(grouping[k(x)].key, grouping[k(x)].elements + [x])],
                   u + [x], k, names)
  {
    DistinctKeysSnoc(u, x, k);
    KeysOfSnoc(u, x, k);
    LoadOldGroups(order, grouping, u, x, k, names);
  }

  lemma LoadOldGroups<T, V>(order: seq<KeyValue<V>>, grouping: map<KeyValue<V>, Grouping<KeyValue<V>, T>>,
                            u: seq<T>, x: T, k: T -> KeyValue<V>, names: seq<string>)
    requires forall i :: 0 <= i < |order| ==> GroupOf(grouping, order[i], u, k, names)
    requires order == DistinctKeys(u, k) && grouping.Keys == KeysOf(u, k)
    requires k(x) in grouping
    ensures forall i :: 0 <= i < |order| ==>
      GroupOf(grouping[k(x) := Grouping(grouping[k(x)].key, grouping[k(x)].elements + [x])], order[i], u + [x], k, names)
  {
    DistinctKeysSpec(u, k);
    var g := grouping[k(x) := Grouping(grouping[k(x)].key, grouping[k(x)].elements + [x])];
    var j :| 0 <= j < |order| && order[j] == k(x);
    assert GroupOf(grouping, order[j], u, k, names);
    forall i | 0 <= i < |order| ensures GroupOf(g, order[i], u + [x], k, names) {
      MatchingSnoc(u, x, k, order[i]);
      assert GroupOf(grouping, order[i], u, k, names);
    }
  }

  /** A fully loaded dictionary, read in key order, is the grouping. */
  lemma LoadedGroups<T, V>(order: seq<KeyValue<V>>, grouping: map<KeyValue<V>, Grouping<KeyValue<V>, T>>,
                           s: seq<T>, k: T -> KeyValue<V>, names: seq<string>)
    requires Loaded(order, grouping, s, k, names)
    ensures Groups(s, k, names).Success?
    ensures |Groups(s, k, names).value| == |order|
    ensures forall i :: 0 <= i < |order| ==>
      order[i] in grouping && grouping[order[i]] == Groups(s, k, names).value[i]
  {
    GroupsSucceed(s, k, names);
    DistinctKeysSpec(s, k);
    forall i | 0 <= i < |s| ensures KeyRecord(names, k(s[i])).Success? {
      assert k(s[i]) in KeysOf(s, k);
      var j :| 0 <= j < |order| && order[j] == k(s[i]);
      assert GroupOf(grouping, order[j], s, k, names);
    }
    GroupsSpec(s, k, names);
    forall i | 0 <= i < |order| ensures order[i] in grouping && grouping[order[i]] == Groups(s, k, names).value[i] {
      assert GroupOf(grouping, order[i], s, k, names);
    }
  }

  /** `GroupedEnumerable`: the input, the key selector, the key names, the
      result function, and the dictionary from key to group with its key
      insertion order. */
  class GroupedEnumerable<T, V(==), R> {
    const data: seq<T>
    const key: T -> KeyValue<V>
    const keyNames: seq<string>
    const func: Grouping<KeyValue<V>, T> -> R
    var order: seq<KeyValue<V>>
    var grouping: map<KeyValue<V>, Grouping<KeyValue<V>, T>>
    var error: Option<Error>

    /** Either construction raised, or the dictionary holds the grouping. */
    ghost predicate Valid()
      reads this
    {
      (error.None? <==> Groups(data, key, keyNames).Success?) &&
      (error.Some? ==> error.value == IndexOutOfRange) &&
      (error.None? ==> Loaded(order, grouping, data, key, keyNames))
    }

    /** `__init__`, which fills the dictionary at once; `error` is the
        exception it raises, if any. */
    constructor (data: seq<T>, key: T -> KeyValue<V>, keyNames: seq<string>, func: Grouping<KeyValue<V>, T> -> R)
      ensures this.data == data && this.key == key && this.keyNames == keyNames && this.func == func
      ensures Valid()
    {
      this.data := data;
      this.key := key;
      this.keyNames := keyNames;
      this.func := func;
      order := [];
      grouping := map[];
      error := None;
      new;
      LoadData();
    }

    /** `_load_data`: one pass over the data; an unseen key gets a new group
        with a freshly built key record, a seen key gets the element appended
        to its group. */
    method LoadData()
      requires order == [] && grouping == map[]
      modifies this
      ensures Valid()
    {
      var i := 0;
      assert data[..0] == [];
      while i < |data|
        invariant 0 <= i <= |data|
        invariant Loaded(order, grouping, data[..i], key, keyNames)
      {
        var x := data[i];
        var kv := key(x);
        assert data[..i + 1] == data[..i] + [x];
        if kv !in grouping {
          var rec := BuildKey(keyNames, kv);
          if rec.Failure? {
            GroupsSucceed(data, key, keyNames);
            KeyRecordFails(keyNames, kv);
            error := Some(rec.error);
            return;
          }
          LoadNew(order, grouping, data[..i], x, key, keyNames);
          grouping := grouping[kv := Grouping(rec.value, [x])];
          order := order + [kv];
        } else {
          LoadOld(order, grouping, data[..i], x, key, keyNames);
          var g := grouping[kv];
          grouping := grouping[kv := Grouping(g.key, g.elements + [x])];
        }
        i := i + 1;
      }
      assert data[..i] == data;
      LoadedGroups(order, grouping, data, key, keyNames);
      error := None;
    }

    /** `__iter__`: the result function applied to each group, in key
        insertion order. */
    method Iterate() returns (r: seq<R>)
      requires Valid() && error.None?
      ensures Groups(data, key, keyNames).Success?
      ensures r == Select(Groups(data, key, keyNames).value, func)
    {
      LoadedGroups(order, grouping, data, key, keyNames);
      ghost var gs := Groups(data, key, keyNames).value;
      r := [];
      var j := 0;
      while j < |order|
        invariant 0 <= j <= |order|
        invariant |r| == j
        invariant forall i :: 0 <= i < j ==> r[i] == func(gs[i])
      {
        r := r + [func(grouping[order[j]])];
        j := j + 1;
      }
    }

    /** `__len__`: the number of groups, which is the number of distinct keys. */
    function Size(): (n: nat)
      requires Valid() && error.None?
      reads this
      ensures n == |KeysOf(data, key)|
    {
      |grouping|
    }
  }

  /** `group_by(key_names, key, result_func)` traversed once: an error at
      construction, or the projected groups. */
  method EnumerateGroupBy<T, V(==), R>(s: seq<T>, k: T -> KeyValue<V>, names: seq<string>,
                                       f: Grouping<KeyValue<V>, T> -> R) returns (r: Result<seq<R>>)
    ensures r == GroupBy(s, k, names, f)
  {
    var e := new GroupedEnumerable(s, k, names, f);
    GroupsSucceed(s, k, names);
    if e.error.Some? {
      r := Failure(e.error.value);
    } else {
      var rs := e.Iterate();
      r := Success(rs);
    }
  }
}
