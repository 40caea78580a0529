# py_linq in Dafny

A model of `py_linq`, a LINQ-style query library for Python, and proofs about it. The library's
`Enumerable` wraps a finite collection. Its operators build new `Enumerable` nodes:

- projection and filtering: `select`, `where`, `select_many`;
- slicing: `skip`, `take`, `skip_while`, `take_while`;
- reshaping: `reverse`, `concat`, `zip`, `repeat`;
- keyed set operations: `distinct`, `union`, `intersect`, `except_`;
- grouping: `group_by`;
- joins: `join`, `group_join`;
- sorting: `order_by` and `then_by` chains.

Its terminal operations consume a node into a value or an error: `count`, `sum`, `min`, `max`,
`median`, `aggregate`, `element_at`, `first`, `last`, `single`, `any`, `all` and `contains`.

The model has two layers.

- **Specification layer.** Each operator is a pure function over the node's finite backing
  sequence, with the caller's lambdas as function parameters:
  - `Operators`: stateless operators;
  - `SetOps`: keyed set operators;
  - `Groups`: `group_by`;
  - `Joins`: `join` and `group_join`;
  - `Ordering`: sorting;
  - `Terminals`: terminal operations.
- **Implementation layer.** Where the library builds state step by step, the model does too, and
  each method is proved equal to its specification function. The stateful parts are:
  - the first-seen dictionaries of `DistinctEnumerable` and `UnionEnumerable`, as Dafny classes;
  - the key→group dictionary of `GroupedEnumerable`, as a Dafny class;
  - the repeated stable sorts of `SortedEnumerable`, as a Dafny class;
  - the nested counted loop of `JoinEnumerable`;
  - the fold loop of `aggregate`;
  - the counted loops of `zip` and `repeat`.

Modelling conventions:

- **Keys** are compared by value: key types are Dafny equality types. The library compares
  keys in three ways:
  - `union` and `group_by` compare `hash(json.dumps(key))`;
  - `distinct` uses the raw key as a dictionary key, so Python's hashing and `==` decide;
  - `intersect`, `except_`, `join` and `group_join` compare keys with `==`.
- **Errors** are a `Result`, one error kind per exception the library raises:
  - `IndexError` → `IndexOutOfRange`;
  - `NoElementsError` → `EmptySequence`;
  - `NoMatchingElement` → `NoMatchingElement`;
  - `MoreThanOneMatchingElement` → `MoreThanOneMatchingElement`.
- **`None` used as "no element"** is `Option`.
- **Sort keys** are integers.
- **Group-by keys** are a `KeyValue`: a scalar, or a tuple or list of parts.

Where the library's own documentation and its code disagree, the model follows the code:

- `first()` on an empty node raises `IndexError` (it goes through `element_at(0)`), so `First`
  fails with `IndexOutOfRange`, not with a "no elements" error.
- `aggregate` without a seed on an empty node also raises `IndexError` (through `first()`).
- The same holds for `last()`, which is `reverse().first()`.

## Model

| member | source | states |
|---|---|---|
| Operators.Clamp | py_linq/py_linq.py:686-689 | the number of leading positions `take(n)` keeps and `skip(n)` drops: 0 for n ≤ 0, n inside the length, the length beyond it |
| Operators.Select | py_linq/py_linq.py:625-627 | `select(func)` has the input's length and `func(s[i])` at every position i |
| Operators.SelectIdentity | py_linq/py_linq.py:99 | `select` with the default identity lambda gives the input back |
| Operators.SelectConcat | py_linq/py_linq.py:625-627 | projection distributes over concatenation |
| Operators.Where | py_linq/py_linq.py:642-648 | `where(p)` is no longer than the input, and each of its elements is an input element that passes p |
| Operators.WhereMultiset | py_linq/py_linq.py:642-648 | each element that passes keeps its full multiplicity; every other element is dropped |
| Operators.WhereCons | py_linq/py_linq.py:642-648 | filtering `[x] + s` is x (if it passes) followed by the filtered s |
| Operators.WhereConcat | py_linq/py_linq.py:642-648 | filtering distributes over concatenation, so input order is kept |
| Operators.WhereSnoc | py_linq/py_linq.py:642-648 | filtering `s + [x]` is the filtered s followed by x if it passes |
| Operators.WhereAllOrNone | py_linq/py_linq.py:642-648 | an always-true predicate keeps everything; an always-false one keeps nothing |
| Operators.WhereKeepsAll | py_linq/py_linq.py:642-648 | when every element passes, `where` is the identity |
| Operators.WhereSelect | py_linq/py_linq.py:625-648 | filtering projections equals projecting the elements whose projection passes |
| Operators.WhereWhere | py_linq/py_linq.py:642-648 | two chained `where`s equal one `where` by the conjunction |
| Operators.WhereComplement | py_linq/py_linq.py:642-648 | `where(p)` and `where(not p)` together are a permutation of the input |
| Operators.WhereDisjoint | py_linq/py_linq.py:642-648 | filters by two disjoint predicates together equal the filter by their disjunction, as multisets |
| Operators.HitsSnoc | py_linq/py_linq.py:642-648 | the passing positions of `s + [x]` are those of s, plus position `len(s)` when x passes |
| Operators.WhereLength | py_linq/py_linq.py:90-97 | the length of `where(p)` is the number of positions whose element passes |
| Operators.Matching | py_linq/py_linq.py:1089 | the inner elements selected for a key all come from the input and have that key |
| Operators.MatchingSnoc | py_linq/py_linq.py:1089 | selecting by key over `s + [x]` appends x exactly when x has the key |
| Operators.SelectManyConcat | py_linq/py_linq.py:669-673 | `select_many` maps concatenation to concatenation and a single element to its own sub-sequence |
| Operators.Take | py_linq/py_linq.py:733-736 | `take(n)` is exactly the elements at positions below n, clamped to the length |
| Operators.Skip | py_linq/py_linq.py:686-689 | `skip(n)` is exactly the elements at positions n and above |
| Operators.TakeSkip | py_linq/py_linq.py:686-736 | for every n, `take(n)` followed by `skip(n)` is the input |
| Operators.SkipLast | py_linq/py_linq.py:569-575 | `skip_last(n)` is the prefix of length `count() - n`, clamped |
| Operators.TakeLast | py_linq/py_linq.py:586-592 | `take_last(n)` is the suffix of length n, clamped |
| Operators.SkipLastTakeLast | py_linq/py_linq.py:569-592 | `skip_last(n)` followed by `take_last(n)` is the input |
| Operators.TakeWhile | py_linq/py_linq.py:749-763 | `take_while(p)` is the longest prefix whose elements all pass: every element passes and the next one fails |
| Operators.SkipWhile | py_linq/py_linq.py:577-584 | `skip_while(p)` is a suffix; everything before it passes, and it starts with an element that fails |
| Operators.TakeWhileSkipWhile | py_linq/py_linq.py:577-600 | `take_while(p)` followed by `skip_while(p)` is the input |
| Operators.Reverse | py_linq/py_linq.py:769-776 | `reverse()` has the input's length, with the element `len(s) - 1 - i` at position i |
| Operators.ReverseReverse | py_linq/py_linq.py:562-567 | reversing twice gives the input back |
| Operators.ReverseConcat | py_linq/py_linq.py:562-567 | the reverse of `a.concat(b)` is `reverse(b).concat(reverse(a))` |
| Operators.ReverseAppend | py_linq/py_linq.py:518-532 | the reverse of `append(x)` is `prepend(x)` of the reverse |
| Operators.Concat | py_linq/py_linq.py:779-790 | `concat` has length `len(a) + len(b)`, with a's elements first and b's after |
| Operators.Append | py_linq/py_linq.py:518-524 | `append(x)` is one longer, ends with x, and keeps the input as its prefix |
| Operators.Prepend | py_linq/py_linq.py:526-532 | `prepend(x)` is one longer, starts with x, and keeps the input as its suffix |
| Operators.Zip | py_linq/py_linq.py:977-985 | `zip` has the shorter length, with `func((a[i], b[i]))` at every position |
| Operators.EnumerateZip | py_linq/py_linq.py:977-981 | the counted loop of `ZipEnumerable.__iter__` produces exactly `Zip` |
| Operators.Repeat | py_linq/py_linq.py:998-1005 | `repeat(x, n)` has max(n, 0) elements, all x |
| Operators.EnumerateRepeat | py_linq/py_linq.py:998-1002 | the counted loop of `RepeatEnumerable.__iter__` produces exactly `Repeat` |
| Operators.Range | py_linq/py_linq.py:543-551 | `range(start, n)` has max(n, 0) elements, `start + i` at position i |
| Operators.DefaultIfEmpty | py_linq/py_linq.py:406-414 | `default_if_empty(v)` is `[v]` for an empty input and the input otherwise |
| SetOps.KeysOfSnoc | py_linq/py_linq.py:1019-1024 | the keys of `s + [x]` are those of s plus x's key |
| SetOps.KeysOfConcat | py_linq/py_linq.py:838-843 | the keys of a concatenation are the union of the two key sets |
| SetOps.FirstIndex | py_linq/py_linq.py:1019-1022 | the first position whose element has a key: it has the key, and no earlier one does |
| SetOps.FirstIndexPrefix | py_linq/py_linq.py:838-843 | appending elements does not move the first occurrence of a key |
| SetOps.FirstIndexNew | py_linq/py_linq.py:1019-1022 | a key first seen in the appended element first occurs at its position |
| SetOps.DistinctSnoc | py_linq/py_linq.py:1019-1022 | `distinct` over `s + [x]` appends x exactly when x's key is new |
| SetOps.DistinctSpec | py_linq/py_linq.py:1019-1024 | `distinct` has no two elements with equal keys, covers every key of the input, has one element per key, and only input elements |
| SetOps.DistinctKeysSpec | py_linq/py_linq.py:1019-1024 | the dictionary's key order lists every key of the input exactly once |
| SetOps.DistinctKeysSnoc | py_linq/py_linq.py:1020-1022 | a new key is appended to the key order; a seen key leaves it unchanged |
| SetOps.FirstSeenMapSnoc | py_linq/py_linq.py:1020-1022 | a dictionary entry is added only for a new key |
| SetOps.FirstSeenMapSpec | py_linq/py_linq.py:1019-1022 | the filled dictionary maps exactly the input's keys, each to the first element with that key |
| SetOps.DistinctPicksFirst | py_linq/py_linq.py:1019-1024 | for every key, `distinct` keeps the first element seen with it |
| SetOps.DistinctFirstSeenOrder | py_linq/py_linq.py:1019-1024 | `distinct` lists its elements in the order their keys were first seen |
| SetOps.DistinctKeysCover | py_linq/py_linq.py:1019-1022 | every element's key is in the key order |
| SetOps.DistinctKeysMember | py_linq/py_linq.py:1019-1022 | every listed key is a key of the input |
| SetOps.DistinctKeysFirstSeen | py_linq/py_linq.py:1019-1024 | the key order is the order of first occurrence |
| SetOps.ScanStep | py_linq/py_linq.py:1020-1022 | one scan step updates the key order and the dictionary together |
| SetOps.FirstSeenMapValues | py_linq/py_linq.py:1023-1024 | reading the dictionary in key order gives `distinct`'s output, position by position |
| SetOps.DistinctAbsorbs | py_linq/py_linq.py:838-843 | elements whose keys were all seen already change neither `distinct` nor the dictionary |
| SetOps.UnionSpec | py_linq/py_linq.py:838-853 | `union` has no two elements with equal keys, covers the keys of both sides, and only elements of either side |
| SetOps.UnionPrefersSelf | py_linq/py_linq.py:838-843 | for a key, `union` keeps self's first element with it when self has one, else the other side's first |
| SetOps.UnionElement | py_linq/py_linq.py:838-843 | the first element of `self.concat(other)` with a key comes from self when self has the key |
| SetOps.UnionLength | py_linq/py_linq.py:852-853 | `len(union)` is the number of keys of both sides together, at least that of either side |
| SetOps.SubsetCard | py_linq/py_linq.py:852-853 | a subset has no more elements than its superset |
| SetOps.Intersect | py_linq/py_linq.py:803-807 | `intersect` holds only elements of self whose key occurs in the other side |
| SetOps.Except | py_linq/py_linq.py:818-822 | `except_` holds only elements of self whose key does not occur in the other side |
| SetOps.IntersectExceptPartition | py_linq/py_linq.py:803-822 | `intersect` and `except_` partition self: together a permutation of it, `intersect` keeps every matching element with its multiplicity, and no key is on both sides |
| SetOps.DistinctEnumerable.constructor | py_linq/py_linq.py:1013-1017 | starts with an empty dictionary |
| SetOps.DistinctEnumerable.Fill | py_linq/py_linq.py:1019-1022 | the first loop of `__iter__` leaves the first-seen dictionary of the data |
| SetOps.DistinctEnumerable.Iterate | py_linq/py_linq.py:1019-1024 | `__iter__` yields exactly `distinct(key)` |
| SetOps.ValuesInOrder | py_linq/py_linq.py:1023-1024 | reading a first-seen dictionary in insertion order yields `distinct` |
| SetOps.DistinctOf | py_linq/py_linq.py:376-383 | constructing and traversing `distinct(key)` yields `Distinct` |
| SetOps.UnionEnumerable.constructor | py_linq/py_linq.py:830-836 | construction loads the dictionary at once |
| SetOps.UnionEnumerable.LoadData | py_linq/py_linq.py:838-843 | `_load_data` leaves the first-seen dictionary of `self.concat(other)` |
| SetOps.UnionEnumerable.Iterate | py_linq/py_linq.py:845-850 | `__iter__` yields exactly `union(other, key)` |
| Ordering.Insert | py_linq/py_linq.py:935-936 | stable insertion adds exactly one element |
| Ordering.StableSort | py_linq/py_linq.py:935-936 | each `sorted` call is a permutation |
| Ordering.OrderBy | py_linq/py_linq.py:934-936 | the sorted data is a permutation of the input |
| Ordering.InsertLex | py_linq/py_linq.py:935-936 | insertion keeps lexicographic order |
| Ordering.SortLex | py_linq/py_linq.py:935-936 | a stable sort by a more significant key over data sorted on the less significant keys is sorted on all of them |
| Ordering.OrderBySorted | py_linq/py_linq.py:934-936 | the sorted data is in lexicographic order of the directives, each ascending or descending |
| Ordering.InsertKeepsClass | py_linq/py_linq.py:935-936 | insertion does not reorder elements with equal keys |
| Ordering.SortKeepsClass | py_linq/py_linq.py:935-936 | each `sorted` is stable: elements with equal keys keep their relative order |
| Ordering.AllTiedConcat | py_linq/py_linq.py:947 | tied on an extended directive list means tied on both parts |
| Ordering.OrderByStable | py_linq/py_linq.py:934-936 | elements tied on every directive keep their input order |
| Ordering.StableRefines | py_linq/py_linq.py:939-948 | agreement on a class of tied elements carries over to every finer class |
| Ordering.ThenByOrder | py_linq/py_linq.py:939-961 | `then_by` gives a permutation of the original input, sorted on the extended directive list and stable on it |
| Ordering.SortedEnumerable.constructor | py_linq/py_linq.py:923-937 | the data is `OrderBy` of the input and the directives |
| Ordering.SortedEnumerable.ThenBy | py_linq/py_linq.py:939-961 | `then_by` builds a new node over the sorted data with the directive appended |
| Ordering.OrderByAscending | py_linq/py_linq.py:233-242 | `order_by(key)` is a node sorted ascending on key |
| Ordering.OrderByDescending | py_linq/py_linq.py:244-253 | `order_by_descending(key)` is a node sorted descending on key |
| Groups.KeyRecordFails | py_linq/py_linq.py:876-885 | building a key record raises `IndexError` exactly when the key has parts and there are more names than parts |
| Groups.KeyRecordFields | py_linq/py_linq.py:876-879 | a built key record has exactly the key names as fields |
| Groups.KeyRecordValues | py_linq/py_linq.py:876-879 | a name holds the part at its last position, or the whole key when the key has no parts |
| Groups.BuildKey | py_linq/py_linq.py:876-879 | the inner loop of `_load_data` builds exactly `KeyRecord` |
| Groups.GroupsOfSpec | py_linq/py_linq.py:870-882 | grouping over a key list succeeds exactly when each record builds; group i has key i's record and that key's elements |
| Groups.MatchingAbsent | py_linq/py_linq.py:1089 | a key no element has selects nothing |
| Groups.MatchingHead | py_linq/py_linq.py:1089 | a key some element has selects a non-empty run, led by its first element |
| Groups.GroupsSucceed | py_linq/py_linq.py:870-882 | `group_by` raises exactly when some element's key cannot build its record, and then raises `IndexError` |
| Groups.GroupsSpec | py_linq/py_linq.py:870-898 | one group per distinct key, in first-seen key order, each with its key record and exactly its key's elements in input order |
| Groups.GroupsMembership | py_linq/py_linq.py:870-882 | an input element is in a group exactly when it has that group's key; no group is empty |
| Groups.GroupsLeaders | py_linq/py_linq.py:870-882 | the first elements of the groups are `distinct(key)` |
| Groups.BucketsPartition | py_linq/py_linq.py:870-882 | the buckets of distinct keys together hold the elements with those keys, as a multiset |
| Groups.SelectManyPointwise | py_linq/py_linq.py:669-673 | sequences equal position by position under two projections flatten equally |
| Groups.GroupsPartition | py_linq/py_linq.py:870-882 | every input element lands in exactly one group: the groups' contents are a permutation of the input |
| Groups.FlattenIsSelectMany | py_linq/py_linq.py:669-673 | concatenating the groups' elements is `select_many` over them |
| Groups.LoadNew | py_linq/py_linq.py:873-880 | an unseen key gets a new group with just the element, which keeps the dictionary invariant |
| Groups.LoadNewGroups | py_linq/py_linq.py:873-880 | after a new key, every listed key still maps to its record and elements |
| Groups.LoadOld | py_linq/py_linq.py:881-882 | appending to a seen key's group keeps the dictionary invariant |
| Groups.LoadOldGroups | py_linq/py_linq.py:881-882 | after appending, every listed key still maps to its record and elements |
| Groups.LoadedGroups | py_linq/py_linq.py:890-895 | a loaded dictionary, read in key order, is the grouping |
| Groups.GroupedEnumerable.constructor | py_linq/py_linq.py:857-868 | construction loads the dictionary; a failure is recorded as the raised error |
| Groups.GroupedEnumerable.LoadData | py_linq/py_linq.py:870-882 | `_load_data` fills the dictionary with the grouping, or stops with `IndexError` exactly when grouping fails |
| Groups.GroupedEnumerable.Iterate | py_linq/py_linq.py:890-895 | `__iter__` yields `result_func` of each group, in first-seen key order |
| Groups.GroupedEnumerable.Size | py_linq/py_linq.py:897-898 | `len` is the number of distinct keys |
| Groups.EnumerateGroupBy | py_linq/py_linq.py:341-374 | `group_by` traversed once is `GroupBy`, including its error |
| Joins.ProductLength | py_linq/py_linq.py:1052-1064 | the nested loop visits `len(outer) * len(inner)` pairs |
| Joins.ProductAt | py_linq/py_linq.py:1052-1064 | visit number `a * len(inner) + b` is the pair `(outer[a], inner[b])` |
| Joins.MulStep | py_linq/py_linq.py:1052-1064 | one more outer row adds one inner length |
| Joins.ProductConcat | py_linq/py_linq.py:1052-1064 | the pairs of concatenated outer sequences are the concatenated pairs |
| Joins.JoinConcat | py_linq/py_linq.py:1052-1064 | outer-major: the join of concatenated outer sequences is the concatenation of their joins |
| Joins.JoinSingle | py_linq/py_linq.py:1056-1063 | inner-minor: an outer element is paired with exactly the inner elements with its key, in inner order |
| Joins.JoinNoMatch | py_linq/py_linq.py:1056-1063 | an outer element with no matching inner key contributes nothing |
| Joins.JoinLength | py_linq/py_linq.py:1052-1064 | one result per matching pair: the join's length is the number of matching pairs, and pair (a, b) matches exactly when the keys are equal |
| Joins.JoinInnerStep | py_linq/py_linq.py:1058-1063 | one more inner element adds one result exactly when its key matches |
| Joins.JoinRow | py_linq/py_linq.py:1057-1063 | the inner loop produces exactly the join row of one outer element |
| Joins.EnumerateJoin | py_linq/py_linq.py:1052-1064 | the nested counted loop of `JoinEnumerable.__iter__` produces exactly `Join` |
| Joins.GroupJoinSpec | py_linq/py_linq.py:1082-1094 | one row per outer element, in order; its group is keyed `{"id": outer_key(o)}`, holds exactly the inner elements with that key at full multiplicity, and is empty exactly when no inner key matches |
| Joins.GroupJoinUnfoldsToJoin | py_linq/py_linq.py:1052-1094 | the join row of an outer element pairs it with each member of its `group_join` group |
| Terminals.Count | py_linq/py_linq.py:90-97 | `count(p)` is the number of positions whose element passes, at most the length |
| Terminals.CountComplement | py_linq/py_linq.py:90-97 | `count(p) + count(not p)` is the length |
| Terminals.SumConcat | py_linq/py_linq.py:107-113 | the sum of a concatenation is the sum of the sums |
| Terminals.FoldLeftSnoc | py_linq/py_linq.py:470-475 | folding one more element applies the function once more, last |
| Terminals.FoldLeftConcat | py_linq/py_linq.py:470-475 | folding a concatenation folds the second part from the first part's result |
| Terminals.SumIsFold | py_linq/py_linq.py:107-113 | `sum(func)` is `aggregate` of "add func(x)" from 0 |
| Terminals.AggregateWithSeed | py_linq/py_linq.py:469-475 | `aggregate(func, seed)` is the left fold of func over the elements from seed |
| Terminals.Aggregate | py_linq/py_linq.py:469-475 | `aggregate(func)` raises `IndexError` on an empty node, else folds the rest from the first element |
| Terminals.MinOf | py_linq/py_linq.py:115-123 | the least of a non-empty list is in it and bounds it from below |
| Terminals.MaxOf | py_linq/py_linq.py:125-133 | the greatest of a non-empty list is in it and bounds it from above |
| Terminals.Min | py_linq/py_linq.py:115-123 | `min(func)` raises `NoElementsError` exactly when empty; otherwise it is a projection of an element and no projection is smaller |
| Terminals.Max | py_linq/py_linq.py:125-133 | `max(func)` raises `NoElementsError` exactly when empty; otherwise it is a projection of an element and no projection is greater |
| Terminals.SortedProjectionsSpec | py_linq/py_linq.py:152 | the sorted projections are ascending and are a permutation of the projections of the elements (same multiset) |
| Terminals.MedianSpec | py_linq/py_linq.py:145-160 | `median` raises `NoElementsError` exactly when empty; for odd length it is the middle sorted projection; for even length it is the pair at sorted positions len/2 − 1 and len/2, lower ≤ upper |
| Terminals.MedianOdd | py_linq/py_linq.py:145-160 | for odd length 2h+1 the median is one of the projections, at most h projections are smaller and at most h are greater |
| Terminals.MedianEven | py_linq/py_linq.py:145-160 | for even length 2h the two middle values are projections, lower ≤ upper, lower is the h-th smallest (at most h − 1 smaller, at most h greater) and upper the (h+1)-th (at most h smaller, at most h − 1 greater) |
| Terminals.SelectMultiset | py_linq/py_linq.py:99-105 | projecting two sequences with the same elements gives projections with the same elements |
| Terminals.CountPermutation | py_linq/py_linq.py:90-97 | `count(p)` does not depend on the order of the elements |
| Terminals.ElementAtSpec | py_linq/py_linq.py:162-187 | `element_at(n)` succeeds exactly for 0 ≤ n < length, with `s[n]`, else raises `IndexError`; `element_at_or_default` is `None` there instead |
| Terminals.WhereHead | py_linq/py_linq.py:189-198 | the filtered node is non-empty exactly when some element passes, and it starts with the first one that does |
| Terminals.WhereLast | py_linq/py_linq.py:211-220 | the filtered node ends with the last element that passes |
| Terminals.WhereLastSkip | py_linq/py_linq.py:211-220 | a failing final element leaves the last passing one in place |
| Terminals.FirstSpec | py_linq/py_linq.py:189-209 | `first(p)` is the first passing element and raises `IndexError` exactly when none passes; `first_or_default` gives `None` instead |
| Terminals.LastSpec | py_linq/py_linq.py:211-231 | `last(p)` is the last passing element and raises `IndexError` exactly when none passes; `last_or_default` gives `None` instead |
| Terminals.TwoHits | py_linq/py_linq.py:291-294 | at least two passing positions exist exactly when two different positions pass |
| Terminals.SingleSpec | py_linq/py_linq.py:281-296 | `single(p)` raises `NoMatchingElement` exactly when nothing passes and `MoreThanOneMatchingElement` exactly when two elements pass; otherwise it is the element at the only passing position |
| Terminals.SingleOrDefaultSpec | py_linq/py_linq.py:298-311 | `single_or_default` is `None` exactly when nothing passes, still raises when several pass, and agrees with `single` otherwise |
| Terminals.AnySpec | py_linq/py_linq.py:440-446 | `any(p)` holds exactly when some element passes |
| Terminals.AllSpec | py_linq/py_linq.py:509-516 | `all(p)` holds exactly when every element passes, which is exactly when `any(not p)` does not hold |
| Terminals.ContainsSpec | py_linq/py_linq.py:500-507 | `contains(e, key)` holds exactly when some element has e's key |
| Findings.Advance | py_linq/py_linq.py:702-717 | one step of the cycling cursor stays in range and wraps to 0 after the last position |
| Findings.SkipWhileAsWritten | py_linq/py_linq.py:702-717 | the `skip_while` generator as written: without its last element when the first element fails, otherwise the intended result |
| Findings.SkipPassing | py_linq/py_linq.py:703-713 | the first loop stops at the first failing position, with the counter at 1 when that position is 0 and at the position otherwise |
| Findings.YieldRest | py_linq/py_linq.py:714-717 | the second loop yields `len - i` consecutive elements from the cursor |
| Findings.SkipWhileFrom | py_linq/py_linq.py:577-584 | `skip_while` keeps the suffix from the first failing position |
| Findings.SkipWhileDropsLast | py_linq/py_linq.py:702-717 | on `[1, 2, 3]` with `x > 5` the generator yields `[1, 2]`, where `skip_while` means `[1, 2, 3]` |
| Findings.CursorAt | py_linq/py_linq.py:642-648 | a fresh cycling cursor stays in range and, within the first pass, is at position i after i steps |
| Findings.Cycled | py_linq/py_linq.py:642-648 | the first m elements a fresh cursor yields are m long, and are the first m elements while m is within the length |
| Findings.WhereAsWritten | py_linq/py_linq.py:642-648 | the `where` generator as written filters as many cursor elements as the upstream node reports; it raises when the traversal is empty but the reported length is not, and it is the intended `where` when the reported length is the true one |
| Findings.DrawAndFilter | py_linq/py_linq.py:642-648 | the loop draws n elements from the cycling cursor and keeps exactly those that pass |
| Findings.WhereAfterTakeRepeats | py_linq/py_linq.py:642-648 | `Enumerable([1, 2, 3]).take(1).where(lambda x: True)` yields `[1, 1, 1]`, where `[1]` is intended |

## Left out

- The `itertools.cycle` cursors (`_cycle`, `next`, and the cursor-driven `__iter__` bodies). Every node is its finite backing sequence. A traversal is the operator's meaning, so the model does not capture cursors shared across traversals. Such a cursor keeps its position from one traversal to the next. This shows with interleaved traversals, and also with a second sequential one: `Enumerable([5, 6, 1, 2]).skip_while(lambda x: x > 3)` yields `[1, 2]` the first time and `[1, 2, 5]` the second.
- The length that a node reports through `__len__` is taken to be the length of its traversal. That does not hold for every node:
  - `take`, `skip`, `distinct`, `intersect`, `except_`, `select_many` and `join` do not override `__len__`. The inherited `Enumerable.__len__` (py_linq/py_linq.py:74-78) counts the elements of the node's upstream.
  - Operators stacked on such a node read that wrong length:
    - `where`, and through it `count(p)` and `single(p)`, which loop `len(upstream)` times over a cycling cursor;
    - `reverse`, and through it `last`, which goes through `reversed` and so through `__len__` and `__getitem__`;
    - `zip`, which indexes up to `len` of each side.
  - Examples: `Enumerable([1, 1, 2]).distinct().count(lambda x: x == 1)` gives 2, and `Enumerable([1, 2, 3]).take(2).last()` raises `IndexError`.
  - The model gives every operator the meaning it has over a node whose length is its traversal's. Findings.WhereAsWritten captures the `where` case.
- `repeat(x, n)` with a negative n: `RepeatEnumerable.__len__` returns n, so every `len()` of the node raises `ValueError`, including the one inside `first()`. The model's `Repeat` is empty, so `First` fails with `IndexOutOfRange`.
- `group_join` builds each group as a lazy `where` whose lambda reads the generator's loop variable `ok`. A group read after the generator has moved on filters by the latest outer key: `Enumerable([1, 2]).group_join(Enumerable([1, 2])).to_list()` holds two groups `[2]`. Joins.GroupJoinSpec gives each group as it is while its own row is produced, which is what a `result_func` that reads the group at once observes.
- `WhereEnumerable.next` refers to an undefined variable `v`. It is not modelled; `where` is modelled by its `__iter__`.
- `__getitem__` returns `None` for an index past the end instead of raising. The model uses only its effect through `element_at`, which raises `IndexError` there.
- Python `None` as an element value. Elements are never `None` in the model. So the model does not capture:
  - `any` reporting false when the first passing element is `None`;
  - `element_at` raising on a stored `None`;
  - `add(None)` being ignored;
  - `aggregate` with an explicit `None` seed, which falls back to the first element.
- `add`, `empty` and `to_list` are not modelled separately. `add(x)` is `Append` for a non-`None` x.
- The three ways of comparing keys are not modelled separately. Keys are compared by value equality on a Dafny equality type. So the model does not capture keys that one comparison merges and another keeps apart: `1` and `True` are one key for `distinct` and `intersect` but two keys for `union`, whose `json.dumps` texts differ.
- Groups.KeyValue: a `str` key, which Python's `_can_enumerate` would index character by character, is a `Scalar` in the model.
- Groups.KeyValue has no case for a `dict` key. A non-empty `dict` passes `_can_enumerate` (py_linq/py_linq.py:884-885), and indexing it by position raises `KeyError` rather than `IndexError`.
- Ordering.Directive: sort keys are `int`. Python compares any orderable values. Python's `sorted` is modelled by a stable insertion sort on `seq`, not by the library routine.
- Ordering.SortedEnumerable.ThenBy does not reproduce `then_by` appending the new directive to the receiver's own list. The receiver's directives stay unchanged in the model.
- `avg` is not modelled, because it uses floating-point division.
- Terminals.MedianSpec: for an even number of elements, the model returns the two middle projections (`MeanOf`) instead of their floating-point mean.
- `skip_while` and `take_while` never terminate when every element passes, because the cursor cycles forever. The model gives the intended finite result. Findings.SkipWhileAsWritten requires a failing element for that reason.
- Groups.GroupedEnumerable.constructor: the `IndexError` that `GroupedEnumerable.__init__` raises is recorded in the `error` field instead of aborting construction.
- Draining a generator or `io.TextIOBase` at construction is not modelled (I/O).
- The `isinstance`/`hasattr` checks that raise `TypeError` or `NullArgumentError` are not modelled. Dafny's types rule those inputs out.
- `Key`, `OrderingDirection`, `deprecated` and the exception classes are not part of this model. `Key` is a map from field name to value; `OrderingDirection` is a `Directive`.
- The Python 2 compatibility imports and `__repr__` are not modelled.

## Findings

| source | as written | input that shows it | evidently intended | confidence | as-written member | corrected member |
|---|---|---|---|---|---|---|
| py_linq/py_linq.py:702-717 | `SkipWhileEnumerable.__iter__` starts its counter at 1 even when no element was skipped, so it yields only `len - 1` elements | `Enumerable([1, 2, 3]).skip_while(lambda x: x > 5)` yields `[1, 2]` | every element from the first failing one on: `[1, 2, 3]` | not executed | Findings.SkipWhileAsWritten, Findings.SkipWhileDropsLast | Operators.SkipWhile |
| py_linq/py_linq.py:642-648 | `WhereEnumerable.__iter__` draws `len(self.data)` elements from a cursor cycling over its upstream node; a `take` node inherits `Enumerable.__len__`, which reports its own upstream's length, so the cursor wraps around | `Enumerable([1, 2, 3]).take(1).where(lambda x: True).to_list()` gives `[1, 1, 1]` | each element of the upstream's traversal once: `[1]` | not executed | Findings.WhereAsWritten, Findings.WhereAfterTakeRepeats | Operators.Where |
