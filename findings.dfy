/** `SkipWhileEnumerable.__iter__` as written: a counter `i` that starts at 1
    and a cursor over the cycled data. When the first element already fails
    the predicate nothing is skipped, but the counter still starts at 1, so
    only `len - 1` elements are produced and the last one is lost. The rest of
    the model uses the intended `Operators.SkipWhile`.

    `WhereEnumerable.__iter__` as written: it draws as many elements from a
    cursor over the upstream node as the upstream node reports as its length.
    Nodes such as `take` do not override `__len__`, so they report the length
    of their own upstream, and the cursor wraps around. The rest of the model
    uses the intended `Operators.Where`. */
module Findings {
  import opened Wrappers
  import opened Operators

  /** One step of the `itertools.cycle` cursor over `n` elements. */
  function Advance(c: nat, n: nat): (d: nat)
    requires c < n
    ensures d < n
    ensures d == if c + 1 < n then c + 1 else 0
  {
    if c + 1 == n then 0 else c + 1
  }

  /** The generator of `skip_while(predicate)` as written. It never stops when
      every element passes (the cursor cycles for ever), so that case is
      excluded. When the first element fails, the result is the input without
      its last element; otherwise it is what `skip_while` promises. */
  method SkipWhileAsWritten<T>(s: seq<T>, p: T -> bool) returns (r: seq<T>)
    requires s == [] || exists j :: 0 <= j < |s| && !p(s[j])
    ensures s != [] && !p(s[0]) ==> r == s[..|s| - 1]
    ensures s == [] || p(s[0]) ==> r == SkipWhile(s, p)
  {
    r := [];
    if s == [] {
      return;
    }
    var i, c := SkipPassing(s, p);
    r := YieldRest(s, i, c);
    if c == 0 {
      assert r == s[0..|s| - 1] == s[..|s| - 1];
    } else {
      assert r == s[c..];
      SkipWhileFrom(s, p, c);
    }
  }

  /** The first loop: advance the cursor past the passing elements, counting
      them in `i` from 1, so that `i` is 1 both when nothing passed and when
      one element passed. */
  method SkipPassing<T>(s: seq<T>, p: T -> bool) returns (i: nat, c: nat)
    requires s != [] && exists j :: 0 <= j < |s| && !p(s[j])
    ensures c < |s| && !p(s[c]) && forall j :: 0 <= j < c ==> p(s[j])
    ensures i == if c == 0 then 1 else c
  {
    i, c := 1, 0;
    var e := s[c];
    var skip := p(e);
    while skip
      invariant 0 <= c < |s| && e == s[c] && skip == p(e)
      invariant forall j :: 0 <= j < c ==> p(s[j])
      invariant skip ==> i == c + 1
      invariant !skip ==> i == if c == 0 then 1 else c
      decreases |s| - c
    {
      assert c + 1 < |s|;
      c := Advance(c, |s|);
      e := s[c];
      skip := p(e);
      if skip {
        i := i + 1;
      }
    }
  }

  /** The second loop: yield the cursor's element and advance, while the
      counter, started at `i0`, is below the length. */
  method YieldRest<T>(s: seq<T>, i0: nat, start: nat) returns (r: seq<T>)
    requires start < |s| && start <= i0 <= |s|
    ensures r == s[start..start + (|s| - i0)]
  {
    r := [];
    var i, c := i0, start;
    var e := s[c];
    while i < |s|
      invariant i0 <= i <= |s|
      invariant 0 <= c < |s| && e == s[c]
      invariant start + (i - i0) < |s| ==> c == start + (i - i0)
      invariant r == s[start..start + (i - i0)]
    {
      assert s[start..start + (i - i0) + 1] == r + [e];
      r := r + [e];
      i := i + 1;
      c := Advance(c, |s|);
      e := s[c];
    }
  }

  /** `skip_while` keeps the suffix from the first failing position. */
  lemma SkipWhileFrom<T>(s: seq<T>, p: T -> bool, k: nat)
    requires k < |s| && !p(s[k])
    requires forall j :: 0 <= j < k ==> p(s[j])
    ensures SkipWhile(s, p) == s[k..]
  {
    var r := SkipWhile(s, p);
    assert !p(s[k]);
    assert |s| - |r| <= k;
    assert r[0] == s[|s| - |r|];
  }

  /** The predicate "greater than `n`". */
  function Above(n: int): int -> bool
  {
    x => x > n
  }

  /** `[1, 2, 3]` skipping while `x > 5`: nothing passes, so `skip_while`
      should keep all three, but the generator as written yields `[1, 2]`. */
  method SkipWhileDropsLast() returns (asWritten: seq<int>, intended: seq<int>)
    ensures intended == SkipWhile([1, 2, 3], Above(5)) == [1, 2, 3]
    ensures asWritten == [1, 2] != intended
  {
    var s := [1, 2, 3];
    assert !Above(5)(s[0]);
    asWritten := SkipWhileAsWritten(s, Above(5));
    assert s[..|s| - 1] == [1, 2];
    intended := SkipWhile([1, 2, 3], Above(5));
  }

  /** The position of a fresh `itertools.cycle` cursor over `n` elements
      after `i` steps: it counts up and wraps to 0 at the end. */
  function CursorAt(i: nat, n: nat): (c: nat)
    requires n > 0
    ensures c < n
    ensures i < n ==> c == i
  {
    if i == 0 then 0 else Advance(CursorAt(i - 1, n), n)
  }

  /** The first `m` elements a fresh cursor over `s` yields; while `m` is
      within the length they are the first `m` elements of `s`. */
  function Cycled<T>(s: seq<T>, m: nat): (r: seq<T>)
    requires s != []
    ensures |r| == m
    ensures m <= |s| ==> r == s[..m]
  {
    if m == 0 then []
    else
      assert m <= |s| ==> s[..m] == s[..m - 1] + [s[m - 1]];
      Cycled(s, m - 1) + [s[CursorAt(m - 1, |s|)]]
  }

  /** The generator of `where(predicate)` as written, over an upstream node
      whose traversal is `s` and whose reported length is `n`: it draws `n`
      elements from the cursor and keeps those that pass. `None` when the
      traversal is empty but the reported length is not, where the cursor
      raises `StopIteration` inside the generator. When the reported length
      is the true one, the result is what `where` promises. */
  method WhereAsWritten<T>(s: seq<T>, n: nat, p: T -> bool) returns (r: Option<seq<T>>)
    ensures s == [] && n > 0 ==> r == None
    ensures s != [] ==> r == Some(Where(Cycled(s, n), p))
    ensures n == |s| ==> r == Some(Where(s, p))
  {
    if s == [] {
      if n > 0 {
        return None;
      }
      return Some([]);
    }
    var kept := DrawAndFilter(s, n, p);
    if n == |s| {
      assert Cycled(s, n) == s[..|s|] == s;
    }
    r := Some(kept);
  }

  /** The loop of `WhereEnumerable.__iter__`: `n` steps of the cursor over
      `s`, keeping the elements that pass. */
  method DrawAndFilter<T>(s: seq<T>, n: nat, p: T -> bool) returns (kept: seq<T>)
    requires s != []
    ensures kept == Where(Cycled(s, n), p)
  {
    kept := [];
    var i, c := 0, 0;
    while i < n
      invariant 0 <= i <= n
      invariant c == CursorAt(i, |s|)
      invariant kept == Where(Cycled(s, i), p)
    {
      var e := s[c];
      WhereSnoc(Cycled(s, i), e, p);
      if p(e) {
        kept := kept + [e];
      }
      i := i + 1;
      c := Advance(c, |s|);
    }
  }

  /** The predicate that every integer passes. */
  function Everything(): int -> bool
  {
    x => true
  }

  /** `Enumerable([1, 2, 3]).take(1).where(lambda x: True)`: the `take` node
      yields `[1]` but reports the length 3 of its upstream, so the generator
      as written yields `[1, 1, 1]` where `[1]` is intended. */
  method WhereAfterTakeRepeats() returns (asWritten: Option<seq<int>>, intended: seq<int>)
    ensures intended == Where(Take([1, 2, 3], 1), Everything()) == [1]
    ensures asWritten == Some([1, 1, 1]) && asWritten != Some(intended)
  {
    var upstream := Take([1, 2, 3], 1);
    assert upstream == [1];
    asWritten := WhereAsWritten(upstream, |[1, 2, 3]|, Everything());
    assert Cycled(upstream, 3) == [1, 1, 1];
    WhereAllOrNone(Cycled(upstream, 3), Everything());
    intended := Where(upstream, Everything());
    WhereAllOrNone(upstream, Everything());
  }
}
