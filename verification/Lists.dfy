/** Sequence helpers shared by several models: first match, filtering, stable sorting, last elements. */
module Lists {

  /** Index of the first element satisfying `p`, or `|xs|`. */
  function First<T>(xs: seq<T>, p: T -> bool): (i: nat)
    ensures i <= |xs|
    ensures forall j :: 0 <= j < i ==> !p(xs[j])
    ensures i < |xs| ==> p(xs[i])
  {
    if xs == [] then 0 else if p(xs[0]) then 0 else 1 + First(xs[1..], p)
  }

  /** The elements satisfying `p`, in order. */
  function Filter<T(!new)>(xs: seq<T>, p: T -> bool): (r: seq<T>)
    ensures forall x :: x in r <==> x in xs && p(x)
    ensures (forall x :: x in xs ==> !p(x)) ==> r == []
  {
    if xs == [] then []
    else
      assert xs == [xs[0]] + xs[1..];
      (if p(xs[0]) then [xs[0]] else []) + Filter(xs[1..], p)
  }

  lemma {:induction false} FilterConcat<T(!new)>(a: seq<T>, b: seq<T>, p: T -> bool)
    ensures Filter(a + b, p) == Filter(a, p) + Filter(b, p)
  {
    if a == [] {
      assert a + b == b;
    } else {
      assert (a + b)[0] == a[0] && (a + b)[1..] == a[1..] + b;
      FilterConcat(a[1..], b, p);
    }
  }

  lemma FilterSnoc<T(!new)>(xs: seq<T>, x: T, p: T -> bool)
    ensures Filter(xs + [x], p) == Filter(xs, p) + if p(x) then [x] else []
  {
    FilterConcat(xs, [x], p);
  }

  /** A strict order that may leave elements level: being level is transitive. */
  ghost predicate StrictOrder<T(!new)>(before: (T, T) -> bool) {
    && (forall x, y :: before(x, y) ==> !before(y, x))
    && (forall x, y, z :: !before(y, x) && !before(z, y) ==> !before(z, x))
  }

  /** No element is before one that precedes it. */
  ghost predicate SortedBy<T>(xs: seq<T>, before: (T, T) -> bool) {
    forall j, k :: 0 <= j < k < |xs| ==> !before(xs[k], xs[j])
  }

  /** Put `x` behind the leading elements that it is not before. */
  function Insert<T>(xs: seq<T>, x: T, before: (T, T) -> bool): (r: seq<T>)
    ensures multiset(r) == multiset(xs) + multiset{x}
  {
    if xs == [] || before(x, xs[0]) then [x] + xs
    else
      assert xs == [xs[0]] + xs[1..];
      [xs[0]] + Insert(xs[1..], x, before)
  }

  /** Python's `sorted`, which keeps level elements in their order. */
  function SortBy<T>(xs: seq<T>, before: (T, T) -> bool): (r: seq<T>)
    ensures multiset(r) == multiset(xs)
  {
    if xs == [] then []
    else
      assert xs == xs[..|xs| - 1] + [xs[|xs| - 1]];
      Insert(SortBy(xs[..|xs| - 1], before), xs[|xs| - 1], before)
  }

  lemma {:induction false} InsertSorted<T(!new)>(xs: seq<T>, x: T, before: (T, T) -> bool)
    requires StrictOrder(before) && SortedBy(xs, before)
    ensures SortedBy(Insert(xs, x, before), before)
  {
    if xs != [] {
      var r := Insert(xs, x, before);
      if before(x, xs[0]) {
        assert forall k :: 0 < k < |xs| ==> !before(xs[k], xs[0]);
        assert forall k :: 0 < k < |r| ==> r[k] == xs[k - 1] && !before(xs[k - 1], x);
      } else {
        InsertSorted(xs[1..], x, before);
        var rest := Insert(xs[1..], x, before);
        forall k | 0 <= k < |rest| ensures !before(rest[k], xs[0]) {
          InsertedFrom(xs[1..], x, before, k);
        }
      }
    }
  }

  lemma InsertedFrom<T>(xs: seq<T>, x: T, before: (T, T) -> bool, k: nat)
    requires k < |Insert(xs, x, before)|
    ensures var y := Insert(xs, x, before)[k]; y == x || exists j :: 0 <= j < |xs| && xs[j] == y
  {
    var r := Insert(xs, x, before);
    assert r[k] in multiset(r);
    assert r[k] == x || r[k] in multiset(xs);
  }

  lemma SortedLength<T>(xs: seq<T>, before: (T, T) -> bool)
    ensures |SortBy(xs, before)| == |xs|
  {
    assert |multiset(SortBy(xs, before))| == |SortBy(xs, before)| && |multiset(xs)| == |xs|;
  }

  lemma {:induction false} SortBySorted<T(!new)>(xs: seq<T>, before: (T, T) -> bool)
    requires StrictOrder(before)
    ensures SortedBy(SortBy(xs, before), before) && |SortBy(xs, before)| == |xs|
  {
    SortedLength(xs, before);
    if xs != [] {
      SortBySorted(xs[..|xs| - 1], before);
      InsertSorted(SortBy(xs[..|xs| - 1], before), xs[|xs| - 1], before);
    }
  }

  lemma SameElements<T>(a: seq<T>, b: seq<T>)
    requires multiset(a) == multiset(b)
    ensures forall x :: x in a <==> x in b
  {
    forall x ensures x in a <==> x in b {
      assert x in a <==> x in multiset(a);
      assert x in b <==> x in multiset(b);
    }
  }

  lemma {:induction false} InsertAtEnd<T>(xs: seq<T>, x: T, before: (T, T) -> bool)
    requires forall k :: 0 <= k < |xs| ==> !before(x, xs[k])
    ensures Insert(xs, x, before) == xs + [x]
  {
    if xs != [] {
      InsertAtEnd(xs[1..], x, before);
      assert xs == [xs[0]] + xs[1..];
    }
  }

  lemma SortSnoc<T>(xs: seq<T>, x: T, before: (T, T) -> bool)
    ensures SortBy(xs + [x], before) == Insert(SortBy(xs, before), x, before)
  {
    assert (xs + [x])[..|xs|] == xs;
  }

  lemma {:induction false} SortOfSorted<T>(xs: seq<T>, before: (T, T) -> bool)
    requires SortedBy(xs, before)
    ensures SortBy(xs, before) == xs
  {
    if xs != [] {
      hide SortBy, Insert;
      var front, last := xs[..|xs| - 1], xs[|xs| - 1];
      assert xs == front + [last];
      SortOfSorted(front, before);
      SortSnoc(front, last, before);
      InsertAtEnd(front, last, before);
    }
  }

  /** Inserting before a block whose first element is later leaves the block alone. */
  lemma {:induction false} InsertBefore<T>(xs: seq<T>, ys: seq<T>, x: T, before: (T, T) -> bool)
    requires ys != [] && before(x, ys[0])
    ensures Insert(xs + ys, x, before) == Insert(xs, x, before) + ys
  {
    if xs == [] {
      assert xs + ys == ys;
    } else {
      assert (xs + ys)[0] == xs[0] && (xs + ys)[1..] == xs[1..] + ys;
      InsertBefore(xs[1..], ys, x, before);
    }
  }

  /** Inserting behind a block that it is not before leaves that block alone. */
  lemma {:induction false} InsertBehind<T>(xs: seq<T>, ys: seq<T>, x: T, before: (T, T) -> bool)
    requires forall k :: 0 <= k < |xs| ==> !before(x, xs[k])
    ensures Insert(xs + ys, x, before) == xs + Insert(ys, x, before)
  {
    if xs == [] {
      assert xs + ys == ys;
    } else {
      assert (xs + ys)[0] == xs[0] && (xs + ys)[1..] == xs[1..] + ys;
      InsertBehind(xs[1..], ys, x, before);
    }
  }

  lemma {:induction false} FilterCounts<T(!new)>(xs: seq<T>, p: T -> bool, x: T)
    ensures multiset(Filter(xs, p))[x] == if p(x) then multiset(xs)[x] else 0
  {
    if xs != [] {
      FilterCounts(xs[1..], p, x);
      assert xs == [xs[0]] + xs[1..];
    }
  }

  /** How many elements satisfy `p` does not depend on their order. */
  lemma {:induction false} FilterOfSame<T(!new)>(a: seq<T>, b: seq<T>, p: T -> bool)
    requires multiset(a) == multiset(b)
    ensures multiset(Filter(a, p)) == multiset(Filter(b, p)) && |Filter(a, p)| == |Filter(b, p)|
  {
    forall x ensures multiset(Filter(a, p))[x] == multiset(Filter(b, p))[x] {
      FilterCounts(a, p, x);
      FilterCounts(b, p, x);
    }
    assert multiset(Filter(a, p)) == multiset(Filter(b, p));
    assert |multiset(Filter(a, p))| == |Filter(a, p)| && |multiset(Filter(b, p))| == |Filter(b, p)|;
  }

  lemma {:induction false} FilterTwice<T(!new)>(xs: seq<T>, p: T -> bool, q: T -> bool, both: T -> bool)
    requires forall x :: both(x) <==> p(x) && q(x)
    ensures Filter(Filter(xs, p), q) == Filter(xs, both)
  {
    if xs != [] {
      FilterTwice(xs[1..], p, q, both);
      FilterConcat(if p(xs[0]) then [xs[0]] else [], Filter(xs[1..], p), q);
    }
  }

  /** No element satisfying `p` is before another one. */
  ghost predicate MutuallyLevel<T(!new)>(p: T -> bool, before: (T, T) -> bool) {
    forall y, z :: p(y) && p(z) ==> !before(y, z)
  }

  lemma PrependFilter<T(!new)>(x: T, xs: seq<T>, p: T -> bool)
    ensures Filter([x] + xs, p) == (if p(x) then [x] else []) + Filter(xs, p)
  {
    assert ([x] + xs)[1..] == xs;
  }

  /** Behind an element that `x` is before, nothing is level with `x`. */
  lemma NoneLevelBehind<T(!new)>(xs: seq<T>, x: T, before: (T, T) -> bool, p: T -> bool)
    requires StrictOrder(before) && SortedBy(xs, before) && MutuallyLevel(p, before)
    requires xs != [] && before(x, xs[0]) && p(x)
    ensures Filter(xs, p) == []
  {
    forall k | 0 <= k < |xs| ensures !p(xs[k]) {
      assert !before(xs[k], xs[0]) || k == 0;
    }
  }

  lemma {:induction false} InsertKeepsLevel<T(!new)>(xs: seq<T>, x: T, before: (T, T) -> bool, p: T -> bool)
    requires StrictOrder(before) && SortedBy(xs, before) && MutuallyLevel(p, before)
    ensures Filter(Insert(xs, x, before), p) == Filter(xs, p) + if p(x) then [x] else []
  {
    hide *;
    InsertUnfolds(xs, x, before);
    if xs == [] || before(x, xs[0]) {
      PrependFilter(x, xs, p);
      if xs != [] && p(x) {
        NoneLevelBehind(xs, x, before, p);
      }
    } else {
      SortedTail(xs, before);
      InsertKeepsLevel(xs[1..], x, before, p);
      PrependFilter(xs[0], Insert(xs[1..], x, before), p);
      PrependFilter(xs[0], xs[1..], p);
      assert xs == [xs[0]] + xs[1..];
    }
  }

  lemma SortedTail<T>(xs: seq<T>, before: (T, T) -> bool)
    requires xs != [] && SortedBy(xs, before)
    ensures SortedBy(xs[1..], before)
  {
  }

  lemma InsertUnfolds<T>(xs: seq<T>, x: T, before: (T, T) -> bool)
    ensures Insert(xs, x, before) ==
            if xs == [] || before(x, xs[0]) then [x] + xs else [xs[0]] + Insert(xs[1..], x, before)
  {
  }

  /** The sort is stable: mutually level elements keep their order. */
  lemma {:induction false} SortIsStable<T(!new)>(xs: seq<T>, before: (T, T) -> bool, p: T -> bool)
    requires StrictOrder(before) && MutuallyLevel(p, before)
    ensures Filter(SortBy(xs, before), p) == Filter(xs, p)
  {
    if xs != [] {
      hide *;
      var front, last := xs[..|xs| - 1], xs[|xs| - 1];
      assert xs == front + [last];
      SortIsStable(front, before, p);
      SortBySorted(front, before);
      SortSnoc(front, last, before);
      InsertKeepsLevel(SortBy(front, before), last, before, p);
      FilterSnoc(front, last, p);
    }
  }

  /** The elements have different keys. */
  ghost predicate DistinctBy<T, K>(xs: seq<T>, key: T -> K) {
    forall j, k :: 0 <= j < k < |xs| ==> key(xs[j]) != key(xs[k])
  }

  lemma {:induction false} InsertKeepsDistinct<T(!new), K>(xs: seq<T>, x: T, before: (T, T) -> bool, key: T -> K)
    requires DistinctBy(xs, key) && forall y :: y in xs ==> key(y) != key(x)
    ensures DistinctBy(Insert(xs, x, before), key)
  {
    if xs != [] && !before(x, xs[0]) {
      var rest := Insert(xs[1..], x, before);
      InsertKeepsDistinct(xs[1..], x, before, key);
      forall k | 0 <= k < |rest| ensures key(rest[k]) != key(xs[0]) {
        InsertedFrom(xs[1..], x, before, k);
      }
    }
  }

  lemma {:induction false} SortKeepsDistinct<T(!new), K>(xs: seq<T>, before: (T, T) -> bool, key: T -> K)
    requires DistinctBy(xs, key)
    ensures DistinctBy(SortBy(xs, before), key)
  {
    if xs != [] {
      var front, last := xs[..|xs| - 1], xs[|xs| - 1];
      SortKeepsDistinct(front, before, key);
      SameElements(SortBy(front, before), front);
      InsertKeepsDistinct(SortBy(front, before), last, before, key);
    }
  }

  /** The last element satisfying `p` ends the filtered list. */
  lemma {:induction false} FilterEndsAt<T(!new)>(xs: seq<T>, p: T -> bool, k: nat)
    requires k < |xs| && p(xs[k]) && forall j :: k < j < |xs| ==> !p(xs[j])
    ensures var r := Filter(xs, p); r != [] && r[|r| - 1] == xs[k]
  {
    hide Filter;
    var front, rest := xs[..k + 1], xs[k + 1..];
    assert xs == front + rest && front == xs[..k] + [xs[k]];
    FilterSnoc(xs[..k], xs[k], p);
    FilterConcat(front, rest, p);
    assert Filter(rest, p) == [];
  }

  /** Python's `items[-limit:]`. */
  function TakeLast<T>(items: seq<T>, limit: int): seq<T> {
    if limit > 0 then items[if limit < |items| then |items| - limit else 0..]
    else if -limit < |items| then items[-limit..]
    else []
  }

  /** Whatever the limit, what is taken ends the list. */
  lemma TakeLastIsSuffix<T>(items: seq<T>, limit: int)
    ensures var r := TakeLast(items, limit); |r| <= |items| && r == items[|items| - |r|..]
  {
  }
}
