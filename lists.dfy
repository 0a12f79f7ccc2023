/** The array operations the pages build their lists with: `filter` with a
    predicate, `filter((_, i) => i !== index)`, and the stable `sort` of a
    copy under a `(a, b) => number` comparator. */
module Lists {

  /** `s.filter(p)`. */
  function Filter<T>(s: seq<T>, p: T -> bool): (r: seq<T>)
    ensures |r| <= |s|
    ensures forall x :: x in r ==> x in s && p(x)
  {
    if s == [] then []
    else (if p(s[0]) then [s[0]] else []) + Filter(s[1..], p)
  }

  /** `sub` is `s` with some elements left out, the rest in their order. */
  predicate IsSubsequence<T(==)>(sub: seq<T>, s: seq<T>)
    decreases |s|
  {
    if sub == [] then true
    else if s == [] then false
    else if sub[0] == s[0] then IsSubsequence(sub[1..], s[1..])
    else IsSubsequence(sub, s[1..])
  }

  /** What `filter` keeps: exactly the elements satisfying `p`, each as
      often as in `s`, in their original order. */
  lemma {:induction false} FilterSpec<T>(s: seq<T>, p: T -> bool)
    ensures IsSubsequence(Filter(s, p), s)
    ensures forall x :: multiset(Filter(s, p))[x] == if p(x) then multiset(s)[x] else 0
  {
    if s != [] {
      FilterSpec(s[1..], p);
      assert s == [s[0]] + s[1..];
      var r := Filter(s, p);
      var tail := Filter(s[1..], p);
      if p(s[0]) {
        assert r == [s[0]] + tail && r[1..] == tail;
      } else {
        // tail's elements all satisfy p, so its head is not s[0]
        assert r == tail;
        assert tail != [] ==> tail[0] in tail && tail[0] != s[0];
      }
    }
  }

  /** `filter` keeps the list as it is when every element satisfies `p`. */
  lemma {:induction false} FilterAll<T>(s: seq<T>, p: T -> bool)
    requires forall i :: 0 <= i < |s| ==> p(s[i])
    ensures Filter(s, p) == s
  {
    if s != [] {
      FilterAll(s[1..], p);
    }
  }

  /** `filter` works piece by piece. */
  lemma {:induction false} FilterAppend<T>(a: seq<T>, b: seq<T>, p: T -> bool)
    ensures Filter(a + b, p) == Filter(a, p) + Filter(b, p)
  {
    if a == [] {
      assert a + b == b;
    } else {
      var head := if p(a[0]) then [a[0]] else [];
      assert (a + b)[1..] == a[1..] + b;
      assert Filter(a + b, p) == head + Filter(a[1..] + b, p);
      FilterAppend(a[1..], b, p);
      assert Filter(a, p) == head + Filter(a[1..], p);
    }
  }

  /** A list none of whose elements satisfies `p` filters to nothing. */
  lemma {:induction false} FilterNone<T>(s: seq<T>, p: T -> bool)
    requires forall i :: 0 <= i < |s| ==> !p(s[i])
    ensures Filter(s, p) == []
  {
    if s != [] {
      FilterNone(s[1..], p);
    }
  }

  /** Two predicates that agree on the elements of the list filter it
      alike. */
  lemma {:induction false} FilterCongruent<T>(s: seq<T>, p: T -> bool, q: T -> bool)
    requires forall x :: x in s ==> p(x) == q(x)
    ensures Filter(s, p) == Filter(s, q)
  {
    if s != [] {
      assert s[0] in s;
      assert forall x :: x in s[1..] ==> x in s;
      FilterCongruent(s[1..], p, q);
    }
  }

  lemma {:induction false} SubsequenceOfItself<T>(s: seq<T>)
    ensures IsSubsequence(s, s)
  {
    if s != [] {
      SubsequenceOfItself(s[1..]);
    }
  }

  /** A sub-multiset is no larger than the multiset it sits in. */
  lemma SubMultisetSize<T>(a: seq<T>, b: seq<T>)
    requires multiset(a) <= multiset(b)
    ensures |a| <= |b|
  {
    var rest := multiset(b) - multiset(a);
    assert multiset(b) == multiset(a) + rest;
    assert |multiset(b)| == |multiset(a)| + |rest|;
    assert |multiset(a)| == |a| && |multiset(b)| == |b|;
  }

  /** A filtered list holds no element more often than the original. */
  lemma FilterSubMultiset<T>(s: seq<T>, p: T -> bool)
    ensures multiset(Filter(s, p)) <= multiset(s)
  {
    FilterSpec(s, p);
  }

  /** `s.filter((_, i) => i !== index)`: the list without position `index`
      (any integer; a position outside the list removes nothing). */
  function RemoveAt<T>(s: seq<T>, index: int): seq<T>
    decreases |s|
  {
    if s == [] then []
    else (if index == 0 then [] else [s[0]]) + RemoveAt(s[1..], index - 1)
  }

  /** Removing a position inside the list drops exactly that element and
      keeps the others in order; any other index changes nothing. */
  lemma {:induction false} RemoveAtSpec<T>(s: seq<T>, index: int)
    ensures 0 <= index < |s| ==> RemoveAt(s, index) == s[..index] + s[index + 1..]
    ensures !(0 <= index < |s|) ==> RemoveAt(s, index) == s
    decreases |s|
  {
    if s != [] {
      var t := s[1..];
      RemoveAtSpec(t, index - 1);
      assert RemoveAt(s, index) == (if index == 0 then [] else [s[0]]) + RemoveAt(t, index - 1);
      if index == 0 {
        assert s[..index] + s[index + 1..] == t;
      } else if 0 < index < |s| {
        assert RemoveAt(t, index - 1) == t[..index - 1] + t[index..];
        assert t[..index - 1] == s[1..index];
        assert t[index..] == s[index + 1..];
        assert s[..index] == [s[0]] + s[1..index];
      } else {
        assert s == [s[0]] + t;
      }
    }
  }

  lemma RemoveAtLength<T>(s: seq<T>, index: int)
    ensures |RemoveAt(s, index)| == if 0 <= index < |s| then |s| - 1 else |s|
  {
    RemoveAtSpec(s, index);
  }

  /** `xs` is ordered by the comparator: no later element should come first. */
  ghost predicate SortedBy<T>(xs: seq<T>, cmp: (T, T) -> int) {
    forall i, j :: 0 <= i < j < |xs| ==> cmp(xs[i], xs[j]) <= 0
  }

  /** The comparator is a consistent total preorder on the elements of `s`
      (what `Array.prototype.sort` needs for a well-defined result). */
  ghost predicate ConsistentOn<T>(s: seq<T>, cmp: (T, T) -> int) {
    && (forall a, b :: a in s && b in s ==> cmp(a, b) <= 0 || cmp(b, a) <= 0)
    && (forall a, b, c :: a in s && b in s && c in s && cmp(a, b) <= 0 && cmp(b, c) <= 0 ==> cmp(a, c) <= 0)
  }

  /** Puts `x` in front of the first element it does not come after. */
  function Insert<T>(x: T, s: seq<T>, cmp: (T, T) -> int): (r: seq<T>)
    ensures multiset(r) == multiset(s) + multiset{x}
  {
    if s == [] then [x]
    else if cmp(x, s[0]) <= 0 then [x] + s
    else
      assert s == [s[0]] + s[1..];
      [s[0]] + Insert(x, s[1..], cmp)
  }

  /** The copy-and-sort `[...s].sort(cmp)`, as a stable insertion sort: an
      element is placed before the elements it compares at most equal to,
      so of two elements that compare equal the earlier one stays first. */
  function Sort<T>(s: seq<T>, cmp: (T, T) -> int): seq<T>
  {
    if s == [] then [] else Insert(s[0], Sort(s[1..], cmp), cmp)
  }

  /** Sorting only reorders: it is a permutation of its input. */
  lemma {:induction false} SortPermutes<T>(s: seq<T>, cmp: (T, T) -> int)
    ensures multiset(Sort(s, cmp)) == multiset(s)
  {
    if s != [] {
      SortPermutes(s[1..], cmp);
      assert s == [s[0]] + s[1..];
    }
  }

  lemma {:induction false} InsertSorted<T>(x: T, s: seq<T>, cmp: (T, T) -> int, all: seq<T>)
    requires ConsistentOn(all, cmp)
    requires x in all && forall y :: y in s ==> y in all
    requires SortedBy(s, cmp)
    ensures SortedBy(Insert(x, s, cmp), cmp)
  {
    if s == [] {
    } else if cmp(x, s[0]) <= 0 {
      forall j | 0 <= j < |s| ensures cmp(x, s[j]) <= 0 {
        if j > 0 {
          Transitive(all, cmp, x, s[0], s[j]);
        }
      }
      PrependSorted(x, s, cmp);
    } else {
      InsertSorted(x, s[1..], cmp, all);
      assert s[0] in all;
      Total(all, cmp, x, s[0]);
      var t := Insert(x, s[1..], cmp);
      forall j | 0 <= j < |t| ensures cmp(s[0], t[j]) <= 0 {
        HeadBeforeInserted(x, s, cmp, t[j]);
      }
      PrependSorted(s[0], t, cmp);
    }
  }

  lemma Transitive<T>(all: seq<T>, cmp: (T, T) -> int, a: T, b: T, c: T)
    requires ConsistentOn(all, cmp) && a in all && b in all && c in all
    requires cmp(a, b) <= 0 && cmp(b, c) <= 0
    ensures cmp(a, c) <= 0
  {
  }

  lemma Total<T>(all: seq<T>, cmp: (T, T) -> int, a: T, b: T)
    requires ConsistentOn(all, cmp) && a in all && b in all
    ensures cmp(a, b) <= 0 || cmp(b, a) <= 0
  {
  }

  lemma PrependSorted<T>(x: T, s: seq<T>, cmp: (T, T) -> int)
    requires SortedBy(s, cmp)
    requires forall j :: 0 <= j < |s| ==> cmp(x, s[j]) <= 0
    ensures SortedBy([x] + s, cmp)
  {
    var r := [x] + s;
    forall i, j | 0 <= i < j < |r| ensures cmp(r[i], r[j]) <= 0 {
      assert r[j] == s[j - 1];
      if i > 0 {
        assert r[i] == s[i - 1];
      }
    }
  }

  lemma HeadBeforeInserted<T>(x: T, s: seq<T>, cmp: (T, T) -> int, y: T)
    requires s != [] && SortedBy(s, cmp) && cmp(s[0], x) <= 0
    requires y in Insert(x, s[1..], cmp)
    ensures cmp(s[0], y) <= 0
  {
    var t := Insert(x, s[1..], cmp);
    assert y in multiset(t);
    if y != x {
      assert y in multiset(s[1..]);
      var m :| 0 <= m < |s[1..]| && s[1..][m] == y;
      assert s[m + 1] == y;
    }
  }

  /** Under a consistent comparator, the result is in order. */
  lemma {:induction false} SortSorts<T>(s: seq<T>, cmp: (T, T) -> int)
    requires ConsistentOn(s, cmp)
    ensures SortedBy(Sort(s, cmp), cmp)
  {
    SortSortsWithin(s, cmp, s);
  }

  lemma {:induction false} SortSortsWithin<T>(s: seq<T>, cmp: (T, T) -> int, all: seq<T>)
    requires ConsistentOn(all, cmp)
    requires forall y :: y in s ==> y in all
    ensures SortedBy(Sort(s, cmp), cmp)
  {
    if s != [] {
      SortSortsWithin(s[1..], cmp, all);
      SortPermutes(s[1..], cmp);
      var t := Sort(s[1..], cmp);
      forall y | y in t ensures y in all {
        assert y in multiset(t);
      }
      InsertSorted(s[0], t, cmp, all);
    }
  }

  /** A list that is already in order is returned as it is. */
  lemma {:induction false} SortOfSorted<T>(s: seq<T>, cmp: (T, T) -> int)
    requires SortedBy(s, cmp)
    ensures Sort(s, cmp) == s
  {
    if s != [] {
      var t := s[1..];
      assert SortedBy(t, cmp) by {
        forall i, j | 0 <= i < j < |t| ensures cmp(t[i], t[j]) <= 0 {
          assert t[i] == s[i + 1] && t[j] == s[j + 1];
        }
      }
      SortOfSorted(t, cmp);
      if t != [] {
        assert cmp(s[0], t[0]) <= 0 by { assert t[0] == s[1]; }
      }
      assert s == [s[0]] + t;
    }
  }

  /** Under a consistent comparator, sorting the sorted list again changes
      nothing. */
  lemma SortIdempotent<T>(s: seq<T>, cmp: (T, T) -> int)
    requires ConsistentOn(s, cmp)
    ensures Sort(Sort(s, cmp), cmp) == Sort(s, cmp)
  {
    SortSorts(s, cmp);
    SortOfSorted(Sort(s, cmp), cmp);
  }

  /** A comparator that says "equal" for every pair keeps the order: the
      stable sort returns its input. */
  lemma {:induction false} SortAllTies<T>(s: seq<T>, cmp: (T, T) -> int)
    requires forall i, j :: 0 <= i < |s| && 0 <= j < |s| ==> cmp(s[i], s[j]) == 0
    ensures Sort(s, cmp) == s
  {
    if s != [] {
      SortAllTies(s[1..], cmp);
      var t := s[1..];
      assert Sort(s, cmp) == Insert(s[0], t, cmp);
      if t != [] {
        assert cmp(s[0], t[0]) == cmp(s[0], s[1]) == 0;
      }
    }
  }

  /** The elements the comparator puts level with `y`: neither comes
      after the other. */
  function TiesWith<T>(cmp: (T, T) -> int, y: T): T -> bool {
    z => cmp(z, y) <= 0 && cmp(y, z) <= 0
  }

  /** The elements of `s` that satisfy `p` compare at most equal to each
      other, in either order. */
  ghost predicate LevelAmong<T>(s: seq<T>, cmp: (T, T) -> int, p: T -> bool) {
    forall a, b :: a in s && b in s && p(a) && p(b) ==> cmp(a, b) <= 0
  }

  /** Under a consistent comparator, two elements level with the same `y`
      are level with each other. */
  lemma ConsistentLevelAmong<T>(s: seq<T>, cmp: (T, T) -> int, y: T, all: seq<T>)
    requires ConsistentOn(all, cmp)
    requires y in all && forall z :: z in s ==> z in all
    ensures LevelAmong(s, cmp, TiesWith(cmp, y))
  {
    forall a, b | a in s && b in s && TiesWith(cmp, y)(a) && TiesWith(cmp, y)(b) ensures cmp(a, b) <= 0 {
      Transitive(all, cmp, a, y, b);
    }
  }

  /** Inserting `x` passes over no element of `p` when `x` itself
      satisfies `p` and comes no later than them, so among the elements of
      `p` it lands in front of the ones already there. */
  lemma {:induction false} InsertKeepsTies<T>(x: T, t: seq<T>, cmp: (T, T) -> int, p: T -> bool)
    requires p(x) ==> forall z :: z in t && p(z) ==> cmp(x, z) <= 0
    ensures Filter(Insert(x, t, cmp), p) == if p(x) then [x] + Filter(t, p) else Filter(t, p)
  {
    if t == [] || cmp(x, t[0]) <= 0 {
      FilterCons(x, t, p);
    } else {
      var h, u := t[0], t[1..];
      assert forall z :: z in u ==> z in t;
      InsertKeepsTies(x, u, cmp, p);
      assert h in t;
      assert Insert(x, t, cmp) == [h] + Insert(x, u, cmp);
      assert t == [h] + u;
      FilterPassesOver(h, x, Insert(x, u, cmp), u, p);
    }
  }

  /** One step of `InsertKeepsTies`: `x` moving past an element `h` that
      is not level with it as well keeps the filtered order. */
  lemma FilterPassesOver<T>(h: T, x: T, v: seq<T>, u: seq<T>, p: T -> bool)
    requires !(p(x) && p(h))
    requires Filter(v, p) == if p(x) then [x] + Filter(u, p) else Filter(u, p)
    ensures Filter([h] + v, p) == if p(x) then [x] + Filter([h] + u, p) else Filter([h] + u, p)
  {
    FilterCons(h, v, p);
    FilterCons(h, u, p);
  }

  lemma FilterCons<T>(x: T, t: seq<T>, p: T -> bool)
    ensures Filter([x] + t, p) == (if p(x) then [x] else []) + Filter(t, p)
  {
    assert ([x] + t)[1..] == t;
  }

  /** The sort is stable: under a consistent comparator the elements
      level with any `y` come out in the order they went in. */
  lemma SortStable<T>(s: seq<T>, cmp: (T, T) -> int, y: T, all: seq<T>)
    requires ConsistentOn(all, cmp)
    requires y in all && forall z :: z in s ==> z in all
    ensures Filter(Sort(s, cmp), TiesWith(cmp, y)) == Filter(s, TiesWith(cmp, y))
  {
    ConsistentLevelAmong(s, cmp, y, all);
    SortKeepsLevel(s, cmp, TiesWith(cmp, y));
  }

  /** Stability by induction: elements of `p` that compare at most equal
      to each other keep their order. */
  lemma {:induction false} SortKeepsLevel<T>(s: seq<T>, cmp: (T, T) -> int, p: T -> bool)
    requires LevelAmong(s, cmp, p)
    ensures Filter(Sort(s, cmp), p) == Filter(s, p)
  {
    if s != [] {
      var x, rest := s[0], s[1..];
      assert forall z :: z in rest ==> z in s;
      SortKeepsLevel(rest, cmp, p);
      SortPermutes(rest, cmp);
      var t := Sort(rest, cmp);
      forall z | z in t ensures z in s {
        assert z in multiset(rest);
      }
      assert x in s;
      InsertKeepsTies(x, t, cmp, p);
      assert s == [x] + rest;
      FilterCons(x, rest, p);
    }
  }
}
