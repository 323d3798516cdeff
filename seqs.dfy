/** The array methods `filter` and `sort` of the JavaScript runtime, as
    functions on sequences. */
module Seqs {

  /** `s.filter(p)`: the elements that pass, in their original order. */
  function Filter<T>(s: seq<T>, p: T -> bool): (r: seq<T>)
    ensures |r| <= |s|
    ensures forall i :: 0 <= i < |r| ==> r[i] in s && p(r[i])
    ensures forall i :: 0 <= i < |s| && p(s[i]) ==> s[i] in r
    ensures multiset(r) <= multiset(s)
    decreases |s|
  {
    if |s| == 0 then []
    else
      assert s == [s[0]] + s[1..];
      if p(s[0]) then [s[0]] + Filter(s[1..], p)
      else Filter(s[1..], p)
  }

  /** Filtering a concatenation filters each part. */
  lemma {:induction false} FilterAppend<T>(a: seq<T>, b: seq<T>, p: T -> bool)
    ensures Filter(a + b, p) == Filter(a, p) + Filter(b, p)
    decreases |a|
  {
    if |a| > 0 {
      assert (a + b)[1..] == a[1..] + b;
      assert (a + b)[0] == a[0];
      FilterAppend(a[1..], b, p);
      if p(a[0]) {
        assert Filter(a + b, p) == [a[0]] + Filter(a[1..] + b, p);
      }
    } else {
      assert a + b == b;
    }
  }

  /** The number of elements that satisfy `p`. */
  function Count<T>(s: seq<T>, p: T -> bool): nat {
    |Filter(s, p)|
  }

  /** Counting over one more element. */
  lemma CountSnoc<T>(s: seq<T>, x: T, p: T -> bool)
    ensures Count(s + [x], p) == Count(s, p) + (if p(x) then 1 else 0)
  {
    FilterAppend(s, [x], p);
  }

  /** A filter that keeps everything is the identity. */
  lemma {:induction false} FilterAll<T>(s: seq<T>, p: T -> bool)
    requires forall i :: 0 <= i < |s| ==> p(s[i])
    ensures Filter(s, p) == s
    decreases |s|
  {
    if |s| > 0 {
      FilterAll(s[1..], p);
    }
  }

  /** Elements satisfying one of two disjoint predicates are counted apart. */
  lemma {:induction false} CountDisjointUnion<T>(s: seq<T>, p: T -> bool, q: T -> bool, pq: T -> bool)
    requires forall i :: 0 <= i < |s| ==> pq(s[i]) == (p(s[i]) || q(s[i]))
    requires forall i :: 0 <= i < |s| ==> !(p(s[i]) && q(s[i]))
    ensures Count(s, pq) == Count(s, p) + Count(s, q)
    decreases |s|
  {
    if |s| > 0 {
      CountDisjointUnion(s[1..], p, q, pq);
    }
  }

  /** A second, stricter filter makes the first one redundant. */
  lemma {:induction false} FilterFilterImplied<T>(s: seq<T>, p: T -> bool, q: T -> bool)
    requires forall i :: 0 <= i < |s| && q(s[i]) ==> p(s[i])
    ensures Filter(Filter(s, p), q) == Filter(s, q)
    decreases |s|
  {
    if |s| > 0 {
      FilterFilterImplied(s[1..], p, q);
      if p(s[0]) {
        assert Filter(s, p) == [s[0]] + Filter(s[1..], p);
        assert Filter(s, p)[1..] == Filter(s[1..], p);
      }
    }
  }

  /** Filters that agree on every element give the same result. */
  lemma {:induction false} FilterExt<T>(s: seq<T>, p: T -> bool, q: T -> bool)
    requires forall i :: 0 <= i < |s| ==> p(s[i]) == q(s[i])
    ensures Filter(s, p) == Filter(s, q)
    decreases |s|
  {
    if |s| > 0 {
      FilterExt(s[1..], p, q);
    }
  }

  /** Two filters in a row keep what passes both. */
  lemma {:induction false} FilterFilter<T>(s: seq<T>, p: T -> bool, q: T -> bool, pq: T -> bool)
    requires forall i :: 0 <= i < |s| ==> pq(s[i]) == (p(s[i]) && q(s[i]))
    ensures Filter(Filter(s, p), q) == Filter(s, pq)
    decreases |s|
  {
    if |s| > 0 {
      FilterFilter(s[1..], p, q, pq);
      if p(s[0]) {
        assert Filter(s, p) == [s[0]] + Filter(s[1..], p);
        assert Filter(s, p)[1..] == Filter(s[1..], p);
      }
    }
  }

  /** `s.map(f)`. */
  function Map<A, B>(s: seq<A>, f: A -> B): (r: seq<B>)
    ensures |r| == |s|
    ensures forall i :: 0 <= i < |s| ==> r[i] == f(s[i])
  {
    seq(|s|, i requires 0 <= i < |s| => f(s[i]))
  }

  /** Counting after a map counts the inputs whose image passes. */
  lemma {:induction false} CountMap<A, B>(s: seq<A>, f: A -> B, q: B -> bool, qf: A -> bool)
    requires forall i :: 0 <= i < |s| ==> qf(s[i]) == q(f(s[i]))
    ensures Count(Map(s, f), q) == Count(s, qf)
    decreases |s|
  {
    if |s| > 0 {
      assert Map(s, f)[1..] == Map(s[1..], f);
      CountMap(s[1..], f, q, qf);
    }
  }

  // ---------------------------------------------------------------------
  // sort

  /** What `Array.prototype.sort` needs of its comparison function to give
      a well-defined order: the sign flips when the arguments are swapped, and
      "not after" is transitive. */
  ghost predicate IsComparator<T(!new)>(cmp: (T, T) -> int) {
    && (forall a, b :: cmp(a, b) < 0 <==> cmp(b, a) > 0)
    && (forall a, b, c :: cmp(a, b) <= 0 && cmp(b, c) <= 0 ==> cmp(a, c) <= 0)
  }

  /** No element comes after a later one. */
  ghost predicate SortedBy<T>(s: seq<T>, cmp: (T, T) -> int) {
    forall i, j :: 0 <= i < j < |s| ==> cmp(s[i], s[j]) <= 0
  }

  /** Insert `x` in front of the first element it does not come after. */
  function InsertBy<T>(x: T, s: seq<T>, cmp: (T, T) -> int): (r: seq<T>)
    ensures multiset(r) == multiset(s) + multiset{x}
    ensures |r| == |s| + 1
    decreases |s|
  {
    if |s| == 0 then [x]
    else if cmp(x, s[0]) <= 0 then [x] + s
    else
      assert s == [s[0]] + s[1..];
      [s[0]] + InsertBy(x, s[1..], cmp)
  }

  /** A stable sort: `s.sort(cmp)` on a copy. Ties keep their input order,
      because each element goes in front of the equal ones that followed it. */
  function SortBy<T>(s: seq<T>, cmp: (T, T) -> int): (r: seq<T>)
    ensures multiset(r) == multiset(s)
    ensures |r| == |s|
    decreases |s|
  {
    if |s| == 0 then []
    else
      assert s == [s[0]] + s[1..];
      InsertBy(s[0], SortBy(s[1..], cmp), cmp)
  }

  lemma {:induction false} InsertBySorted<T(!new)>(x: T, s: seq<T>, cmp: (T, T) -> int)
    requires IsComparator(cmp)
    requires SortedBy(s, cmp)
    ensures SortedBy(InsertBy(x, s, cmp), cmp)
    decreases |s|
  {
    if |s| > 0 && cmp(x, s[0]) > 0 {
      InsertBySorted(x, s[1..], cmp);
      var r := InsertBy(x, s[1..], cmp);
      forall k | 0 <= k < |r| ensures cmp(s[0], r[k]) <= 0 {
        assert r[k] in multiset(r);
        if r[k] != x {
          assert r[k] in multiset(s[1..]);
          var m :| 0 <= m < |s[1..]| && s[1..][m] == r[k];
          assert s[m + 1] == r[k];
        }
      }
    }
  }

  /** The sort's result is ordered by any comparator in the above sense. */
  lemma {:induction false} SortBySorted<T(!new)>(s: seq<T>, cmp: (T, T) -> int)
    requires IsComparator(cmp)
    ensures SortedBy(SortBy(s, cmp), cmp)
    decreases |s|
  {
    if |s| > 0 {
      SortBySorted(s[1..], cmp);
      InsertBySorted(s[0], SortBy(s[1..], cmp), cmp);
    }
  }

  /** Inserting `x` puts it behind no element it ties with: the elements
      that tie pairwise with one another keep their order, with `x` first. */
  lemma {:induction false} InsertByTies<T(!new)>(x: T, s: seq<T>, cmp: (T, T) -> int, tie: T -> bool)
    requires forall y, z :: tie(y) && tie(z) ==> cmp(y, z) <= 0
    ensures Filter(InsertBy(x, s, cmp), tie) == (if tie(x) then [x] else []) + Filter(s, tie)
    decreases |s|
  {
    if |s| == 0 || cmp(x, s[0]) <= 0 {
      assert InsertBy(x, s, cmp) == [x] + s;
      FilterCons(x, s, tie);
    } else {
      var front := if tie(x) then [x] else [];
      var head := if tie(s[0]) then [s[0]] else [];
      var rest := InsertBy(x, s[1..], cmp);
      assert InsertBy(x, s, cmp) == [s[0]] + rest;
      InsertByTies(x, s[1..], cmp, tie);
      FilterCons(s[0], rest, tie);
      assert s == [s[0]] + s[1..];
      FilterCons(s[0], s[1..], tie);
      assert !(tie(x) && tie(s[0]));
      SwapAroundEmpty(head, front, Filter(s[1..], tie));
    }
  }

  /** Two prefixes of which one is empty can be swapped. */
  lemma SwapAroundEmpty<T>(a: seq<T>, b: seq<T>, c: seq<T>)
    requires a == [] || b == []
    ensures a + (b + c) == b + (a + c)
  {
    if a == [] {
      assert a + (b + c) == b + c == b + (a + c);
    } else {
      assert a + (b + c) == a + c == b + (a + c);
    }
  }

  /** Filtering a sequence with a given first element. */
  lemma FilterCons<T>(h: T, t: seq<T>, p: T -> bool)
    ensures Filter([h] + t, p) == (if p(h) then [h] else []) + Filter(t, p)
  {
    assert ([h] + t)[1..] == t;
  }

  /** The sort keeps the input order of any set of elements that tie
      pairwise. */
  lemma {:induction false} SortByKeepsTies<T(!new)>(s: seq<T>, cmp: (T, T) -> int, tie: T -> bool)
    requires forall y, z :: tie(y) && tie(z) ==> cmp(y, z) <= 0
    ensures Filter(SortBy(s, cmp), tie) == Filter(s, tie)
    decreases |s|
  {
    if |s| > 0 {
      SortByKeepsTies(s[1..], cmp, tie);
      InsertByTies(s[0], SortBy(s[1..], cmp), cmp, tie);
    }
  }

  /** The elements that compare equal to `a`. */
  function TiesWith<T>(cmp: (T, T) -> int, a: T): T -> bool {
    (y: T) => cmp(y, a) == 0
  }

  /** Stability: under a valid comparator, the elements that compare equal
      to any `a` come out in their input order. */
  lemma SortByStable<T(!new)>(s: seq<T>, cmp: (T, T) -> int, a: T)
    requires IsComparator(cmp)
    ensures Filter(SortBy(s, cmp), TiesWith(cmp, a)) == Filter(s, TiesWith(cmp, a))
  {
    var tie := TiesWith(cmp, a);
    forall y, z | tie(y) && tie(z) ensures cmp(y, z) <= 0 {
      assert cmp(y, a) <= 0 && cmp(a, z) <= 0;
    }
    SortByKeepsTies(s, cmp, tie);
  }

  /** With a comparison that is always 0, the input order is kept. */
  lemma {:induction false} SortByAllTies<T>(s: seq<T>, cmp: (T, T) -> int)
    requires forall i, j :: 0 <= i < |s| && 0 <= j < |s| ==> cmp(s[i], s[j]) == 0
    ensures SortBy(s, cmp) == s
    decreases |s|
  {
    if |s| > 0 {
      SortByAllTies(s[1..], cmp);
      assert s == [s[0]] + s[1..];
      if |s| > 1 {
        assert cmp(s[0], s[1]) == 0;
      }
    }
  }
}
