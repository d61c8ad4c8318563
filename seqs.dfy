/** Order-preserving selection over sequences: `Array.prototype.filter` and SQL `WHERE`. */
module Seqs {
  import opened Wrappers

  /** `a` can be obtained from `b` by deleting elements, keeping the order of the rest. */
  ghost predicate IsSubsequence<T>(a: seq<T>, b: seq<T>)
    decreases |b|
  {
    if a == [] then true
    else if b == [] then false
    else (a[0] == b[0] && IsSubsequence(a[1..], b[1..])) || IsSubsequence(a, b[1..])
  }

  /** The elements of `s` that satisfy `p`, in their original order. */
  function Filter<T>(s: seq<T>, p: T -> bool): (r: seq<T>)
    ensures |r| <= |s|
    ensures forall i :: 0 <= i < |r| ==> p(r[i])
    ensures forall i :: 0 <= i < |r| ==> r[i] in s
    ensures forall i :: 0 <= i < |s| && p(s[i]) ==> s[i] in r
  {
    if s == [] then []
    else if p(s[0]) then [s[0]] + Filter(s[1..], p)
    else Filter(s[1..], p)
  }

  /** A filter keeps every copy of an element that satisfies `p` and no copy of one that does
      not: the multiplicities, not only the members, are those of `s`. */
  lemma {:induction false} FilterCount<T>(s: seq<T>, p: T -> bool, x: T)
    ensures multiset(Filter(s, p))[x] == if p(x) then multiset(s)[x] else 0
    decreases |s|
  {
    if s != [] {
      FilterCount(s[1..], p, x);
      assert s == [s[0]] + s[1..];
      if p(s[0]) {
        assert Filter(s, p) == [s[0]] + Filter(s[1..], p);
      }
    }
  }

  lemma {:induction false} SubsequenceReflexive<T>(s: seq<T>)
    ensures IsSubsequence(s, s)
    decreases |s|
  {
    if s != [] {
      SubsequenceReflexive(s[1..]);
    }
  }

  lemma {:induction false} FilterIsSubsequence<T>(s: seq<T>, p: T -> bool)
    ensures IsSubsequence(Filter(s, p), s)
    decreases |s|
  {
    if s != [] {
      FilterIsSubsequence(s[1..], p);
      var r := Filter(s, p);
      if p(s[0]) {
        assert r[0] == s[0] && r[1..] == Filter(s[1..], p);
      } else if r != [] {
        assert r == Filter(s[1..], p);
      }
    }
  }

  lemma {:induction false} SubsequenceTransitive<T>(a: seq<T>, b: seq<T>, c: seq<T>)
    requires IsSubsequence(a, b) && IsSubsequence(b, c)
    ensures IsSubsequence(a, c)
    decreases |c|
  {
    if a != [] {
      assert b != [] && c != [];
      if b[0] == c[0] && IsSubsequence(b[1..], c[1..]) {
        if a[0] == b[0] && IsSubsequence(a[1..], b[1..]) {
          SubsequenceTransitive(a[1..], b[1..], c[1..]);
        } else {
          SubsequenceTransitive(a, b[1..], c[1..]);
        }
      } else {
        SubsequenceTransitive(a, b, c[1..]);
      }
    }
  }

  /** Filtering twice equals filtering once by the conjunction. */
  lemma {:induction false} FilterFilter<T>(s: seq<T>, p: T -> bool, q: T -> bool)
    ensures Filter(Filter(s, p), q) == Filter(s, x => p(x) && q(x))
    decreases |s|
  {
    if s != [] {
      FilterFilter(s[1..], p, q);
      if p(s[0]) {
        assert Filter(s, p) == [s[0]] + Filter(s[1..], p);
        assert ([s[0]] + Filter(s[1..], p))[1..] == Filter(s[1..], p);
      }
    }
  }

  /** A filter whose predicate holds everywhere keeps the whole sequence. */
  lemma {:induction false} FilterAll<T>(s: seq<T>, p: T -> bool)
    requires forall i :: 0 <= i < |s| ==> p(s[i])
    ensures Filter(s, p) == s
    decreases |s|
  {
    if s != [] {
      FilterAll(s[1..], p);
    }
  }

  /** Two predicates that agree on every element of `s` filter it alike. */
  lemma {:induction false} FilterAgree<T>(s: seq<T>, p: T -> bool, q: T -> bool)
    requires forall i :: 0 <= i < |s| ==> p(s[i]) == q(s[i])
    ensures Filter(s, p) == Filter(s, q)
    decreases |s|
  {
    if s != [] {
      FilterAgree(s[1..], p, q);
    }
  }

  /** Filtering by `p` and then by `q` is filtering by any predicate that is their conjunction. */
  lemma {:induction false} FilterThen<T>(s: seq<T>, p: T -> bool, q: T -> bool, pq: T -> bool)
    requires forall i :: 0 <= i < |s| ==> pq(s[i]) == (p(s[i]) && q(s[i]))
    ensures Filter(Filter(s, p), q) == Filter(s, pq)
    decreases |s|
  {
    if s != [] {
      FilterThen(s[1..], p, q, pq);
      if p(s[0]) {
        assert Filter(s, p) == [s[0]] + Filter(s[1..], p);
        assert ([s[0]] + Filter(s[1..], p))[1..] == Filter(s[1..], p);
      }
    }
  }

  /** `if (active) s = s.filter(p)`: one optional stage of a filter chain. */
  function FilterIf<T(!new)>(s: seq<T>, active: bool, p: T -> bool): (r: seq<T>)
    ensures IsSubsequence(r, s)
    ensures !active ==> r == s
    ensures active ==> r == Filter(s, p)
    ensures forall x :: x in r ==> x in s && (active ==> p(x))
    ensures forall x :: x in s && (!active || p(x)) ==> x in r
  {
    if active then
      FilterIsSubsequence(s, p);
      Filter(s, p)
    else
      SubsequenceReflexive(s);
      s
  }

  /** An optional stage is a filter by "inactive, or `p`". */
  lemma FilterIfIsFilter<T(!new)>(s: seq<T>, active: bool, p: T -> bool, g: T -> bool)
    requires forall i :: 0 <= i < |s| ==> g(s[i]) == (!active || p(s[i]))
    ensures FilterIf(s, active, p) == Filter(s, g)
  {
    if active {
      FilterAgree(s, p, g);
    } else {
      FilterAll(s, g);
    }
  }

  /** An optional stage after a filter by `q` is one filter by `qg`, the conjunction of `q` with
      the stage's condition. */
  lemma FilterIfThen<T(!new)>(s: seq<T>, base: seq<T>, q: T -> bool, active: bool, p: T -> bool, qg: T -> bool)
    requires s == Filter(base, q)
    requires forall i :: 0 <= i < |base| ==> qg(base[i]) == (q(base[i]) && (!active || p(base[i])))
    ensures FilterIf(s, active, p) == Filter(base, qg)
  {
    var g := x => !active || p(x);
    FilterIfIsFilter(s, active, p, g);
    FilterThen(base, q, g, qg);
  }

  /** Maps `f` over `s` and keeps the defined results, in order: an inner join that pairs each
      row with at most one partner. */
  function FilterMap<A, B>(s: seq<A>, f: A -> Option<B>): (r: seq<B>)
    ensures |r| <= |s|
    ensures forall i :: 0 <= i < |s| && f(s[i]).Some? ==> f(s[i]).value in r
    ensures forall j :: 0 <= j < |r| ==> exists i :: 0 <= i < |s| && f(s[i]) == Some(r[j])
    decreases |s|
  {
    if s == [] then []
    else
      var rest := FilterMap(s[1..], f);
      assert forall j :: 0 <= j < |rest| ==> exists i :: 0 <= i < |s[1..]| && f(s[1..][i]) == Some(rest[j]);
      match f(s[0])
      case None => rest
      case Some(y) => [y] + rest
  }

  /** One step of `Filter`: the head if it is kept, followed by the filtered rest. */
  lemma FilterCons<T>(s: seq<T>, p: T -> bool)
    requires s != []
    ensures Filter(s, p) == (if p(s[0]) then [s[0]] else []) + Filter(s[1..], p)
  {
  }

  /** One step of `FilterMap`: the image of the head, if any, followed by the rest. */
  lemma FilterMapCons<A, B>(s: seq<A>, f: A -> Option<B>)
    requires s != []
    ensures FilterMap(s, f) == (if f(s[0]).Some? then [f(s[0]).value] else []) + FilterMap(s[1..], f)
  {
  }

  /** `FilterMap` keeps order and multiplicity: its result is, position by position, the image
      of the elements on which `f` is defined, taken in their original order. */
  lemma {:induction false} FilterMapInOrder<A, B>(s: seq<A>, f: A -> Option<B>)
    ensures var d := Filter(s, x => f(x).Some?);
      |FilterMap(s, f)| == |d| && forall k :: 0 <= k < |d| ==> f(d[k]) == Some(FilterMap(s, f)[k])
    decreases |s|
  {
    if s != [] {
      FilterMapInOrder(s[1..], f);
      FilterMapCons(s, f);
      FilterCons(s, x => f(x).Some?);
      if f(s[0]).Some? {
        ConsPositions(s[0], Filter(s[1..], x => f(x).Some?), f(s[0]).value, FilterMap(s[1..], f), f);
      }
    }
  }

  /** Prepending a pair related by `f` to two lists related position by position keeps them so. */
  lemma ConsPositions<A, B>(a: A, d: seq<A>, b: B, r: seq<B>, f: A -> Option<B>)
    requires f(a) == Some(b)
    requires |r| == |d| && forall k :: 0 <= k < |d| ==> f(d[k]) == Some(r[k])
    ensures var fd, fm := [a] + d, [b] + r;
      |fm| == |fd| && forall k :: 0 <= k < |fd| ==> f(fd[k]) == Some(fm[k])
  {
    var fd, fm := [a] + d, [b] + r;
    forall k | 0 < k < |fd| ensures f(fd[k]) == Some(fm[k]) {
      assert fd[k] == d[k - 1] && fm[k] == r[k - 1];
    }
  }

  /** No two elements of `s` have the same key. */
  ghost predicate DistinctBy<T, K>(s: seq<T>, key: T -> K) {
    forall j, k :: 0 <= j < k < |s| ==> key(s[j]) != key(s[k])
  }

  lemma DistinctTail<T, K>(s: seq<T>, key: T -> K)
    requires s != [] && DistinctBy(s, key)
    ensures DistinctBy(s[1..], key)
  {
    var t := s[1..];
    forall j, k | 0 <= j < k < |t| ensures key(t[j]) != key(t[k]) {
      assert t[j] == s[j + 1] && t[k] == s[k + 1];
    }
  }

  /** A filter of a list with distinct keys has distinct keys. */
  lemma {:induction false} FilterDistinct<T, K>(s: seq<T>, p: T -> bool, key: T -> K)
    requires DistinctBy(s, key)
    ensures DistinctBy(Filter(s, p), key)
    decreases |s|
  {
    if s != [] && p(s[0]) {
      var t := s[1..];
      DistinctTail(s, key);
      FilterDistinct(t, p, key);
      var r, rest := Filter(s, p), Filter(t, p);
      assert r == [s[0]] + rest;
      forall j, k | 0 <= j < k < |r| ensures key(r[j]) != key(r[k]) {
        assert r[k] == rest[k - 1];
        if j == 0 {
          assert rest[k - 1] in t;
          var i :| 0 <= i < |t| && t[i] == rest[k - 1];
          assert t[i] == s[i + 1];
        } else {
          assert r[j] == rest[j - 1];
        }
      }
    } else if s != [] {
      DistinctTail(s, key);
      FilterDistinct(s[1..], p, key);
    }
  }

  /** A join whose result carries the key of the row it came from keeps keys distinct. */
  lemma FilterMapDistinct<A, B, K>(s: seq<A>, f: A -> Option<B>, ka: A -> K, kb: B -> K)
    requires forall x :: f(x).Some? ==> kb(f(x).value) == ka(x)
    requires DistinctBy(s, ka)
    ensures DistinctBy(FilterMap(s, f), kb)
  {
    FilterMapInOrder(s, f);
    FilterDistinct(s, x => f(x).Some?, ka);
    var r, d := FilterMap(s, f), Filter(s, x => f(x).Some?);
    forall j, k | 0 <= j < k < |r| ensures kb(r[j]) != kb(r[k]) {
      assert f(d[j]) == Some(r[j]) && f(d[k]) == Some(r[k]);
    }
  }

  /** Taking out position `i` removes one copy of `b[i]`; what is left keeps distinct keys, none
      equal to the key of `b[i]`. */
  lemma RemoveAt<T, K>(b: seq<T>, i: nat, key: T -> K)
    requires i < |b| && DistinctBy(b, key)
    ensures var rest := b[..i] + b[i + 1..];
      && multiset(rest) == multiset(b) - multiset{b[i]}
      && DistinctBy(rest, key)
      && forall m :: 0 <= m < |rest| ==> key(rest[m]) != key(b[i])
  {
    var rest := b[..i] + b[i + 1..];
    assert b == b[..i] + [b[i]] + b[i + 1..];
    assert multiset(b) == multiset(b[..i]) + multiset{b[i]} + multiset(b[i + 1..]);
    forall j, k | 0 <= j < k < |rest| ensures key(rest[j]) != key(rest[k]) {
      var j', k' := (if j < i then j else j + 1), (if k < i then k else k + 1);
      assert rest[j] == b[j'] && rest[k] == b[k'];
    }
    forall m | 0 <= m < |rest| ensures key(rest[m]) != key(b[i]) {
      var m' := if m < i then m else m + 1;
      assert rest[m] == b[m'];
    }
  }

  /** Reordering a list whose keys are pairwise distinct keeps them pairwise distinct. */
  lemma {:induction false} PermutationKeepsDistinct<T, K>(a: seq<T>, b: seq<T>, key: T -> K)
    requires multiset(a) == multiset(b) && DistinctBy(b, key)
    ensures DistinctBy(a, key)
    decreases |a|
  {
    if a != [] {
      assert a[0] in multiset(b);
      var i :| 0 <= i < |b| && b[i] == a[0];
      var rest := b[..i] + b[i + 1..];
      RemoveAt(b, i, key);
      assert a == [a[0]] + a[1..];
      assert multiset(a[1..]) == multiset(a) - multiset{a[0]};
      PermutationKeepsDistinct(a[1..], rest, key);
      forall j, k | 0 <= j < k < |a| ensures key(a[j]) != key(a[k]) {
        assert a[k] == a[1..][k - 1];
        if j == 0 {
          assert a[k] in multiset(rest);
          var m :| 0 <= m < |rest| && rest[m] == a[k];
        } else {
          assert a[j] == a[1..][j - 1];
        }
      }
    }
  }
}
