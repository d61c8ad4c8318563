/**
 * Sorting as the core does it: SQL `ORDER BY` over rows and the JavaScript comparator sort in
 * the client. Rows are ordered by a `Key` under a strict total order; the sort is stable, so
 * rows with equal keys keep their table order (`SortByStable`).
 */
module Ordering {
  import opened Wrappers
  import Seqs

  /** A sort key: a number, a string (compared character by character, as JavaScript `<` and a
      byte-order collation do), a number followed by a nullable number (`ORDER BY a, b` with
      NULLs last), or JavaScript `undefined`, which is neither less nor greater than itself. */
  datatype Key = Num(n: int) | Text(s: string) | Pair(major: int, minor: Option<int>) | Absent

  datatype Direction = Asc | Desc

  /** Lexicographic order: a proper prefix comes first. */
  predicate StrLess(a: string, b: string)
    decreases |a|
  {
    b != [] && (a == [] || a[0] < b[0] || (a[0] == b[0] && StrLess(a[1..], b[1..])))
  }

  lemma {:induction false} StrLessIrreflexive(a: string)
    ensures !StrLess(a, a)
    decreases |a|
  {
    if a != [] {
      StrLessIrreflexive(a[1..]);
    }
  }

  lemma {:induction false} StrLessTransitive(a: string, b: string, c: string)
    requires StrLess(a, b) && StrLess(b, c)
    ensures StrLess(a, c)
    decreases |a|
  {
    if a != [] && a[0] == b[0] && b[0] == c[0] {
      StrLessTransitive(a[1..], b[1..], c[1..]);
    }
  }

  lemma {:induction false} StrLessTotal(a: string, b: string)
    ensures a == b || StrLess(a, b) || StrLess(b, a)
    decreases |a|
  {
    if a != [] && b != [] && a[0] == b[0] {
      StrLessTotal(a[1..], b[1..]);
      if a[1..] == b[1..] {
        assert a == [a[0]] + a[1..] && b == [b[0]] + b[1..];
      }
    }
  }

  /** A nullable number; SQL puts NULL after every number in ascending order. */
  predicate OptLess(a: Option<int>, b: Option<int>) {
    match a
    case None => false
    case Some(x) => b.None? || x < b.value
  }

  function Rank(k: Key): nat {
    match k
    case Num(_) => 0
    case Text(_) => 1
    case Pair(_, _) => 2
    case Absent => 3
  }

  predicate KeyLess(a: Key, b: Key) {
    if Rank(a) != Rank(b) then Rank(a) < Rank(b)
    else match a
      case Num(x) => x < b.n
      case Text(x) => StrLess(x, b.s)
      case Pair(x, y) => x < b.major || (x == b.major && OptLess(y, b.minor))
      case Absent => false
  }

  lemma KeyLessIrreflexive(a: Key)
    ensures !KeyLess(a, a)
  {
    if a.Text? {
      StrLessIrreflexive(a.s);
    }
  }

  lemma KeyLessTransitive(a: Key, b: Key, c: Key)
    requires KeyLess(a, b) && KeyLess(b, c)
    ensures KeyLess(a, c)
  {
    if a.Text? && b.Text? && c.Text? {
      StrLessTransitive(a.s, b.s, c.s);
    }
  }

  lemma KeyLessTotal(a: Key, b: Key)
    ensures a == b || KeyLess(a, b) || KeyLess(b, a)
  {
    if a.Text? && b.Text? {
      StrLessTotal(a.s, b.s);
    }
  }

  /** `Before(dir, a, b)`: a row with key `a` is placed ahead of a row with key `b`. */
  predicate Before(dir: Direction, a: Key, b: Key) {
    if dir == Asc then KeyLess(a, b) else KeyLess(b, a)
  }

  /** `a <= b` and `b <= c` give `a <= c`. */
  lemma NotLessTransitive(a: Key, b: Key, c: Key)
    requires !KeyLess(b, a) && !KeyLess(c, b)
    ensures !KeyLess(c, a)
  {
    KeyLessTotal(a, b);
    KeyLessTotal(b, c);
    KeyLessIrreflexive(a);
    KeyLessIrreflexive(b);
    KeyLessIrreflexive(c);
    if KeyLess(c, a) {
      if a == b {
        if b != c { KeyLessTransitive(b, c, b); }
      } else if b == c {
        KeyLessTransitive(c, a, b);
      } else {
        KeyLessTransitive(a, b, c);
        KeyLessTransitive(a, c, a);
      }
    }
  }

  /** Not being placed ahead is transitive: keys form a strict total order. */
  lemma NotBeforeTransitive(dir: Direction, a: Key, b: Key, c: Key)
    requires !Before(dir, a, b) && !Before(dir, b, c)
    ensures !Before(dir, a, c)
  {
    if dir == Asc { NotLessTransitive(c, b, a); } else { NotLessTransitive(a, b, c); }
  }

  lemma BeforeAsymmetric(dir: Direction, a: Key, b: Key)
    requires Before(dir, a, b)
    ensures !Before(dir, b, a)
  {
    if Before(dir, b, a) {
      if dir == Asc { KeyLessTransitive(a, b, a); } else { KeyLessTransitive(b, a, b); }
      KeyLessIrreflexive(a);
      KeyLessIrreflexive(b);
    }
  }

  /** No element is placed ahead of an element that precedes it. */
  ghost predicate SortedBy<T>(s: seq<T>, key: T -> Key, dir: Direction) {
    forall i, j :: 0 <= i < j < |s| ==> !Before(dir, key(s[j]), key(s[i]))
  }

  /** Puts `x` ahead of the first element it is not placed behind. */
  function Insert<T>(x: T, s: seq<T>, key: T -> Key, dir: Direction): (r: seq<T>)
    requires SortedBy(s, key, dir)
    ensures multiset(r) == multiset(s) + multiset{x}
    ensures SortedBy(r, key, dir)
    decreases |s|
  {
    if s == [] || !Before(dir, key(s[0]), key(x)) then
      InsertAhead(x, s, key, dir);
      [x] + s
    else
      var t := Insert(x, s[1..], key, dir);
      InsertBehind(x, s, t, key, dir);
      assert s == [s[0]] + s[1..];
      [s[0]] + t
  }

  lemma InsertAhead<T>(x: T, s: seq<T>, key: T -> Key, dir: Direction)
    requires SortedBy(s, key, dir)
    requires s == [] || !Before(dir, key(s[0]), key(x))
    ensures SortedBy([x] + s, key, dir)
  {
    var r := [x] + s;
    forall i, j | 0 <= i < j < |r| ensures !Before(dir, key(r[j]), key(r[i])) {
      if i == 0 && j > 1 {
        NotBeforeTransitive(dir, key(s[j - 1]), key(s[0]), key(x));
      }
    }
  }

  lemma InsertBehind<T>(x: T, s: seq<T>, t: seq<T>, key: T -> Key, dir: Direction)
    requires SortedBy(s, key, dir) && s != [] && Before(dir, key(s[0]), key(x))
    requires multiset(t) == multiset(s[1..]) + multiset{x} && SortedBy(t, key, dir)
    ensures SortedBy([s[0]] + t, key, dir)
  {
    var r := [s[0]] + t;
    forall j | 0 < j < |r| ensures !Before(dir, key(r[j]), key(s[0])) {
      assert r[j] in multiset(t);
      if r[j] == x {
        BeforeAsymmetric(dir, key(s[0]), key(x));
      } else {
        assert r[j] in multiset(s[1..]);
        var k :| 0 <= k < |s[1..]| && s[1..][k] == r[j];
        assert s[k + 1] == r[j];
      }
    }
  }

  /** A stable sort of `s` by `key` in direction `dir`. */
  function SortBy<T>(s: seq<T>, key: T -> Key, dir: Direction): (r: seq<T>)
    ensures multiset(r) == multiset(s) && |r| == |s|
    ensures SortedBy(r, key, dir)
    decreases |s|
  {
    if s == [] then []
    else
      assert s == [s[0]] + s[1..];
      Insert(s[0], SortBy(s[1..], key, dir), key, dir)
  }

  /** The test "has key `k`" that picks out one group of ties. */
  function HasKey<T>(key: T -> Key, k: Key): T -> bool {
    y => key(y) == k
  }

  /** Inserting `x` leaves the elements with key `k` in their order: `x` goes ahead of every
      element whose key equals its own, and behind only elements with other keys. */
  lemma {:induction false} InsertStable<T>(x: T, t: seq<T>, key: T -> Key, dir: Direction, k: Key)
    requires SortedBy(t, key, dir)
    ensures Seqs.Filter(Insert(x, t, key, dir), HasKey(key, k))
      == (if key(x) == k then [x] else []) + Seqs.Filter(t, HasKey(key, k))
    decreases |t|
  {
    var p := HasKey(key, k);
    var r := Insert(x, t, key, dir);
    if t == [] || !Before(dir, key(t[0]), key(x)) {
      assert r == [x] + t;
      Seqs.FilterCons(r, p);
      assert r[1..] == t;
    } else {
      KeyLessIrreflexive(key(x));
      InsertStable(x, t[1..], key, dir, k);
      var rest := Insert(x, t[1..], key, dir);
      assert r == [t[0]] + rest;
      Seqs.FilterCons(r, p);
      assert r[1..] == rest;
      Seqs.FilterCons(t, p);
    }
  }

  /** The sort is stable: the elements with any one key come out in the order they went in. */
  lemma {:induction false} SortByStable<T>(s: seq<T>, key: T -> Key, dir: Direction, k: Key)
    ensures Seqs.Filter(SortBy(s, key, dir), HasKey(key, k)) == Seqs.Filter(s, HasKey(key, k))
    decreases |s|
  {
    if s != [] {
      SortByStable(s[1..], key, dir, k);
      InsertStable(s[0], SortBy(s[1..], key, dir), key, dir, k);
      Seqs.FilterCons(s, HasKey(key, k));
    }
  }

  /** A reordering holds the same elements. */
  lemma SameElements<T>(a: seq<T>, b: seq<T>)
    requires multiset(a) == multiset(b)
    ensures forall i :: 0 <= i < |a| ==> a[i] in b
    ensures forall j :: 0 <= j < |b| ==> b[j] in a
  {
    assert forall i :: 0 <= i < |a| ==> a[i] in multiset(b);
    assert forall j :: 0 <= j < |b| ==> b[j] in multiset(a);
  }
}
