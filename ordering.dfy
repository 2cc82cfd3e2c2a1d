/** Python's `sorted(xs, key=...)` for the keys the catalog scripts sort by.

    Every such key is a number, a string, or a tuple of a number and a
    string (a count negated for "descending"). `SortKey` holds both parts;
    a key without a number uses rank 0, one without a string uses "". Keys
    compare as Python compares tuples: by rank, then by text, strings by
    code point with a proper prefix first. */
module Ordering {

  /** Python's `a < b` on strings. */
  predicate LexLess(a: string, b: string)
    decreases |a|
  {
    |b| > 0 && (|a| == 0 || a[0] < b[0] || (a[0] == b[0] && LexLess(a[1..], b[1..])))
  }

  lemma {:induction false} LexLessIrreflexive(a: string)
    ensures !LexLess(a, a)
    decreases |a|
  {
    if |a| > 0 {
      LexLessIrreflexive(a[1..]);
    }
  }

  lemma {:induction false} LexLessTransitive(a: string, b: string, c: string)
    requires LexLess(a, b) && LexLess(b, c)
    ensures LexLess(a, c)
    decreases |a|
  {
    if |a| > 0 && a[0] == b[0] && b[0] == c[0] {
      LexLessTransitive(a[1..], b[1..], c[1..]);
    }
  }

  /** Two different strings are ordered one way or the other. */
  lemma {:induction false} LexLessTotal(a: string, b: string)
    requires a != b
    ensures LexLess(a, b) || LexLess(b, a)
    decreases |a|
  {
    if |a| > 0 && |b| > 0 && a[0] == b[0] {
      assert a[1..] != b[1..];
      LexLessTotal(a[1..], b[1..]);
    }
  }

  datatype SortKey = SortKey(rank: int, text: string)

  /** Python's `<` on the tuple `(rank, text)`. */
  predicate KeyLess(a: SortKey, b: SortKey) {
    a.rank < b.rank || (a.rank == b.rank && LexLess(a.text, b.text))
  }

  lemma KeyLessIrreflexive(a: SortKey)
    ensures !KeyLess(a, a)
  {
    LexLessIrreflexive(a.text);
  }

  /** If `a` comes before `c`, any `b` comes after `a` or before `c`. */
  lemma KeyLessSplit(a: SortKey, b: SortKey, c: SortKey)
    requires KeyLess(a, c)
    ensures KeyLess(a, b) || KeyLess(b, c)
  {
    if a.rank == b.rank && b.rank == c.rank && !KeyLess(a, b) && !KeyLess(b, c) {
      if a.text == b.text {
      } else if b.text == c.text {
      } else {
        LexLessTotal(a.text, b.text);
        LexLessTotal(b.text, c.text);
        LexLessTransitive(c.text, b.text, a.text);
        LexLessTransitive(a.text, c.text, a.text);
        LexLessIrreflexive(a.text);
      }
    }
  }

  lemma KeyLessTotal(a: SortKey, b: SortKey)
    requires a != b
    ensures KeyLess(a, b) || KeyLess(b, a)
  {
    if a.rank == b.rank {
      LexLessTotal(a.text, b.text);
    }
  }

  lemma KeyLessAsymmetric(a: SortKey, b: SortKey)
    requires KeyLess(a, b)
    ensures !KeyLess(b, a)
  {
    if a.rank == b.rank && LexLess(b.text, a.text) {
      LexLessTransitive(a.text, b.text, a.text);
      LexLessIrreflexive(a.text);
    }
  }

  /** No element has a smaller key than one before it. */
  ghost predicate SortedBy<T>(s: seq<T>, key: T -> SortKey) {
    forall i, j :: 0 <= i < j < |s| ==> !KeyLess(key(s[j]), key(s[i]))
  }

  /** Puts `x` before the first element whose key is not smaller than its own. */
  function Insert<T>(x: T, s: seq<T>, key: T -> SortKey): (r: seq<T>)
    ensures |r| == |s| + 1
  {
    if s == [] || !KeyLess(key(s[0]), key(x)) then [x] + s
    else [s[0]] + Insert(x, s[1..], key)
  }

  /** A stable sort: among elements with equal keys, earlier ones stay first. */
  function SortBy<T>(s: seq<T>, key: T -> SortKey): (r: seq<T>)
    ensures |r| == |s|
  {
    if s == [] then [] else Insert(s[0], SortBy(s[1..], key), key)
  }

  lemma {:induction false} InsertPermutes<T>(x: T, s: seq<T>, key: T -> SortKey)
    ensures multiset(Insert(x, s, key)) == multiset(s) + multiset{x}
    decreases |s|
  {
    if s != [] && KeyLess(key(s[0]), key(x)) {
      InsertPermutes(x, s[1..], key);
      assert s == [s[0]] + s[1..];
    }
  }

  lemma {:induction false} InsertSorted<T>(x: T, s: seq<T>, key: T -> SortKey)
    requires SortedBy(s, key)
    ensures SortedBy(Insert(x, s, key), key)
    decreases |s|
  {
    var r := Insert(x, s, key);
    if s == [] {
    } else if !KeyLess(key(s[0]), key(x)) {
      forall i, j | 0 <= i < j < |r| ensures !KeyLess(key(r[j]), key(r[i])) {
        if i == 0 {
          assert r[j] == s[j - 1];
          if KeyLess(key(s[j - 1]), key(x)) {
            KeyLessSplit(key(s[j - 1]), key(s[0]), key(x));
          }
        } else {
          assert r[i] == s[i - 1] && r[j] == s[j - 1];
        }
      }
    } else {
      var t := s[1..];
      InsertSorted(x, t, key);
      InsertPermutes(x, t, key);
      var it := Insert(x, t, key);
      forall i, j | 0 <= i < j < |r| ensures !KeyLess(key(r[j]), key(r[i])) {
        if i == 0 {
          assert r[j] == it[j - 1];
          assert it[j - 1] in multiset(it);
          assert it[j - 1] == x || it[j - 1] in multiset(t);
          if it[j - 1] != x {
            var k :| 0 <= k < |t| && t[k] == it[j - 1];
            assert s[k + 1] == t[k];
          } else {
            KeyLessAsymmetric(key(s[0]), key(x));
          }
        } else {
          assert r[i] == it[i - 1] && r[j] == it[j - 1];
        }
      }
    }
  }

  /** `sorted(s, key=...)` is ordered by the key... */
  lemma {:induction false} SortBySorted<T>(s: seq<T>, key: T -> SortKey)
    ensures SortedBy(SortBy(s, key), key)
    decreases |s|
  {
    if s != [] {
      SortBySorted(s[1..], key);
      InsertSorted(s[0], SortBy(s[1..], key), key);
    }
  }

  /** ...and holds exactly the elements of `s`. */
  lemma {:induction false} SortByPermutes<T>(s: seq<T>, key: T -> SortKey)
    ensures multiset(SortBy(s, key)) == multiset(s)
    decreases |s|
  {
    if s != [] {
      SortByPermutes(s[1..], key);
      InsertPermutes(s[0], SortBy(s[1..], key), key);
      assert s == [s[0]] + s[1..];
    }
  }

  /** Two sorted arrangements of the same elements, no two sharing a key, start alike. */
  lemma SortedHeadsAgree<T>(a: seq<T>, b: seq<T>, key: T -> SortKey)
    requires a != [] && SortedBy(a, key) && SortedBy(b, key)
    requires multiset(a) == multiset(b)
    requires forall x, y :: x in multiset(a) && y in multiset(a) && x != y ==> key(x) != key(y)
    ensures b != [] && a[0] == b[0]
  {
    assert a[0] in multiset(b);
    assert b != [] && b[0] in multiset(a);
    if a[0] != b[0] {
      var i :| 0 <= i < |b| && b[i] == a[0];
      var j :| 0 <= j < |a| && a[j] == b[0];
      assert !KeyLess(key(b[0]), key(a[0])) by {
        assert !KeyLess(key(a[j]), key(a[0]));
      }
      assert !KeyLess(key(a[0]), key(b[0])) by {
        assert !KeyLess(key(b[i]), key(b[0]));
      }
      KeyLessTotal(key(a[0]), key(b[0]));
    }
  }

  lemma SortedTail<T>(a: seq<T>, key: T -> SortKey)
    requires a != [] && SortedBy(a, key)
    ensures SortedBy(a[1..], key)
  {
    forall i, j | 0 <= i < j < |a| - 1 ensures !KeyLess(key(a[1..][j]), key(a[1..][i])) {
      assert a[1..][j] == a[j + 1] && a[1..][i] == a[i + 1];
    }
  }

  /** When no two elements share a key, the sorted order is the only one:
      two sorted arrangements of the same elements are equal. */
  lemma {:induction false} SortedUnique<T>(a: seq<T>, b: seq<T>, key: T -> SortKey)
    requires SortedBy(a, key) && SortedBy(b, key)
    requires multiset(a) == multiset(b)
    requires forall x, y :: x in multiset(a) && y in multiset(a) && x != y ==> key(x) != key(y)
    ensures a == b
    decreases |a|
  {
    if a == [] {
      assert |b| == |multiset(b)| == 0;
    } else {
      SortedHeadsAgree(a, b, key);
      SortedTail(a, key);
      SortedTail(b, key);
      assert a == [a[0]] + a[1..] && b == [b[0]] + b[1..];
      assert multiset(a) == multiset{a[0]} + multiset(a[1..]);
      assert multiset(b) == multiset{b[0]} + multiset(b[1..]);
      SortedUnique(a[1..], b[1..], key);
    }
  }

  /** The first `n` of `sorted(s, key=...)`: in order, drawn from `s`, and
      no element left out has a smaller key than one kept. */
  lemma SortedPrefix<T>(s: seq<T>, key: T -> SortKey, n: nat)
    requires n <= |s|
    ensures SortedBy(SortBy(s, key)[..n], key)
    ensures multiset(SortBy(s, key)[..n]) <= multiset(s)
    ensures forall x, y :: x in SortBy(s, key)[..n] && y in multiset(s) - multiset(SortBy(s, key)[..n]) ==>
      !KeyLess(key(y), key(x))
  {
    SortBySorted(s, key);
    SortByPermutes(s, key);
    PrefixOfSorted(SortBy(s, key), s, key, n);
  }

  lemma PrefixOfSorted<T>(t: seq<T>, s: seq<T>, key: T -> SortKey, n: nat)
    requires n <= |t| && SortedBy(t, key) && multiset(t) == multiset(s)
    ensures SortedBy(t[..n], key)
    ensures multiset(t[..n]) <= multiset(s)
    ensures forall x, y :: x in t[..n] && y in multiset(s) - multiset(t[..n]) ==> !KeyLess(key(y), key(x))
  {
    assert multiset(t) == multiset(t[..n]) + multiset(t[n..]) by {
      assert t == t[..n] + t[n..];
    }
    SortedBoundary(t, key, n);
  }

  lemma SortedBoundary<T>(t: seq<T>, key: T -> SortKey, n: nat)
    requires n <= |t| && SortedBy(t, key)
    ensures SortedBy(t[..n], key)
    ensures forall x, y :: x in t[..n] && y in multiset(t[n..]) ==> !KeyLess(key(y), key(x))
  {
    forall x, y | x in t[..n] && y in multiset(t[n..]) ensures !KeyLess(key(y), key(x)) {
      var i :| 0 <= i < n && t[..n][i] == x;
      var j :| 0 <= j < |t| - n && t[n..][j] == y;
      assert t[i] == x && t[n + j] == y;
    }
  }

  /** With no two elements sharing a key, `sorted` gives the same list
      whatever order the elements come in. */
  lemma SortByUnique<T>(a: seq<T>, b: seq<T>, key: T -> SortKey)
    requires multiset(a) == multiset(b)
    requires forall x, y :: x in multiset(a) && y in multiset(a) && x != y ==> key(x) != key(y)
    ensures SortBy(a, key) == SortBy(b, key)
  {
    SortBySorted(a, key);
    SortBySorted(b, key);
    SortByPermutes(a, key);
    SortByPermutes(b, key);
    SortedUnique(SortBy(a, key), SortBy(b, key), key);
  }

  /** A finite non-empty set of strings has a least element. */
  lemma {:induction false} LeastExists(s: set<string>) returns (m: string)
    requires s != {}
    ensures m in s && forall y :: y in s ==> !LexLess(y, m)
    decreases |s|
  {
    var z :| z in s;
    if s == {z} {
      m := z;
      LexLessIrreflexive(z);
    } else {
      var rest := s - {z};
      var n := LeastExists(rest);
      if LexLess(z, n) {
        m := z;
        forall y | y in s ensures !LexLess(y, m) {
          if y == z {
            LexLessIrreflexive(z);
          } else if LexLess(y, z) {
            LexLessTransitive(y, z, n);
          }
        }
      } else {
        m := n;
      }
    }
  }
}
