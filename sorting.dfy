/**
 * `Array.prototype.sort` with a comparator, as the application uses it: every
 * comparator in the code compares a small integer rank first and a number second
 * (`(ra - rb) || (a.x - b.x)`), so a sort is determined by a key of type
 * `(int, real)` ordered lexicographically. The library sort is stable, which a
 * stable insertion sort reproduces.
 */
module Sorting {

  type Key = (int, real)

  predicate KeyLe(a: Key, b: Key) {
    a.0 < b.0 || (a.0 == b.0 && a.1 <= b.1)
  }

  predicate SortedBy<T>(s: seq<T>, key: T -> Key) {
    forall i, j :: 0 <= i < j < |s| ==> KeyLe(key(s[i]), key(s[j]))
  }

  /** Where `Insert` places `x`: before the first element whose key is not below `x`'s. */
  function InsertPos<T>(x: T, s: seq<T>, key: T -> Key): (k: nat)
    ensures k <= |s|
    ensures forall i :: 0 <= i < k ==> !KeyLe(key(x), key(s[i]))
    ensures k < |s| ==> KeyLe(key(x), key(s[k]))
  {
    if s == [] || KeyLe(key(x), key(s[0])) then 0 else 1 + InsertPos(x, s[1..], key)
  }

  function Insert<T>(x: T, s: seq<T>, key: T -> Key): (r: seq<T>)
    ensures |r| == |s| + 1
    ensures multiset(r) == multiset(s) + multiset{x}
  {
    if s == [] || KeyLe(key(x), key(s[0])) then [x] + s
    else
      assert s == [s[0]] + s[1..];
      [s[0]] + Insert(x, s[1..], key)
  }

  /** `Insert` puts `x` at `InsertPos` and shifts the rest. */
  lemma {:induction false} InsertSplit<T>(x: T, s: seq<T>, key: T -> Key)
    ensures Insert(x, s, key) == s[..InsertPos(x, s, key)] + [x] + s[InsertPos(x, s, key)..]
  {
    if s == [] || KeyLe(key(x), key(s[0])) {
      assert s[..0] == [] && s[0..] == s;
    } else {
      var t := s[1..];
      InsertSplit(x, t, key);
      assert s == [s[0]] + t;
      ConsSplit(s[0], t, x, InsertPos(x, t, key));
    }
  }

  lemma ConsSplit<T>(a: T, t: seq<T>, x: T, k: nat)
    requires k <= |t|
    ensures [a] + (t[..k] + [x] + t[k..]) == ([a] + t)[..k + 1] + [x] + ([a] + t)[k + 1..]
  {
    assert ([a] + t)[..k + 1] == [a] + t[..k];
    assert ([a] + t)[k + 1..] == t[k..];
  }

  /** A stable sort by `key`: elements with equal keys keep their input order. */
  function SortBy<T>(s: seq<T>, key: T -> Key): (r: seq<T>)
    ensures |r| == |s|
    ensures multiset(r) == multiset(s)
  {
    if s == [] then []
    else
      var t := SortBy(s[1..], key);
      assert s == [s[0]] + s[1..];
      Insert(s[0], t, key)
  }

  /** The elements of `s` whose key is `k`, in their order in `s`. */
  function WithKey<T>(s: seq<T>, key: T -> Key, k: Key): seq<T> {
    if s == [] then [] else (if key(s[0]) == k then [s[0]] else []) + WithKey(s[1..], key, k)
  }

  /** `Insert` puts `x` before every element with its key and keeps the others' order. */
  lemma {:induction false} InsertWithKey<T>(x: T, s: seq<T>, key: T -> Key, k: Key)
    ensures WithKey(Insert(x, s, key), key, k) == (if key(x) == k then [x] else []) + WithKey(s, key, k)
  {
    if s == [] || KeyLe(key(x), key(s[0])) {
      assert ([x] + s)[1..] == s;
    } else {
      var t := s[1..];
      InsertWithKey(x, t, key, k);
      assert key(s[0]) != key(x);
      assert ([s[0]] + Insert(x, t, key))[1..] == Insert(x, t, key);
    }
  }

  /** Stability: for every key, the elements with that key come out in their input order. */
  lemma {:induction false} SortByStable<T>(s: seq<T>, key: T -> Key, k: Key)
    ensures WithKey(SortBy(s, key), key, k) == WithKey(s, key, k)
  {
    if s != [] {
      SortByStable(s[1..], key, k);
      InsertWithKey(s[0], SortBy(s[1..], key), key, k);
    }
  }

  lemma {:induction false} InsertSorted<T>(x: T, s: seq<T>, key: T -> Key)
    requires SortedBy(s, key)
    ensures SortedBy(Insert(x, s, key), key)
  {
    var k := InsertPos(x, s, key);
    var r := Insert(x, s, key);
    InsertSplit(x, s, key);
    forall i, j | 0 <= i < j < |r| ensures KeyLe(key(r[i]), key(r[j])) {
      if j < k || i > k {
      } else if i == k {
        assert r[j] == s[j - 1];
        assert KeyLe(key(x), key(s[k]));
      } else if j == k {
        assert r[i] == s[i];
      } else {
        assert r[i] == s[i] && r[j] == s[j - 1];
      }
    }
  }

  lemma {:induction false} SortBySorted<T>(s: seq<T>, key: T -> Key)
    ensures SortedBy(SortBy(s, key), key)
  {
    if s != [] {
      SortBySorted(s[1..], key);
      InsertSorted(s[0], SortBy(s[1..], key), key);
    }
  }

  lemma MemberOfSorted<T>(s: seq<T>, key: T -> Key, x: T)
    ensures x in SortBy(s, key) <==> x in s
  {
    var r := SortBy(s, key);
    assert x in r <==> x in multiset(r);
    assert x in s <==> x in multiset(s);
  }

  /** The elements of a sequence, weighted and added up. */
  function SumOf<T>(s: seq<T>, w: T -> real): real {
    if s == [] then 0.0 else SumOf(s[..|s| - 1], w) + w(s[|s| - 1])
  }

  lemma {:induction false} SumOfAppend<T>(a: seq<T>, b: seq<T>, w: T -> real)
    ensures SumOf(a + b, w) == SumOf(a, w) + SumOf(b, w)
  {
    if b != [] {
      assert (a + b)[..|a + b| - 1] == a + b[..|b| - 1];
      SumOfAppend(a, b[..|b| - 1], w);
    } else {
      assert a + b == a;
    }
  }

  lemma SumOfCons<T>(x: T, s: seq<T>, w: T -> real)
    ensures SumOf([x] + s, w) == w(x) + SumOf(s, w)
  {
    SumOfAppend([x], s, w);
    assert [x][..0] == [];
  }

  lemma {:induction false} SumOfInsert<T>(x: T, s: seq<T>, key: T -> Key, w: T -> real)
    ensures SumOf(Insert(x, s, key), w) == w(x) + SumOf(s, w)
  {
    if s == [] || KeyLe(key(x), key(s[0])) {
      SumOfCons(x, s, w);
    } else {
      SumOfInsert(x, s[1..], key, w);
      SumOfCons(s[0], Insert(x, s[1..], key), w);
      SumOfCons(s[0], s[1..], w);
      assert s == [s[0]] + s[1..];
    }
  }

  lemma {:induction false} SumOfSorted<T>(s: seq<T>, key: T -> Key, w: T -> real)
    ensures SumOf(SortBy(s, key), w) == SumOf(s, w)
  {
    if s != [] {
      SortByFirst(s, key);
      SumOfSorted(s[1..], key, w);
      SumOfInsert(s[0], SortBy(s[1..], key), key, w);
      SumOfFirst(s, w);
    }
  }

  lemma SortByFirst<T>(s: seq<T>, key: T -> Key)
    requires s != []
    ensures SortBy(s, key) == Insert(s[0], SortBy(s[1..], key), key)
  {
  }

  lemma SumOfFirst<T>(s: seq<T>, w: T -> real)
    requires s != []
    ensures SumOf(s, w) == w(s[0]) + SumOf(s[1..], w)
  {
    assert s == [s[0]] + s[1..];
    SumOfCons(s[0], s[1..], w);
  }

  /** No two elements of `s` have the same image under `f`. */
  ghost predicate DistinctBy<T, U>(s: seq<T>, f: T -> U) {
    forall i, j :: 0 <= i < j < |s| ==> f(s[i]) != f(s[j])
  }

  lemma InsertKeepsDistinct<T, U>(x: T, t: seq<T>, key: T -> Key, f: T -> U)
    requires DistinctBy(t, f) && forall m :: 0 <= m < |t| ==> f(t[m]) != f(x)
    ensures DistinctBy(Insert(x, t, key), f)
  {
    var k := InsertPos(x, t, key);
    var r := Insert(x, t, key);
    InsertSplit(x, t, key);
    forall i, j | 0 <= i < j < |r| ensures f(r[i]) != f(r[j]) {
      if j < k || i > k {
      } else if i == k {
        assert r[j] == t[j - 1];
      } else if j == k {
        assert r[i] == t[i];
      } else {
        assert r[i] == t[i] && r[j] == t[j - 1];
      }
    }
  }

  lemma {:induction false} SortKeepsDistinct<T, U>(s: seq<T>, key: T -> Key, f: T -> U)
    requires DistinctBy(s, f)
    ensures DistinctBy(SortBy(s, key), f)
  {
    if s != [] {
      var rest := s[1..];
      var t := SortBy(rest, key);
      assert SortBy(s, key) == Insert(s[0], t, key);
      assert DistinctBy(rest, f) by {
        forall i, j | 0 <= i < j < |rest| ensures f(rest[i]) != f(rest[j]) {
          assert rest[i] == s[i + 1] && rest[j] == s[j + 1];
        }
      }
      SortKeepsDistinct(rest, key, f);
      forall m | 0 <= m < |t| ensures f(t[m]) != f(s[0]) {
        assert t[m] in multiset(rest);
        var n :| 0 <= n < |rest| && rest[n] == t[m];
        assert s[n + 1] == t[m];
      }
      InsertKeepsDistinct(s[0], t, key, f);
    }
  }
}
