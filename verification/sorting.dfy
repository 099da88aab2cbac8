/** Stable sorting by a lexicographic key, the behaviour of Python's `list.sort(key=...)`. */
module Sorting {

  /** A sort key compared lexicographically: `major` first, then `minor`. */
  datatype Key = Key(major: int, minor: real)

  /** `a` may come before `b`: a total preorder on keys. */
  predicate KeyLe(a: Key, b: Key) {
    a.major < b.major || (a.major == b.major && a.minor <= b.minor)
  }

  /** Every element's key is at most the key of every later element. */
  ghost predicate SortedBy<T>(s: seq<T>, key: T -> Key) {
    forall i, j :: 0 <= i < j < |s| ==> KeyLe(key(s[i]), key(s[j]))
  }

  /** The elements of `s` whose key is exactly `k`, in their original order. */
  function SameKey<T>(s: seq<T>, key: T -> Key, k: Key): (r: seq<T>)
    ensures |r| <= |s|
    ensures forall i :: 0 <= i < |r| ==> key(r[i]) == k
  {
    if s == [] then [] else (if key(s[0]) == k then [s[0]] else []) + SameKey(s[1..], key, k)
  }

  /** Inserts `x` before the first element whose key is not below `x`'s key. */
  function Insert<T>(x: T, s: seq<T>, key: T -> Key): (r: seq<T>)
    ensures |r| == |s| + 1
    ensures multiset(r) == multiset{x} + multiset(s)
  {
    if s == [] || KeyLe(key(x), key(s[0])) then [x] + s
    else
      assert s == [s[0]] + s[1..];
      [s[0]] + Insert(x, s[1..], key)
  }

  /** Insertion sort: stable, so elements with equal keys keep their input order. */
  function SortBy<T>(s: seq<T>, key: T -> Key): (r: seq<T>)
    ensures |r| == |s|
    ensures multiset(r) == multiset(s)
    ensures SortedBy(r, key)
  {
    if s == [] then []
    else
      assert s == [s[0]] + s[1..];
      var rest := SortBy(s[1..], key);
      InsertSorted(s[0], rest, key);
      Insert(s[0], rest, key)
  }

  lemma {:induction false} InsertSorted<T>(x: T, s: seq<T>, key: T -> Key)
    requires SortedBy(s, key)
    ensures SortedBy(Insert(x, s, key), key)
  {
    if s != [] && !KeyLe(key(x), key(s[0])) {
      var tail := Insert(x, s[1..], key);
      InsertSorted(x, s[1..], key);
      assert forall i :: 0 <= i < |tail| ==> KeyLe(key(s[0]), key(tail[i])) by {
        forall i | 0 <= i < |tail|
          ensures KeyLe(key(s[0]), key(tail[i]))
        {
          assert tail[i] in multiset(tail);
          if tail[i] != x {
            assert tail[i] in multiset(s[1..]);
            var j :| 0 <= j < |s[1..]| && s[1..][j] == tail[i];
            assert s[j + 1] == tail[i];
          }
        }
      }
      assert Insert(x, s, key) == [s[0]] + tail;
    }
  }

  /** Inserting `x` adds it at the front of its key class and leaves every other class alone. */
  lemma {:induction false} InsertSameKey<T>(x: T, s: seq<T>, key: T -> Key, k: Key)
    ensures SameKey(Insert(x, s, key), key, k)
         == (if key(x) == k then [x] else []) + SameKey(s, key, k)
  {
    if s == [] || KeyLe(key(x), key(s[0])) {
      assert ([x] + s)[1..] == s;
    } else {
      InsertSameKey(x, s[1..], key, k);
      var r := Insert(x, s, key);
      assert r[1..] == Insert(x, s[1..], key);
      // s[0] sorts strictly before x, so the two never share a key
      assert key(s[0]) != key(x);
    }
  }

  /** Stability: sorting keeps the order of the elements within every key class. */
  lemma {:induction false} SortStable<T>(s: seq<T>, key: T -> Key, k: Key)
    ensures SameKey(SortBy(s, key), key, k) == SameKey(s, key, k)
  {
    if s != [] {
      SortStable(s[1..], key, k);
      InsertSameKey(s[0], SortBy(s[1..], key), key, k);
    }
  }

  /** The key classes of a prefix are prefixes of the key classes of the whole. */
  lemma {:induction false} SameKeyPrefix<T>(s: seq<T>, n: nat, key: T -> Key, k: Key)
    requires n <= |s|
    ensures SameKey(s[..n], key, k) <= SameKey(s, key, k)
  {
    if n > 0 {
      assert s[..n][1..] == s[1..][..n - 1];
      SameKeyPrefix(s[1..], n - 1, key, k);
    }
  }
}
