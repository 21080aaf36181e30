/** `sort_values(key, ascending=False).head(n)`: order a selection newest
    first and keep its first n rows. The order among equal keys is the
    model's own (pandas does not fix it); every property below holds for
    any tie order. */
module Recency {

  /** Non-increasing in `key` from left to right. */
  ghost predicate Descending<T>(s: seq<T>, key: T -> int) {
    forall i, j :: 0 <= i < j < |s| ==> key(s[i]) >= key(s[j])
  }

  /** Insert `x` into a descending `s` before the first element with a smaller key. */
  function Insert<T>(x: T, s: seq<T>, key: T -> int): (r: seq<T>)
    ensures |r| == |s| + 1
    ensures forall i :: 0 <= i < |r| ==> r[i] == x || r[i] in s
  {
    if s == [] then [x]
    else if key(x) >= key(s[0]) then [x] + s
    else [s[0]] + Insert(x, s[1..], key)
  }

  lemma {:induction false} InsertPermutes<T>(x: T, s: seq<T>, key: T -> int)
    ensures multiset(Insert(x, s, key)) == multiset(s) + multiset{x}
  {
    if s != [] && key(x) < key(s[0]) {
      InsertPermutes(x, s[1..], key);
      assert s == [s[0]] + s[1..];
    }
  }

  /** Prepending an element no smaller than every key keeps a sequence descending. */
  lemma ConsDescending<T>(h: T, t: seq<T>, key: T -> int)
    requires Descending(t, key)
    requires forall e :: e in t ==> key(e) <= key(h)
    ensures Descending([h] + t, key)
  {
    var w := [h] + t;
    forall i, j | 0 <= i < j < |w| ensures key(w[i]) >= key(w[j]) {
      assert w[j] == t[j - 1];
      if i > 0 {
        assert w[i] == t[i - 1];
      }
    }
  }

  lemma {:induction false} InsertKeepsDescending<T>(x: T, s: seq<T>, key: T -> int)
    requires Descending(s, key)
    ensures Descending(Insert(x, s, key), key)
  {
    if s == [] {
    } else if key(x) >= key(s[0]) {
      forall e | e in s ensures key(e) <= key(x) {
        var k :| 0 <= k < |s| && s[k] == e;
        assert k == 0 || key(s[0]) >= key(s[k]);
      }
      ConsDescending(x, s, key);
    } else {
      var t := s[1..];
      assert Descending(t, key) by {
        forall i, j | 0 <= i < j < |t| ensures key(t[i]) >= key(t[j]) {
          assert t[i] == s[i + 1] && t[j] == s[j + 1];
        }
      }
      InsertKeepsDescending(x, t, key);
      forall e | e in Insert(x, t, key) ensures key(e) <= key(s[0]) {
        if e != x {
          var k :| 0 <= k < |t| && t[k] == e;
          assert s[k + 1] == e;
        }
      }
      ConsDescending(s[0], Insert(x, t, key), key);
    }
  }

  /** Descending order by `key` (an insertion sort). */
  function SortDescending<T>(s: seq<T>, key: T -> int): (r: seq<T>)
    ensures |r| == |s|
  {
    if s == [] then [] else Insert(s[0], SortDescending(s[1..], key), key)
  }

  /** The sort is an ordering of its input, and it is descending. */
  lemma {:induction false} SortDescendingCorrect<T>(s: seq<T>, key: T -> int)
    ensures multiset(SortDescending(s, key)) == multiset(s)
    ensures Descending(SortDescending(s, key), key)
  {
    if s != [] {
      SortDescendingCorrect(s[1..], key);
      InsertPermutes(s[0], SortDescending(s[1..], key), key);
      InsertKeepsDescending(s[0], SortDescending(s[1..], key), key);
      assert s == [s[0]] + s[1..];
    }
  }

  /** How many rows `DataFrame.head(n)` keeps of `len` rows: the first n, or
      for a negative n all but the last -n. */
  function HeadLength(len: nat, n: int): (k: nat)
    ensures k <= len
  {
    if n >= 0 then (if n < len then n else len)
    else if len + n > 0 then len + n else 0
  }

  /** `DataFrame.head(n)`. */
  function Head<T>(s: seq<T>, n: int): (r: seq<T>)
    ensures n >= 0 ==> |r| == if n < |s| then n else |s|
    ensures n < 0 ==> |r| + (if -n < |s| then -n else |s|) == |s|
    ensures r == s[..|r|]
  {
    s[..HeadLength(|s|, n)]
  }

  /** The n rows that `sort_values(key, ascending=False).head(n)` keeps. */
  function Newest<T>(s: seq<T>, key: T -> int, n: int): seq<T>
  {
    Head(SortDescending(s, key), n)
  }

  /** Splitting a sequence splits its multiset. */
  lemma SplitMultiset<T>(s: seq<T>, k: nat)
    requires k <= |s|
    ensures multiset(s) == multiset(s[..k]) + multiset(s[k..])
  {
    assert s == s[..k] + s[k..];
  }

  /** In a descending sequence every row of a prefix is at least as new as every later row. */
  lemma PrefixDominates<T>(sorted: seq<T>, key: T -> int, k: nat, x: T, y: T)
    requires Descending(sorted, key)
    requires k <= |sorted|
    requires x in sorted[..k] && y in sorted[k..]
    ensures key(x) >= key(y)
  {
    var i :| 0 <= i < k && sorted[..k][i] == x;
    var j :| 0 <= j < |sorted| - k && sorted[k..][j] == y;
    assert sorted[i] == x && sorted[k + j] == y;
  }

  /** What the selection is, independent of any tie order: as many rows as
      `head` keeps, all taken from `s`, and no row left behind is newer than a
      row kept. */
  lemma NewestSelects<T>(s: seq<T>, key: T -> int, n: int)
    ensures |Newest(s, key, n)| == HeadLength(|s|, n)
    ensures multiset(Newest(s, key, n)) <= multiset(s)
    ensures forall x, y :: x in Newest(s, key, n) && y in multiset(s) - multiset(Newest(s, key, n))
              ==> key(x) >= key(y)
  {
    var sorted := SortDescending(s, key);
    SortDescendingCorrect(s, key);
    var k := HeadLength(|s|, n);
    SplitMultiset(sorted, k);
    var kept := Newest(s, key, n);
    assert kept == sorted[..k];
    assert multiset(s) - multiset(kept) == multiset(sorted[k..]);
    forall x, y | x in kept && y in multiset(s) - multiset(kept) ensures key(x) >= key(y) {
      assert y in sorted[k..];
      PrefixDominates(sorted, key, k, x, y);
    }
  }
}
