/** `list.sort(key=...)` and `sorted(...)` on string keys: a stable sort that
    compares keys with Python's `<` on strings. Timsort and the insertion sort
    below return the same list, since a sorted, stable permutation is unique. */
module Sorting {
  import opened Strings

  /** No element has a smaller key than an element before it. */
  ghost predicate SortedBy<T>(xs: seq<T>, key: T -> string) {
    forall i, j :: 0 <= i < j < |xs| ==> !Less(key(xs[j]), key(xs[i]))
  }

  /** The elements of `xs` whose key is `k`, in their original order. */
  function WithKey<T>(xs: seq<T>, key: T -> string, k: string): seq<T> {
    if |xs| == 0 then []
    else if key(xs[0]) == k then [xs[0]] + WithKey(xs[1..], key, k)
    else WithKey(xs[1..], key, k)
  }

  /** Puts `x` in front of the first element whose key is larger than `x`'s,
      so that it comes after every element with an equal key. */
  function Insert<T>(s: seq<T>, x: T, key: T -> string): seq<T> {
    if |s| == 0 then [x]
    else if Less(key(x), key(s[0])) then [x] + s
    else [s[0]] + Insert(s[1..], x, key)
  }

  /** Stable insertion sort by `key`, taking the elements left to right. */
  function SortBy<T>(xs: seq<T>, key: T -> string): seq<T> {
    if |xs| == 0 then [] else Insert(SortBy(xs[..|xs| - 1], key), xs[|xs| - 1], key)
  }

  /** `Insert` splices `x` in at the first position whose key is larger. */
  lemma {:induction false} InsertAt<T>(s: seq<T>, x: T, key: T -> string, j: nat)
    requires j <= |s|
    requires forall i :: 0 <= i < j ==> !Less(key(x), key(s[i]))
    requires j < |s| ==> Less(key(x), key(s[j]))
    ensures Insert(s, x, key) == s[..j] + [x] + s[j..]
  {
    if j > 0 {
      InsertAt(s[1..], x, key, j - 1);
      assert s[..j] == [s[0]] + s[1..][..j - 1];
    }
  }

  lemma {:induction false} InsertPermutes<T>(s: seq<T>, x: T, key: T -> string)
    ensures multiset(Insert(s, x, key)) == multiset(s) + multiset{x}
  {
    if |s| > 0 && !Less(key(x), key(s[0])) {
      InsertPermutes(s[1..], x, key);
      assert s == [s[0]] + s[1..];
    }
  }

  /** An element below the first key of a sorted list is below all its keys. */
  lemma BelowSorted<T>(s: seq<T>, x: T, key: T -> string)
    requires SortedBy(s, key) && |s| > 0 && Less(key(x), key(s[0]))
    ensures forall i :: 0 <= i < |s| ==> Less(key(x), key(s[i]))
  {
    forall i | 0 < i < |s| ensures Less(key(x), key(s[i])) {
      LessTrichotomous(key(s[0]), key(s[i]));
      if key(s[0]) != key(s[i]) {
        LessTransitive(key(x), key(s[0]), key(s[i]));
      }
    }
  }

  lemma {:induction false} InsertSorted<T>(s: seq<T>, x: T, key: T -> string)
    requires SortedBy(s, key)
    ensures SortedBy(Insert(s, x, key), key)
  {
    if |s| == 0 {
    } else if Less(key(x), key(s[0])) {
      BelowSorted(s, x, key);
      var r := [x] + s;
      forall i, j | 0 <= i < j < |r| ensures !Less(key(r[j]), key(r[i])) {
        if i == 0 {
          LessTrichotomous(key(x), key(r[j]));
        }
      }
    } else {
      InsertSorted(s[1..], x, key);
      InsertPermutes(s[1..], x, key);
      var t := Insert(s[1..], x, key);
      var r := [s[0]] + t;
      forall i, j | 0 <= i < j < |r| ensures !Less(key(r[j]), key(r[i])) {
        if i == 0 {
          assert r[j] in multiset(t);
          assert r[j] == x || r[j] in s[1..];
          if r[j] != x {
            var m :| 0 <= m < |s[1..]| && s[1..][m] == r[j];
            assert s[m + 1] == r[j];
          }
        }
      }
    }
  }

  /** Where `Insert` puts an element of key `k`, it lands after the others of key `k`. */
  lemma {:induction false} InsertWithKey<T>(s: seq<T>, x: T, key: T -> string, k: string)
    requires SortedBy(s, key)
    ensures WithKey(Insert(s, x, key), key, k) ==
            WithKey(s, key, k) + (if key(x) == k then [x] else [])
  {
    if |s| == 0 {
    } else if Less(key(x), key(s[0])) {
      if key(x) == k {
        BelowSorted(s, x, key);
        NoneWithKey(s, key, k, x);
      }
    } else {
      assert SortedBy(s[1..], key);
      InsertWithKey(s[1..], x, key, k);
    }
  }

  lemma {:induction false} NoneWithKey<T>(s: seq<T>, key: T -> string, k: string, x: T)
    requires key(x) == k
    requires forall i :: 0 <= i < |s| ==> Less(key(x), key(s[i]))
    ensures WithKey(s, key, k) == []
  {
    if |s| > 0 {
      LessIrreflexive(k);
      NoneWithKey(s[1..], key, k, x);
    }
  }

  lemma {:induction false} WithKeyAppend<T>(xs: seq<T>, ys: seq<T>, key: T -> string, k: string)
    ensures WithKey(xs + ys, key, k) == WithKey(xs, key, k) + WithKey(ys, key, k)
  {
    if |xs| > 0 {
      assert (xs + ys)[1..] == xs[1..] + ys;
      WithKeyAppend(xs[1..], ys, key, k);
    } else {
      assert xs + ys == ys;
    }
  }

  /** `SortBy` returns its input ordered by key. */
  lemma {:induction false} SortBySorted<T>(xs: seq<T>, key: T -> string)
    ensures SortedBy(SortBy(xs, key), key)
  {
    if |xs| > 0 {
      SortBySorted(xs[..|xs| - 1], key);
      InsertSorted(SortBy(xs[..|xs| - 1], key), xs[|xs| - 1], key);
    }
  }

  /** `SortBy` returns a permutation of its input. */
  lemma {:induction false} SortByPermutes<T>(xs: seq<T>, key: T -> string)
    ensures multiset(SortBy(xs, key)) == multiset(xs)
  {
    if |xs| > 0 {
      SortByPermutes(xs[..|xs| - 1], key);
      InsertPermutes(SortBy(xs[..|xs| - 1], key), xs[|xs| - 1], key);
      assert xs == xs[..|xs| - 1] + [xs[|xs| - 1]];
    }
  }

  /** `SortBy` is stable: the elements sharing any one key keep their relative order. */
  lemma {:induction false} SortByStable<T>(xs: seq<T>, key: T -> string, k: string)
    ensures WithKey(SortBy(xs, key), key, k) == WithKey(xs, key, k)
  {
    if |xs| > 0 {
      var init, last := xs[..|xs| - 1], xs[|xs| - 1];
      SortByStable(init, key, k);
      SortBySorted(init, key);
      InsertWithKey(SortBy(init, key), last, key, k);
      assert xs == init + [last];
      WithKeyAppend(init, [last], key, k);
    }
  }
}
