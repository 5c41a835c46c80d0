/** The two array operations the scheduler relies on: `Array.prototype.filter`
    and a stable `Array.prototype.sort` by an integer key. */
module Seqs {

  /** The elements of `s` that satisfy `keep`, in their original order. */
  function Filter<T>(s: seq<T>, keep: T -> bool): (r: seq<T>)
    ensures |r| <= |s|
    ensures forall i :: 0 <= i < |r| ==> keep(r[i])
    ensures forall i :: 0 <= i < |r| ==> r[i] in s
    ensures forall i :: 0 <= i < |s| && keep(s[i]) ==> s[i] in r
  {
    if s == [] then [] else (if keep(s[0]) then [s[0]] else []) + Filter(s[1..], keep)
  }

  /** `a` is obtained from `b` by deleting some elements (the rest keep their order). */
  ghost predicate IsSubsequence<T>(a: seq<T>, b: seq<T>)
    decreases |b|
  {
    if a == [] then true
    else if b == [] then false
    else if a[0] == b[0] then IsSubsequence(a[1..], b[1..])
    else IsSubsequence(a, b[1..])
  }

  /** Filter drops elements only: what is left is a subsequence of the input. */
  lemma {:induction false} FilterIsSubsequence<T>(s: seq<T>, keep: T -> bool)
    ensures IsSubsequence(Filter(s, keep), s)
  {
    if s != [] {
      FilterIsSubsequence(s[1..], keep);
      var r, rest := Filter(s, keep), Filter(s[1..], keep);
      if keep(s[0]) {
        assert r == [s[0]] + rest;
        assert r[1..] == rest;
      } else {
        assert r == rest;
        if r != [] {
          assert keep(r[0]);
        }
      }
    }
  }

  /** Filter keeps every occurrence of a kept element and no occurrence of a dropped one. */
  lemma {:induction false} FilterCount<T>(s: seq<T>, keep: T -> bool, x: T)
    ensures multiset(Filter(s, keep))[x] == if keep(x) then multiset(s)[x] else 0
  {
    if s != [] {
      FilterCount(s[1..], keep, x);
      assert s == [s[0]] + s[1..];
    }
  }

  /** Filtering a list whose elements all pass changes nothing. */
  lemma {:induction false} FilterAllKept<T>(s: seq<T>, keep: T -> bool)
    requires forall i :: 0 <= i < |s| ==> keep(s[i])
    ensures Filter(s, keep) == s
  {
    if s != [] {
      FilterAllKept(s[1..], keep);
    }
  }

  /** Filtering twice with the same test is filtering once. */
  lemma FilterIdempotent<T>(s: seq<T>, keep: T -> bool)
    ensures Filter(Filter(s, keep), keep) == Filter(s, keep)
  {
    FilterAllKept(Filter(s, keep), keep);
  }

  /** Filter distributes over concatenation. */
  lemma {:induction false} FilterAppend<T>(a: seq<T>, b: seq<T>, keep: T -> bool)
    ensures Filter(a + b, keep) == Filter(a, keep) + Filter(b, keep)
  {
    if a != [] {
      var rest := a[1..];
      FilterAppend(rest, b, keep);
      HeadTail(a);
      AppendAssoc([a[0]], rest, b);
      FilterCons(a[0], rest + b, keep);
      FilterCons(a[0], rest, keep);
      AppendAssoc(if keep(a[0]) then [a[0]] else [], Filter(rest, keep), Filter(b, keep));
    } else {
      assert a + b == b;
    }
  }

  /** `s` is in ascending order of `key`. */
  ghost predicate SortedBy<T>(s: seq<T>, key: T -> int)
  {
    forall i, j :: 0 <= i < j < |s| ==> key(s[i]) <= key(s[j])
  }

  /** The test "has key `k`", used to state stability. */
  function HasKey<T>(key: T -> int, k: int): T -> bool
  {
    x => key(x) == k
  }

  /** Inserts `x` into `s` before the first element whose key is strictly
      greater, so after every element whose key is equal to its own. */
  function Insert<T>(x: T, s: seq<T>, key: T -> int): (r: seq<T>)
    ensures |r| == |s| + 1
    ensures multiset(r) == multiset(s) + multiset{x}
  {
    if s == [] then [x]
    else if key(x) < key(s[0]) then [x] + s
    else
      assert s == [s[0]] + s[1..];
      [s[0]] + Insert(x, s[1..], key)
  }

  /** A stable sort ascending by `key`: the order `Array.prototype.sort`
      produces with the comparator `(a, b) => key(a) - key(b)`, which section
      22.1.3.27 of ECMA-262 10th edition (ECMAScript 2019) requires to be stable. */
  function SortBy<T>(s: seq<T>, key: T -> int): (r: seq<T>)
    ensures |r| == |s|
  {
    if s == [] then [] else Insert(s[|s| - 1], SortBy(s[..|s| - 1], key), key)
  }

  lemma {:induction false} InsertSorted<T>(x: T, s: seq<T>, key: T -> int)
    requires SortedBy(s, key)
    ensures SortedBy(Insert(x, s, key), key)
  {
    if s != [] && key(x) >= key(s[0]) {
      InsertSorted(x, s[1..], key);
      var r := Insert(x, s[1..], key);
      forall i | 0 <= i < |r| ensures key(s[0]) <= key(r[i]) {
        assert r[i] in multiset(s[1..]) + multiset{x};
      }
    }
  }

  /** Elements that all have keys above `k` contain none with key `k`. */
  lemma {:induction false} FilterAboveKey<T>(s: seq<T>, key: T -> int, k: int)
    requires forall i :: 0 <= i < |s| ==> k < key(s[i])
    ensures Filter(s, HasKey(key, k)) == []
  {
    if s != [] {
      FilterAboveKey(s[1..], key, k);
    }
  }

  /** Insert puts `x` after every element with the same key. */
  lemma {:induction false} InsertStable<T>(x: T, s: seq<T>, key: T -> int, k: int)
    requires SortedBy(s, key)
    ensures Filter(Insert(x, s, key), HasKey(key, k))
         == Filter(s, HasKey(key, k)) + (if key(x) == k then [x] else [])
  {
    if s == [] {
    } else if key(x) < key(s[0]) {
      InsertFirstStable(x, s, key, k);
    } else {
      SortedTail(s, key);
      InsertStable(x, s[1..], key, k);
      assert Insert(x, s, key) == [s[0]] + Insert(x, s[1..], key);
      ConsFilter(s[0], Insert(x, s[1..], key), s[1..], HasKey(key, k), if key(x) == k then [x] else []);
      HeadTail(s);
    }
  }

  /** `x` goes first, before keys all above its own. */
  lemma InsertFirstStable<T>(x: T, s: seq<T>, key: T -> int, k: int)
    requires SortedBy(s, key) && s != [] && key(x) < key(s[0])
    ensures Filter(Insert(x, s, key), HasKey(key, k))
         == Filter(s, HasKey(key, k)) + (if key(x) == k then [x] else [])
  {
    var f := HasKey(key, k);
    assert Insert(x, s, key) == [x] + s;
    FilterAppend([x], s, f);
    if key(x) == k {
      forall i | 0 <= i < |s| ensures k < key(s[i]) {
        assert key(s[0]) <= key(s[i]);
      }
      FilterAboveKey(s, key, k);
    }
  }

  /** Putting one element in front of two lists whose filters differ by a
      suffix keeps that difference. */
  lemma ConsFilter<T>(y: T, rest: seq<T>, tail: seq<T>, keep: T -> bool, extra: seq<T>)
    requires Filter(rest, keep) == Filter(tail, keep) + extra
    ensures Filter([y] + rest, keep) == Filter([y] + tail, keep) + extra
  {
    FilterCons(y, rest, keep);
    FilterCons(y, tail, keep);
    AppendAssoc(if keep(y) then [y] else [], Filter(tail, keep), extra);
  }

  lemma FilterCons<T>(y: T, t: seq<T>, keep: T -> bool)
    ensures Filter([y] + t, keep) == (if keep(y) then [y] else []) + Filter(t, keep)
  {
    assert ([y] + t)[1..] == t;
  }

  /** Filtering an ascending list leaves it ascending. */
  lemma {:induction false} FilterSorted<T>(s: seq<T>, keep: T -> bool, key: T -> int)
    requires SortedBy(s, key)
    ensures SortedBy(Filter(s, keep), key)
  {
    if s != [] {
      SortedTail(s, key);
      FilterSorted(s[1..], keep, key);
      var rest := Filter(s[1..], keep);
      HeadTail(s);
      FilterCons(s[0], s[1..], keep);
      if keep(s[0]) {
        forall i | 0 <= i < |rest| ensures key(s[0]) <= key(rest[i]) {
          var j :| 0 <= j < |s[1..]| && s[1..][j] == rest[i];
          assert s[j + 1] == rest[i];
        }
        ConsSorted(s[0], rest, key);
      }
    }
  }

  lemma ConsSorted<T>(y: T, r: seq<T>, key: T -> int)
    requires SortedBy(r, key)
    requires forall i :: 0 <= i < |r| ==> key(y) <= key(r[i])
    ensures SortedBy([y] + r, key)
  {
    var t := [y] + r;
    forall i, j | 0 <= i < j < |t| ensures key(t[i]) <= key(t[j]) {
      assert t[j] == r[j - 1];
      if i > 0 {
        assert t[i] == r[i - 1];
      }
    }
  }

  /** Sorting an ascending list with one element appended inserts that element. */
  lemma SortByAppend<T>(s: seq<T>, x: T, key: T -> int)
    requires SortedBy(s, key)
    ensures SortBy(s + [x], key) == Insert(x, s, key)
  {
    var t := s + [x];
    assert t[..|t| - 1] == s && t[|t| - 1] == x;
    SortBySorted(s, key);
  }

  lemma SortedTail<T>(s: seq<T>, key: T -> int)
    requires SortedBy(s, key) && s != []
    ensures SortedBy(s[1..], key)
  {
    forall i, j | 0 <= i < j < |s[1..]| ensures key(s[1..][i]) <= key(s[1..][j]) {
      assert s[1..][i] == s[i + 1] && s[1..][j] == s[j + 1];
    }
  }

  /** SortBy returns the input reordered, ascending by key, and with the
      elements of every key in their input order. */
  lemma {:induction false} SortByCorrect<T>(s: seq<T>, key: T -> int)
    ensures SortedBy(SortBy(s, key), key)
    ensures multiset(SortBy(s, key)) == multiset(s)
    ensures forall k :: Filter(SortBy(s, key), HasKey(key, k)) == Filter(s, HasKey(key, k))
  {
    if s != [] {
      var init, last := s[..|s| - 1], s[|s| - 1];
      InitLast(s);
      SortByCorrect(init, key);
      InsertSorted(last, SortBy(init, key), key);
      forall k ensures Filter(SortBy(s, key), HasKey(key, k)) == Filter(s, HasKey(key, k)) {
        var f := HasKey(key, k);
        InsertStable(last, SortBy(init, key), key, k);
        FilterAppend(init, [last], f);
        FilterCons(last, [], f);
        assert [last] + [] == [last];
        assert Filter([last], f) == if key(last) == k then [last] else [];
      }
    }
  }

  /** Inserting an element whose key is not below any key goes at the end. */
  lemma {:induction false} InsertAtEnd<T>(x: T, s: seq<T>, key: T -> int)
    requires forall i :: 0 <= i < |s| ==> key(s[i]) <= key(x)
    ensures Insert(x, s, key) == s + [x]
  {
    if s != [] {
      InsertAtEnd(x, s[1..], key);
      assert s == [s[0]] + s[1..];
    }
  }

  /** Sorting a list that is already in order changes nothing. */
  lemma {:induction false} SortBySorted<T>(s: seq<T>, key: T -> int)
    requires SortedBy(s, key)
    ensures SortBy(s, key) == s
  {
    if s != [] {
      var init, last := s[..|s| - 1], s[|s| - 1];
      SortedInit(s, init, key);
      SortBySorted(init, key);
      InsertAtEnd(last, init, key);
      InitLast(s);
    }
  }

  lemma AppendAssoc<T>(a: seq<T>, b: seq<T>, c: seq<T>)
    ensures a + (b + c) == (a + b) + c
  {
  }

  lemma HeadTail<T>(s: seq<T>)
    requires s != []
    ensures [s[0]] + s[1..] == s
  {
  }

  lemma InitLast<T>(s: seq<T>)
    requires s != []
    ensures s[..|s| - 1] + [s[|s| - 1]] == s
  {
  }

  lemma SortedInit<T>(s: seq<T>, init: seq<T>, key: T -> int)
    requires SortedBy(s, key) && s != [] && init == s[..|s| - 1]
    ensures SortedBy(init, key)
    ensures forall i :: 0 <= i < |init| ==> key(init[i]) <= key(s[|s| - 1])
  {
    forall i, j | 0 <= i < j < |init| ensures key(init[i]) <= key(init[j]) {
      assert init[i] == s[i] && init[j] == s[j];
    }
    forall i | 0 <= i < |init| ensures key(init[i]) <= key(s[|s| - 1]) {
      assert init[i] == s[i];
    }
  }
}
