/** Generic sequence helpers standing in for the .NET list operations the source uses:
    `List.RemoveAll` / `Where` (Filter), a backwards search (LastIndex) and LINQ's stable
    `OrderBy` (SortBy). */
module Seqs {
  import opened Wrappers

  /** The order-preserving subsequence of `s` whose elements satisfy `keep`. */
  function Filter<T(!new)>(s: seq<T>, keep: T -> bool): (r: seq<T>)
    ensures |r| <= |s|
    ensures forall x :: x in r <==> x in s && keep(x)
  {
    if |s| == 0 then []
    else
      assert s == [s[0]] + s[1..];
      (if keep(s[0]) then [s[0]] else []) + Filter(s[1..], keep)
  }

  /** Filtering distributes over concatenation: survivors keep their relative order. */
  lemma {:induction false} FilterAppend<T(!new)>(a: seq<T>, b: seq<T>, keep: T -> bool)
    ensures Filter(a + b, keep) == Filter(a, keep) + Filter(b, keep)
  {
    if |a| == 0 {
      assert a + b == b;
    } else {
      assert (a + b)[1..] == a[1..] + b;
      FilterAppend(a[1..], b, keep);
    }
  }

  /** Filtering one more element of a prefix appends it when it is accepted. */
  lemma FilterStep<T(!new)>(s: seq<T>, i: nat, keep: T -> bool)
    requires i < |s|
    ensures Filter(s[..i + 1], keep) == Filter(s[..i], keep) + if keep(s[i]) then [s[i]] else []
  {
    assert s[..i + 1] == s[..i] + [s[i]];
    FilterAppend(s[..i], [s[i]], keep);
    assert Filter([s[i]], keep) == (if keep(s[i]) then [s[i]] else []) + Filter([s[i]][1..], keep);
  }

  /** Filtering keeps every occurrence of an accepted value and none of a rejected one. */
  lemma {:induction false} FilterMultiset<T(!new)>(s: seq<T>, keep: T -> bool)
    ensures forall x :: multiset(Filter(s, keep))[x] == if keep(x) then multiset(s)[x] else 0
  {
    if |s| > 0 {
      assert s == [s[0]] + s[1..];
      FilterMultiset(s[1..], keep);
    }
  }

  /** A filter that rejects nothing in `s` is the identity. */
  lemma {:induction false} FilterKeepsAll<T(!new)>(s: seq<T>, keep: T -> bool)
    requires forall x :: x in s ==> keep(x)
    ensures Filter(s, keep) == s
  {
    if |s| > 0 {
      FilterKeepsAll(s[1..], keep);
      assert s == [s[0]] + s[1..];
    }
  }

  /** The position of the first element of `s` satisfying `pred`, if any. */
  function FirstIndex<T>(s: seq<T>, pred: T -> bool): (r: Option<nat>)
    ensures r.Some? ==> r.value < |s| && pred(s[r.value])
    ensures r.Some? ==> forall j :: 0 <= j < r.value ==> !pred(s[j])
    ensures r.None? <==> forall j :: 0 <= j < |s| ==> !pred(s[j])
  {
    if |s| == 0 then None
    else if pred(s[0]) then Some(0)
    else match FirstIndex(s[1..], pred)
      case None => None
      case Some(k) => Some(k + 1)
  }

  /** The position of the last element of `s` satisfying `pred`, if any. */
  function LastIndex<T>(s: seq<T>, pred: T -> bool): (r: Option<nat>)
    ensures r.Some? ==> r.value < |s| && pred(s[r.value])
    ensures r.Some? ==> forall j :: r.value < j < |s| ==> !pred(s[j])
    ensures r.None? <==> forall j :: 0 <= j < |s| ==> !pred(s[j])
  {
    if |s| == 0 then None
    else if pred(s[|s| - 1]) then Some(|s| - 1)
    else LastIndex(s[..|s| - 1], pred)
  }

  /** The last element of `s` satisfying `pred`, if any. */
  function LastWhere<T>(s: seq<T>, pred: T -> bool): (r: Option<T>)
    ensures r.None? <==> forall j :: 0 <= j < |s| ==> !pred(s[j])
    ensures r.Some? ==> pred(r.value) && exists i :: 0 <= i < |s| && s[i] == r.value && forall j :: i < j < |s| ==> !pred(s[j])
  {
    match LastIndex(s, pred)
    case None => None
    case Some(i) => Some(s[i])
  }

  lemma LastWhereSnoc<T>(s: seq<T>, y: T, pred: T -> bool)
    ensures LastWhere(s + [y], pred) == if pred(y) then Some(y) else LastWhere(s, pred)
  {
    assert (s + [y])[..|s|] == s;
  }

  /** Filtering keeps the last element `pred` selects when `keep` keeps that element. */
  lemma {:induction false} LastWhereOfFilter<T(!new)>(s: seq<T>, keep: T -> bool, pred: T -> bool)
    requires LastWhere(s, pred).Some? ==> keep(LastWhere(s, pred).value)
    ensures LastWhere(Filter(s, keep), pred) == LastWhere(s, pred)
  {
    if |s| > 0 {
      var init, last := s[..|s| - 1], s[|s| - 1];
      var f := Filter(init, keep);
      assert s == init + [last];
      FilterStep(s, |s| - 1, keep);
      assert s[..|s|] == s;
      LastWhereSnoc(init, last, pred);
      if pred(last) {
        assert keep(last);
        assert Filter(s, keep) == f + [last];
        LastWhereSnoc(f, last, pred);
      } else {
        assert LastWhere(s, pred) == LastWhere(init, pred);
        LastWhereOfFilter(init, keep, pred);
        if keep(last) {
          assert Filter(s, keep) == f + [last];
          LastWhereSnoc(f, last, pred);
        } else {
          assert Filter(s, keep) == f;
        }
      }
    }
  }

  /** The elements of `s` whose key is `k`, in their order in `s`. */
  function KeyClass<T(!new)>(s: seq<T>, key: T -> int, k: int): (r: seq<T>)
    ensures forall x :: x in r ==> x in s && key(x) == k
  {
    if |s| == 0 then []
    else (if key(s[0]) == k then [s[0]] else []) + KeyClass(s[1..], key, k)
  }

  lemma {:induction false} KeyClassAppend<T(!new)>(a: seq<T>, b: seq<T>, key: T -> int, k: int)
    ensures KeyClass(a + b, key, k) == KeyClass(a, key, k) + KeyClass(b, key, k)
  {
    if |a| == 0 {
      assert a + b == b;
    } else {
      assert (a + b)[1..] == a[1..] + b;
      KeyClassAppend(a[1..], b, key, k);
    }
  }

  predicate SortedBy<T>(s: seq<T>, key: T -> int) {
    forall i, j :: 0 <= i < j < |s| ==> key(s[i]) <= key(s[j])
  }

  /** Places `x` into the key-sorted `t` after every element whose key is not greater
      than `x`'s: the insertion step of a stable sort. */
  function InsertBy<T(!new)>(t: seq<T>, x: T, key: T -> int): (r: seq<T>)
    requires SortedBy(t, key)
    ensures SortedBy(r, key)
    ensures multiset(r) == multiset(t) + multiset{x}
  {
    if |t| == 0 then [x]
    else if key(t[|t| - 1]) <= key(x) then t + [x]
    else
      var init, last := t[..|t| - 1], t[|t| - 1];
      assert t == init + [last];
      var r' := InsertBy(init, x, key);
      AllBelow(r', init, x, last, key);
      r' + [last]
  }

  lemma AllBelow<T(!new)>(r': seq<T>, init: seq<T>, x: T, last: T, key: T -> int)
    requires SortedBy(init + [last], key) && key(x) < key(last)
    requires multiset(r') == multiset(init) + multiset{x}
    ensures forall y :: y in r' ==> key(y) <= key(last)
  {
    forall y | y in r' ensures key(y) <= key(last) {
      assert y in multiset(r');
      if y != x {
        assert y in multiset(init);
        var i :| 0 <= i < |init| && init[i] == y;
        assert (init + [last])[i] == y && (init + [last])[|init|] == last;
      }
    }
  }

  lemma KeyClassSingle<T(!new)>(x: T, key: T -> int, k: int)
    ensures KeyClass([x], key, k) == if key(x) == k then [x] else []
  {
    assert KeyClass([x], key, k) == (if key(x) == k then [x] else []) + KeyClass([x][1..], key, k);
  }

  /** Inserting `x` appends it to its own key class and leaves every other class alone. */
  lemma {:induction false} InsertByKeyClass<T(!new)>(t: seq<T>, x: T, key: T -> int, k: int)
    requires SortedBy(t, key)
    ensures KeyClass(InsertBy(t, x, key), key, k) == KeyClass(t, key, k) + KeyClass([x], key, k)
  {
    if |t| == 0 {
      assert t + [x] == [x];
    } else if key(t[|t| - 1]) <= key(x) {
      KeyClassAppend(t, [x], key, k);
    } else {
      var init, last := t[..|t| - 1], t[|t| - 1];
      assert t == init + [last];
      assert SortedBy(init, key);
      var r' := InsertBy(init, x, key);
      assert InsertBy(t, x, key) == r' + [last];
      InsertByKeyClass(init, x, key, k);
      KeyClassAppend(r', [last], key, k);
      KeyClassAppend(init, [last], key, k);
      SingletonClassesCommute(KeyClass(init, key, k), x, last, key, k);
    }
  }

  /** The key classes of two single elements with different keys are each empty or the
      element itself, and at most one is non-empty, so their order does not matter. */
  lemma SingletonClassesCommute<T(!new)>(a: seq<T>, x: T, y: T, key: T -> int, k: int)
    requires key(x) != key(y)
    ensures a + KeyClass([x], key, k) + KeyClass([y], key, k)
         == a + KeyClass([y], key, k) + KeyClass([x], key, k)
  {
    KeyClassSingle(x, key, k);
    KeyClassSingle(y, key, k);
  }

  /** LINQ `OrderBy(key)`: a stable sort. The result is sorted, and for every key the
      elements carrying it appear in their original order; together these determine the
      result (and make it a permutation of `s`). */
  function SortBy<T(!new)>(s: seq<T>, key: T -> int): (r: seq<T>)
    ensures SortedBy(r, key)
    ensures multiset(r) == multiset(s)
    ensures forall k :: KeyClass(r, key, k) == KeyClass(s, key, k)
  {
    if |s| == 0 then []
    else
      var init, last := s[..|s| - 1], s[|s| - 1];
      assert s == init + [last];
      var r := InsertBy(SortBy(init, key), last, key);
      forall k ensures KeyClass(r, key, k) == KeyClass(s, key, k) {
        KeyClassAppend(init, [last], key, k);
        InsertByKeyClass(SortBy(init, key), last, key, k);
      }
      r
  }

  /** The indices in `[0, n)` accepted by `sel`, in increasing order. */
  function Positions(n: int, sel: int -> bool): (r: seq<int>)
    ensures forall k :: 0 <= k < |r| ==> 0 <= r[k] < n
    ensures forall k, k' :: 0 <= k < k' < |r| ==> r[k] < r[k']
    ensures forall i :: 0 <= i < n ==> (i in r <==> sel(i))
    decreases n
  {
    if n <= 0 then []
    else Positions(n - 1, sel) + (if sel(n - 1) then [n - 1] else [])
  }

  /** The elements of `source` at the positions `sel` accepts, in source order. */
  function Pick<T>(source: seq<T>, sel: int -> bool): (r: seq<T>)
    ensures |r| == |Positions(|source|, sel)|
    ensures forall k :: 0 <= k < |r| ==> r[k] == source[Positions(|source|, sel)[k]]
  {
    if |source| == 0 then []
    else
      var n := |source| - 1;
      var prev := Pick(source[..n], sel);
      assert forall k :: 0 <= k < |prev| ==> prev[k] == source[Positions(n, sel)[k]];
      prev + (if sel(n) then [source[n]] else [])
  }

  lemma PickStep<T>(source: seq<T>, sel: int -> bool, i: nat)
    requires i < |source|
    ensures Pick(source[..i + 1], sel) == Pick(source[..i], sel) + (if sel(i) then [source[i]] else [])
  {
    assert source[..i + 1][..i] == source[..i];
  }

  /** When `sel` agrees with `keep` at every position of `source`, picking by position is
      filtering by value. */
  lemma {:induction false} PickIsFilter<T(!new)>(source: seq<T>, sel: int -> bool, keep: T -> bool)
    requires forall i :: 0 <= i < |source| ==> (sel(i) <==> keep(source[i]))
    ensures Pick(source, sel) == Filter(source, keep)
  {
    if |source| > 0 {
      var n := |source| - 1;
      var init, last := source[..n], source[n];
      forall i | 0 <= i < |init| ensures sel(i) <==> keep(init[i]) {
        assert init[i] == source[i];
      }
      var tail := if sel(n) then [last] else [];
      assert sel(n) <==> keep(last);
      assert Filter([last], keep) == tail by {
        assert Filter([last], keep) == (if keep(last) then [last] else []) + Filter([last][1..], keep);
      }
      assert source == init + [last];
      calc {
        Pick(source, sel);
        Pick(init, sel) + tail;
        { PickIsFilter(init, sel, keep); }
        Filter(init, keep) + tail;
        { FilterAppend(init, [last], keep); }
        Filter(init + [last], keep);
      }
    }
  }
}
