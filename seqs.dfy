/**
 * Order-preserving selection and element-wise update of sequences, the two ways the
 * handlers' SQL statements read and change the photos table (`WHERE ...`, `UPDATE ... SET`),
 * and the two facts about duplicates that `new Set(xs).size` checks rely on.
 */
module Seqs {

  /** The elements satisfying `p`, in their original order. */
  function Filter<T(!new)>(s: seq<T>, p: T -> bool): (r: seq<T>)
    ensures |r| <= |s|
    ensures forall i :: 0 <= i < |r| ==> p(r[i])
    ensures forall x :: x in r <==> x in s && p(x)
  {
    if s == [] then [] else (if p(s[0]) then [s[0]] else []) + Filter(s[1..], p)
  }

  function MapSeq<T>(s: seq<T>, f: T -> T): (r: seq<T>)
    ensures |r| == |s| && forall i :: 0 <= i < |s| ==> r[i] == f(s[i])
  {
    seq(|s|, i requires 0 <= i < |s| => f(s[i]))
  }

  lemma {:induction false} FilterAppend<T(!new)>(a: seq<T>, b: seq<T>, p: T -> bool)
    ensures Filter(a + b, p) == Filter(a, p) + Filter(b, p)
    decreases |a|
  {
    if a != [] {
      assert (a + b)[1..] == a[1..] + b;
      FilterAppend(a[1..], b, p);
    } else {
      assert a + b == b;
    }
  }

  /** Selecting with a weaker condition first changes nothing. */
  lemma {:induction false} FilterOfFilter<T(!new)>(s: seq<T>, p: T -> bool, q: T -> bool)
    requires forall x :: q(x) ==> p(x)
    ensures Filter(Filter(s, p), q) == Filter(s, q)
    decreases |s|
  {
    if s != [] {
      FilterOfFilter(s[1..], p, q);
      if p(s[0]) {
        var fs := Filter(s, p);
        assert fs == [s[0]] + Filter(s[1..], p);
        assert fs[0] == s[0] && fs[1..] == Filter(s[1..], p);
        assert Filter(fs, q) == (if q(s[0]) then [s[0]] else []) + Filter(fs[1..], q);
      } else {
        assert !q(s[0]);
        assert Filter(s, p) == Filter(s[1..], p);
      }
    }
  }

  /** A selection that nothing satisfies is empty. */
  lemma {:induction false} FilterNothing<T(!new)>(s: seq<T>, p: T -> bool)
    requires forall i :: 0 <= i < |s| ==> !p(s[i])
    ensures Filter(s, p) == []
    decreases |s|
  {
    if s != [] {
      assert !p(s[0]);
      FilterNothing(s[1..], p);
    }
  }

  /** Selecting with `p` commutes with an update that does not change `p`. */
  lemma {:induction false} FilterMap<T(!new)>(s: seq<T>, f: T -> T, p: T -> bool)
    requires forall x :: p(f(x)) == p(x)
    ensures Filter(MapSeq(s, f), p) == MapSeq(Filter(s, p), f)
    decreases |s|
  {
    if s != [] {
      assert MapSeq(s, f)[1..] == MapSeq(s[1..], f);
      FilterMap(s[1..], f, p);
      if p(s[0]) {
        assert Filter(s, p) == [s[0]] + Filter(s[1..], p);
        assert MapSeq(Filter(s, p), f) == [f(s[0])] + MapSeq(Filter(s[1..], p), f);
      }
    }
  }

  /** An update that changes no element satisfying `p` leaves the selection alone. */
  lemma {:induction false} FilterMapUntouched<T(!new)>(s: seq<T>, f: T -> T, p: T -> bool)
    requires forall x :: p(f(x)) == p(x)
    requires forall x :: p(x) ==> f(x) == x
    ensures Filter(MapSeq(s, f), p) == Filter(s, p)
    decreases |s|
  {
    if s != [] {
      assert MapSeq(s, f)[1..] == MapSeq(s[1..], f);
      FilterMapUntouched(s[1..], f, p);
    }
  }

  /** Two selections may be applied in either order. */
  lemma {:induction false} FilterCommute<T(!new)>(s: seq<T>, p: T -> bool, q: T -> bool)
    ensures Filter(Filter(s, p), q) == Filter(Filter(s, q), p)
    decreases |s|
  {
    if s != [] {
      FilterCommute(s[1..], p, q);
      var x := s[0];
      assert Filter(s, p) == (if p(x) then [x] else []) + Filter(s[1..], p);
      assert Filter(s, q) == (if q(x) then [x] else []) + Filter(s[1..], q);
      FilterAppend(if p(x) then [x] else [], Filter(s[1..], p), q);
      FilterAppend(if q(x) then [x] else [], Filter(s[1..], q), p);
      assert Filter([x], q) == (if q(x) then [x] else []) + Filter([x][1..], q);
      assert Filter([x], p) == (if p(x) then [x] else []) + Filter([x][1..], p);
    }
  }

  /** A selection everything satisfies keeps everything. */
  lemma {:induction false} FilterAll<T(!new)>(s: seq<T>, p: T -> bool)
    requires forall i :: 0 <= i < |s| ==> p(s[i])
    ensures Filter(s, p) == s
    decreases |s|
  {
    if s != [] {
      assert p(s[0]);
      FilterAll(s[1..], p);
    }
  }

  lemma FilterSingle<T(!new)>(x: T, p: T -> bool)
    ensures Filter([x], p) == if p(x) then [x] else []
  {
    assert Filter([x], p) == (if p(x) then [x] else []) + Filter([x][1..], p);
  }

  lemma FilterCons<T(!new)>(h: T, s: seq<T>, p: T -> bool)
    ensures Filter([h] + s, p) == if p(h) then [h] + Filter(s, p) else Filter(s, p)
  {
    assert ([h] + s)[1..] == s;
  }

  /** An element that `p` cannot select together with `h` may move behind `h`. */
  lemma FilterMoveBehind<T(!new)>(h: T, x: T, tail: seq<T>, rest: seq<T>, p: T -> bool)
    requires !(p(x) && p(h))
    requires Filter(rest, p) == Filter([x], p) + Filter(tail, p)
    ensures Filter([h] + rest, p) == Filter([x], p) + Filter([h] + tail, p)
  {
    FilterCons(h, rest, p);
    FilterCons(h, tail, p);
    FilterSingle(x, p);
    if p(h) {
      assert Filter([x], p) == [];
      assert Filter(rest, p) == Filter(tail, p);
    }
  }

  /** When `p` splits into the disjoint `q` and `r`, so does the count of its selection. */
  lemma {:induction false} FilterCountSplit<T(!new)>(s: seq<T>, p: T -> bool, q: T -> bool, r: T -> bool)
    requires forall x :: p(x) <==> q(x) || r(x)
    requires forall x :: !(q(x) && r(x))
    ensures |Filter(s, p)| == |Filter(s, q)| + |Filter(s, r)|
    decreases |s|
  {
    if s != [] {
      FilterCountSplit(s[1..], p, q, r);
    }
  }

  predicate Distinct<T(==)>(s: seq<T>) {
    forall i, j :: 0 <= i < j < |s| ==> s[i] != s[j]
  }

  function ToSet<T>(s: seq<T>): set<T> {
    set x | x in s
  }

  /** `new Set(xs).size === xs.length` holds exactly when `xs` has no duplicates. */
  lemma {:induction false} SetSizeIffDistinct<T>(s: seq<T>)
    ensures |ToSet(s)| == |s| <==> Distinct(s)
    ensures |ToSet(s)| <= |s|
    decreases |s|
  {
    if s != [] {
      var t := s[1..];
      SetSizeIffDistinct(t);
      assert ToSet(s) == ToSet(t) + {s[0]};
      if s[0] in t {
        assert ToSet(s) == ToSet(t);
        var k :| 0 <= k < |t| && t[k] == s[0];
        assert s[k + 1] == s[0];
      } else {
        assert |ToSet(s)| == |ToSet(t)| + 1;
        if Distinct(t) {
          forall i, j | 0 <= i < j < |s| ensures s[i] != s[j] {
            if i == 0 { assert s[j] == t[j - 1]; } else { assert s[i] == t[i - 1] && s[j] == t[j - 1]; }
          }
        } else {
          var i, j :| 0 <= i < j < |t| && t[i] == t[j];
          assert s[i + 1] == s[j + 1];
        }
      }
    }
  }

  /** The integers `lo..hi`. */
  function Range(lo: int, hi: int): (r: set<int>)
    ensures forall k :: k in r <==> lo <= k <= hi
    decreases hi - lo
  {
    if hi < lo then {} else Range(lo, hi - 1) + {hi}
  }

  lemma {:induction false} RangeSize(n: nat)
    ensures |Range(1, n)| == n
  {
    if n > 0 {
      RangeSize(n - 1);
    }
  }

  /** A subset of `1..n` with `n` elements is all of `1..n`. */
  lemma FullSubsetOfRange(a: set<int>, n: nat)
    requires a <= Range(1, n) && |a| == n
    ensures a == Range(1, n)
  {
    RangeSize(n);
    var rest := Range(1, n) - a;
    assert Range(1, n) == a + rest;
    assert |Range(1, n)| == |a| + |rest|;
    assert |rest| == 0;
  }

  /** No two elements of `s` share a key. */
  predicate KeysDistinct<T, K(==)>(s: seq<T>, key: T -> K) {
    forall i, j :: 0 <= i < j < |s| ==> key(s[i]) != key(s[j])
  }

  lemma TailKeysDistinct<T, K>(s: seq<T>, key: T -> K)
    requires s != [] && KeysDistinct(s, key)
    ensures KeysDistinct(s[1..], key)
    ensures forall k :: 0 <= k < |s| - 1 ==> key(s[1..][k]) != key(s[0])
  {
    var t := s[1..];
    forall i, j | 0 <= i < j < |t| ensures key(t[i]) != key(t[j]) {
      assert t[i] == s[i + 1] && t[j] == s[j + 1];
    }
  }

  lemma ConsKeysDistinct<T, K>(x: T, s: seq<T>, key: T -> K)
    requires KeysDistinct(s, key) && forall k :: 0 <= k < |s| ==> key(s[k]) != key(x)
    ensures KeysDistinct([x] + s, key)
  {
    var f := [x] + s;
    forall i, j | 0 <= i < j < |f| ensures key(f[i]) != key(f[j]) {
      assert f[j] == s[j - 1];
      if i > 0 {
        assert f[i] == s[i - 1];
      }
    }
  }

  /** Two elements with the same key are the same element. */
  lemma SameKeySameElement<T, K>(s: seq<T>, key: T -> K, a: T, b: T)
    requires KeysDistinct(s, key) && a in s && b in s
    ensures key(a) == key(b) ==> a == b
  {
    var i :| 0 <= i < |s| && s[i] == a;
    var j :| 0 <= j < |s| && s[j] == b;
    assert i != j ==> key(a) != key(b);
  }

  lemma {:induction false} KeysDistinctFilter<T(!new), K>(s: seq<T>, p: T -> bool, key: T -> K)
    requires KeysDistinct(s, key)
    ensures KeysDistinct(Filter(s, p), key)
    decreases |s|
  {
    if s != [] {
      var t := s[1..];
      TailKeysDistinct(s, key);
      KeysDistinctFilter(t, p, key);
      var ft := Filter(t, p);
      if p(s[0]) {
        forall k | 0 <= k < |ft| ensures key(ft[k]) != key(s[0]) {
          assert ft[k] in t;
        }
        ConsKeysDistinct(s[0], ft, key);
      }
    }
  }

  lemma {:induction false} AtMostOnce<T, K>(s: seq<T>, key: T -> K, x: T)
    requires KeysDistinct(s, key)
    ensures multiset(s)[x] <= 1
    decreases |s|
  {
    if s != [] {
      var t := s[1..];
      assert s == [s[0]] + t;
      TailKeysDistinct(s, key);
      AtMostOnce(t, key, x);
    }
  }

  /** Reordering a sequence keeps its keys distinct. */
  lemma KeysDistinctPermutation<T, K>(a: seq<T>, b: seq<T>, key: T -> K)
    requires multiset(a) == multiset(b) && KeysDistinct(a, key)
    ensures KeysDistinct(b, key)
  {
    forall i, j | 0 <= i < j < |b| ensures key(b[i]) != key(b[j]) {
      if b[i] == b[j] {
        assert b == b[..j] + [b[j]] + b[j + 1..];
        assert b[i] in b[..j];
        assert multiset(b)[b[i]] >= 2;
        AtMostOnce(a, key, b[i]);
      } else {
        assert b[i] in multiset(a) && b[j] in multiset(a);
        SameKeySameElement(a, key, b[i], b[j]);
      }
    }
  }
}
