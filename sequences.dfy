/**
 * The array primitives the store is built from, as JavaScript's
 * Array.prototype.filter and Array.prototype.map behave on packed arrays:
 * order-preserving, total, and producing a fresh value. `Flatten` is a
 * specification helper for lists of teams.
 */
module Sequences {

  /** `s.filter(keep)`: the elements of `s` for which `keep` holds, in order. */
  function Filter<T>(s: seq<T>, keep: T -> bool): (r: seq<T>)
    ensures |r| <= |s|
    ensures forall i :: 0 <= i < |r| ==> r[i] in s && keep(r[i])
    ensures forall i :: 0 <= i < |s| && keep(s[i]) ==> s[i] in r
  {
    if s == [] then []
    else (if keep(s[0]) then [s[0]] else []) + Filter(s[1..], keep)
  }

  /** `s.map(f)`: one image per element, position by position. */
  function Map<T, U>(s: seq<T>, f: T -> U): (r: seq<U>)
    ensures |r| == |s|
    ensures forall i :: 0 <= i < |s| ==> r[i] == f(s[i])
  {
    if s == [] then [] else [f(s[0])] + Map(s[1..], f)
  }

  /** `s.map((x, i) => f(x, i))`: the callback also sees each element's position. */
  function MapIndexed<T, U>(s: seq<T>, f: (T, nat) -> U): (r: seq<U>)
    ensures |r| == |s|
    ensures forall i :: 0 <= i < |s| ==> r[i] == f(s[i], i)
  {
    if s == [] then [] else MapIndexed(s[..|s| - 1], f) + [f(s[|s| - 1], |s| - 1)]
  }

  /**
   * The concatenation of a list of lists, first list first. The store never
   * builds it; it states what a list of teams holds altogether.
   */
  function Flatten<T>(ts: seq<seq<T>>): (r: seq<T>)
  {
    if ts == [] then [] else ts[0] + Flatten(ts[1..])
  }

  /** Filtering distributes over concatenation: the kept elements keep their relative order. */
  lemma {:induction false} FilterConcat<T>(a: seq<T>, b: seq<T>, keep: T -> bool)
    ensures Filter(a + b, keep) == Filter(a, keep) + Filter(b, keep)
  {
    if a == [] {
      assert a + b == b;
    } else {
      assert (a + b)[0] == a[0];
      assert (a + b)[1..] == a[1..] + b;
      FilterConcat(a[1..], b, keep);
    }
  }

  /** A kept value occurs in the result exactly as often as in the input; a dropped one never. */
  lemma {:induction false} FilterCount<T>(s: seq<T>, keep: T -> bool, x: T)
    ensures multiset(Filter(s, keep))[x] == if keep(x) then multiset(s)[x] else 0
  {
    if s == [] {
    } else {
      FilterCount(s[1..], keep, x);
      assert s == [s[0]] + s[1..];
      assert multiset(s) == multiset{s[0]} + multiset(s[1..]);
    }
  }

  /** Filtering a list whose every element is kept gives the list back. */
  lemma {:induction false} FilterAllKept<T>(s: seq<T>, keep: T -> bool)
    requires forall i :: 0 <= i < |s| ==> keep(s[i])
    ensures Filter(s, keep) == s
  {
    if s != [] {
      assert keep(s[0]);
      FilterAllKept(s[1..], keep);
      assert s == [s[0]] + s[1..];
    }
  }

  /** Filtering twice with the same test is filtering once. */
  lemma FilterIdempotent<T>(s: seq<T>, keep: T -> bool)
    ensures Filter(Filter(s, keep), keep) == Filter(s, keep)
  {
    var r := Filter(s, keep);
    FilterAllKept(r, keep);
  }

  /** If no two elements share a key, no two kept elements do either. */
  lemma {:induction false} FilterDistinct<T, K>(s: seq<T>, keep: T -> bool, key: T -> K)
    requires forall i, j :: 0 <= i < j < |s| ==> key(s[i]) != key(s[j])
    ensures forall i, j :: 0 <= i < j < |Filter(s, keep)| ==>
              key(Filter(s, keep)[i]) != key(Filter(s, keep)[j])
  {
    if s != [] {
      var tail := s[1..];
      FilterDistinct(tail, keep, key);
      var rt := Filter(tail, keep);
      forall k | 0 <= k < |rt| ensures key(rt[k]) != key(s[0]) {
        var m :| 0 <= m < |tail| && tail[m] == rt[k];
        assert s[m + 1] == rt[k];
      }
      var r := Filter(s, keep);
      if keep(s[0]) {
        assert r == [s[0]] + rt;
        forall i, j | 0 <= i < j < |r| ensures key(r[i]) != key(r[j]) {
          if i == 0 {
            assert r[j] == rt[j - 1];
          } else {
            assert r[i] == rt[i - 1] && r[j] == rt[j - 1];
          }
        }
      } else {
        assert r == rt;
      }
    }
  }

  /** Flattening a list of empty lists gives the empty list. */
  lemma {:induction false} FlattenEmpties<T>(ts: seq<seq<T>>)
    requires forall i :: 0 <= i < |ts| ==> ts[i] == []
    ensures Flatten(ts) == []
  {
    if ts != [] {
      FlattenEmpties(ts[1..]);
    }
  }

  /** Appending one value to one of the lists adds exactly that value to the flattened whole. */
  lemma {:induction false} FlattenAppendAt<T>(ts: seq<seq<T>>, j: nat, x: T)
    requires j < |ts|
    ensures multiset(Flatten(ts[j := ts[j] + [x]])) == multiset(Flatten(ts)) + multiset{x}
  {
    var us := ts[j := ts[j] + [x]];
    if j == 0 {
      assert us[0] == ts[0] + [x];
      assert us[1..] == ts[1..];
    } else {
      assert us[0] == ts[0];
      assert us[1..] == ts[1..][j - 1 := ts[j] + [x]];
      FlattenAppendAt(ts[1..], j - 1, x);
    }
  }
}
