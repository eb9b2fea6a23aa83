/**
 * Sequence helpers standing for the JavaScript array built-ins the server uses:
 * `filter`, `find`/`findIndex`, `some` and `Math.max(...xs)`.
 */
module Seqs {
  import opened Wrappers

  /** `s.filter(f)`: the elements of `s` satisfying `f`, in their original order. */
  function Filter<T>(f: T -> bool, s: seq<T>): (r: seq<T>)
    ensures |r| <= |s|
    ensures forall i :: 0 <= i < |r| ==> r[i] in s && f(r[i])
    ensures forall i :: 0 <= i < |s| && f(s[i]) ==> s[i] in r
  {
    if s == [] then []
    else
      assert s == [s[0]] + s[1..];
      (if f(s[0]) then [s[0]] else []) + Filter(f, s[1..])
  }

  /** Filtering distributes over concatenation, so the kept elements stay in order. */
  lemma {:induction false} FilterConcat<T>(f: T -> bool, a: seq<T>, b: seq<T>)
    ensures Filter(f, a + b) == Filter(f, a) + Filter(f, b)
  {
    if a == [] {
      assert a + b == b;
    } else {
      assert (a + b)[0] == a[0];
      assert (a + b)[1..] == a[1..] + b;
      FilterConcat(f, a[1..], b);
    }
  }

  /** Filtering with a predicate that every element satisfies keeps the sequence. */
  lemma {:induction false} FilterAll<T>(f: T -> bool, s: seq<T>)
    requires forall i :: 0 <= i < |s| ==> f(s[i])
    ensures Filter(f, s) == s
  {
    if s != [] {
      FilterAll(f, s[1..]);
    }
  }

  /** Filtering with a predicate that no element satisfies leaves nothing. */
  lemma {:induction false} FilterNone<T>(f: T -> bool, s: seq<T>)
    requires forall i :: 0 <= i < |s| ==> !f(s[i])
    ensures Filter(f, s) == []
  {
    if s != [] {
      FilterNone(f, s[1..]);
    }
  }

  /** Filtering with `g` first does not change a later filter with a stronger `f`. */
  lemma {:induction false} FilterFilter<T>(f: T -> bool, g: T -> bool, s: seq<T>)
    requires forall i :: 0 <= i < |s| && f(s[i]) ==> g(s[i])
    ensures Filter(f, Filter(g, s)) == Filter(f, s)
  {
    if s != [] {
      FilterFilter(f, g, s[1..]);
      var t := Filter(g, s);
      if g(s[0]) {
        assert t == [s[0]] + Filter(g, s[1..]);
        assert t != [] && t[0] == s[0] && t[1..] == Filter(g, s[1..]);
        assert Filter(f, t) == (if f(s[0]) then [s[0]] else []) + Filter(f, t[1..]);
      } else {
        assert !f(s[0]);
        assert t == Filter(g, s[1..]);
        assert Filter(f, s) == Filter(f, s[1..]);
      }
    }
  }

  /** `s.findIndex(f)` with -1 read as None: the first position whose element satisfies `f`. */
  function FirstIndex<T>(f: T -> bool, s: seq<T>): (r: Option<nat>)
    ensures r.Some? ==> r.value < |s| && f(s[r.value])
    ensures r.Some? ==> forall j :: 0 <= j < r.value ==> !f(s[j])
    ensures r.None? <==> forall j :: 0 <= j < |s| ==> !f(s[j])
  {
    if s == [] then None
    else if f(s[0]) then Some(0)
    else
      match FirstIndex(f, s[1..])
      case None => None
      case Some(k) => Some(k + 1)
  }

  /** `Math.max(...s)` on a non-empty list. */
  function Max(s: seq<int>): (m: int)
    requires |s| > 0
    ensures forall i :: 0 <= i < |s| ==> s[i] <= m
    ensures m in s
  {
    if |s| == 1 then s[0]
    else
      var rest := Max(s[1..]);
      assert rest in s;
      if s[0] >= rest then s[0] else rest
  }

  /** The id allocation rule shared by groups and polls: one more than the largest id, or 1. */
  function NextId(ids: seq<int>): (id: int)
    ensures forall i :: 0 <= i < |ids| ==> ids[i] < id
    ensures id !in ids
    ensures ids == [] ==> id == 1
    ensures ids != [] ==> id - 1 in ids
  {
    if |ids| > 0 then Max(ids) + 1 else 1
  }

  /** No value occurs twice. */
  predicate NoDuplicates<T(==)>(s: seq<T>) {
    forall i, j :: 0 <= i < j < |s| ==> s[i] != s[j]
  }
}
