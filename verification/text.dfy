/** Small searches over sequences, shared by the hand-written scanners that
    replace the regular expressions of the source. */
module Text {
  import opened Wrappers

  /** JavaScript truthiness of an optional string: defined and not empty
      (`undefined`, `null` and `""` are all falsy). */
  predicate Truthy(s: Option<string>)
  {
    s.Some? && s.value != ""
  }

  /** `p` occurs in `s` starting at index `i`. */
  predicate StartsAt<T(==)>(s: seq<T>, i: int, p: seq<T>)
  {
    0 <= i && i + |p| <= |s| && s[i..i + |p|] == p
  }

  /** No element of `s[lo..hi]` equals `x`. */
  predicate Lacks<T(==)>(s: seq<T>, lo: int, hi: int, x: T)
    requires 0 <= lo <= hi <= |s|
  {
    forall k :: lo <= k < hi ==> s[k] != x
  }

  /** The first index at or after `from` that holds `x`, if any. */
  function IndexOf<T(==)>(s: seq<T>, x: T, from: nat): (r: Option<nat>)
    requires from <= |s|
    ensures r.Some? ==> from <= r.value < |s| && s[r.value] == x && Lacks(s, from, r.value, x)
    ensures r.None? ==> Lacks(s, from, |s|, x)
    decreases |s| - from
  {
    if from == |s| then None
    else if s[from] == x then Some(from)
    else IndexOf(s, x, from + 1)
  }

  /** The first `x` of `a + [x] + b` is the one after `a` when `a` holds none. */
  lemma IndexOfAfter<T>(a: seq<T>, x: T, b: seq<T>)
    requires x !in a
    ensures IndexOf(a + [x] + b, x, 0) == Some(|a|)
  {
    var w := a + [x] + b;
    assert w[|a|] == x;
    assert forall k :: 0 <= k < |a| ==> w[k] == a[k];
  }
}
