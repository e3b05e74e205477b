/** Small sequence vocabulary shared by the cache and the request path:
    an optional value, the first position of an element (the linear scans of
    wcscmp lookups, strchr and the worker scan), and the prefix that ends
    before a given element (a C string ending at its terminator, a path
    ending before its query). */
module Common {

  datatype Option<T> = None | Some(value: T)

  /** The lowest index holding `x`, or None when `x` does not occur. */
  function IndexOf<T(==)>(s: seq<T>, x: T): (r: Option<nat>)
    ensures r.Some? ==> r.value < |s| && s[r.value] == x
    ensures r.Some? ==> forall j :: 0 <= j < r.value ==> s[j] != x
    ensures r.None? <==> forall j :: 0 <= j < |s| ==> s[j] != x
  {
    if s == [] then None
    else if s[0] == x then Some(0)
    else match IndexOf(s[1..], x)
      case None => None
      case Some(k) => Some(k + 1)
  }

  /** The part of `s` before the first `x`; all of `s` when there is none. */
  function PrefixBefore<T(==)>(s: seq<T>, x: T): (r: seq<T>)
    ensures |r| <= |s| && r == s[..|r|]
    ensures x !in r
    ensures x in s ==> |r| < |s| && s[|r|] == x
    ensures x !in s ==> r == s
  {
    match IndexOf(s, x)
    case None => s
    case Some(k) => s[..k]
  }

  /** Cutting a second time at the same element changes nothing. */
  lemma PrefixBeforeIdempotent<T>(s: seq<T>, x: T)
    ensures PrefixBefore(PrefixBefore(s, x), x) == PrefixBefore(s, x)
  {
  }

  /** The prefix is pinned down by the first occurrence: when `x` first
      occurs at `k`, the prefix is exactly `s[..k]`. */
  lemma PrefixBeforeAt<T>(s: seq<T>, x: T, k: nat)
    requires k < |s| && s[k] == x
    requires forall j :: 0 <= j < k ==> s[j] != x
    ensures PrefixBefore(s, x) == s[..k]
  {
    assert x in s;
  }

  /** The prefix reaches at least as far as the first `m` elements do
      when none of them is `x`. */
  lemma PrefixBeforeReaches<T>(s: seq<T>, x: T, m: nat)
    requires m <= |s| && forall j :: 0 <= j < m ==> s[j] != x
    ensures |PrefixBefore(s, x)| >= m
  {
  }

  /** Cutting at `x` only looks as far as the first `x`: a prefix that
      already holds an `x` gives the same result. */
  lemma PrefixBeforeOfPrefix<T>(s: seq<T>, x: T, m: nat)
    requires m <= |s| && x in s[..m]
    ensures PrefixBefore(s, x) == PrefixBefore(s[..m], x)
  {
    var p := PrefixBefore(s[..m], x);
    assert s[..m][|p|] == x;
    PrefixBeforeAt(s, x, |p|);
  }

  /** Appending `x` as a terminator does not change where the prefix ends
      when `s` already holds an `x`, and ends it at the old end otherwise. */
  lemma PrefixBeforeTerminated<T>(s: seq<T>, x: T)
    ensures PrefixBefore(s + [x], x) == PrefixBefore(s, x)
  {
    if x in s {
      assert (s + [x])[..|s|] == s;
      PrefixBeforeOfPrefix(s + [x], x, |s|);
    } else {
      PrefixBeforeAt(s + [x], x, |s|);
      assert (s + [x])[..|s|] == s;
    }
  }
}
