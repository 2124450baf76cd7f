/** Python's `s[:n]`, which the loader applies with the sentinel `-1`, and
    the reading of that sentinel ("no limit") the callers evidently expect. */
module Slicing {

  function Min(a: int, b: int): int { if a <= b then a else b }

  function Max(a: int, b: int): int { if a >= b then a else b }

  /** `s[:n]` as Python lists and pandas frames evaluate it: a non-negative
      bound keeps the first `n` elements (all of them once `n` reaches the
      length); a negative bound counts from the end and keeps all but the
      last `-n` elements (none once `-n` reaches the length). */
  function PySlice<T>(s: seq<T>, n: int): (r: seq<T>)
    ensures r <= s
  {
    if n >= 0 then s[..Min(n, |s|)] else s[..Max(0, |s| + n)]
  }

  /** How many elements `s[:n]` keeps. */
  lemma PySliceLength<T>(s: seq<T>, n: int)
    ensures 0 <= n ==> |PySlice(s, n)| == Min(n, |s|)
    ensures n < 0 ==> |PySlice(s, n)| == Max(0, |s| + n)
    ensures 0 <= n <= |s| ==> PySlice(s, n) == s[..n]
  {
  }

  /** `s[:n]` returns the whole of `s` exactly when `s` is empty or `n`
      reaches its length; in particular no negative bound keeps every
      element of a non-empty sequence. */
  lemma PySliceKeepsAll<T>(s: seq<T>, n: int)
    ensures PySlice(s, n) == s <==> |s| == 0 || n >= |s|
  {
    if |s| > 0 && n < |s| {
      assert |PySlice(s, n)| < |s|;
    }
  }

  /** The sentinel `-1` used as a bound drops the last element. */
  lemma PySliceSentinel<T>(s: seq<T>)
    ensures |s| > 0 ==> PySlice(s, -1) == s[..|s| - 1]
    ensures |s| == 0 ==> PySlice(s, -1) == []
  {
  }

  /** Which reading of a slice bound a definition follows: the source as
      written (`-1` is an ordinary Python bound) or as intended (`-1` means
      "no limit"). */
  datatype Variant = AsWritten | Intended

  /** Keep the first `n` elements, under the given reading of `-1`. */
  function Limit<T>(s: seq<T>, n: int, v: Variant): (r: seq<T>)
    ensures r <= s
    ensures v == Intended && n == -1 ==> r == s
    ensures v == AsWritten || n != -1 ==> r == PySlice(s, n)
  {
    if v == Intended && n == -1 then s else PySlice(s, n)
  }

  /** Under either reading, a non-negative bound keeps `min(n, |s|)` elements,
      and the sentinel keeps everything exactly when it is read as intended
      (or there is nothing to lose). */
  lemma LimitLength<T>(s: seq<T>, n: int, v: Variant)
    ensures 0 <= n ==> Limit(s, n, v) == s[..Min(n, |s|)]
    ensures n == -1 ==> (Limit(s, n, v) == s <==> v == Intended || |s| == 0)
  {
    if n == -1 && v == AsWritten {
      PySliceKeepsAll(s, n);
    }
  }
}
