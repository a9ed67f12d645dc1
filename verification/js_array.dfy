/**
 * The behaviour of the JavaScript array built-ins the contest service relies on:
 * `slice` (with its clamping of negative and out-of-range positions), `reverse`
 * and `findIndex`.
 */
module JsArray {

  function Min(a: int, b: int): int { if a <= b then a else b }

  function Max(a: int, b: int): int { if a >= b then a else b }

  /** The index `slice` uses for a relative position: negative positions count from the end. */
  function Clamp(pos: int, len: nat): nat {
    if pos < 0 then Max(len + pos, 0) else Min(pos, len)
  }

  /** `s.slice(0, end)`: a prefix of `s`. */
  function SliceTo<T>(s: seq<T>, end: int): (r: seq<T>)
    ensures r <= s
    ensures 0 <= end ==> |r| == Min(end, |s|)
    ensures end < 0 ==> |r| == Max(|s| + end, 0)
  {
    s[..Clamp(end, |s|)]
  }

  /** `s.slice(start)`: a suffix of `s`. */
  function SliceFrom<T>(s: seq<T>, start: int): (r: seq<T>)
    ensures |r| <= |s| && r == s[|s| - |r|..]
    ensures 0 <= start ==> |r| == |s| - Min(start, |s|)
    ensures start < 0 ==> |r| == Min(-start, |s|)
  {
    s[Clamp(start, |s|)..]
  }

  /** `s.reverse()` on a copy of `s`. */
  function Reverse<T>(s: seq<T>): (r: seq<T>)
    ensures |r| == |s|
    ensures forall k :: 0 <= k < |s| ==> r[k] == s[|s| - 1 - k]
  {
    if s == [] then [] else Reverse(s[1..]) + [s[0]]
  }

  /** `s.findIndex(x => id(x) === u)`: the first index whose element has identity `u`, or -1. */
  function FindIndex<T>(s: seq<T>, id: T -> int, u: int): (r: int)
    ensures -1 <= r < |s|
    ensures 0 <= r ==> id(s[r]) == u && forall j :: 0 <= j < r ==> id(s[j]) != u
    ensures r == -1 ==> forall j :: 0 <= j < |s| ==> id(s[j]) != u
  {
    if s == [] then -1
    else if id(s[0]) == u then 0
    else
      var k := FindIndex(s[1..], id, u);
      if k < 0 then -1 else k + 1
  }

  /** Appending an element keeps an existing first match and can only supply a missing one. */
  lemma FindIndexAppend<T>(s: seq<T>, x: T, id: T -> int, u: int)
    ensures FindIndex(s + [x], id, u)
            == if 0 <= FindIndex(s, id, u) then FindIndex(s, id, u) else if id(x) == u then |s| else -1
  {
    assert forall j :: 0 <= j < |s| ==> (s + [x])[j] == s[j];
    assert (s + [x])[|s|] == x;
  }

  /** Cutting a sequence after its first match keeps that match. */
  lemma FindIndexPrefix<T>(s: seq<T>, n: int, id: T -> int, u: int)
    requires 0 <= FindIndex(s, id, u) < n <= |s|
    ensures FindIndex(s[..n], id, u) == FindIndex(s, id, u)
  {
    assert forall j :: 0 <= j < n ==> s[..n][j] == s[j];
  }

  /** Reversing puts a last element first. */
  lemma {:induction false} ReverseSnoc<T>(s: seq<T>, x: T)
    ensures Reverse(s + [x]) == [x] + Reverse(s)
  {
    if s != [] {
      assert (s + [x])[1..] == s[1..] + [x];
      ReverseSnoc(s[1..], x);
    }
  }

  /**
   * Taking the last `n` elements after appending `x` is taking the last `n - 1` before
   * and then `x`. (For `n == 1` this fails: `slice(-0)` is the whole array.)
   */
  lemma SliceFromSnoc<T>(s: seq<T>, x: T, n: int)
    requires 2 <= n
    ensures SliceFrom(s + [x], -n) == SliceFrom(s, -(n - 1)) + [x]
  {
    if n - 1 <= |s| {
      assert (s + [x])[|s| - (n - 1)..] == s[|s| - (n - 1)..] + [x];
    }
  }
}
