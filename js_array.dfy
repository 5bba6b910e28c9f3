/**
 The two JavaScript array combinators the analyzer is written with:
 `Array.prototype.every` and `Array.prototype.some`. Both hand the callback
 the element and its index and visit the elements from left to right,
 stopping at the first element that decides the answer.
 */
module JsArray {

  /** `s.every((x, i) => p(x, i))` */
  function Every<T>(s: seq<T>, p: (T, nat) --> bool): (r: bool)
    requires forall i :: 0 <= i < |s| ==> p.requires(s[i], i)
    ensures r <==> forall i :: 0 <= i < |s| ==> p(s[i], i)
  {
    EveryFrom(s, p, 0)
  }

  /** The elements from index `k` on all satisfy `p`; stops at the first that does not. */
  function EveryFrom<T>(s: seq<T>, p: (T, nat) --> bool, k: nat): (r: bool)
    requires k <= |s|
    requires forall i :: k <= i < |s| ==> p.requires(s[i], i)
    ensures r <==> forall i :: k <= i < |s| ==> p(s[i], i)
    decreases |s| - k
  {
    k == |s| || (p(s[k], k) && EveryFrom(s, p, k + 1))
  }

  /** `s.some((x, i) => p(x, i))` */
  function Some<T>(s: seq<T>, p: (T, nat) --> bool): (r: bool)
    requires forall i :: 0 <= i < |s| ==> p.requires(s[i], i)
    ensures r <==> exists i :: 0 <= i < |s| && p(s[i], i)
  {
    SomeFrom(s, p, 0)
  }

  /** Some element from index `k` on satisfies `p`; stops at the first that does. */
  function SomeFrom<T>(s: seq<T>, p: (T, nat) --> bool, k: nat): (r: bool)
    requires k <= |s|
    requires forall i :: k <= i < |s| ==> p.requires(s[i], i)
    ensures r <==> exists i :: k <= i < |s| && p(s[i], i)
    decreases |s| - k
  {
    k < |s| && (p(s[k], k) || SomeFrom(s, p, k + 1))
  }
}
