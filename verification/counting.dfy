/** Frequency counting and the `inv_dist` transform, shared by the feedback
    oracle and the guess heuristic (src/main.rs:132-143). */
module Counting {

  function Min(a: int, b: int): int {
    if a <= b then a else b
  }

  function Abs(x: int): nat {
    if x < 0 then -x else x
  }

  /** The value stored under `x`, or 0 when `x` has no entry, as the
      lookups of src/main.rs:70-80 default a missing letter to 0. */
  function Lookup<T>(h: map<T, nat>, x: T): nat {
    if x in h then h[x] else 0
  }

  /** `counter` (src/main.rs:132-138): one pass over `xs` that adds one to
      the entry of each element, creating the entry at 0 first. The map has
      an entry exactly for the elements that occur, and each entry is the
      element's multiplicity, so no count exceeds the length of the input. */
  function Counter<T(!new)>(xs: seq<T>): (h: map<T, nat>)
    ensures forall x :: x in h <==> x in xs
    ensures forall x :: Lookup(h, x) == multiset(xs)[x]
    ensures forall x :: x in h ==> h[x] <= |xs|
  {
    if |xs| == 0 then map[]
    else
      var init := xs[..|xs| - 1];
      var e := xs[|xs| - 1];
      assert xs == init + [e];
      var h := Counter(init);
      h[e := Lookup(h, e) + 1]
  }

  /** `inv_dist(n, goal)`: `(goal - |goal - 2n|) / 2`. For a count `n` out of
      `goal` it is the distance of `n` from the nearer end of `0..goal`, so
      it vanishes exactly at the ends and peaks at `goal / 2`. The source
      computes in `i32` and casts back to `u32`, which wraps when `n > goal`;
      every caller passes a count of candidates out of the number of
      candidates, so the model requires `n <= goal`. */
  function InvDist(n: nat, goal: nat): (r: nat)
    requires n <= goal
    ensures r == Min(n, goal - n)
    ensures r <= goal / 2
    ensures r == 0 <==> n == 0 || n == goal
  {
    (goal - Abs(goal - 2 * n)) / 2
  }

  /** `inv_dist` applied to every entry of a counter in place
      (src/main.rs:56-58 and 63-65). A missing
      entry reads as 0, and `inv_dist(0, goal)` is 0 as well, so looking up
      the transformed map agrees with transforming the lookup everywhere. */
  function InvDistAll<K(!new)>(h: map<K, nat>, goal: nat): (f: map<K, nat>)
    requires forall k :: k in h ==> h[k] <= goal
    ensures forall k :: Lookup(f, k) == InvDist(Lookup(h, k), goal)
  {
    map k | k in h :: InvDist(h[k], goal)
  }
}
