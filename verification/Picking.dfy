/** Lists made of what some rows of another list give, in its order. */
module Picking {
  import opened Wrappers

  /** Increasing places in a list of n rows. */
  ghost predicate Places(idx: seq<nat>, n: nat) {
    && (forall k, l | 0 <= k < l < |idx| :: idx[k] < idx[l])
    && forall k | 0 <= k < |idx| :: idx[k] < n
  }

  lemma PlacesMore(idx: seq<nat>, n: nat)
    requires Places(idx, n)
    ensures Places(idx, n + 1) && Places(idx + [n], n + 1)
    ensures forall i: nat :: i in idx + [n] <==> i in idx || i == n
    ensures n !in idx
  {
  }

  /** What the rows give, one after the other. */
  ghost function Given<A, B>(rows: seq<A>, f: A -> Option<B>): seq<B> {
    if rows == [] then []
    else
      var last := f(rows[|rows| - 1]);
      Given(rows[..|rows| - 1], f) + (if last.Some? then [last.value] else [])
  }

  /** idx are the places of the rows that give something, and out is what they give. */
  ghost predicate Picked<A, B>(out: seq<B>, idx: seq<nat>, rows: seq<A>, f: A -> Option<B>) {
    && Places(idx, |rows|) && |out| == |idx|
    && (forall i: nat :: i in idx <==> i < |rows| && f(rows[i]).Some?)
    && forall k | 0 <= k < |idx| :: f(rows[idx[k]]) == Some(out[k])
  }

  /** One more row. */
  lemma PickedNext<A, B>(out: seq<B>, idx: seq<nat>, rows: seq<A>, f: A -> Option<B>, x: A)
    requires Picked(out, idx, rows, f)
    ensures f(x).None? ==> Picked(out, idx, rows + [x], f)
    ensures f(x).Some? ==> Picked(out + [f(x).value], idx + [|rows|], rows + [x], f)
  {
    var n, more := |rows|, rows + [x];
    PlacesMore(idx, n);
    assert more[n] == x && forall i | 0 <= i < n :: more[i] == rows[i];
  }

  lemma {:induction false} GivenPlaces<A, B>(rows: seq<A>, f: A -> Option<B>) returns (idx: seq<nat>)
    ensures Picked(Given(rows, f), idx, rows, f)
  {
    idx := [];
    if rows != [] {
      var n := |rows| - 1;
      idx := GivenPlaces(rows[..n], f);
      PickedNext(Given(rows[..n], f), idx, rows[..n], f, rows[n]);
      assert rows == rows[..n] + [rows[n]];
      hide Picked;
      if f(rows[n]).Some? {
        idx := idx + [n];
      }
    }
  }
}
