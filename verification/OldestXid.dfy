/**
 The oldest transaction id: `olderXID` and the scan of `writeOldest` in internal/report/txn.go.
 Transaction ids live on a circle of 2^32 values, so "older" is an order only inside a half circle.
 */
module OldestXid {
  import opened Wrappers
  import opened Facts
  import opened Picking

  const CIRCLE: int := 0x1_0000_0000
  const HALF: int := 0x8000_0000

  /** int32(a-b) < 0 on uint32: the difference taken modulo 2^32 has its sign bit set. */
  predicate OlderXID(a: uint32, b: uint32) {
    (a - b) % CIRCLE >= HALF
  }

  /** How far x lies ahead of w on the circle. */
  function Ahead(w: uint32, x: uint32): nat {
    (x - w) % CIRCLE
  }

  /** x is one of the 2^31 ids that start at w. */
  predicate InWindow(w: uint32, x: uint32) {
    Ahead(w, x) < HALF
  }

  lemma OlderIsAhead(w: uint32, a: uint32, b: uint32)
    requires InWindow(w, a) && InWindow(w, b)
    ensures OlderXID(a, b) <==> Ahead(w, a) < Ahead(w, b)
    ensures Ahead(w, a) == Ahead(w, b) ==> a == b
  {
  }

  /** Inside a window olderXID is a strict total order. */
  lemma OlderIsStrictTotalOrder(w: uint32, a: uint32, b: uint32, c: uint32)
    requires InWindow(w, a) && InWindow(w, b) && InWindow(w, c)
    ensures !OlderXID(a, a)
    ensures a != b ==> (OlderXID(a, b) <==> !OlderXID(b, a))
    ensures OlderXID(a, b) && OlderXID(b, c) ==> OlderXID(a, c)
  {
    OlderIsAhead(w, a, a);
    OlderIsAhead(w, a, b);
    OlderIsAhead(w, b, a);
    OlderIsAhead(w, b, c);
    OlderIsAhead(w, a, c);
  }

  /** Older by less than half the circle, or newer by the half or more: a signed 32-bit difference below zero. */
  lemma OlderExactly(a: uint32, b: uint32)
    ensures OlderXID(a, b) <==> -0x8000_0000 <= a - b < 0 || a - b >= 0x8000_0000
  {
  }

  /** Both ways at once exactly at the opposite point of the circle; neither way only for equal ids. */
  lemma OlderBothWays(a: uint32, b: uint32)
    ensures OlderXID(a, b) && OlderXID(b, a) <==> Ahead(a, b) == HALF
    ensures !OlderXID(a, b) && !OlderXID(b, a) <==> a == b
  {
  }

  // ---- the scan ----

  datatype Holder = Holder(xid: uint32, who: string)

  /** The value the scan ends on: it starts from the first and moves to any that is older than the one it has. */
  function Scan(xids: seq<uint32>): uint32
    requires xids != []
  {
    if |xids| == 1 then xids[0]
    else Step(Scan(xids[..|xids| - 1]), xids[|xids| - 1])
  }

  function Step(oldest: uint32, x: uint32): uint32 {
    if OlderXID(x, oldest) then x else oldest
  }

  function Xids(hs: seq<Holder>): (xids: seq<uint32>)
    ensures |xids| == |hs|
  {
    seq(|hs|, i requires 0 <= i < |hs| => hs[i].xid)
  }

  /** The labels of the holders of one xid, in order. */
  function LabelsOf(hs: seq<Holder>, xid: uint32): seq<string> {
    if hs == [] then []
    else
      var last := hs[|hs| - 1];
      LabelsOf(hs[..|hs| - 1], xid) + (if last.xid == xid then [last.who] else [])
  }

  method Oldest(hs: seq<Holder>) returns (oldest: uint32, labels: seq<string>)
    requires hs != []
    ensures oldest == Scan(Xids(hs))
    ensures labels == LabelsOf(hs, oldest)
  {
    ghost var xids := Xids(hs);
    oldest := hs[0].xid;
    for i := 1 to |hs|
      invariant oldest == Scan(xids[..i])
    {
      assert xids[..i + 1][..i] == xids[..i];
      if OlderXID(hs[i].xid, oldest) {
        oldest := hs[i].xid;
      }
    }
    assert xids[..|hs|] == xids;
    labels := [];
    for i := 0 to |hs|
      invariant labels == LabelsOf(hs[..i], oldest)
    {
      assert hs[..i + 1][..i] == hs[..i];
      if hs[i].xid == oldest {
        labels := labels + [hs[i].who];
      }
    }
    assert hs[..|hs|] == hs;
  }

  lemma {:induction false} ScanIsMember(xids: seq<uint32>)
    requires xids != []
    ensures Scan(xids) in xids
  {
    if |xids| > 1 {
      ScanIsMember(xids[..|xids| - 1]);
    }
  }

  ghost predicate AllInWindow(w: uint32, xids: seq<uint32>) {
    forall i | 0 <= i < |xids| :: InWindow(w, xids[i])
  }

  /** In a window the scan ends on the id that comes first in it. */
  lemma {:induction false} ScanIsFirst(w: uint32, xids: seq<uint32>)
    requires xids != [] && AllInWindow(w, xids)
    ensures Scan(xids) in xids
    ensures forall i | 0 <= i < |xids| :: Ahead(w, Scan(xids)) <= Ahead(w, xids[i])
  {
    ScanIsMember(xids);
    if |xids| > 1 {
      var init, last := xids[..|xids| - 1], xids[|xids| - 1];
      ScanIsFirst(w, init);
      OlderIsAhead(w, last, Scan(init));
      forall i | 0 <= i < |xids|
        ensures Ahead(w, Scan(xids)) <= Ahead(w, xids[i])
      {
        assert i < |init| ==> xids[i] == init[i];
      }
    }
  }

  /** The holders named are exactly those of the id. */
  lemma {:induction false} LabelsAreHolders(hs: seq<Holder>, xid: uint32, who: string)
    ensures who in LabelsOf(hs, xid) <==> Holder(xid, who) in hs
  {
    if hs != [] {
      LabelsAreHolders(hs[..|hs| - 1], xid, who);
      assert hs == hs[..|hs| - 1] + [hs[|hs| - 1]];
    }
  }

  /** One label for each holder, in the order of the list. */
  lemma LabelPlaces(hs: seq<Holder>, xid: uint32) returns (idx: seq<nat>)
    ensures Places(idx, |hs|) && |LabelsOf(hs, xid)| == |idx|
    ensures forall i: nat :: i in idx <==> i < |hs| && hs[i].xid == xid
    ensures forall k | 0 <= k < |idx| :: LabelsOf(hs, xid)[k] == hs[idx[k]].who
  {
    var f := (h: Holder) => if h.xid == xid then Some(h.who) else None;
    idx := GivenPlaces(hs, f);
    LabelsGiven(hs, xid, f);
  }

  lemma {:induction false} LabelsGiven(hs: seq<Holder>, xid: uint32, f: Holder -> Option<string>)
    requires forall h :: f(h) == if h.xid == xid then Some(h.who) else None
    ensures LabelsOf(hs, xid) == Given(hs, f)
  {
    if hs != [] {
      LabelsGiven(hs[..|hs| - 1], xid, f);
    }
  }

  /** Someone holds the id the scan ends on. */
  lemma OldestIsHeld(hs: seq<Holder>)
    requires hs != []
    ensures LabelsOf(hs, Scan(Xids(hs))) != []
  {
    var xid := Scan(Xids(hs));
    ScanIsMember(Xids(hs));
    var i :| 0 <= i < |hs| && Xids(hs)[i] == xid;
    LabelsAreHolders(hs, xid, hs[i].who);
    assert hs[i] == Holder(xid, hs[i].who);
  }

  lemma ScanIgnoresOrder(w: uint32, xs: seq<uint32>, ys: seq<uint32>)
    requires xs != [] && multiset(xs) == multiset(ys) && AllInWindow(w, xs)
    ensures ys != [] && Scan(ys) == Scan(xs)
  {
    assert |ys| == |multiset(ys)| == |multiset(xs)|;
    forall i | 0 <= i < |ys|
      ensures ys[i] in xs
    {
      assert ys[i] in multiset(ys);
    }
    ScanIsFirst(w, xs);
    ScanIsFirst(w, ys);
    assert Scan(xs) in multiset(xs);
    OlderIsAhead(w, Scan(xs), Scan(ys));
  }

  // ---- and outside a window it does depend on the order ----

  ghost predicate HasWindow(xids: seq<uint32>) {
    exists w: uint32 :: AllInWindow(w, xids)
  }

  ghost predicate OrderIndependent(xs: seq<uint32>) {
    forall ys: seq<uint32> | multiset(ys) == multiset(xs) && ys != [] && xs != [] :: Scan(ys) == Scan(xs)
  }

  /** Without a window every id has another one older than it. */
  lemma NoWindowNoOldest(xs: seq<uint32>, r: uint32) returns (i: nat)
    requires !HasWindow(xs)
    ensures i < |xs| && OlderXID(xs[i], r)
  {
    assert !AllInWindow(r, xs);
    i :| 0 <= i < |xs| && !InWindow(r, xs[i]);
  }

  /** Moving to the end an id older than the scan's own moves the scan away from it. */
  lemma MovedToEnd(xs: seq<uint32>, i: nat) returns (ys: seq<uint32>)
    requires i < |xs| && OlderXID(xs[i], Scan(xs))
    ensures multiset(ys) == multiset(xs) && ys != []
    ensures Scan(ys) != Scan(xs)
  {
    var rest := xs[..i] + xs[i + 1..];
    ys := rest + [xs[i]];
    assert xs == xs[..i] + [xs[i]] + xs[i + 1..];
    OlderBothWays(xs[i], Scan(xs));
    if rest != [] {
      assert ys[..|ys| - 1] == rest;
      assert Scan(ys) == Step(Scan(rest), xs[i]);
    }
  }

  /** The scan gives the same id for every order of the list exactly when the ids lie in one window. */
  lemma OrderIndependentExactlyInWindow(xs: seq<uint32>)
    requires xs != []
    ensures OrderIndependent(xs) <==> HasWindow(xs)
  {
    if HasWindow(xs) {
      var w: uint32 :| AllInWindow(w, xs);
      forall ys: seq<uint32> | multiset(ys) == multiset(xs) && ys != []
        ensures Scan(ys) == Scan(xs)
      {
        ScanIgnoresOrder(w, xs, ys);
      }
    } else {
      var i := NoWindowNoOldest(xs, Scan(xs));
      var ys := MovedToEnd(xs, i);
    }
  }
}
