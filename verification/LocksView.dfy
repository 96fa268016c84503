/**
 The locks report in its two forms, which must agree: the JSON selection `Locks` of
 internal/scenario/lock.go, and the text selection `writeBlockers` and `holds` of
 internal/report/locks.go; with the ordered dedup `Blockers` of internal/facts/lock.go.
 */
module LocksView {
  import opened Picking
  import opened Wrappers
  import opened Facts
  import opened NoRepeats

  // ---- Blockers ----

  /** The first occurrence of each element, in order. */
  function Dedup(s: seq<int32>): seq<int32> {
    if s == [] then []
    else
      var init, last := s[..|s| - 1], s[|s| - 1];
      Dedup(init) + (if last in init then [] else [last])
  }

  method Blockers(l: Lock) returns (out: seq<int32>)
    ensures out == Dedup(l.blockedBy)
  {
    out := [];
    for i := 0 to |l.blockedBy|
      invariant out == Dedup(l.blockedBy[..i])
    {
      assert l.blockedBy[..i + 1][..i] == l.blockedBy[..i];
      DedupIsOrderedSet(l.blockedBy[..i]);
      if l.blockedBy[i] !in out {
        out := out + [l.blockedBy[i]];
      }
    }
    assert l.blockedBy[..|l.blockedBy|] == l.blockedBy;
  }

  /** Each blocker once, and all of them. */
  lemma {:induction false} DedupIsOrderedSet(s: seq<int32>)
    ensures Distinct(Dedup(s)) && SetOf(Dedup(s)) == SetOf(s)
    ensures forall b :: b in Dedup(s) <==> b in s
  {
    if s != [] {
      var init, last := s[..|s| - 1], s[|s| - 1];
      DedupIsOrderedSet(init);
      assert s == init + [last];
      SetOfSnoc(init, last);
      SetOfSnoc(Dedup(init), last);
    }
  }

  /** A blocker's place does not depend on what comes later: the order is that of first appearance. */
  lemma {:induction false} DedupKeepsOrder(s: seq<int32>, k: nat)
    requires k <= |s|
    ensures Dedup(s[..k]) <= Dedup(s)
  {
    if k < |s| {
      DedupKeepsOrder(s[..|s| - 1], k);
      assert s[..|s| - 1][..k] == s[..k];
    } else {
      assert s[..k] == s;
    }
  }

  // ---- objects ----

  datatype Object = Object(locktype: string, relation: string)

  function ObjectOf(l: Lock): Object {
    Object(l.locktype, if l.relation.Some? then l.relation.value else "")
  }

  /** The pid a lock's owner blocks as: a prepared transaction's lock has none. */
  function OwnerOf(l: Lock): int32 {
    if l.pid.Some? then l.pid.value else PREPARED_BLOCKER
  }

  // ---- the JSON selection ----

  predicate Contests(x: Lock, b: int32, o: Object) {
    !x.granted && b in x.blockedBy && ObjectOf(x) == o
  }

  predicate Contested(rows: seq<Lock>, b: int32, o: Object) {
    exists i | 0 <= i < |rows| :: Contests(rows[i], b, o)
  }

  predicate InJson(rows: seq<Lock>, x: Lock) {
    !x.granted || Contested(rows, OwnerOf(x), ObjectOf(x))
  }

  function Shown(rows: seq<Lock>, all: seq<Lock>): seq<Lock> {
    if rows == [] then []
    else
      var last := rows[|rows| - 1];
      Shown(rows[..|rows| - 1], all) + (if InJson(all, last) then [last] else [])
  }

  /** The contested objects, one entry per blocker and object. */
  method ContestedObjects(rows: seq<Lock>) returns (contested: set<(int32, Object)>)
    ensures forall b: int32, o :: (b, o) in contested <==> Contested(rows, b, o)
  {
    contested := {};
    for i := 0 to |rows|
      invariant forall b: int32, o :: (b, o) in contested <==> Contested(rows[..i], b, o)
    {
      ghost var before := contested;
      var x := rows[i];
      ContestedSnoc(rows[..i], x);
      assert rows[..i] + [x] == rows[..i + 1];
      if x.granted {
        continue;
      }
      for k := 0 to |x.blockedBy|
        invariant forall b: int32, o :: (b, o) in contested <==> (b, o) in before || (b in x.blockedBy[..k] && o == ObjectOf(x))
      {
        assert x.blockedBy[..k + 1] == x.blockedBy[..k] + [x.blockedBy[k]];
        contested := contested + {(x.blockedBy[k], ObjectOf(x))};
      }
      assert x.blockedBy[..|x.blockedBy|] == x.blockedBy;
    }
    assert rows[..|rows|] == rows;
  }

  lemma ContestedSnoc(rows: seq<Lock>, x: Lock)
    ensures forall b: int32, o :: Contested(rows + [x], b, o) <==> Contested(rows, b, o) || Contests(x, b, o)
  {
    forall b: int32, o
      ensures Contested(rows + [x], b, o) <==> Contested(rows, b, o) || Contests(x, b, o)
    {
      if Contested(rows, b, o) {
        var i :| 0 <= i < |rows| && Contests(rows[i], b, o);
        assert Contests((rows + [x])[i], b, o);
      }
      if Contests(x, b, o) {
        assert Contests((rows + [x])[|rows|], b, o);
      }
    }
  }

  method ScenarioLocks(rows: seq<Lock>) returns (shown: seq<Lock>)
    ensures shown == Shown(rows, rows)
  {
    var contested := ContestedObjects(rows);
    shown := [];
    for i := 0 to |rows|
      invariant shown == Shown(rows[..i], rows)
    {
      assert rows[..i + 1][..i] == rows[..i];
      var x := rows[i];
      var pid := PREPARED_BLOCKER;
      if x.pid.Some? {
        pid := x.pid.value;
      }
      if !x.granted || (pid, ObjectOf(x)) in contested {
        shown := shown + [x];
      }
    }
    assert rows[..|rows|] == rows;
  }

  lemma {:induction false} ShownIsInJson(rows: seq<Lock>, all: seq<Lock>, x: Lock)
    ensures x in Shown(rows, all) <==> x in rows && InJson(all, x)
  {
    if rows != [] {
      ShownIsInJson(rows[..|rows| - 1], all, x);
      assert rows == rows[..|rows| - 1] + [rows[|rows| - 1]];
    }
  }

  // ---- the JSON selection, in the fields of the rows ----

  /** y waits for x's owner, on the same object: same kind of lock, same relation, no relation being the same as an empty name. */
  predicate WaitsBehind(y: Lock, x: Lock) {
    && !y.granted
    && (if x.pid.Some? then x.pid.value in y.blockedBy else 0 in y.blockedBy)
    && y.locktype == x.locktype
    && (y.relation == x.relation || (y.relation in {None, Some("")} && x.relation in {None, Some("")}))
  }

  ghost predicate HasWaiter(all: seq<Lock>, x: Lock) {
    exists j | 0 <= j < |all| :: WaitsBehind(all[j], x)
  }

  lemma ContestsExactly(y: Lock, x: Lock)
    ensures Contests(y, OwnerOf(x), ObjectOf(x)) <==> WaitsBehind(y, x)
  {
  }

  /** The rows of the JSON, in their order: every one not granted, and the granted ones some row waits behind. */
  lemma ShownPlaces(rows: seq<Lock>, all: seq<Lock>) returns (idx: seq<nat>)
    ensures Places(idx, |rows|) && |Shown(rows, all)| == |idx|
    ensures forall i: nat :: i in idx <==>
      i < |rows| && (!rows[i].granted || HasWaiter(all, rows[i]))
    ensures forall k | 0 <= k < |idx| :: Shown(rows, all)[k] == rows[idx[k]]
  {
    var f := (x: Lock) => if InJson(all, x) then Some(x) else None;
    idx := GivenPlaces(rows, f);
    ShownGiven(rows, all, f);
    forall x
      ensures InJson(all, x) <==> !x.granted || HasWaiter(all, x)
    {
      InJsonExactly(all, x);
    }
    hide InJson, HasWaiter;
  }

  lemma {:induction false} ShownGiven(rows: seq<Lock>, all: seq<Lock>, f: Lock -> Option<Lock>)
    requires forall x :: f(x) == if InJson(all, x) then Some(x) else None
    ensures Shown(rows, all) == Given(rows, f)
  {
    if rows != [] {
      ShownGiven(rows[..|rows| - 1], all, f);
    }
  }

  lemma InJsonExactly(all: seq<Lock>, x: Lock)
    ensures InJson(all, x) <==> !x.granted || HasWaiter(all, x)
  {
    hide Contests, WaitsBehind;
    forall j | 0 <= j < |all|
      ensures Contests(all[j], OwnerOf(x), ObjectOf(x)) <==> WaitsBehind(all[j], x)
    {
      ContestsExactly(all[j], x);
    }
  }

  // ---- the text selection ----

  /** The rows of the waiting section. */
  function Waiting(rows: seq<Lock>): seq<Lock> {
    if rows == [] then []
    else
      var last := rows[|rows| - 1];
      Waiting(rows[..|rows| - 1]) + (if !last.granted && last.pid.Some? then [last] else [])
  }

  lemma {:induction false} WaitingRows(rows: seq<Lock>, x: Lock)
    ensures x in Waiting(rows) <==> x in rows && !x.granted && x.pid.Some?
  {
    if rows != [] {
      WaitingRows(rows[..|rows| - 1], x);
      assert rows == rows[..|rows| - 1] + [rows[|rows| - 1]];
    }
  }

  /** How many waiting rows b blocks. */
  function Blocked(waiting: seq<Lock>, b: int32): nat {
    if waiting == [] then 0
    else Blocked(waiting[..|waiting| - 1], b) + (if b in waiting[|waiting| - 1].blockedBy then 1 else 0)
  }

  /** The objects those rows want. */
  function WantedFrom(waiting: seq<Lock>, b: int32): set<Object> {
    if waiting == [] then {}
    else
      var last := waiting[|waiting| - 1];
      WantedFrom(waiting[..|waiting| - 1], b) + (if b in last.blockedBy then {ObjectOf(last)} else {})
  }

  lemma {:induction false} WantedExactly(waiting: seq<Lock>, b: int32, o: Object)
    ensures o in WantedFrom(waiting, b) <==> exists i | 0 <= i < |waiting| :: b in waiting[i].blockedBy && ObjectOf(waiting[i]) == o
    ensures WantedFrom(waiting, b) != {} <==> Blocked(waiting, b) > 0
  {
    if waiting != [] {
      var init := waiting[..|waiting| - 1];
      WantedExactly(init, b, o);
      assert forall i | 0 <= i < |init| :: init[i] == waiting[i];
      if i :| 0 <= i < |init| && b in init[i].blockedBy && ObjectOf(init[i]) == o {
        assert b in waiting[i].blockedBy && ObjectOf(waiting[i]) == o;
      }
    }
  }

  /** The maps agree with the rows seen: one entry per blocker, its count, and what is wanted from it. */
  ghost predicate Maps(blocks: map<int32, nat>, wanted: map<int32, set<Object>>, waiting: seq<Lock>) {
    && blocks.Keys == wanted.Keys
    && (forall b: int32 :: b in blocks <==> Blocked(waiting, b) > 0)
    && (forall b | b in blocks :: blocks[b] == Blocked(waiting, b) && wanted[b] == WantedFrom(waiting, b))
  }

  /** The maps after the first blockers of one more row. */
  ghost predicate MapsPlus(blocks: map<int32, nat>, wanted: map<int32, set<Object>>, waiting: seq<Lock>, done: seq<int32>, o: Object) {
    && blocks.Keys == wanted.Keys
    && (forall b: int32 :: b in blocks <==> Blocked(waiting, b) > 0 || b in done)
    && (forall b | b in blocks ::
         && blocks[b] == Blocked(waiting, b) + (if b in done then 1 else 0)
         && wanted[b] == WantedFrom(waiting, b) + (if b in done then {o} else {}))
  }

  lemma MapsNext(blocks: map<int32, nat>, wanted: map<int32, set<Object>>, waiting: seq<Lock>, n: nat, done: seq<int32>)
    requires n < |waiting| && (forall b :: b in done <==> b in waiting[n].blockedBy)
    requires MapsPlus(blocks, wanted, waiting[..n], done, ObjectOf(waiting[n]))
    ensures Maps(blocks, wanted, waiting[..n + 1])
  {
    assert waiting[..n + 1][..n] == waiting[..n];
    forall b: int32
      ensures Blocked(waiting[..n + 1], b) == Blocked(waiting[..n], b) + (if b in done then 1 else 0)
      ensures WantedFrom(waiting[..n + 1], b) == WantedFrom(waiting[..n], b) + (if b in done then {ObjectOf(waiting[n])} else {})
    {
    }
  }

  /** The inner loop of writeBlockers: the blockers of one waiting row, each once. */
  method CountRow(blocks0: map<int32, nat>, wanted0: map<int32, set<Object>>, ghost waiting: seq<Lock>, bs: seq<int32>, o: Object)
    returns (blocks: map<int32, nat>, wanted: map<int32, set<Object>>)
    requires Maps(blocks0, wanted0, waiting) && Distinct(bs)
    ensures MapsPlus(blocks, wanted, waiting, bs, o)
  {
    hide Blocked, WantedFrom;
    NotYetWanted(waiting);
    blocks, wanted := blocks0, wanted0;
    for k := 0 to |bs|
      invariant MapsPlus(blocks, wanted, waiting, bs[..k], o)
    {
      var b := bs[k];
      assert bs[..k + 1] == bs[..k] + [b];
      assert b !in bs[..k];
      blocks := blocks[b := (if b in blocks then blocks[b] else 0) + 1];
      wanted := wanted[b := (if b in wanted then wanted[b] else {}) + {o}];
    }
    assert bs[..|bs|] == bs;
  }

  /** The counting loops of writeBlockers. */
  method CountBlockers(waiting: seq<Lock>) returns (blocks: map<int32, nat>, wanted: map<int32, set<Object>>)
    ensures Maps(blocks, wanted, waiting)
  {
    blocks, wanted := map[], map[];
    for n := 0 to |waiting|
      invariant Maps(blocks, wanted, waiting[..n])
    {
      hide Maps, MapsPlus;
      var bs := Blockers(waiting[n]);
      DedupIsOrderedSet(waiting[n].blockedBy);
      blocks, wanted := CountRow(blocks, wanted, waiting[..n], bs, ObjectOf(waiting[n]));
      MapsNext(blocks, wanted, waiting, n, bs);
    }
    assert waiting[..|waiting|] == waiting;
  }

  lemma NotYetWanted(waiting: seq<Lock>)
    ensures forall b :: Blocked(waiting, b) == 0 ==> WantedFrom(waiting, b) == {}
  {
    forall b
      ensures Blocked(waiting, b) == 0 ==> WantedFrom(waiting, b) == {}
    {
      WantedExactly(waiting, b, Object("", ""));
    }
  }

  // ---- the "blocks" column adds up ----

  /** How many (waiting row, blocker) pairs there are. */
  ghost function Pairs(waiting: seq<Lock>): nat {
    if waiting == [] then 0 else Pairs(waiting[..|waiting| - 1]) + |SetOf(waiting[|waiting| - 1].blockedBy)|
  }

  ghost function SumBlocks(pids: seq<int32>, waiting: seq<Lock>): nat {
    if pids == [] then 0 else SumBlocks(pids[..|pids| - 1], waiting) + Blocked(waiting, pids[|pids| - 1])
  }

  /** How many of the pids are among a row's blockers. */
  ghost function Among(pids: seq<int32>, bs: seq<int32>): nat {
    if pids == [] then 0 else Among(pids[..|pids| - 1], bs) + (if pids[|pids| - 1] in bs then 1 else 0)
  }

  lemma {:induction false} SumBlocksStep(pids: seq<int32>, waiting: seq<Lock>)
    requires waiting != []
    ensures SumBlocks(pids, waiting) ==
      SumBlocks(pids, waiting[..|waiting| - 1]) + Among(pids, waiting[|waiting| - 1].blockedBy)
  {
    if pids != [] {
      SumBlocksStep(pids[..|pids| - 1], waiting);
    }
  }

  lemma {:induction false} AmongCounts(pids: seq<int32>, bs: seq<int32>)
    requires Distinct(pids)
    ensures Among(pids, bs) == |SetOf(pids) * SetOf(bs)|
  {
    if pids != [] {
      var init, last := pids[..|pids| - 1], pids[|pids| - 1];
      DistinctSplit(pids);
      AmongCounts(init, bs);
      hide Distinct;
      var rest := SetOf(init) * SetOf(bs);
      assert last in bs <==> last in SetOf(bs);
      hide SetOf;
      assert SetOf(pids) * SetOf(bs) == if last in bs then rest + {last} else rest;
    } else {
      assert SetOf(pids) * SetOf(bs) == {};
    }
  }

  lemma {:induction false} NoBlockersNoSum(pids: seq<int32>)
    ensures SumBlocks(pids, []) == 0
  {
    if pids != [] {
      NoBlockersNoSum(pids[..|pids| - 1]);
    }
  }

  /** Counting by blocker or by waiting row gives the same pairs. */
  lemma {:induction false} BlocksAddUp(pids: seq<int32>, waiting: seq<Lock>)
    requires Distinct(pids) && forall i, b | 0 <= i < |waiting| && b in waiting[i].blockedBy :: b in pids
    ensures SumBlocks(pids, waiting) == Pairs(waiting)
  {
    if waiting == [] {
      NoBlockersNoSum(pids);
    } else {
      var init, last := waiting[..|waiting| - 1], waiting[|waiting| - 1];
      assert forall i | 0 <= i < |init| :: init[i] == waiting[i];
      BlocksAddUp(pids, init);
      SumBlocksStep(pids, waiting);
      AmongCounts(pids, last.blockedBy);
      assert SetOf(pids) * SetOf(last.blockedBy) == SetOf(last.blockedBy) by {
        assert forall b | b in last.blockedBy :: b in pids;
      }
    }
  }

  // ---- the order of the blockers ----

  predicate Before(blocks: map<int32, nat>, a: int32, b: int32)
    requires a in blocks && b in blocks
  {
    blocks[a] > blocks[b] || (blocks[a] == blocks[b] && a < b)
  }

  /** The blockers as they are listed: each once, who blocks most first, then by pid. */
  ghost predicate Listing(pids: seq<int32>, blocks: map<int32, nat>) {
    && (forall b: int32 :: b in pids <==> b in blocks)
    && forall i, j | 0 <= i < j < |pids| :: Before(blocks, pids[i], pids[j])
  }

  /** The listing is the same whatever order the map gave its keys in. */
  lemma ListingIsUnique(p: seq<int32>, q: seq<int32>, blocks: map<int32, nat>)
    requires Listing(p, blocks) && Listing(q, blocks)
    ensures p == q
  {
    SortedEqual(p, q, blocks);
  }

  ghost predicate Ordered(pids: seq<int32>, blocks: map<int32, nat>) {
    && (forall b | b in pids :: b in blocks)
    && forall i, j | 0 <= i < j < |pids| :: Before(blocks, pids[i], pids[j])
  }

  lemma TailMembers(p: seq<int32>, blocks: map<int32, nat>)
    requires Ordered(p, blocks) && p != []
    ensures Ordered(p[1..], blocks)
    ensures forall b: int32 :: b in p[1..] <==> b in p && b != p[0]
  {
    assert forall i | 0 < i < |p| :: Before(blocks, p[0], p[i]);
    assert forall i | 0 <= i < |p| - 1 :: p[1..][i] == p[i + 1];
    assert p == [p[0]] + p[1..];
  }

  lemma {:induction false} SortedEqual(p: seq<int32>, q: seq<int32>, blocks: map<int32, nat>)
    requires Ordered(p, blocks) && Ordered(q, blocks) && forall b: int32 :: b in p <==> b in q
    ensures p == q
  {
    assert q != [] ==> q[0] in p;
    if p != [] {
      assert p[0] in q;
      assert q[0] in p;
      var i :| 0 <= i < |q| && q[i] == p[0];
      var j :| 0 <= j < |p| && p[j] == q[0];
      assert p[0] == q[0];
      TailMembers(p, blocks);
      TailMembers(q, blocks);
      SortedEqual(p[1..], q[1..], blocks);
    }
  }

  /** A pid put in its place. */
  function Insert(b: int32, pids: seq<int32>, blocks: map<int32, nat>): seq<int32>
    requires b in blocks && forall x | x in pids :: x in blocks
  {
    if pids == [] then [b]
    else if Before(blocks, b, pids[0]) then [b] + pids
    else [pids[0]] + Insert(b, pids[1..], blocks)
  }

  lemma {:induction false} InsertKeepsOrder(b: int32, pids: seq<int32>, blocks: map<int32, nat>)
    requires b in blocks && b !in pids && Ordered(pids, blocks)
    ensures Ordered(Insert(b, pids, blocks), blocks)
    ensures forall x: int32 :: x in Insert(b, pids, blocks) <==> x == b || x in pids
  {
    if pids != [] && !Before(blocks, b, pids[0]) {
      TailMembers(pids, blocks);
      InsertKeepsOrder(b, pids[1..], blocks);
      var more := Insert(b, pids[1..], blocks);
      assert pids[0] in pids && Before(blocks, pids[0], b);
      forall x | x in more
        ensures Before(blocks, pids[0], x)
      {
        if x != b {
          var k :| 0 <= k < |pids| - 1 && pids[1..][k] == x;
          assert pids[k + 1] == x;
        }
      }
    }
  }

  /** The keys of the map in the order of the listing, whatever order they are taken in. */
  method ListBlockers(blocks: map<int32, nat>) returns (pids: seq<int32>)
    ensures Listing(pids, blocks)
  {
    pids := [];
    var rest := blocks.Keys;
    while rest != {}
      invariant rest <= blocks.Keys && Ordered(pids, blocks)
      invariant forall b: int32 :: b in pids <==> b in blocks && b !in rest
    {
      var b: int32 :| b in rest;
      InsertKeepsOrder(b, pids, blocks);
      pids := Insert(b, pids, blocks);
      rest := rest - {b};
    }
  }

  /** The "blocks" column as listed, added up. */
  function ColumnSum(pids: seq<int32>, blocks: map<int32, nat>): nat {
    if pids == [] then 0
    else
      var last := pids[|pids| - 1];
      ColumnSum(pids[..|pids| - 1], blocks) + (if last in blocks then blocks[last] else 0)
  }

  lemma {:induction false} ColumnIsBlocked(pids: seq<int32>, blocks: map<int32, nat>, wanted: map<int32, set<Object>>, waiting: seq<Lock>)
    requires Maps(blocks, wanted, waiting)
    ensures ColumnSum(pids, blocks) == SumBlocks(pids, waiting)
  {
    if pids != [] {
      ColumnIsBlocked(pids[..|pids| - 1], blocks, wanted, waiting);
    }
  }

  lemma {:induction false} BlockerIsCounted(waiting: seq<Lock>, i: nat, b: int32)
    requires i < |waiting| && b in waiting[i].blockedBy
    ensures Blocked(waiting, b) > 0
  {
    if i < |waiting| - 1 {
      assert waiting[..|waiting| - 1][i] == waiting[i];
      BlockerIsCounted(waiting[..|waiting| - 1], i, b);
    }
  }

  /** The "blocks" column of the listing adds up to the distinct (waiting row, blocker) pairs. */
  lemma ListedBlocksAddUp(pids: seq<int32>, blocks: map<int32, nat>, wanted: map<int32, set<Object>>, waiting: seq<Lock>)
    requires Maps(blocks, wanted, waiting) && Listing(pids, blocks)
    ensures ColumnSum(pids, blocks) == Pairs(waiting)
  {
    assert Distinct(pids) by {
      assert forall i, j | 0 <= i < j < |pids| :: Before(blocks, pids[i], pids[j]);
    }
    forall i, b | 0 <= i < |waiting| && b in waiting[i].blockedBy
      ensures b in pids
    {
      BlockerIsCounted(waiting, i, b);
    }
    ColumnIsBlocked(pids, blocks, wanted, waiting);
    BlocksAddUp(pids, waiting);
  }

  // ---- what a blocker holds ----

  predicate Mine(b: int32, l: Lock) {
    (b == PREPARED_BLOCKER && l.pid.None?) || l.pid == Some(b)
  }

  lemma MineIsOwner(b: int32, l: Lock)
    ensures Mine(b, l) <==> b == OwnerOf(l)
  {
  }

  /** A row passes the filter of holds. */
  predicate Passes(b: int32, wanted: set<Object>, l: Lock) {
    Mine(b, l) && ObjectOf(l) in wanted
  }

  /** Row i passes, and no earlier passing row has its text. */
  predicate First(rows: seq<Lock>, i: nat, b: int32, wanted: set<Object>, text: Lock -> string)
    requires i < |rows|
  {
    && Passes(b, wanted, rows[i])
    && forall j | 0 <= j < i && Passes(b, wanted, rows[j]) :: text(rows[j]) != text(rows[i])
  }

  /** s is the text of the first passing row that has it, and that row is granted (or is not). */
  ghost predicate Named(rows: seq<Lock>, s: string, granted: bool, b: int32, wanted: set<Object>, text: Lock -> string) {
    exists i | 0 <= i < |rows| :: First(rows, i, b, wanted, text) && text(rows[i]) == s && rows[i].granted == granted
  }

  lemma NamedSnoc(rows: seq<Lock>, n: nat, s: string, granted: bool, b: int32, wanted: set<Object>, text: Lock -> string)
    requires n < |rows|
    ensures Named(rows[..n + 1], s, granted, b, wanted, text) <==>
      || Named(rows[..n], s, granted, b, wanted, text)
      || (First(rows, n, b, wanted, text) && text(rows[n]) == s && rows[n].granted == granted)
  {
    var init, more := rows[..n], rows[..n + 1];
    assert forall i | 0 <= i < n :: init[i] == rows[i] == more[i];
    if Named(init, s, granted, b, wanted, text) {
      var i :| 0 <= i < n && First(init, i, b, wanted, text) && text(init[i]) == s && init[i].granted == granted;
      assert First(more, i, b, wanted, text);
    }
    if Named(more, s, granted, b, wanted, text) {
      var i :| 0 <= i < |more| && First(more, i, b, wanted, text) && text(more[i]) == s && more[i].granted == granted;
      if i < n {
        assert First(init, i, b, wanted, text);
      } else {
        assert First(rows, n, b, wanted, text);
      }
    }
    if First(rows, n, b, wanted, text) {
      assert First(more, n, b, wanted, text);
    }
  }

  /** The texts of the granted (or queued) rows, in row order, each with the first passing row that has it. */
  function Texts(rows: seq<Lock>, granted: bool, b: int32, wanted: set<Object>, text: Lock -> string): seq<string> {
    if rows == [] then []
    else
      var n := |rows| - 1;
      Texts(rows[..n], granted, b, wanted, text)
      + (if First(rows, n, b, wanted, text) && rows[n].granted == granted then [text(rows[n])] else [])
  }

  lemma {:induction false} TextsAreNamed(rows: seq<Lock>, s: string, granted: bool, b: int32, wanted: set<Object>, text: Lock -> string)
    ensures s in Texts(rows, granted, b, wanted, text) <==> Named(rows, s, granted, b, wanted, text)
  {
    if rows != [] {
      hide First, Named;
      var n := |rows| - 1;
      TextsAreNamed(rows[..n], s, granted, b, wanted, text);
      NamedSnoc(rows, n, s, granted, b, wanted, text);
      assert rows[..n + 1] == rows;
    }
  }

  /** What the blocker is said to hold; the texts are joined with commas. */
  datatype Holding = Held(texts: seq<string>) | QueuedAhead(texts: seq<string>) | Nothing

  function HoldingOf(held: seq<string>, queued: seq<string>): Holding {
    if held != [] then Held(held) else if queued != [] then QueuedAhead(queued) else Nothing
  }

  /** holds: one `seen` set for the texts of granted and queued rows alike. */
  method Holds(rows: seq<Lock>, b: int32, wanted: set<Object>, text: Lock -> string) returns (h: Holding)
    ensures h == HoldingOf(Texts(rows, true, b, wanted, text), Texts(rows, false, b, wanted, text))
    ensures var held, queued := Texts(rows, true, b, wanted, text), Texts(rows, false, b, wanted, text);
      && (held != [] ==> h == Held(held))
      && (held == [] && queued != [] ==> h == QueuedAhead(queued))
      && (held == [] && queued == [] ==> h == Nothing)
  {
    hide First;
    var held: seq<string>, queued: seq<string> := [], [];
    var seen: set<string> := {};
    for n := 0 to |rows|
      invariant held == Texts(rows[..n], true, b, wanted, text)
      invariant queued == Texts(rows[..n], false, b, wanted, text)
      invariant forall s :: s in seen <==> exists j | 0 <= j < n :: Passes(b, wanted, rows[j]) && text(rows[j]) == s
    {
      var l := rows[n];
      FirstIsUnseen(rows, n, b, wanted, text, seen);
      FirstInPrefix(rows, n, b, wanted, text);
      assert rows[..n + 1][..n] == rows[..n];
      if Passes(b, wanted, l) && text(l) !in seen {
        seen := seen + {text(l)};
        if l.granted {
          held := held + [text(l)];
        } else {
          queued := queued + [text(l)];
        }
      }
    }
    assert rows[..|rows|] == rows;
    h := if |held| > 0 then Held(held) else if |queued| > 0 then QueuedAhead(queued) else Nothing;
  }

  lemma FirstInPrefix(rows: seq<Lock>, n: nat, b: int32, wanted: set<Object>, text: Lock -> string)
    requires n < |rows|
    ensures First(rows[..n + 1], n, b, wanted, text) <==> First(rows, n, b, wanted, text)
  {
    assert forall j | 0 <= j <= n :: rows[..n + 1][j] == rows[j];
  }

  lemma FirstIsUnseen(rows: seq<Lock>, n: nat, b: int32, wanted: set<Object>, text: Lock -> string, seen: set<string>)
    requires n < |rows|
    requires forall s :: s in seen <==> exists j | 0 <= j < n :: Passes(b, wanted, rows[j]) && text(rows[j]) == s
    ensures First(rows, n, b, wanted, text) <==> Passes(b, wanted, rows[n]) && text(rows[n]) !in seen
  {
  }

  /** No queued row before row i passes with row i's text. */
  ghost predicate NotQueuedBefore(rows: seq<Lock>, i: nat, b: int32, wanted: set<Object>, text: Lock -> string)
    requires i < |rows|
  {
    forall j | 0 <= j < i && !rows[j].granted && Passes(b, wanted, rows[j]) :: text(rows[j]) != text(rows[i])
  }

  /** A text is shown as held exactly when a granted passing row has it and no queued one had it before. */
  lemma HeldExactly(rows: seq<Lock>, s: string, b: int32, wanted: set<Object>, text: Lock -> string)
    ensures s in Texts(rows, true, b, wanted, text) <==>
      exists i | 0 <= i < |rows| ::
        rows[i].granted && Passes(b, wanted, rows[i]) && text(rows[i]) == s && NotQueuedBefore(rows, i, b, wanted, text)
  {
    TextsAreNamed(rows, s, true, b, wanted, text);
    forall i | 0 <= i < |rows| && rows[i].granted && Passes(b, wanted, rows[i]) && NotQueuedBefore(rows, i, b, wanted, text)
      ensures Named(rows, text(rows[i]), true, b, wanted, text)
    {
      var f := FirstWith(rows, i, b, wanted, text);
    }
  }

  /** A blocker's granted rows come before its ungranted ones. */
  ghost predicate GrantedFirst(rows: seq<Lock>) {
    forall i, j | 0 <= i < j < |rows| && OwnerOf(rows[i]) == OwnerOf(rows[j]) && rows[j].granted :: rows[i].granted
  }

  /** The order of lock.list: by pid, those without one last, and granted ones first within a pid. */
  predicate InQueryOrder(x: Lock, y: Lock) {
    if x.pid == y.pid then y.granted ==> x.granted
    else y.pid.None? || (x.pid.Some? && x.pid.value < y.pid.value)
  }

  /** The list as the query sorts it; no backend has the pid that prepared transactions block as. */
  ghost predicate Queried(rows: seq<Lock>) {
    && (forall i, j | 0 <= i < j < |rows| :: InQueryOrder(rows[i], rows[j]))
    && forall i | 0 <= i < |rows| :: rows[i].pid != Some(PREPARED_BLOCKER)
  }

  /** The query never gives a queued row before a granted one of the same owner. */
  lemma QueryGivesGrantedFirst(rows: seq<Lock>)
    requires Queried(rows)
    ensures GrantedFirst(rows)
  {
    forall i, j | 0 <= i < j < |rows| && OwnerOf(rows[i]) == OwnerOf(rows[j]) && rows[j].granted
      ensures rows[i].granted
    {
      assert InQueryOrder(rows[i], rows[j]) && rows[i].pid == rows[j].pid;
    }
  }

  /** With granted rows first, the texts shown as held are exactly those of the granted locks that pass the filter. */
  lemma HeldIsGranted(rows: seq<Lock>, s: string, b: int32, wanted: set<Object>, text: Lock -> string)
    requires GrantedFirst(rows)
    ensures s in Texts(rows, true, b, wanted, text) <==>
      exists i | 0 <= i < |rows| :: rows[i].granted && Passes(b, wanted, rows[i]) && text(rows[i]) == s
  {
    HeldExactly(rows, s, b, wanted, text);
    if i :| 0 <= i < |rows| && rows[i].granted && Passes(b, wanted, rows[i]) && text(rows[i]) == s {
      forall j | 0 <= j < i && Passes(b, wanted, rows[j])
        ensures rows[j].granted
      {
        MineIsOwner(b, rows[i]);
        MineIsOwner(b, rows[j]);
      }
    }
  }

  /** No text is shown twice, neither among the held nor between held and queued. */
  lemma {:induction false} TextsDoNotRepeat(rows: seq<Lock>, granted: bool, s: string, b: int32, wanted: set<Object>, text: Lock -> string)
    ensures Distinct(Texts(rows, granted, b, wanted, text))
    ensures s in Texts(rows, true, b, wanted, text) ==> s !in Texts(rows, false, b, wanted, text)
  {
    TextsAreNamed(rows, s, true, b, wanted, text);
    TextsAreNamed(rows, s, false, b, wanted, text);
    if rows != [] {
      var n := |rows| - 1;
      TextsDoNotRepeat(rows[..n], granted, s, b, wanted, text);
      TextsAreNamed(rows[..n], text(rows[n]), granted, b, wanted, text);
    }
  }

  lemma FirstWith(rows: seq<Lock>, i: nat, b: int32, wanted: set<Object>, text: Lock -> string) returns (f: nat)
    requires i < |rows| && Passes(b, wanted, rows[i])
    ensures f <= i && First(rows, f, b, wanted, text) && text(rows[f]) == text(rows[i])
    decreases i
  {
    if First(rows, i, b, wanted, text) {
      f := i;
    } else {
      var j :| 0 <= j < i && Passes(b, wanted, rows[j]) && text(rows[j]) == text(rows[i]);
      f := FirstWith(rows, j, b, wanted, text);
    }
  }

  /** Why the order matters: a granted row's text is missing exactly when the first passing row that has it is queued. */
  lemma QueuedHidesGranted(rows: seq<Lock>, i: nat, b: int32, wanted: set<Object>, text: Lock -> string)
    requires i < |rows| && rows[i].granted && Passes(b, wanted, rows[i])
    ensures text(rows[i]) !in Texts(rows, true, b, wanted, text) <==>
      exists j | 0 <= j < i :: First(rows, j, b, wanted, text) && text(rows[j]) == text(rows[i]) && !rows[j].granted
  {
    TextsAreNamed(rows, text(rows[i]), true, b, wanted, text);
    var f := FirstWith(rows, i, b, wanted, text);
    forall j | 0 <= j < |rows| && First(rows, j, b, wanted, text) && text(rows[j]) == text(rows[i])
      ensures j == f
    {
      OneFirst(rows, f, j, b, wanted, text);
    }
  }

  lemma OneFirst(rows: seq<Lock>, i: nat, j: nat, b: int32, wanted: set<Object>, text: Lock -> string)
    requires i < |rows| && First(rows, i, b, wanted, text) && j < |rows| && First(rows, j, b, wanted, text)
    requires text(rows[i]) == text(rows[j])
    ensures i == j
  {
  }

  // ---- the text selection, in the fields of the rows ----

  /** b owns x, and a waiter with a pid is behind b on x's object. */
  ghost predicate InTheWay(rows: seq<Lock>, b: int32, x: Lock) {
    && (if x.pid.Some? then x.pid.value == b else b == 0)
    && exists j | 0 <= j < |rows| :: rows[j].pid.Some? && WaitsBehind(rows[j], x)
  }

  lemma PassesExactly(rows: seq<Lock>, b: int32, x: Lock)
    ensures Passes(b, WantedFrom(Waiting(rows), b), x) <==> InTheWay(rows, b, x)
  {
    var waiting := Waiting(rows);
    WantedExactly(waiting, b, ObjectOf(x));
    forall y: Lock
      ensures y in waiting <==> y in rows && !y.granted && y.pid.Some?
    {
      WaitingRows(rows, y);
    }
    if Mine(b, x) {
      MineIsOwner(b, x);
      forall y: Lock
        ensures Contests(y, b, ObjectOf(x)) <==> WaitsBehind(y, x)
      {
        ContestsExactly(y, x);
      }
      hide WaitsBehind, WantedFrom, Waiting, ObjectOf;
      if i :| 0 <= i < |waiting| && b in waiting[i].blockedBy && ObjectOf(waiting[i]) == ObjectOf(x) {
        assert waiting[i] in waiting;
        var j :| 0 <= j < |rows| && rows[j] == waiting[i];
        assert Contests(rows[j], b, ObjectOf(x));
      }
      if j :| 0 <= j < |rows| && rows[j].pid.Some? && WaitsBehind(rows[j], x) {
        assert Contests(rows[j], b, ObjectOf(x)) && rows[j] in rows;
        var i :| 0 <= i < |waiting| && waiting[i] == rows[j];
      }
    }
  }

  /** What a blocker is shown to hold, in the fields of the rows: the granted locks in a waiter's way, less the texts a queued one has before. */
  lemma HeldInTheWay(rows: seq<Lock>, s: string, b: int32, text: Lock -> string)
    ensures s in Texts(rows, true, b, WantedFrom(Waiting(rows), b), text) <==>
      exists i | 0 <= i < |rows| ::
        && rows[i].granted && InTheWay(rows, b, rows[i]) && text(rows[i]) == s
        && forall j | 0 <= j < i && !rows[j].granted && InTheWay(rows, b, rows[j]) :: text(rows[j]) != s
  {
    var wanted := WantedFrom(Waiting(rows), b);
    HeldExactly(rows, s, b, wanted, text);
    forall x
      ensures Passes(b, wanted, x) <==> InTheWay(rows, b, x)
    {
      PassesExactly(rows, b, x);
    }
    hide Passes, InTheWay, Texts;
  }

  /** The texts, each from the first row in the way that has it, in the order of the rows. */
  lemma {:induction false} TextPlaces(rows: seq<Lock>, granted: bool, b: int32, wanted: set<Object>, text: Lock -> string) returns (idx: seq<nat>)
    ensures Places(idx, |rows|) && |Texts(rows, granted, b, wanted, text)| == |idx|
    ensures forall k | 0 <= k < |idx| :: Texts(rows, granted, b, wanted, text)[k] == text(rows[idx[k]]) && rows[idx[k]].granted == granted
  {
    idx := [];
    if rows != [] {
      var n := |rows| - 1;
      var init := rows[..n];
      idx := TextPlaces(init, granted, b, wanted, text);
      PlacesMore(idx, n);
      assert forall i | 0 <= i < n :: init[i] == rows[i];
      hide First, Places;
      if First(rows, n, b, wanted, text) && rows[n].granted == granted {
        idx := idx + [n];
      }
    }
  }

  /** The waiting rows a pid is in the way of. */
  ghost function RowsBlocked(waiting: seq<Lock>, b: int32): set<nat> {
    set i | 0 <= i < |waiting| && b in waiting[i].blockedBy
  }

  /** "blocks" is how many they are. */
  lemma {:induction false} BlockedExactly(waiting: seq<Lock>, b: int32)
    ensures Blocked(waiting, b) == |RowsBlocked(waiting, b)|
  {
    if waiting != [] {
      var n := |waiting| - 1;
      BlockedExactly(waiting[..n], b);
      var before := RowsBlocked(waiting[..n], b);
      assert RowsBlocked(waiting, b) == if b in waiting[n].blockedBy then before + {n} else before;
    }
  }

  // ---- the whole table of blockers ----

  datatype BlockerRow = BlockerRow(pid: int32, blocks: nat, holds: Holding)

  /** The loop that makes the rows out of the listing. */
  method ListRows(pids: seq<int32>, blocks: map<int32, nat>, wanted: map<int32, set<Object>>, ghost waiting: seq<Lock>, rows: seq<Lock>, text: Lock -> string)
    returns (lines: seq<BlockerRow>)
    requires Maps(blocks, wanted, waiting) && forall b | b in pids :: b in blocks
    ensures |lines| == |pids| && forall k | 0 <= k < |pids| :: Row(lines[k], pids[k], waiting, rows, text)
    ensures Column(lines) == ColumnSum(pids, blocks)
  {
    hide Blocked, WantedFrom, Texts, HoldingOf;
    lines := [];
    for i := 0 to |pids|
      invariant |lines| == i
      invariant forall k | 0 <= k < i :: Row(lines[k], pids[k], waiting, rows, text)
      invariant Column(lines) == ColumnSum(pids[..i], blocks)
    {
      var b := pids[i];
      var holding := Holds(rows, b, wanted[b], text);
      assert pids[..i + 1][..i] == pids[..i];
      assert (lines + [BlockerRow(b, blocks[b], holding)])[..i] == lines;
      lines := lines + [BlockerRow(b, blocks[b], holding)];
    }
    assert pids[..|pids|] == pids;
  }

  /** writeBlockers: its rows, from the waiting rows and all rows alone. */
  method WriteBlockers(waiting: seq<Lock>, rows: seq<Lock>, text: Lock -> string) returns (lines: seq<BlockerRow>)
    ensures forall i | 0 <= i < |lines| :: Row(lines[i], lines[i].pid, waiting, rows, text)
    ensures forall b: int32 :: Blocked(waiting, b) > 0 <==> exists i | 0 <= i < |lines| :: lines[i].pid == b
    ensures forall i, j | 0 <= i < j < |lines| ::
      lines[i].blocks > lines[j].blocks || (lines[i].blocks == lines[j].blocks && lines[i].pid < lines[j].pid)
    ensures Column(lines) == Pairs(waiting)
  {
    hide Blocked, WantedFrom, Texts, HoldingOf, Pairs, ColumnSum, Column;
    var blocks, wanted := CountBlockers(waiting);
    var pids := ListBlockers(blocks);
    ListedBlocksAddUp(pids, blocks, wanted, waiting);
    lines := ListRows(pids, blocks, wanted, waiting, rows, text);
    assert forall i | 0 <= i < |lines| :: lines[i].pid == pids[i] && pids[i] in blocks && lines[i].blocks == blocks[pids[i]];
    forall i, j | 0 <= i < j < |lines|
      ensures lines[i].blocks > lines[j].blocks || (lines[i].blocks == lines[j].blocks && lines[i].pid < lines[j].pid)
    {
      assert Before(blocks, pids[i], pids[j]);
    }
    forall b: int32
      ensures Blocked(waiting, b) > 0 <==> exists i | 0 <= i < |lines| :: lines[i].pid == b
    {
      assert b in pids <==> b in blocks;
      if b in pids {
        var i :| 0 <= i < |pids| && pids[i] == b;
        assert lines[i].pid == b;
      }
    }
  }

  /** What one row says of blocker b. */
  ghost predicate Row(line: BlockerRow, b: int32, waiting: seq<Lock>, rows: seq<Lock>, text: Lock -> string) {
    var wanted := WantedFrom(waiting, b);
    line == BlockerRow(b, Blocked(waiting, b), HoldingOf(Texts(rows, true, b, wanted, text), Texts(rows, false, b, wanted, text)))
  }

  /** The "blocks" column of the rows, added up. */
  function Column(lines: seq<BlockerRow>): nat {
    if lines == [] then 0 else Column(lines[..|lines| - 1]) + lines[|lines| - 1].blocks
  }

  // ---- text and JSON agree ----

  /** A granted row passes the filter of holds for some blocker the text lists. */
  ghost predicate InText(rows: seq<Lock>, x: Lock) {
    exists b: int32 :: Blocked(Waiting(rows), b) > 0 && Passes(b, WantedFrom(Waiting(rows), b), x)
  }

  /** Contested by a waiter without a pid, which the text does not list. */
  predicate ContestedUnlisted(rows: seq<Lock>, x: Lock) {
    exists i | 0 <= i < |rows| :: rows[i].pid.None? && Contests(rows[i], OwnerOf(x), ObjectOf(x))
  }

  lemma InTextExactly(rows: seq<Lock>, x: Lock)
    ensures InText(rows, x) <==>
      exists i | 0 <= i < |rows| :: rows[i].pid.Some? && Contests(rows[i], OwnerOf(x), ObjectOf(x))
  {
    var waiting, b, o := Waiting(rows), OwnerOf(x), ObjectOf(x);
    WantedExactly(waiting, b, o);
    forall b'
      ensures Mine(b', x) <==> b' == b
    {
      MineIsOwner(b', x);
    }
    if i :| 0 <= i < |waiting| && b in waiting[i].blockedBy && ObjectOf(waiting[i]) == o {
      WaitingRows(rows, waiting[i]);
      var j :| 0 <= j < |rows| && rows[j] == waiting[i];
      assert rows[j].pid.Some? && Contests(rows[j], b, o);
      assert Passes(b, WantedFrom(waiting, b), x);
    }
    if j :| 0 <= j < |rows| && rows[j].pid.Some? && Contests(rows[j], b, o) {
      WaitingRows(rows, rows[j]);
      var i :| 0 <= i < |waiting| && waiting[i] == rows[j];
      assert b in waiting[i].blockedBy && ObjectOf(waiting[i]) == o;
      assert Passes(b, WantedFrom(waiting, b), x);
    }
  }

  /** For every list of locks: a granted row is in the JSON exactly when the text shows it or only a waiter without a pid contests it. */
  lemma JsonIsTextAndUnlisted(rows: seq<Lock>, x: Lock)
    requires x.granted
    ensures InJson(rows, x) <==> InText(rows, x) || ContestedUnlisted(rows, x)
  {
    InTextExactly(rows, x);
  }

  /** When every ungranted row carries a pid, the two selections are the same. */
  lemma TextAndJsonAgree(rows: seq<Lock>, x: Lock)
    requires x.granted && x in rows
    requires forall i | 0 <= i < |rows| && !rows[i].granted :: rows[i].pid.Some?
    ensures x in Shown(rows, rows) <==> InText(rows, x)
  {
    JsonIsTextAndUnlisted(rows, x);
    ShownIsInJson(rows, rows, x);
  }

  /** Every granted lock in the JSON list is then named in the text, at a blocker it lists. */
  lemma JsonLockIsNamed(rows: seq<Lock>, x: Lock, text: Lock -> string)
    requires x.granted && x in Shown(rows, rows) && Queried(rows)
    requires forall i | 0 <= i < |rows| && !rows[i].granted :: rows[i].pid.Some?
    ensures exists b: int32 ::
      && Blocked(Waiting(rows), b) > 0
      && text(x) in Texts(rows, true, b, WantedFrom(Waiting(rows), b), text)
  {
    QueryGivesGrantedFirst(rows);
    ShownIsInJson(rows, rows, x);
    TextAndJsonAgree(rows, x);
    var b: int32 :| Blocked(Waiting(rows), b) > 0 && Passes(b, WantedFrom(Waiting(rows), b), x);
    HeldIsGranted(rows, text(x), b, WantedFrom(Waiting(rows), b), text);
  }
}
