/**
 The waits layout: the classification loop of `write` in internal/report/waits.go, and how its counts
 agree with `Redacted` of internal/facts/wait.go. The shown groups are listed before sorting.
 */
module Waits {
  import opened Picking
  import opened Wrappers
  import opened Facts
  import opened NoRepeats

  /** One group of sessions sharing wait event and state. */
  datatype Wait = Wait(
    waitEventType: Option<string>,
    state: Option<string>,
    sessions: int,
    pids: seq<int32>,
    masked: int,
    background: seq<int32>)

  datatype Tally = Tally(busy: int, idle: int, background: int, hidden: int, untracked: int, shown: seq<Wait>)

  const ZERO := Tally(0, 0, 0, 0, 0, [])

  function Plus(a: Tally, b: Tally): Tally {
    Tally(a.busy + b.busy, a.idle + b.idle, a.background + b.background, a.hidden + b.hidden, a.untracked + b.untracked, a.shown + b.shown)
  }

  /** slices.DeleteFunc(slices.Clone(pids), in) */
  function Without(pids: seq<int32>, gone: seq<int32>): seq<int32> {
    if pids == [] then []
    else
      var last := pids[|pids| - 1];
      Without(pids[..|pids| - 1], gone) + (if last in gone then [] else [last])
  }

  /** A group without its background processes. */
  function Foreground(g: Wait): Wait {
    g.(sessions := g.sessions - |g.background|, pids := Without(g.pids, g.background))
  }

  /** What one group adds to the counts. */
  function Classify(g: Wait): Tally {
    var rest := g.sessions - g.masked;
    var seen := ZERO.(hidden := g.masked);
    if rest == 0 then seen
    else if g.waitEventType == Some("Activity") then seen.(background := rest)
    else if g.state == Some("idle") then seen.(idle := rest)
    else if g.state.None? && g.waitEventType.None? then seen.(background := rest)
    else if g.state == Some("disabled") then seen.(untracked := rest)
    else if g.waitEventType.None? && g.background != [] then
      if rest == |g.background| then seen.(background := rest)
      else seen.(background := |g.background|, busy := rest - |g.background|, shown := [Foreground(g)])
    else seen.(busy := rest, shown := [g])
  }

  function Total(rows: seq<Wait>): Tally {
    if rows == [] then ZERO else Plus(Total(rows[..|rows| - 1]), Classify(rows[|rows| - 1]))
  }

  /** The switch in the loop body: what one group adds to the five counters, and whether it is shown. */
  method CountGroup(group: Wait) returns (t: Tally)
    ensures t == Classify(group)
  {
    var g := group;
    var shown: seq<Wait> := [];
    var busy, idle, background, hidden, untracked := 0, 0, 0, g.masked, 0;
    var rest := g.sessions - g.masked;
    if rest == 0 {
    } else if g.waitEventType.Some? && g.waitEventType.value == "Activity" {
      background := rest;
    } else if g.state.Some? && g.state.value == "idle" {
      idle := rest;
    } else if g.state.None? && g.waitEventType.None? {
      background := rest;
    } else if g.state.Some? && g.state.value == "disabled" {
      untracked := rest;
    } else {
      if g.waitEventType.None? && |g.background| > 0 {
        background := |g.background|;
        rest := rest - |g.background|;
        g := g.(sessions := g.sessions - |g.background|, pids := Without(g.pids, g.background));
      }
      if rest != 0 {
        busy := rest;
        shown := [g];
      }
    }
    t := Tally(busy, idle, background, hidden, untracked, shown);
  }

  method CountWaits(rows: seq<Wait>) returns (t: Tally)
    ensures t == Total(rows)
  {
    hide Classify;
    var shown: seq<Wait> := [];
    var busy, idle, background, hidden, untracked := 0, 0, 0, 0, 0;
    for i := 0 to |rows|
      invariant Tally(busy, idle, background, hidden, untracked, shown) == Total(rows[..i])
    {
      assert rows[..i + 1][..i] == rows[..i];
      var g := CountGroup(rows[i]);
      hidden := hidden + g.hidden;
      background := background + g.background;
      idle := idle + g.idle;
      untracked := untracked + g.untracked;
      busy := busy + g.busy;
      shown := shown + g.shown;
    }
    assert rows[..|rows|] == rows;
    t := Tally(busy, idle, background, hidden, untracked, shown);
  }

  // ---- nothing is lost, nothing is counted twice ----

  function Sessions(rows: seq<Wait>): int {
    if rows == [] then 0 else Sessions(rows[..|rows| - 1]) + rows[|rows| - 1].sessions
  }

  /** The sessions column of the shown rows, added up. */
  function ShownSessions(shown: seq<Wait>): int {
    if shown == [] then 0 else ShownSessions(shown[..|shown| - 1]) + shown[|shown| - 1].sessions - shown[|shown| - 1].masked
  }

  lemma {:induction false} ShownSessionsConcat(a: seq<Wait>, b: seq<Wait>)
    ensures ShownSessions(a + b) == ShownSessions(a) + ShownSessions(b)
  {
    if b == [] {
      assert a + b == a;
    } else {
      assert (a + b)[..|a + b| - 1] == a + b[..|b| - 1];
      ShownSessionsConcat(a, b[..|b| - 1]);
    }
  }

  lemma ShownSessionsOne(g: Wait)
    ensures ShownSessions([g]) == g.sessions - g.masked
  {
    assert [g][..0] == [];
  }

  lemma ClassifyConserves(g: Wait)
    ensures var t := Classify(g);
      && t.busy + t.idle + t.background + t.hidden + t.untracked == g.sessions
      && ShownSessions(t.shown) == t.busy
  {
    ShownSessionsOne(g);
    ShownSessionsOne(Foreground(g));
  }

  /** The five counts add up to every session, whatever the groups; the shown column adds up to the headline. */
  lemma {:induction false} WaitsConserved(rows: seq<Wait>)
    ensures var t := Total(rows);
      && t.busy + t.idle + t.background + t.hidden + t.untracked == Sessions(rows)
      && ShownSessions(t.shown) == t.busy
  {
    if rows != [] {
      hide Classify;
      var init, g := rows[..|rows| - 1], rows[|rows| - 1];
      WaitsConserved(init);
      ClassifyConserves(g);
      ShownSessionsConcat(Total(init).shown, Classify(g).shown);
    }
  }

  /** Which counter the sessions of a group that are not masked go to, and what is shown, in the group's own fields. */
  lemma CountedExactly(g: Wait)
    ensures var t, rest := Classify(g), g.sessions - g.masked;
      && t.hidden == g.masked
      && t.idle == (if g.state == Some("idle") && g.waitEventType != Some("Activity") then rest else 0)
      && t.untracked == (if g.state == Some("disabled") && g.waitEventType != Some("Activity") then rest else 0)
      && t.background ==
           (if rest == 0 then 0
            else if g.waitEventType == Some("Activity") || (g.state.None? && g.waitEventType.None?) then rest
            else if g.waitEventType.None? && g.state != Some("idle") && g.state != Some("disabled") then |g.background|
            else 0)
      && t.busy == rest - t.idle - t.untracked - t.background
    ensures var t, rest := Classify(g), g.sessions - g.masked;
      && |t.shown| <= 1
      && (t.shown != [] <==>
           && rest != 0 && g.waitEventType != Some("Activity") && g.state != Some("idle") && g.state != Some("disabled")
           && (g.waitEventType.None? ==> g.state.Some? && (g.background == [] || rest != |g.background|)))
      && (t.shown != [] ==>
           if g.waitEventType.None? && g.background != []
           then t.shown[0] == g.(sessions := g.sessions - |g.background|, pids := Without(g.pids, g.background))
           else t.shown[0] == g)
  {
    assert "idle" != "disabled";
  }

  /** Each counter adds up over the groups on its own, and the groups are shown in their order. */
  lemma CountersAddUp(rows: seq<Wait>, g: Wait)
    ensures Total([]) == Tally(0, 0, 0, 0, 0, [])
    ensures var t, one, more := Total(rows), Classify(g), Total(rows + [g]);
      && more.busy == t.busy + one.busy && more.idle == t.idle + one.idle && more.background == t.background + one.background
      && more.hidden == t.hidden + one.hidden && more.untracked == t.untracked + one.untracked
      && more.shown == t.shown + one.shown
  {
    hide Classify;
    assert (rows + [g])[..|rows|] == rows;
  }

  /** The pids that are left, in their order. */
  lemma WithoutPlaces(pids: seq<int32>, gone: seq<int32>) returns (idx: seq<nat>)
    ensures Places(idx, |pids|) && |Without(pids, gone)| == |idx|
    ensures forall i: nat :: i in idx <==> i < |pids| && pids[i] !in gone
    ensures forall k | 0 <= k < |idx| :: Without(pids, gone)[k] == pids[idx[k]]
  {
    var f := (p: int32) => if p in gone then None else Some(p);
    idx := GivenPlaces(pids, f);
    WithoutGiven(pids, gone, f);
  }

  lemma {:induction false} WithoutGiven(pids: seq<int32>, gone: seq<int32>, f: int32 -> Option<int32>)
    requires forall p: int32 :: f(p) == if p in gone then None else Some(p)
    ensures Without(pids, gone) == Given(pids, f)
  {
    if pids != [] {
      WithoutGiven(pids[..|pids| - 1], gone, f);
    }
  }

  /** A group the probe can return: masked sessions are some of them, background processes are others, each pid listed once. */
  ghost predicate Plausible(g: Wait) {
    && 0 <= g.masked && g.masked + |g.background| <= g.sessions
    && g.sessions == |g.pids|
    && Distinct(g.pids) && Distinct(g.background)
    && forall p | p in g.background :: p in g.pids
  }

  lemma {:induction false} WithoutKeeps(pids: seq<int32>, gone: seq<int32>)
    ensures forall p :: p in Without(pids, gone) <==> p in pids && p !in gone
    ensures Distinct(pids) ==> Distinct(Without(pids, gone))
  {
    if pids != [] {
      var init, last := pids[..|pids| - 1], pids[|pids| - 1];
      WithoutKeeps(init, gone);
      assert pids == init + [last];
      if Distinct(pids) {
        DistinctSplit(pids);
      }
    }
  }

  /** Taking the background processes out of the pid list takes out one pid each. */
  lemma WithoutCount(g: Wait)
    requires Plausible(g)
    ensures |Without(g.pids, g.background)| == |g.pids| - |g.background|
  {
    var left := Without(g.pids, g.background);
    WithoutKeeps(g.pids, g.background);
    DistinctCount(g.pids);
    DistinctCount(g.background);
    DistinctCount(left);
    assert SetOf(left) == SetOf(g.pids) - SetOf(g.background);
    assert SetOf(g.background) <= SetOf(g.pids);
  }

  /** A row that may be shown: someone to show, every session listed by pid, no background process without a wait. */
  ghost predicate GoodRow(g: Wait) {
    && g.sessions - g.masked > 0
    && |g.pids| == g.sessions
    && (g.waitEventType.None? ==> forall p | p in g.pids :: p !in g.background)
  }

  lemma ClassifyIsGood(g: Wait)
    requires Plausible(g)
    ensures var t := Classify(g);
      && t.busy >= 0 && t.idle >= 0 && t.background >= 0 && t.hidden >= 0 && t.untracked >= 0
      && forall i | 0 <= i < |t.shown| :: GoodRow(t.shown[i])
  {
    if g.waitEventType.None? && g.background != [] {
      WithoutKeeps(g.pids, g.background);
      WithoutCount(g);
    }
  }

  /** No count is negative, and every shown row is good. */
  lemma {:induction false} WaitsSound(rows: seq<Wait>)
    requires forall i | 0 <= i < |rows| :: Plausible(rows[i])
    ensures var t := Total(rows);
      && t.busy >= 0 && t.idle >= 0 && t.background >= 0 && t.hidden >= 0 && t.untracked >= 0
      && forall i | 0 <= i < |t.shown| :: GoodRow(t.shown[i])
  {
    if rows != [] {
      hide Classify, Plausible, GoodRow;
      WaitsSound(rows[..|rows| - 1]);
      ClassifyIsGood(rows[|rows| - 1]);
    }
  }

  // ---- the text and the JSON count the same hidden sessions ----

  /** facts.WaitSummary.Redacted: rows affected for lack of privilege, and for activity not tracked. */
  method Redacted(rows: seq<Wait>) returns (masked: int, untracked: int)
    ensures masked == Total(rows).hidden
    ensures untracked == Total(rows).untracked + Asleep(rows)
  {
    masked, untracked := 0, 0;
    for i := 0 to |rows|
      invariant masked == Total(rows[..i]).hidden
      invariant untracked == Total(rows[..i]).untracked + Asleep(rows[..i])
    {
      assert rows[..i + 1][..i] == rows[..i];
      masked := masked + rows[i].masked;
      if rows[i].state.Some? && rows[i].state.value == "disabled" {
        untracked := untracked + (rows[i].sessions - rows[i].masked);
      }
    }
    assert rows[..|rows|] == rows;
  }

  /** Untracked sessions that report an Activity wait all the same: the text counts them as background. */
  function Asleep(rows: seq<Wait>): int {
    if rows == [] then 0
    else
      var g := rows[|rows| - 1];
      Asleep(rows[..|rows| - 1])
      + (if MaySleep(g) then g.sessions - g.masked else 0)
  }

  /**
   An untracked session reports no wait event, so text and JSON then agree on both numbers; they agree
   exactly when no untracked group with an Activity wait has a session that is not masked.
   */
  lemma {:induction false} NobodyAsleep(rows: seq<Wait>)
    ensures (forall i | 0 <= i < |rows| :: !MaySleep(rows[i])) ==> Asleep(rows) == 0
    ensures (forall i | 0 <= i < |rows| :: rows[i].masked <= rows[i].sessions) ==>
      (Asleep(rows) == 0 <==> forall i | 0 <= i < |rows| && MaySleep(rows[i]) :: rows[i].masked == rows[i].sessions)
    ensures (forall i | 0 <= i < |rows| :: rows[i].masked <= rows[i].sessions) ==> Asleep(rows) >= 0
  {
    if rows != [] {
      var n := |rows| - 1;
      NobodyAsleep(rows[..n]);
      assert forall i | 0 <= i < n :: rows[..n][i] == rows[i];
    }
  }

  predicate MaySleep(g: Wait) {
    g.state == Some("disabled") && g.waitEventType == Some("Activity")
  }
}
