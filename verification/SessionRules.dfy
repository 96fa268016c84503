/**
 The rules over sessions and locks: `Sessions` (internal/rule/rule.go), `Locks` (internal/rule/lock.go)
 and `Txn` (internal/rule/txn.go).
 */
module SessionRules {
  import opened Wrappers
  import opened Facts
  import opened Verdict
  import opened Judging
  import opened Picking

  // ---- what may be shown of a session ----

  const HIDDEN_SESSION: Session -> bool := (s: Session) => s.Hidden()

  /** A hidden session may turn out to be any session with the same pid. */
  const SHOWS_SESSION: (Session, Session) -> bool :=
    (s: Session, t: Session) => s == t || (s.Hidden() && !t.Hidden() && t.pid == s.pid)

  function Shown(s: Session, state: string, xactAge: Option<real>, stateAge: Option<real>): Session {
    s.(state := Some(state), xactAge := xactAge, stateAge := stateAge, query := Some(""))
  }

  lemma ShownIsNotHidden(s: Session, state: string, xactAge: Option<real>, stateAge: Option<real>)
    requires state != "disabled"
    ensures !Shown(s, state, xactAge, stateAge).Hidden()
  {
    assert |""| != |"<insufficient privilege>"|;
  }

  // ---- Sessions: idle in transaction too long ----

  function SessionSight(warn: real): Session -> Sight {
    (s: Session) =>
      if s.Hidden() then BLIND
      else if s.state.None? || s.stateAge.None? then NOTHING
      else if s.state.value != "idle in transaction" && s.state.value != "idle in transaction (aborted)" then NOTHING
      else if s.stateAge.value < warn then NOTHING
      else Sight(Some(Finding("session.idle_in_txn", Warn, OfSession(s.pid))), false)
  }

  function SessionsResult(a: Probe<Session>, warn: real): Result {
    Run(a, SessionSight(warn))
  }

  method Sessions(a: Probe<Session>, warn: real) returns (r: Result)
    ensures r == SessionsResult(a, warn)
  {
    if a.status == NotApplicable {
      return Result(OK, []);
    }
    if a.status != StatusOK {
      return Result(UNKNOWN, []);
    }
    ghost var sight := SessionSight(warn);
    var fs: seq<Finding> := [];
    var masked := false;
    for i := 0 to |a.rows|
      invariant fs == Findings(a.rows[..i], sight)
      invariant masked == Unseen(a.rows[..i], sight)
    {
      LookAtNext(a.rows, i, sight);
      var s := a.rows[i];
      if s.Masked() || s.Untracked() {
        masked := true;
        continue;
      }
      if s.state.None? || s.stateAge.None? {
        continue;
      }
      if s.state.value != "idle in transaction" && s.state.value != "idle in transaction (aborted)" {
        continue;
      }
      if s.stateAge.value < warn {
        continue;
      }
      fs := fs + [Finding("session.idle_in_txn", Warn, OfSession(s.pid))];
    }
    assert a.rows[..|a.rows|] == a.rows;
    var v := TakeVerdict(fs, masked);
    r := Result(v, fs);
  }

  lemma SessionsSwing(warn: real) returns (quiet: Session -> Session, loud: Session -> Session, guilty: Session)
    ensures Swings(SessionSight(warn), SHOWS_SESSION, quiet, loud, guilty)
  {
    quiet := (s: Session) => Shown(s, "active", None, None);
    loud := (s: Session) => Shown(s, "idle in transaction", None, Some(warn));
    guilty := Shown(Session(0, None, None, None, None), "idle in transaction", None, Some(warn));
    forall s: Session
      ensures !Shown(s, "active", None, None).Hidden()
      ensures !Shown(s, "idle in transaction", None, Some(warn)).Hidden()
    {
      assert "active" != "disabled" && "idle in transaction" != "disabled";
      ShownIsNotHidden(s, "active", None, None);
      ShownIsNotHidden(s, "idle in transaction", None, Some(warn));
    }
    assert "active" != "idle in transaction" && "active" != "idle in transaction (aborted)";
  }

  /** Showing hidden sessions, or a probe that was not read, takes back no conclusion. */
  lemma SessionsKeep(p: Probe<Session>, q: Probe<Session>, warn: real)
    requires Shows(p, q, SHOWS_SESSION)
    ensures Keeps(SessionsResult(p, warn), SessionsResult(q, warn))
  {
    ShownKeeps(p, q, SHOWS_SESSION, SessionSight(warn));
  }

  /** UNKNOWN exactly when the sessions seen in full could be OK and could be not. */
  lemma SessionsUnknownExactly(p: Probe<Session>, warn: real)
    ensures SessionsResult(p, warn).verdict == UNKNOWN <==>
      exists q1, q2 ::
        && Completes(p, q1, SHOWS_SESSION, HIDDEN_SESSION) && Completes(p, q2, SHOWS_SESSION, HIDDEN_SESSION)
        && SessionsResult(q1, warn).verdict == OK && SessionsResult(q2, warn).verdict != OK
  {
    var sight := SessionSight(warn);
    if Run(p, sight).verdict == UNKNOWN {
      var quiet, loud, guilty := SessionsSwing(warn);
      var q1, q2 := TwoCompletions(p, sight, SHOWS_SESSION, HIDDEN_SESSION, quiet, loud, guilty);
    }
    forall q1, q2 | Completes(p, q1, SHOWS_SESSION, HIDDEN_SESSION) && Completes(p, q2, SHOWS_SESSION, HIDDEN_SESSION)
        && SessionsResult(q1, warn).verdict == OK && SessionsResult(q2, warn).verdict != OK
      ensures SessionsResult(p, warn).verdict == UNKNOWN
    {
      SessionsKeep(p, q1, warn);
      SessionsKeep(p, q2, warn);
    }
  }

  // ---- Locks: waiting too long ----

  const UNSEEN_WAIT: Lock -> bool := (x: Lock) => !x.granted && x.pid.Some? && x.wait.None?

  /** A waiter whose wait is unseen may turn out to have waited any time. */
  const SHOWS_LOCK: (Lock, Lock) -> bool :=
    (x: Lock, y: Lock) => x == y || (UNSEEN_WAIT(x) && y.wait.Some? && y == x.(wait := y.wait))

  function LockSight(warn: real): Lock -> Sight {
    (x: Lock) =>
      if x.granted || x.pid.None? then NOTHING
      else if x.wait.None? then BLIND
      else if x.wait.value < warn then NOTHING
      else Sight(Some(Finding("lock.waiting", Warn, OfSession(x.pid.value))), false)
  }

  function LocksResult(l: Probe<Lock>, warn: real): Result {
    Run(l, LockSight(warn))
  }

  method Locks(l: Probe<Lock>, warn: real) returns (r: Result)
    ensures r == LocksResult(l, warn)
  {
    var (judge, unknown) := Collected(l.status);
    if !judge {
      var v := TakeVerdict([], unknown);
      return Result(v, []);
    }
    ghost var sight := LockSight(warn);
    var fs: seq<Finding> := [];
    for i := 0 to |l.rows|
      invariant fs == Findings(l.rows[..i], sight)
      invariant unknown == Unseen(l.rows[..i], sight)
    {
      LookAtNext(l.rows, i, sight);
      var x := l.rows[i];
      if x.granted || x.pid.None? {
        continue;
      }
      if x.wait.None? {
        unknown := true;
        continue;
      }
      if x.wait.value < warn {
        continue;
      }
      fs := fs + [Finding("lock.waiting", Warn, OfSession(x.pid.value))];
    }
    assert l.rows[..|l.rows|] == l.rows;
    var v := TakeVerdict(fs, unknown);
    r := Result(v, fs);
  }

  lemma LocksKeep(p: Probe<Lock>, q: Probe<Lock>, warn: real)
    requires Shows(p, q, SHOWS_LOCK)
    ensures Keeps(LocksResult(p, warn), LocksResult(q, warn))
  {
    ShownKeeps(p, q, SHOWS_LOCK, LockSight(warn));
  }

  lemma LocksUnknownExactly(p: Probe<Lock>, warn: real)
    ensures LocksResult(p, warn).verdict == UNKNOWN <==>
      exists q1, q2 ::
        && Completes(p, q1, SHOWS_LOCK, UNSEEN_WAIT) && Completes(p, q2, SHOWS_LOCK, UNSEEN_WAIT)
        && LocksResult(q1, warn).verdict == OK && LocksResult(q2, warn).verdict != OK
  {
    var sight := LockSight(warn);
    if Run(p, sight).verdict == UNKNOWN {
      var quiet := (x: Lock) => x.(wait := Some(warn - 1.0));
      var loud := (x: Lock) => x.(wait := Some(warn));
      var guilty := Lock(Some(1), "", None, "", false, Some(warn), []);
      var q1, q2 := TwoCompletions(p, sight, SHOWS_LOCK, UNSEEN_WAIT, quiet, loud, guilty);
    }
    forall q1, q2 | Completes(p, q1, SHOWS_LOCK, UNSEEN_WAIT) && Completes(p, q2, SHOWS_LOCK, UNSEEN_WAIT)
        && LocksResult(q1, warn).verdict == OK && LocksResult(q2, warn).verdict != OK
      ensures LocksResult(p, warn).verdict == UNKNOWN
    {
      LocksKeep(p, q1, warn);
      LocksKeep(p, q2, warn);
    }
  }

  // ---- Txn: long transactions and prepared ones ----

  function LongSight(warn: real): Session -> Sight {
    (s: Session) =>
      if s.Hidden() then BLIND
      else if s.xactAge.None? || s.xactAge.value < warn then NOTHING
      else Sight(Some(Finding("txn.long", Warn, OfSession(s.pid))), false)
  }

  function PreparedSight(warn: real): Prepared -> Sight {
    (x: Prepared) =>
      if x.age < warn then NOTHING else Sight(Some(Finding("txn.prepared", Warn, OfPrepared(x.gid))), false)
  }

  /** A prepared transaction is seen whole or, when the probe was not read, not at all. */
  const SHOWS_PREPARED: (Prepared, Prepared) -> bool := (x: Prepared, y: Prepared) => x == y

  const HIDDEN_PREPARED: Prepared -> bool := (x: Prepared) => false

  function TxnResult(a: Probe<Session>, p: Probe<Prepared>, xactWarn: real, preparedWarn: real): Result {
    Merged([Run(a, LongSight(xactWarn)), Run(p, PreparedSight(preparedWarn))])
  }

  method LongTxn(a: Probe<Session>, warn: real) returns (r: Result)
    ensures r == Run(a, LongSight(warn))
  {
    var (judge, unknown) := Collected(a.status);
    if !judge {
      var v := TakeVerdict([], unknown);
      return Result(v, []);
    }
    ghost var sight := LongSight(warn);
    var fs: seq<Finding> := [];
    for i := 0 to |a.rows|
      invariant fs == Findings(a.rows[..i], sight)
      invariant unknown == Unseen(a.rows[..i], sight)
    {
      LookAtNext(a.rows, i, sight);
      var s := a.rows[i];
      if s.Masked() || s.Untracked() {
        unknown := true;
        continue;
      }
      if s.xactAge.None? || s.xactAge.value < warn {
        continue;
      }
      fs := fs + [Finding("txn.long", Warn, OfSession(s.pid))];
    }
    assert a.rows[..|a.rows|] == a.rows;
    var v := TakeVerdict(fs, unknown);
    r := Result(v, fs);
  }

  method PreparedTxn(p: Probe<Prepared>, warn: real) returns (r: Result)
    ensures r == Run(p, PreparedSight(warn))
  {
    var (judge, unknown) := Collected(p.status);
    if !judge {
      var v := TakeVerdict([], unknown);
      return Result(v, []);
    }
    ghost var sight := PreparedSight(warn);
    var fs: seq<Finding> := [];
    for i := 0 to |p.rows|
      invariant fs == Findings(p.rows[..i], sight)
      invariant unknown == Unseen(p.rows[..i], sight)
    {
      LookAtNext(p.rows, i, sight);
      var x := p.rows[i];
      if x.age < warn {
        continue;
      }
      fs := fs + [Finding("txn.prepared", Warn, OfPrepared(x.gid))];
    }
    assert p.rows[..|p.rows|] == p.rows;
    var v := TakeVerdict(fs, unknown);
    r := Result(v, fs);
  }

  method Txn(a: Probe<Session>, p: Probe<Prepared>, xactWarn: real, preparedWarn: real) returns (r: Result)
    ensures r == TxnResult(a, p, xactWarn, preparedWarn)
  {
    var long := LongTxn(a, xactWarn);
    var prepared := PreparedTxn(p, preparedWarn);
    r := Merge([long, prepared]);
  }

  lemma TxnKeep(a: Probe<Session>, a': Probe<Session>, p: Probe<Prepared>, p': Probe<Prepared>, xactWarn: real, preparedWarn: real)
    requires Shows(a, a', SHOWS_SESSION) && Shows(p, p', SHOWS_PREPARED)
    ensures Keeps(TxnResult(a, p, xactWarn, preparedWarn), TxnResult(a', p', xactWarn, preparedWarn))
  {
    var long, prepared := LongSight(xactWarn), PreparedSight(preparedWarn);
    ShownKeeps(a, a', SHOWS_SESSION, long);
    ShownKeeps(p, p', SHOWS_PREPARED, prepared);
    RunIsConsistent(a, long);
    RunIsConsistent(a', long);
    RunIsConsistent(p, prepared);
    RunIsConsistent(p', prepared);
    MergeKeeps(Run(a, long), Run(a', long), Run(p, prepared), Run(p', prepared));
  }

  lemma LongSwing(warn: real) returns (quiet: Session -> Session, loud: Session -> Session, guilty: Session)
    ensures Swings(LongSight(warn), SHOWS_SESSION, quiet, loud, guilty)
  {
    quiet := (s: Session) => Shown(s, "active", None, None);
    loud := (s: Session) => Shown(s, "active", Some(warn), None);
    guilty := Shown(Session(0, None, None, None, None), "active", Some(warn), None);
    forall s: Session, age: Option<real>
      ensures !Shown(s, "active", age, None).Hidden()
    {
      assert "active" != "disabled";
      ShownIsNotHidden(s, "active", age, None);
    }
  }

  lemma PreparedSwing(warn: real) returns (same: Prepared -> Prepared, guilty: Prepared)
    ensures Swings(PreparedSight(warn), SHOWS_PREPARED, same, same, guilty)
  {
    same := (x: Prepared) => x;
    guilty := Prepared("", warn);
  }

  /** What merging two consistent results gives, by their verdicts alone. */
  lemma MergedVerdict(a: Result, b: Result)
    requires Consistent(a) && Consistent(b)
    ensures var v := Merged([a, b]).verdict;
      && (v == OK <==> a.verdict == OK && b.verdict == OK)
      && (v == UNKNOWN ==> a.verdict in {OK, UNKNOWN} && b.verdict in {OK, UNKNOWN} && (a.verdict == UNKNOWN || b.verdict == UNKNOWN))
  {
    MergeOfTwo(a, b);
    HasConcat(a.findings, b.findings, Warn);
    HasConcat(a.findings, b.findings, Fail);
  }

  lemma TxnCompletions(a: Probe<Session>, p: Probe<Prepared>, xactWarn: real, preparedWarn: real)
    returns (a1: Probe<Session>, p1: Probe<Prepared>, a2: Probe<Session>, p2: Probe<Prepared>)
    requires TxnResult(a, p, xactWarn, preparedWarn).verdict == UNKNOWN
    ensures Completes(a, a1, SHOWS_SESSION, HIDDEN_SESSION) && Completes(p, p1, SHOWS_PREPARED, HIDDEN_PREPARED)
    ensures Completes(a, a2, SHOWS_SESSION, HIDDEN_SESSION) && Completes(p, p2, SHOWS_PREPARED, HIDDEN_PREPARED)
    ensures TxnResult(a1, p1, xactWarn, preparedWarn).verdict == OK
    ensures TxnResult(a2, p2, xactWarn, preparedWarn).verdict != OK
  {
    hide Run, Completes, Merged, Swings;
    var long, prepared := LongSight(xactWarn), PreparedSight(preparedWarn);
    RunIsConsistent(a, long);
    RunIsConsistent(p, prepared);
    MergedVerdict(Run(a, long), Run(p, prepared));
    var quiet, loud, guilty := LongSwing(xactWarn);
    a1, a2 := TwoCompletions(a, long, SHOWS_SESSION, HIDDEN_SESSION, quiet, loud, guilty);
    var same, late := PreparedSwing(preparedWarn);
    p1, p2 := TwoCompletions(p, prepared, SHOWS_PREPARED, HIDDEN_PREPARED, same, same, late);
    RunIsConsistent(a1, long);
    RunIsConsistent(p1, prepared);
    MergedVerdict(Run(a1, long), Run(p1, prepared));
    RunIsConsistent(a2, long);
    RunIsConsistent(p2, prepared);
    MergedVerdict(Run(a2, long), Run(p2, prepared));
  }

  lemma TxnUnknownExactly(a: Probe<Session>, p: Probe<Prepared>, xactWarn: real, preparedWarn: real)
    ensures TxnResult(a, p, xactWarn, preparedWarn).verdict == UNKNOWN <==>
      exists a1, p1, a2, p2 ::
        && Completes(a, a1, SHOWS_SESSION, HIDDEN_SESSION) && Completes(p, p1, SHOWS_PREPARED, HIDDEN_PREPARED)
        && Completes(a, a2, SHOWS_SESSION, HIDDEN_SESSION) && Completes(p, p2, SHOWS_PREPARED, HIDDEN_PREPARED)
        && TxnResult(a1, p1, xactWarn, preparedWarn).verdict == OK && TxnResult(a2, p2, xactWarn, preparedWarn).verdict != OK
  {
    hide TxnResult, InFull;
    if TxnResult(a, p, xactWarn, preparedWarn).verdict == UNKNOWN {
      var a1, p1, a2, p2 := TxnCompletions(a, p, xactWarn, preparedWarn);
    }
    forall a1, p1, a2, p2 |
        && Completes(a, a1, SHOWS_SESSION, HIDDEN_SESSION) && Completes(p, p1, SHOWS_PREPARED, HIDDEN_PREPARED)
        && Completes(a, a2, SHOWS_SESSION, HIDDEN_SESSION) && Completes(p, p2, SHOWS_PREPARED, HIDDEN_PREPARED)
        && TxnResult(a1, p1, xactWarn, preparedWarn).verdict == OK && TxnResult(a2, p2, xactWarn, preparedWarn).verdict != OK
      ensures TxnResult(a, p, xactWarn, preparedWarn).verdict == UNKNOWN
    {
      TxnKeep(a, a1, p, p1, xactWarn, preparedWarn);
      TxnKeep(a, a2, p, p2, xactWarn, preparedWarn);
    }
  }

  // ---- what the rules report, in the fields of the rows ----

  /**
   sessions: one warning for each session seen in full that has been idle in a transaction, failed or not,
   for at least the limit, in the order of the list.
   */
  lemma SessionsReport(p: Probe<Session>, warn: real) returns (idx: seq<nat>)
    requires p.status == StatusOK
    ensures var r := SessionsResult(p, warn);
      && Places(idx, |p.rows|) && |r.findings| == |idx|
      && (forall k | 0 <= k < |idx| :: r.findings[k] == Finding("session.idle_in_txn", Warn, OfSession(p.rows[idx[k]].pid)))
      && r.verdict ==
           if idx != [] then WARN
           else if exists i | 0 <= i < |p.rows| :: p.rows[i].query == Some("<insufficient privilege>") || p.rows[i].state == Some("disabled") then UNKNOWN
           else OK
    ensures forall i: nat :: i in idx <==>
      && i < |p.rows|
      && p.rows[i].query != Some("<insufficient privilege>")
      && (p.rows[i].state == Some("idle in transaction") || p.rows[i].state == Some("idle in transaction (aborted)"))
      && p.rows[i].stateAge.Some? && p.rows[i].stateAge.value >= warn
  {
    forall s
      ensures SaysIdle(s, warn)
    {
      IdleExactly(s, warn);
    }
    hide SessionSight, Run;
    idx := Reported(p, SessionSight(warn), Warn);
    assert forall i | 0 <= i < |p.rows| :: SaysIdle(p.rows[i], warn);
  }

  /** What the rule sees in one session, in its fields. */
  ghost predicate SaysIdle(s: Session, warn: real) {
    && SessionSight(warn)(s).blind == (s.query == Some("<insufficient privilege>") || s.state == Some("disabled"))
    && SessionSight(warn)(s).found ==
       if s.query != Some("<insufficient privilege>")
          && (s.state == Some("idle in transaction") || s.state == Some("idle in transaction (aborted)"))
          && s.stateAge.Some? && s.stateAge.value >= warn
       then Some(Finding("session.idle_in_txn", Warn, OfSession(s.pid))) else None
  }

  lemma IdleExactly(s: Session, warn: real)
    ensures SaysIdle(s, warn)
  {
    assert "disabled" != "idle in transaction" && "disabled" != "idle in transaction (aborted)";
  }

  /** locks: one warning for each waiter with a pid whose wait has reached the limit. */
  lemma LocksReport(p: Probe<Lock>, warn: real) returns (idx: seq<nat>)
    requires p.status == StatusOK
    ensures var r := LocksResult(p, warn);
      && Places(idx, |p.rows|) && |r.findings| == |idx|
      && (forall k | 0 <= k < |idx| ::
           p.rows[idx[k]].pid.Some? && r.findings[k] == Finding("lock.waiting", Warn, OfSession(p.rows[idx[k]].pid.value)))
      && r.verdict ==
           if idx != [] then WARN
           else if exists i | 0 <= i < |p.rows| :: !p.rows[i].granted && p.rows[i].pid.Some? && p.rows[i].wait.None? then UNKNOWN
           else OK
    ensures forall i: nat :: i in idx <==>
      i < |p.rows| && !p.rows[i].granted && p.rows[i].pid.Some? && p.rows[i].wait.Some? && p.rows[i].wait.value >= warn
  {
    forall x
      ensures SaysWaiting(x, warn)
    {
    }
    hide LockSight, Run;
    idx := Reported(p, LockSight(warn), Warn);
    assert forall i | 0 <= i < |p.rows| :: SaysWaiting(p.rows[i], warn);
  }

  ghost predicate SaysWaiting(x: Lock, warn: real) {
    && LockSight(warn)(x).blind == (!x.granted && x.pid.Some? && x.wait.None?)
    && LockSight(warn)(x).found ==
       if !x.granted && x.pid.Some? && x.wait.Some? && x.wait.value >= warn
       then Some(Finding("lock.waiting", Warn, OfSession(x.pid.value))) else None
  }

  lemma LongReport(a: Probe<Session>, warn: real) returns (idx: seq<nat>)
    requires a.status == StatusOK
    ensures var r := Run(a, LongSight(warn));
      && Places(idx, |a.rows|) && |r.findings| == |idx|
      && (forall k | 0 <= k < |idx| :: r.findings[k] == Finding("txn.long", Warn, OfSession(a.rows[idx[k]].pid)))
      && r.verdict ==
           if idx != [] then WARN
           else if exists i | 0 <= i < |a.rows| :: a.rows[i].query == Some("<insufficient privilege>") || a.rows[i].state == Some("disabled") then UNKNOWN
           else OK
    ensures forall i: nat :: i in idx <==>
      && i < |a.rows|
      && a.rows[i].query != Some("<insufficient privilege>") && a.rows[i].state != Some("disabled")
      && a.rows[i].xactAge.Some? && a.rows[i].xactAge.value >= warn
  {
    forall s
      ensures SaysLong(s, warn)
    {
    }
    hide LongSight, Run;
    idx := Reported(a, LongSight(warn), Warn);
    assert forall i | 0 <= i < |a.rows| :: SaysLong(a.rows[i], warn);
  }

  ghost predicate SaysLong(s: Session, warn: real) {
    && LongSight(warn)(s).blind == (s.query == Some("<insufficient privilege>") || s.state == Some("disabled"))
    && LongSight(warn)(s).found ==
       if s.query != Some("<insufficient privilege>") && s.state != Some("disabled") && s.xactAge.Some? && s.xactAge.value >= warn
       then Some(Finding("txn.long", Warn, OfSession(s.pid))) else None
  }

  lemma PreparedReport(p: Probe<Prepared>, warn: real) returns (idx: seq<nat>)
    requires p.status == StatusOK
    ensures var r := Run(p, PreparedSight(warn));
      && Places(idx, |p.rows|) && |r.findings| == |idx|
      && (forall k | 0 <= k < |idx| :: r.findings[k] == Finding("txn.prepared", Warn, OfPrepared(p.rows[idx[k]].gid)))
      && r.verdict == if idx != [] then WARN else OK
    ensures forall i: nat :: i in idx <==> i < |p.rows| && p.rows[i].age >= warn
  {
    forall x
      ensures SaysLeft(x, warn)
    {
    }
    hide PreparedSight, Run;
    idx := Reported(p, PreparedSight(warn), Warn);
    assert forall i | 0 <= i < |p.rows| :: SaysLeft(p.rows[i], warn);
  }

  ghost predicate SaysLeft(x: Prepared, warn: real) {
    && !PreparedSight(warn)(x).blind
    && PreparedSight(warn)(x).found == if x.age >= warn then Some(Finding("txn.prepared", Warn, OfPrepared(x.gid))) else None
  }

  /** txn: first the sessions in transactions as old as their limit, then the prepared transactions as old as theirs. */
  lemma TxnReport(a: Probe<Session>, p: Probe<Prepared>, xactWarn: real, preparedWarn: real)
    ensures var r, x, y := TxnResult(a, p, xactWarn, preparedWarn), Run(a, LongSight(xactWarn)), Run(p, PreparedSight(preparedWarn));
      && r.findings == x.findings + y.findings
      && (x.verdict in {OK, UNKNOWN, WARN} && y.verdict in {OK, UNKNOWN, WARN})
      && r.verdict ==
           if x.verdict == WARN || y.verdict == WARN then WARN
           else if x.verdict == UNKNOWN || y.verdict == UNKNOWN then UNKNOWN
           else OK
  {
    var x, y := Run(a, LongSight(xactWarn)), Run(p, PreparedSight(preparedWarn));
    if a.status == StatusOK {
      var idx := LongReport(a, xactWarn);
    }
    if p.status == StatusOK {
      var idx := PreparedReport(p, preparedWarn);
    }
    RunIsConsistent(a, LongSight(xactWarn));
    RunIsConsistent(p, PreparedSight(preparedWarn));
    MergeOfTwo(x, y);
    MergeIsMax([x, y]);
    hide Run, VerdictOf, LongSight, PreparedSight;
    assert [x, y][0] == x && [x, y][1] == y;
  }
}
