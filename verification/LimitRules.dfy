/**
 The rules against limits of the server: `Freeze` (internal/rule/freeze.go) and `Seq`
 (internal/rule/seq.go).
 */
module LimitRules {
  import opened Wrappers
  import opened Facts
  import opened Verdict
  import opened Judging
  import opened Picking
  import SeqLeft

  // ---- Freeze ----

  /** freezeLimit: None when the limits were not read. */
  function LimitOf(l: Probe<FreezeLimit>): Option<FreezeLimit> {
    if l.status != StatusOK || l.rows == [] then None else Some(l.rows[0])
  }

  predicate Stopped(x: FrozenDatabase) {
    x.xidAge >= XID_STOP_AGE || x.mxidAge >= MXID_STOP_AGE
  }

  predicate PastLimit(x: FrozenDatabase, lim: FreezeLimit) {
    x.xidAge >= lim.freezeMaxAge || x.mxidAge >= lim.multiFreezeMaxAge
  }

  function AgeSight(lim: Option<FreezeLimit>): FrozenDatabase -> Sight {
    (x: FrozenDatabase) =>
      if Stopped(x) then Sight(Some(Finding("freeze.database_age", Fail, OfDatabase(x.datname))), false)
      else if lim.None? then BLIND
      else if PastLimit(x, lim.value) then Sight(Some(Finding("freeze.database_age", Warn, OfDatabase(x.datname))), false)
      else NOTHING
  }

  function FreezeResult(d: Probe<FrozenDatabase>, l: Probe<FreezeLimit>): Result {
    Run(d, AgeSight(LimitOf(l)))
  }

  /** ageFinding: it counts what is at the stop limits and what is past the freeze limits, then judges by the worst. */
  method AgeFinding(x: FrozenDatabase, lim: Option<FreezeLimit>) returns (level: Level, found: bool, unknown: bool)
    ensures var s := AgeSight(lim)(x);
      && found == s.found.Some? && unknown == s.blind
      && (found ==> s.found.value == Finding("freeze.database_age", level, OfDatabase(x.datname)))
  {
    var fail, warn := 0, 0;
    if x.xidAge >= XID_STOP_AGE {
      fail := fail + 1;
    } else if lim.Some? && x.xidAge >= lim.value.freezeMaxAge {
      warn := warn + 1;
    }
    if x.mxidAge >= MXID_STOP_AGE {
      fail := fail + 1;
    } else if lim.Some? && x.mxidAge >= lim.value.multiFreezeMaxAge {
      warn := warn + 1;
    }
    if fail > 0 {
      return Fail, true, false;
    }
    if warn > 0 {
      return Warn, true, false;
    }
    return Fine, false, lim.None?;
  }

  method Freeze(d: Probe<FrozenDatabase>, l: Probe<FreezeLimit>) returns (r: Result)
    ensures r == FreezeResult(d, l)
  {
    var (judge, unknown) := Collected(d.status);
    if !judge {
      var v := TakeVerdict([], unknown);
      return Result(v, []);
    }
    var lim := LimitOf(l);
    ghost var sight := AgeSight(lim);
    var fs: seq<Finding> := [];
    for i := 0 to |d.rows|
      invariant fs == Findings(d.rows[..i], sight)
      invariant unknown == Unseen(d.rows[..i], sight)
    {
      LookAtNext(d.rows, i, sight);
      var level, found, blind := AgeFinding(d.rows[i], lim);
      unknown := unknown || blind;
      if !found {
        continue;
      }
      fs := fs + [Finding("freeze.database_age", level, OfDatabase(d.rows[i].datname))];
    }
    assert d.rows[..|d.rows|] == d.rows;
    var v := TakeVerdict(fs, unknown);
    r := Result(v, fs);
  }

  /** A database at a stop age, and one past a limit that was read. */
  ghost predicate AtStop(x: FrozenDatabase) { x.xidAge >= 2146483647 || x.mxidAge >= 2147483547 }

  ghost predicate AtLimits(x: FrozenDatabase, l: Probe<FreezeLimit>) {
    && l.status == StatusOK && l.rows != []
    && (x.xidAge >= l.rows[0].freezeMaxAge || x.mxidAge >= l.rows[0].multiFreezeMaxAge)
  }

  /** What the rule sees in one database, in its fields. */
  ghost predicate SaysAged(x: FrozenDatabase, l: Probe<FreezeLimit>) {
    && AgeSight(LimitOf(l))(x).blind == (!AtStop(x) && (l.status != StatusOK || l.rows == []))
    && AgeSight(LimitOf(l))(x).found ==
       if AtStop(x) || AtLimits(x, l)
       then Some(Finding("freeze.database_age", if AtStop(x) then Fail else Warn, OfDatabase(x.datname))) else None
  }

  /** freeze: one finding per database past a line it can be held to, FAIL at a stop age, in the order of the list. */
  lemma FreezeReport(d: Probe<FrozenDatabase>, l: Probe<FreezeLimit>) returns (idx: seq<nat>)
    requires d.status == StatusOK
    ensures var r := FreezeResult(d, l);
      && Places(idx, |d.rows|) && |r.findings| == |idx|
      && (forall k | 0 <= k < |idx| ::
           r.findings[k] == Finding("freeze.database_age", if AtStop(d.rows[idx[k]]) then Fail else Warn, OfDatabase(d.rows[idx[k]].datname)))
      && r.verdict ==
           if exists i | 0 <= i < |d.rows| :: AtStop(d.rows[i]) then FAIL
           else if idx != [] then WARN
           else if d.rows != [] && (l.status != StatusOK || l.rows == []) then UNKNOWN
           else OK
    ensures forall i: nat :: i in idx <==> i < |d.rows| && (AtStop(d.rows[i]) || AtLimits(d.rows[i], l))
  {
    forall x
      ensures SaysAged(x, l)
    {
    }
    hide AgeSight, AtStop, AtLimits, Run, LimitOf;
    var sight := AgeSight(LimitOf(l));
    idx := FoundPlaces(d.rows, sight);
    assert forall i | 0 <= i < |d.rows| :: SaysAged(d.rows[i], l);
    FreezeVerdict(d, l, idx);
    assert FreezeResult(d, l).findings == Findings(d.rows, sight) by { FreezeJudges(d, l); }
  }

  lemma FreezeJudges(d: Probe<FrozenDatabase>, l: Probe<FreezeLimit>)
    requires d.status == StatusOK
    ensures FreezeResult(d, l) == Judge(d.rows, AgeSight(LimitOf(l)))
  {
  }

  lemma FreezeVerdict(d: Probe<FrozenDatabase>, l: Probe<FreezeLimit>, idx: seq<nat>)
    requires d.status == StatusOK
    requires forall i: nat :: i in idx <==> i < |d.rows| && AgeSight(LimitOf(l))(d.rows[i]).found.Some?
    requires forall i | 0 <= i < |d.rows| :: SaysAged(d.rows[i], l)
    ensures FreezeResult(d, l).verdict ==
      if exists i | 0 <= i < |d.rows| :: AtStop(d.rows[i]) then FAIL
      else if idx != [] then WARN
      else if d.rows != [] && (l.status != StatusOK || l.rows == []) then UNKNOWN
      else OK
  {
    hide AgeSight, AtStop, AtLimits, LimitOf, FreezeResult;
    var sight := AgeSight(LimitOf(l));
    FreezeJudges(d, l);
    UnseenExactly(d.rows, sight);
    FoundLevels(d.rows, sight, Fail);
    FoundLevels(d.rows, sight, Warn);
    hide Findings, Unseen;
    assert idx != [] ==> idx[0] in idx;
    assert d.rows != [] && idx == [] ==> 0 !in idx;
  }

  const SAME_DATABASE: (FrozenDatabase, FrozenDatabase) -> bool := (x: FrozenDatabase, y: FrozenDatabase) => x == y

  const HIDDEN_DATABASE: FrozenDatabase -> bool := (x: FrozenDatabase) => false

  /** Limits that were not read may turn out to be any. */
  predicate ShowsLimits(l: Probe<FreezeLimit>, m: Probe<FreezeLimit>) {
    LimitOf(l).Some? ==> LimitOf(m) == LimitOf(l)
  }

  lemma FreezeKeep(d: Probe<FrozenDatabase>, d': Probe<FrozenDatabase>, l: Probe<FreezeLimit>, l': Probe<FreezeLimit>)
    requires Shows(d, d', SAME_DATABASE) && ShowsLimits(l, l')
    ensures Keeps(FreezeResult(d, l), FreezeResult(d', l'))
  {
    if d.status == StatusOK {
      FinerKeeps(d.rows, AgeSight(LimitOf(l)), d'.rows, AgeSight(LimitOf(l')));
    }
  }

  /** The databases and the limits, all of them read. */
  predicate FreezeCompletes(d: Probe<FrozenDatabase>, d': Probe<FrozenDatabase>, l: Probe<FreezeLimit>, l': Probe<FreezeLimit>) {
    Completes(d, d', SAME_DATABASE, HIDDEN_DATABASE) && ShowsLimits(l, l') && LimitOf(l').Some?
  }

  function Limits(freezeMaxAge: int64, multiFreezeMaxAge: int64): Probe<FreezeLimit> {
    Probe(StatusOK, [FreezeLimit(freezeMaxAge, multiFreezeMaxAge)])
  }

  lemma FreezeCompletions(d: Probe<FrozenDatabase>, l: Probe<FreezeLimit>)
    returns (d1: Probe<FrozenDatabase>, l1: Probe<FreezeLimit>, d2: Probe<FrozenDatabase>, l2: Probe<FreezeLimit>)
    requires FreezeResult(d, l).verdict == UNKNOWN
    ensures FreezeCompletes(d, d1, l, l1) && FreezeResult(d1, l1).verdict == OK
    ensures FreezeCompletes(d, d2, l, l2) && FreezeResult(d2, l2).verdict != OK
  {
    if d.status != StatusOK {
      var aged := FrozenDatabase("", XID_STOP_AGE, 0);
      d1, d2 := Probe(StatusOK, []), Probe(StatusOK, [aged]);
      l1 := if LimitOf(l).Some? then l else Limits(0, 0);
      l2 := l1;
      LoudResult(d2.rows, AgeSight(LimitOf(l2)), 0);
    } else {
      UnseenExactly(d.rows, AgeSight(LimitOf(l)));
      var i :| 0 <= i < |d.rows| && AgeSight(LimitOf(l))(d.rows[i]).blind;
      d1, d2 := d, d;
      l1, l2 := Limits(0x8000_0000, 0x8000_0000), Limits(d.rows[i].xidAge, 0);
      LoudResult(d.rows, AgeSight(LimitOf(l2)), i);
      forall j | 0 <= j < |d.rows|
        ensures AgeSight(LimitOf(l1))(d.rows[j]) == NOTHING
      {
        if AgeSight(LimitOf(l))(d.rows[j]).found.Some? {
          LoudResult(d.rows, AgeSight(LimitOf(l)), j);
        }
      }
      QuietFindings(d.rows, AgeSight(LimitOf(l1)));
    }
  }

  lemma FreezeUnknownExactly(d: Probe<FrozenDatabase>, l: Probe<FreezeLimit>)
    ensures FreezeResult(d, l).verdict == UNKNOWN <==>
      exists d1, l1, d2, l2 ::
        && FreezeCompletes(d, d1, l, l1) && FreezeResult(d1, l1).verdict == OK
        && FreezeCompletes(d, d2, l, l2) && FreezeResult(d2, l2).verdict != OK
  {
    hide FreezeResult;
    if FreezeResult(d, l).verdict == UNKNOWN {
      var d1, l1, d2, l2 := FreezeCompletions(d, l);
    }
    forall d1, l1, d2, l2 |
        && FreezeCompletes(d, d1, l, l1) && FreezeResult(d1, l1).verdict == OK
        && FreezeCompletes(d, d2, l, l2) && FreezeResult(d2, l2).verdict != OK
      ensures FreezeResult(d, l).verdict == UNKNOWN
    {
      FreezeKeep(d, d1, l, l1);
      FreezeKeep(d, d2, l, l2);
    }
  }

  // ---- Seq ----

  /** The rule's finding about a sequence; on a standby nothing is judged. */
  predicate Exhausted(s: Sequence) {
    s.last.Some? && s.increment != 0 && !s.cycle && SeqLeft.Steps(s, s.last.value) == 0
  }

  function SeqSight(role: Role): Sequence -> Sight {
    (s: Sequence) =>
      Sight(
        if role == Primary && Exhausted(s) then Some(Finding("seq.exhausted", Fail, OfSequence(s.schema, s.name))) else None,
        !s.readable)
  }

  function SeqResult(l: Probe<Sequence>, role: Role): Result {
    Run(l, SeqSight(role))
  }

  /** facts.SeqList.Redacted: how many sequences this account may not read. */
  method Redacted(rows: seq<Sequence>, role: Role) returns (n: nat)
    ensures n == |Unreadable(rows, |rows|)|
    ensures n > 0 <==> Unseen(rows, SeqSight(role))
  {
    n := 0;
    for i := 0 to |rows|
      invariant n == |Unreadable(rows, i)|
    {
      assert Unreadable(rows, i + 1) == if rows[i].readable then Unreadable(rows, i) else Unreadable(rows, i) + {i};
      if !rows[i].readable {
        n := n + 1;
      }
    }
    UnseenExactly(rows, SeqSight(role));
    assert forall i | 0 <= i < |rows| :: !rows[i].readable <==> i in Unreadable(rows, |rows|);
  }

  /** The places of the unreadable ones among the first k sequences. */
  ghost function Unreadable(rows: seq<Sequence>, k: nat): set<nat>
    requires k <= |rows|
  {
    set i | 0 <= i < k && !rows[i].readable
  }

  lemma {:induction false} NothingOnStandby(rows: seq<Sequence>)
    ensures Findings(rows, SeqSight(Standby)) == []
  {
    if rows != [] {
      NothingOnStandby(rows[..|rows| - 1]);
    }
  }

  method Seq(l: Probe<Sequence>, role: Role) returns (r: Result)
    ensures r == SeqResult(l, role)
  {
    var (judge, unknown) := Collected(l.status);
    if !judge {
      var v := TakeVerdict([], unknown);
      return Result(v, []);
    }
    var n := Redacted(l.rows, role);
    unknown := n > 0;
    if role == Standby {
      NothingOnStandby(l.rows);
      var v := TakeVerdict([], unknown);
      return Result(v, []);
    }
    ghost var sight := SeqSight(role);
    var fs: seq<Finding> := [];
    for i := 0 to |l.rows|
      invariant fs == Findings(l.rows[..i], sight)
    {
      LookAtNext(l.rows, i, sight);
      var s := l.rows[i];
      var left, used, ok := SeqLeft.SeqLeft(s);
      if !ok || s.cycle || left > 0 {
        continue;
      }
      fs := fs + [Finding("seq.exhausted", Fail, OfSequence(s.schema, s.name))];
    }
    assert l.rows[..|l.rows|] == l.rows;
    var v := TakeVerdict(fs, unknown);
    r := Result(v, fs);
  }

  /** On a primary, a called sequence that does not cycle is reported exactly when its next nextval fails. */
  lemma ExhaustedExactly(s: Sequence)
    requires s.readable && s.last.Some? && s.increment != 0 && !s.cycle
    ensures SeqSight(Primary)(s).found.Some? <==> !SeqLeft.CanStep(s, s.last.value)
    ensures SeqSight(Primary)(s).found.Some? ==>
      SeqSight(Primary)(s).found.value == Finding("seq.exhausted", Fail, OfSequence(s.schema, s.name))
  {
  }

  /** seq: on a primary, one failure for each called sequence that does not cycle and has no next value inside its limits. */
  lemma SeqReport(p: Probe<Sequence>, role: Role) returns (idx: seq<nat>)
    requires p.status == StatusOK
    ensures var r := SeqResult(p, role);
      && Places(idx, |p.rows|) && |r.findings| == |idx|
      && (forall k | 0 <= k < |idx| :: r.findings[k] == Finding("seq.exhausted", Fail, OfSequence(p.rows[idx[k]].schema, p.rows[idx[k]].name)))
      && r.verdict ==
           if idx != [] then FAIL
           else if exists i | 0 <= i < |p.rows| :: !p.rows[i].readable then UNKNOWN
           else OK
    ensures forall i: nat :: i in idx <==>
      && i < |p.rows| && role == Primary
      && var s := p.rows[i];
         && s.last.Some? && !s.cycle
         && ((s.increment > 0 && s.last.value + s.increment > s.max) || (s.increment < 0 && s.last.value + s.increment < s.min))
  {
    forall s
      ensures SaysExhausted(s, role)
    {
    }
    hide SeqSight, Run;
    idx := Reported(p, SeqSight(role), Fail);
    assert forall i | 0 <= i < |p.rows| :: SaysExhausted(p.rows[i], role);
  }

  /** What the rule sees in one sequence, in its fields. */
  ghost predicate SaysExhausted(s: Sequence, role: Role) {
    && SeqSight(role)(s).blind == !s.readable
    && SeqSight(role)(s).found ==
       if role == Primary && s.last.Some? && !s.cycle
          && ((s.increment > 0 && s.last.value + s.increment > s.max) || (s.increment < 0 && s.last.value + s.increment < s.min))
       then Some(Finding("seq.exhausted", Fail, OfSequence(s.schema, s.name))) else None
  }

  const UNREADABLE: Sequence -> bool := (s: Sequence) => !s.readable

  /** An unreadable sequence may turn out to hold any value, or to have none, whatever the row says. */
  const SHOWS_SEQUENCE: (Sequence, Sequence) -> bool :=
    (s: Sequence, t: Sequence) => s == t || (!s.readable && t.readable && t == s.(readable := true, last := t.last))

  /** A list reports an unreadable sequence exhausted: its row carries a value, and the rule judges it. */
  predicate JudgesHidden(p: Probe<Sequence>, role: Role) {
    role == Primary && p.status == StatusOK && exists i | 0 <= i < |p.rows| :: !p.rows[i].readable && Exhausted(p.rows[i])
  }

  /** As long as no reported sequence turns out to have values left, showing more keeps every conclusion. */
  lemma SeqKeep(p: Probe<Sequence>, q: Probe<Sequence>, role: Role)
    requires Shows(p, q, SHOWS_SEQUENCE)
    requires role == Primary && p.status == StatusOK ==> forall i | 0 <= i < |p.rows| && Exhausted(p.rows[i]) :: Exhausted(q.rows[i])
    ensures Keeps(SeqResult(p, role), SeqResult(q, role))
  {
    if p.status == StatusOK {
      forall i | 0 <= i < |p.rows|
        ensures Finer(SeqSight(role)(p.rows[i]), SeqSight(role)(q.rows[i]))
      {
        assert SHOWS_SEQUENCE(p.rows[i], q.rows[i]);
      }
      FinerKeeps(p.rows, SeqSight(role), q.rows, SeqSight(role));
    }
  }

  /** Rows that say no more than others do, and one that says less, make fewer findings. */
  lemma {:induction false} FewerFindings(a: seq<Sequence>, b: seq<Sequence>, i: nat, sight: Sequence -> Sight)
    requires |a| == |b| && i < |a|
    requires forall j | 0 <= j < |a| :: sight(b[j]).found.Some? ==> sight(a[j]).found.Some?
    requires sight(a[i]).found.Some? && sight(b[i]).found.None?
    ensures |Findings(b, sight)| < |Findings(a, sight)|
  {
    var n := |a| - 1;
    if i < n {
      FewerFindings(a[..n], b[..n], i, sight);
    } else {
      NoMoreFindings(a[..n], b[..n], sight);
    }
  }

  lemma {:induction false} NoMoreFindings(a: seq<Sequence>, b: seq<Sequence>, sight: Sequence -> Sight)
    requires |a| == |b|
    requires forall j | 0 <= j < |a| :: sight(b[j]).found.Some? ==> sight(a[j]).found.Some?
    ensures |Findings(b, sight)| <= |Findings(a, sight)|
  {
    if a != [] {
      NoMoreFindings(a[..|a| - 1], b[..|a| - 1], sight);
    }
  }

  /** Showing an unreadable sequence that was reported, never called, takes its finding back. */
  lemma HiddenFindingGoes(p: Probe<Sequence>) returns (q: Probe<Sequence>)
    requires JudgesHidden(p, Primary)
    ensures Shows(p, q, SHOWS_SEQUENCE) && !Keeps(SeqResult(p, Primary), SeqResult(q, Primary))
  {
    var i :| 0 <= i < |p.rows| && !p.rows[i].readable && Exhausted(p.rows[i]);
    q := Probe(StatusOK, p.rows[i := p.rows[i].(readable := true, last := None)]);
    FewerFindings(p.rows, q.rows, i, SeqSight(Primary));
    var fs, gs := Findings(p.rows, SeqSight(Primary)), Findings(q.rows, SeqSight(Primary));
    assert |multiset(fs)| == |fs| && |multiset(gs)| == |gs|;
    if multiset(fs) <= multiset(gs) {
      SmallerMultiset(multiset(fs), multiset(gs));
    }
  }

  /** The worst case: an unreadable row at its limit is a FAIL, and shown never called it is OK. */
  lemma ValueOfUnreadableIsTrusted(s: Sequence) returns (p: Probe<Sequence>, q: Probe<Sequence>)
    requires s.increment != 0 && !s.cycle
    ensures JudgesHidden(p, Primary) && Shows(p, q, SHOWS_SEQUENCE)
    ensures SeqResult(p, Primary).verdict == FAIL && SeqResult(q, Primary).verdict == OK
  {
    AtLimitIsExhausted(s);
    var full := AtLimit(s).(readable := false);
    p, q := Probe(StatusOK, [full]), Probe(StatusOK, [full.(readable := true, last := None)]);
    assert p.rows[0] == full && Exhausted(AtLimit(s)) && SeqLeft.Steps(full, full.last.value) == SeqLeft.Steps(AtLimit(s), full.last.value);
    FailsWith(p.rows, 0);
    FullVerdict(q, Primary);
  }

  lemma SmallerMultiset(a: multiset<Finding>, b: multiset<Finding>)
    requires a <= b
    ensures |a| <= |b|
  {
    assert b == a + (b - a);
  }

  /**
   Seeing more keeps every conclusion exactly when no unreadable sequence was judged by a value in its row.
   The server leaves that value NULL, so on what it sends the law holds.
   */
  lemma SeqKeepExactly(p: Probe<Sequence>, role: Role)
    ensures (forall q | Shows(p, q, SHOWS_SEQUENCE) :: Keeps(SeqResult(p, role), SeqResult(q, role))) <==> !JudgesHidden(p, role)
  {
    if JudgesHidden(p, role) {
      var q := HiddenFindingGoes(p);
    } else {
      forall q | Shows(p, q, SHOWS_SEQUENCE)
        ensures Keeps(SeqResult(p, role), SeqResult(q, role))
      {
        assert p.status == StatusOK ==> forall i | 0 <= i < |p.rows| :: SHOWS_SEQUENCE(p.rows[i], q.rows[i]);
        SeqKeep(p, q, role);
      }
    }
  }

  // ---- what UNKNOWN means for sequences ----

  predicate SeqCompletes(p: Probe<Sequence>, q: Probe<Sequence>) {
    Completes(p, q, SHOWS_SEQUENCE, UNREADABLE)
  }

  /** An unreadable sequence that could turn out exhausted. */
  predicate CanRunOut(s: Sequence) {
    !s.readable && !s.cycle && s.increment != 0
  }

  /** On a primary: the list was not read, or an unreadable sequence could be exhausted and no readable one is. */
  predicate Undecided(p: Probe<Sequence>, role: Role) {
    && role == Primary && p.status != NotApplicable
    && (p.status == StatusOK ==>
         && (exists i | 0 <= i < |p.rows| :: CanRunOut(p.rows[i]))
         && forall i | 0 <= i < |p.rows| :: p.rows[i].readable ==> !Exhausted(p.rows[i]))
  }

  /** The last value at the limit, from which nextval fails. */
  function AtLimit(s: Sequence): Sequence {
    s.(readable := true, last := Some(if s.increment > 0 then s.max else s.min))
  }

  lemma AtLimitIsExhausted(s: Sequence)
    requires s.increment != 0 && !s.cycle
    ensures Exhausted(AtLimit(s))
  {
    assert !SeqLeft.CanStep(AtLimit(s), AtLimit(s).last.value);
  }

  /** The list with every unreadable sequence never called, or at its limit. */
  function Revealed(rows: seq<Sequence>, full: bool): (r: seq<Sequence>)
    ensures |r| == |rows|
  {
    seq(|rows|, i requires 0 <= i < |rows| =>
      if rows[i].readable then rows[i] else if full then AtLimit(rows[i]) else rows[i].(readable := true, last := None))
  }

  lemma {:induction false} NothingToFind(rows: seq<Sequence>, role: Role)
    requires forall i | 0 <= i < |rows| :: !(role == Primary && Exhausted(rows[i]))
    ensures Findings(rows, SeqSight(role)) == []
  {
    if rows != [] {
      NothingToFind(rows[..|rows| - 1], role);
    }
  }

  lemma FailsWith(rows: seq<Sequence>, i: nat)
    requires i < |rows| && Exhausted(rows[i])
    ensures Judge(rows, SeqSight(Primary)).verdict == FAIL
  {
    FoundIsListed(rows, SeqSight(Primary), i);
    var fs := Findings(rows, SeqSight(Primary));
    var f := SeqSight(Primary)(rows[i]).found.value;
    var j :| 0 <= j < |fs| && fs[j] == f;
    assert fs[j].level == Fail;
  }

  /** A list read in full is OK or FAIL, and FAIL exactly with an exhausted sequence on a primary. */
  lemma FullVerdict(q: Probe<Sequence>, role: Role)
    requires InFull(q, UNREADABLE)
    ensures SeqResult(q, role).verdict ==
      if role == Primary && q.status == StatusOK && exists i | 0 <= i < |q.rows| :: Exhausted(q.rows[i]) then FAIL else OK
  {
    if q.status == StatusOK {
      if i :| 0 <= i < |q.rows| && role == Primary && Exhausted(q.rows[i]) {
        FailsWith(q.rows, i);
      } else {
        NothingToFind(q.rows, role);
        UnseenExactly(q.rows, SeqSight(role));
      }
    }
  }

  lemma SeqCompletions(p: Probe<Sequence>) returns (q1: Probe<Sequence>, q2: Probe<Sequence>)
    requires Undecided(p, Primary)
    ensures SeqCompletes(p, q1) && SeqResult(q1, Primary).verdict == OK
    ensures SeqCompletes(p, q2) && SeqResult(q2, Primary).verdict == FAIL
  {
    if p.status != StatusOK {
      var full := AtLimit(Sequence("", "", 1, 1, 1, 1, false, None, true));
      AtLimitIsExhausted(Sequence("", "", 1, 1, 1, 1, false, None, true));
      q1, q2 := Probe(StatusOK, []), Probe(StatusOK, [full]);
      assert Exhausted(q2.rows[0]);
    } else {
      q1, q2 := Probe(StatusOK, Revealed(p.rows, false)), Probe(StatusOK, Revealed(p.rows, true));
      var i :| 0 <= i < |p.rows| && CanRunOut(p.rows[i]);
      AtLimitIsExhausted(p.rows[i]);
      assert Exhausted(q2.rows[i]);
    }
    FullVerdict(q1, Primary);
    FullVerdict(q2, Primary);
  }

  /** For every list: what is hidden can make it OK and can make it FAIL exactly when it is undecided. */
  lemma SeqUndecidedExactly(p: Probe<Sequence>, role: Role)
    ensures Undecided(p, role) <==>
      exists q1, q2 :: SeqCompletes(p, q1) && SeqCompletes(p, q2) && SeqResult(q1, role).verdict == OK && SeqResult(q2, role).verdict != OK
  {
    if Undecided(p, role) {
      var q1, q2 := SeqCompletions(p);
    }
    forall q1, q2 | SeqCompletes(p, q1) && SeqCompletes(p, q2) && SeqResult(q1, role).verdict == OK && SeqResult(q2, role).verdict != OK
      ensures Undecided(p, role)
    {
      FullVerdict(q1, role);
      FullVerdict(q2, role);
      if p.status == StatusOK {
        var i :| 0 <= i < |q2.rows| && Exhausted(q2.rows[i]);
        assert SHOWS_SEQUENCE(p.rows[i], q1.rows[i]) && SHOWS_SEQUENCE(p.rows[i], q2.rows[i]);
        assert CanRunOut(p.rows[i]);
        forall j | 0 <= j < |p.rows| && p.rows[j].readable
          ensures !Exhausted(p.rows[j])
        {
          assert SHOWS_SEQUENCE(p.rows[j], q1.rows[j]);
        }
      }
    }
  }

  /** When the rule says UNKNOWN. */
  lemma SeqUnknownExactly(p: Probe<Sequence>, role: Role)
    ensures SeqResult(p, role).verdict == UNKNOWN <==>
      if p.status == StatusOK then
        && (exists i | 0 <= i < |p.rows| :: !p.rows[i].readable)
        && !(role == Primary && exists i | 0 <= i < |p.rows| :: Exhausted(p.rows[i]))
      else p.status != NotApplicable
  {
    if p.status == StatusOK {
      UnseenExactly(p.rows, SeqSight(role));
      if i :| 0 <= i < |p.rows| && role == Primary && Exhausted(p.rows[i]) {
        FailsWith(p.rows, i);
      } else {
        NothingToFind(p.rows, role);
      }
    }
  }

  /**
   UNKNOWN is over-cautious for sequences. Of an UNKNOWN list, what is hidden can change the verdict exactly
   on a primary with the list not read, or an unreadable sequence that could be exhausted.
   */
  lemma SeqUnknownDecides(p: Probe<Sequence>, role: Role)
    requires SeqResult(p, role).verdict == UNKNOWN
    ensures (role == Primary && (p.status == StatusOK ==> exists i | 0 <= i < |p.rows| :: CanRunOut(p.rows[i]))) <==>
      exists q1, q2 :: SeqCompletes(p, q1) && SeqCompletes(p, q2) && SeqResult(q1, role).verdict == OK && SeqResult(q2, role).verdict != OK
  {
    SeqUnknownExactly(p, role);
    SeqUndecidedExactly(p, role);
  }

  /** Two such lists: an unreadable sequence on a standby, where nothing is judged, and one that cycles, on a primary. */
  lemma UnknownThoughDecided(s: Sequence)
    requires !s.readable && s.last.None?
    ensures SeqResult(Probe(StatusOK, [s]), Standby).verdict == UNKNOWN
    ensures forall q | SeqCompletes(Probe(StatusOK, [s]), q) :: SeqResult(q, Standby).verdict == OK
    ensures SeqResult(Probe(StatusOK, [s.(cycle := true)]), Primary).verdict == UNKNOWN
    ensures forall q | SeqCompletes(Probe(StatusOK, [s.(cycle := true)]), q) :: SeqResult(q, Primary).verdict == OK
  {
    var p, c := Probe(StatusOK, [s]), Probe(StatusOK, [s.(cycle := true)]);
    assert !p.rows[0].readable && !c.rows[0].readable;
    SeqUnknownExactly(p, Standby);
    SeqUnknownExactly(c, Primary);
    forall q | SeqCompletes(p, q)
      ensures SeqResult(q, Standby).verdict == OK
    {
      FullVerdict(q, Standby);
    }
    forall q | SeqCompletes(c, q)
      ensures SeqResult(q, Primary).verdict == OK
    {
      FullVerdict(q, Primary);
      assert SHOWS_SEQUENCE(c.rows[0], q.rows[0]);
    }
  }
}
