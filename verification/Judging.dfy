/**
 Judging with hidden data: what every rule of internal/rule does with a probe's rows, and what may be
 concluded from a result when part of the input was not seen.

 A rule looks at each row and finds something, finds nothing, or cannot tell. Two things are proved
 about any such rule. Seeing more never takes a conclusion back. And UNKNOWN is neither timid nor
 bold: it is given exactly when what was hidden could have gone either way.
 */
module Judging {
  import opened Wrappers
  import opened Facts
  import opened Verdict
  import opened Picking

  /** What one row says: a finding, or nothing; blind when part of it could not be seen. */
  datatype Sight = Sight(found: Option<Finding>, blind: bool)

  const NOTHING := Sight(None, false)
  const BLIND := Sight(None, true)

  function Findings<Row>(rows: seq<Row>, sight: Row -> Sight): seq<Finding> {
    if rows == [] then []
    else
      var last := sight(rows[|rows| - 1]);
      Findings(rows[..|rows| - 1], sight) + (if last.found.Some? then [last.found.value] else [])
  }

  predicate Unseen<Row>(rows: seq<Row>, sight: Row -> Sight) {
    rows != [] && (Unseen(rows[..|rows| - 1], sight) || sight(rows[|rows| - 1]).blind)
  }

  function Judge<Row>(rows: seq<Row>, sight: Row -> Sight): Result {
    Result(VerdictOf(Findings(rows, sight), Unseen(rows, sight)), Findings(rows, sight))
  }

  /** `collected`: whether a probe's rows can be judged, and whether not judging them leaves something unknown. */
  function Collected(st: Status): (bool, bool) {
    match st
    case StatusOK => (true, false)
    case NotApplicable => (false, false)
    case Skipped => (false, true)
    case Error => (false, true)
  }

  function Run<Row>(p: Probe<Row>, sight: Row -> Sight): Result {
    if Collected(p.status).0 then Judge(p.rows, sight) else Result(VerdictOf([], Collected(p.status).1), [])
  }

  lemma LookAtNext<Row>(rows: seq<Row>, n: nat, sight: Row -> Sight)
    requires n < |rows|
    ensures Findings(rows[..n + 1], sight) ==
      Findings(rows[..n], sight) + (if sight(rows[n]).found.Some? then [sight(rows[n]).found.value] else [])
    ensures Unseen(rows[..n + 1], sight) <==> Unseen(rows[..n], sight) || sight(rows[n]).blind
  {
    assert rows[..n + 1][..n] == rows[..n];
  }

  /** One finding for each row that says one, in the rows' order, and no other. */
  lemma FoundPlaces<Row(!new)>(rows: seq<Row>, sight: Row -> Sight) returns (idx: seq<nat>)
    ensures Places(idx, |rows|) && |Findings(rows, sight)| == |idx|
    ensures forall i: nat :: i in idx <==> i < |rows| && sight(rows[i]).found.Some?
    ensures forall k | 0 <= k < |idx| ::
      sight(rows[idx[k]]).found.Some? && Findings(rows, sight)[k] == sight(rows[idx[k]]).found.value
  {
    var f := (x: Row) => sight(x).found;
    idx := GivenPlaces(rows, f);
    FindingsGiven(rows, sight, f);
  }

  lemma {:induction false} FindingsGiven<Row(!new)>(rows: seq<Row>, sight: Row -> Sight, f: Row -> Option<Finding>)
    requires forall x :: f(x) == sight(x).found
    ensures Findings(rows, sight) == Given(rows, f)
  {
    if rows != [] {
      FindingsGiven(rows[..|rows| - 1], sight, f);
    }
  }

  /** A finding of a level is there exactly when a row says one. */
  lemma FoundLevels<Row(!new)>(rows: seq<Row>, sight: Row -> Sight, level: Level)
    ensures Has(Findings(rows, sight), level) <==>
      exists i | 0 <= i < |rows| :: sight(rows[i]).found.Some? && sight(rows[i]).found.value.level == level
  {
    var idx := FoundPlaces(rows, sight);
    hide Findings;
    if i :| 0 <= i < |rows| && sight(rows[i]).found.Some? && sight(rows[i]).found.value.level == level {
      assert i in idx;
      var k :| 0 <= k < |idx| && idx[k] == i;
      assert Findings(rows, sight)[k].level == level;
    }
  }

  /** A probe that was not read: nothing found, and nothing unknown only when the probe does not apply. */
  lemma NotRead<Row>(p: Probe<Row>, sight: Row -> Sight)
    requires p.status != StatusOK
    ensures Run(p, sight) == Result(if p.status == NotApplicable then OK else UNKNOWN, [])
  {
  }

  /** The verdict of a rule whose findings are all of one level. */
  lemma OneLevelVerdict<Row(!new)>(rows: seq<Row>, sight: Row -> Sight, level: Level)
    requires level != Fine
    requires forall i | 0 <= i < |rows| && sight(rows[i]).found.Some? :: sight(rows[i]).found.value.level == level
    ensures Judge(rows, sight).verdict ==
      if exists i | 0 <= i < |rows| :: sight(rows[i]).found.Some? then (if level == Fail then FAIL else WARN)
      else if exists i | 0 <= i < |rows| :: sight(rows[i]).blind then UNKNOWN
      else OK
  {
    var idx := FoundPlaces(rows, sight);
    UnseenExactly(rows, sight);
    var fs := Findings(rows, sight);
    assert forall k | 0 <= k < |fs| :: fs[k].level == level;
    if i :| 0 <= i < |rows| && sight(rows[i]).found.Some? {
      assert i in idx;
      assert fs[0].level == level;
    }
  }

  /** What a probe read gives, by the places of the rows that say something. */
  lemma Reported<Row(!new)>(p: Probe<Row>, sight: Row -> Sight, level: Level) returns (idx: seq<nat>)
    requires p.status == StatusOK && level != Fine
    requires forall i | 0 <= i < |p.rows| && sight(p.rows[i]).found.Some? :: sight(p.rows[i]).found.value.level == level
    ensures Places(idx, |p.rows|) && |Run(p, sight).findings| == |idx|
    ensures forall i: nat :: i in idx <==> i < |p.rows| && sight(p.rows[i]).found.Some?
    ensures forall k | 0 <= k < |idx| ::
      sight(p.rows[idx[k]]).found.Some? && Run(p, sight).findings[k] == sight(p.rows[idx[k]]).found.value
    ensures Run(p, sight).verdict ==
      if idx != [] then (if level == Fail then FAIL else WARN)
      else if exists i | 0 <= i < |p.rows| :: sight(p.rows[i]).blind then UNKNOWN
      else OK
  {
    idx := FoundPlaces(p.rows, sight);
    OneLevelVerdict(p.rows, sight, level);
    hide Findings, Unseen, VerdictOf;
    assert idx != [] ==> idx[0] in idx;
  }

  lemma RunIsConsistent<Row>(p: Probe<Row>, sight: Row -> Sight)
    ensures Consistent(Run(p, sight))
  {
  }

  lemma {:induction false} UnseenExactly<Row>(rows: seq<Row>, sight: Row -> Sight)
    ensures Unseen(rows, sight) <==> exists i | 0 <= i < |rows| :: sight(rows[i]).blind
  {
    if rows != [] {
      var init := rows[..|rows| - 1];
      UnseenExactly(init, sight);
      assert forall i | 0 <= i < |init| :: init[i] == rows[i];
    }
  }

  // ---- seeing more ----

  /** What seeing more of a row may do to its sight. */
  predicate Finer(a: Sight, b: Sight) {
    (!a.blind ==> b == a) && (a.found.Some? ==> b.found == a.found)
  }

  /** r' keeps every conclusion of r: no finding is lost, OK stays OK, WARN stays at least WARN, FAIL stays FAIL. */
  ghost predicate Keeps(r: Result, r': Result) {
    && multiset(r.findings) <= multiset(r'.findings)
    && (r.verdict == OK ==> r'.verdict == OK)
    && (r.verdict == WARN ==> r'.verdict == WARN || r'.verdict == FAIL)
    && (r.verdict == FAIL ==> r'.verdict == FAIL)
  }

  lemma HasInLarger(a: seq<Finding>, b: seq<Finding>, level: Level)
    requires multiset(a) <= multiset(b)
    ensures Has(a, level) ==> Has(b, level)
  {
    if i :| 0 <= i < |a| && a[i].level == level {
      assert a[i] in multiset(a);
      assert a[i] in multiset(b);
      var j :| 0 <= j < |b| && b[j] == a[i];
      assert b[j].level == level;
    }
  }

  lemma {:induction false} FinerFindings<A, B>(a: seq<A>, f: A -> Sight, b: seq<B>, g: B -> Sight)
    requires |a| == |b| && forall i | 0 <= i < |a| :: Finer(f(a[i]), g(b[i]))
    ensures multiset(Findings(a, f)) <= multiset(Findings(b, g))
    ensures !Unseen(a, f) ==> Findings(b, g) == Findings(a, f) && !Unseen(b, g)
  {
    if a != [] {
      var n := |a| - 1;
      FinerFindings(a[..n], f, b[..n], g);
      assert Finer(f(a[n]), g(b[n]));
    }
  }

  lemma FinerKeeps<A, B>(a: seq<A>, f: A -> Sight, b: seq<B>, g: B -> Sight)
    requires |a| == |b| && forall i | 0 <= i < |a| :: Finer(f(a[i]), g(b[i]))
    ensures Keeps(Judge(a, f), Judge(b, g))
  {
    FinerFindings(a, f, b, g);
    HasInLarger(Findings(a, f), Findings(b, g), Warn);
    HasInLarger(Findings(a, f), Findings(b, g), Fail);
  }

  /** Merging keeps what its inputs keep. */
  lemma MergeKeeps(a: Result, a': Result, b: Result, b': Result)
    requires Consistent(a) && Consistent(b) && Consistent(a') && Consistent(b')
    requires Keeps(a, a') && Keeps(b, b')
    ensures Keeps(Merged([a, b]), Merged([a', b']))
  {
    MergeOfTwo(a, b);
    MergeOfTwo(a', b');
    HasInLarger(a.findings + b.findings, a'.findings + b'.findings, Warn);
    HasInLarger(a.findings + b.findings, a'.findings + b'.findings, Fail);
    HasConcat(a.findings, b.findings, Warn);
    HasConcat(a.findings, b.findings, Fail);
    HasConcat(a'.findings, b'.findings, Warn);
    HasConcat(a'.findings, b'.findings, Fail);
  }

  // ---- a probe seen in full ----

  /** q is p with hidden rows shown; a probe that was not read may turn out to hold anything. */
  predicate Shows<Row>(p: Probe<Row>, q: Probe<Row>, shows: (Row, Row) -> bool) {
    match p.status
    case StatusOK => q.status == StatusOK && |q.rows| == |p.rows| && forall i | 0 <= i < |p.rows| :: shows(p.rows[i], q.rows[i])
    case NotApplicable => q.status == NotApplicable
    case Skipped => true
    case Error => true
  }

  /** Nothing of p is hidden. */
  predicate InFull<Row>(p: Probe<Row>, hidden: Row -> bool) {
    && (p.status == StatusOK || p.status == NotApplicable)
    && (p.status == StatusOK ==> forall i | 0 <= i < |p.rows| :: !hidden(p.rows[i]))
  }

  lemma ShownKeeps<Row(!new)>(p: Probe<Row>, q: Probe<Row>, shows: (Row, Row) -> bool, sight: Row -> Sight)
    requires Shows(p, q, shows)
    requires forall s, t :: shows(s, t) ==> Finer(sight(s), sight(t))
    ensures Keeps(Run(p, sight), Run(q, sight))
  {
    if p.status == StatusOK {
      FinerKeeps(p.rows, sight, q.rows, sight);
    }
  }

  /** The rows of p with each blind one replaced. */
  function Replaced<Row>(rows: seq<Row>, sight: Row -> Sight, change: Row -> Row): (r: seq<Row>)
    ensures |r| == |rows|
  {
    seq(|rows|, i requires 0 <= i < |rows| => if sight(rows[i]).blind then change(rows[i]) else rows[i])
  }

  lemma {:induction false} QuietFindings<Row>(rows: seq<Row>, sight: Row -> Sight)
    requires forall i | 0 <= i < |rows| :: sight(rows[i]) == NOTHING
    ensures Findings(rows, sight) == [] && !Unseen(rows, sight)
  {
    if rows != [] {
      QuietFindings(rows[..|rows| - 1], sight);
    }
  }

  lemma {:induction false} FoundIsListed<Row>(rows: seq<Row>, sight: Row -> Sight, i: nat)
    requires i < |rows| && sight(rows[i]).found.Some?
    ensures sight(rows[i]).found.value in Findings(rows, sight)
  {
    var n := |rows| - 1;
    if i < n {
      assert rows[..n][i] == rows[i];
      FoundIsListed(rows[..n], sight, i);
    }
  }

  lemma LoudResult<Row>(rows: seq<Row>, sight: Row -> Sight, i: nat)
    requires i < |rows| && sight(rows[i]).found.Some? && sight(rows[i]).found.value.level != Fine
    ensures Judge(rows, sight).verdict == WARN || Judge(rows, sight).verdict == FAIL
  {
    FoundIsListed(rows, sight, i);
    var f := sight(rows[i]).found.value;
    var fs := Findings(rows, sight);
    var j :| 0 <= j < |fs| && fs[j] == f;
    assert Has(fs, f.level);
  }

  /** How a rule's hidden rows can turn out: innocent, or guilty. */
  ghost predicate Swings<Row(!new)>(sight: Row -> Sight, shows: (Row, Row) -> bool, quiet: Row -> Row, loud: Row -> Row, guilty: Row) {
    && (forall s :: !sight(s).blind ==> shows(s, s))
    && (forall s :: sight(s).found.Some? ==> !sight(s).blind && sight(s).found.value.level != Fine)
    && (forall s :: sight(s).blind ==> shows(s, quiet(s)) && sight(quiet(s)) == NOTHING)
    && (forall s :: sight(s).blind ==> shows(s, loud(s)) && sight(loud(s)).found.Some?)
    && sight(guilty).found.Some?
  }

  lemma UndecidedCompletions<Row(!new)>(
      p: Probe<Row>, sight: Row -> Sight, shows: (Row, Row) -> bool, quiet: Row -> Row, loud: Row -> Row, guilty: Row)
    returns (q1: Probe<Row>, q2: Probe<Row>)
    requires Swings(sight, shows, quiet, loud, guilty)
    requires Run(p, sight).verdict == UNKNOWN
    ensures Shows(p, q1, shows) && Shows(p, q2, shows)
    ensures q1.status == q2.status == StatusOK
    ensures forall i | 0 <= i < |q1.rows| :: !sight(q1.rows[i]).blind
    ensures forall i | 0 <= i < |q2.rows| :: !sight(q2.rows[i]).blind
    ensures Run(q1, sight).verdict == OK
    ensures Run(q2, sight).verdict == WARN || Run(q2, sight).verdict == FAIL
  {
    if p.status != StatusOK {
      q1, q2 := Probe(StatusOK, []), Probe(StatusOK, [guilty]);
      LoudResult(q2.rows, sight, 0);
    } else {
      q1 := Probe(StatusOK, Replaced(p.rows, sight, quiet));
      q2 := Probe(StatusOK, Replaced(p.rows, sight, loud));
      UnseenExactly(p.rows, sight);
      var i :| 0 <= i < |p.rows| && sight(p.rows[i]).blind;
      LoudResult(q2.rows, sight, i);
      forall j | 0 <= j < |p.rows|
        ensures sight(q1.rows[j]) == NOTHING
      {
        if sight(p.rows[j]).found.Some? {
          LoudResult(p.rows, sight, j);
        }
      }
      QuietFindings(q1.rows, sight);
    }
  }

  /** q is p seen in full. */
  predicate Completes<Row>(p: Probe<Row>, q: Probe<Row>, shows: (Row, Row) -> bool, hidden: Row -> bool) {
    Shows(p, q, shows) && InFull(q, hidden)
  }

  /** A probe a rule calls OK was seen in full. */
  lemma OKIsInFull<Row(!new)>(p: Probe<Row>, sight: Row -> Sight, hidden: Row -> bool)
    requires Run(p, sight).verdict == OK
    requires forall s :: hidden(s) ==> sight(s).blind
    ensures InFull(p, hidden)
  {
    UnseenExactly(p.rows, sight);
  }

  /** What a probe that raised nothing can turn out to be: still nothing, and something if and only if it was UNKNOWN. */
  lemma TwoCompletions<Row(!new)>(
      p: Probe<Row>, sight: Row -> Sight, shows: (Row, Row) -> bool, hidden: Row -> bool,
      quiet: Row -> Row, loud: Row -> Row, guilty: Row)
    returns (q1: Probe<Row>, q2: Probe<Row>)
    requires Swings(sight, shows, quiet, loud, guilty)
    requires forall s :: hidden(s) ==> sight(s).blind
    requires Run(p, sight).verdict == UNKNOWN || Run(p, sight).verdict == OK
    ensures Completes(p, q1, shows, hidden) && Completes(p, q2, shows, hidden)
    ensures Run(q1, sight).verdict == OK
    ensures Run(p, sight).verdict == OK ==> Run(q2, sight).verdict == OK
    ensures Run(p, sight).verdict == UNKNOWN ==> Run(q2, sight).verdict == WARN || Run(q2, sight).verdict == FAIL
  {
    if Run(p, sight).verdict == UNKNOWN {
      q1, q2 := UndecidedCompletions(p, sight, shows, quiet, loud, guilty);
    } else {
      OKIsInFull(p, sight, hidden);
      UnseenExactly(p.rows, sight);
      q1, q2 := p, p;
    }
  }
}
