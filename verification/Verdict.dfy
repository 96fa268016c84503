/** Findings, verdicts and how results are joined: internal/rule/rule.go. */
module Verdict {

  datatype Level = Fine | Warn | Fail

  datatype Verdict = OK | WARN | FAIL | UNKNOWN

  /** What a finding is about. */
  datatype Subject =
    | OfSession(pid: int)
    | OfPrepared(gid: string)
    | OfDatabase(datname: string)
    | OfSequence(schema: string, name: string)
    | OfTable(schema: string, name: string)
    | OfServer

  datatype Finding = Finding(id: string, level: Level, subject: Subject)

  datatype Result = Result(verdict: Verdict, findings: seq<Finding>)

  // ---- the verdict of a list of findings ----

  predicate Has(fs: seq<Finding>, level: Level) {
    exists i | 0 <= i < |fs| :: fs[i].level == level
  }

  function VerdictOf(fs: seq<Finding>, unknown: bool): Verdict {
    if Has(fs, Fail) then FAIL
    else if Has(fs, Warn) then WARN
    else if unknown then UNKNOWN
    else OK
  }

  method TakeVerdict(fs: seq<Finding>, unknown: bool) returns (v: Verdict)
    ensures v == VerdictOf(fs, unknown)
  {
    v := OK;
    for i := 0 to |fs|
      invariant !Has(fs[..i], Fail)
      invariant v == if Has(fs[..i], Warn) then WARN else OK
    {
      assert forall level :: Has(fs[..i + 1], level) <==> Has(fs[..i], level) || fs[i].level == level by {
        forall level
          ensures Has(fs[..i + 1], level) <==> Has(fs[..i], level) || fs[i].level == level
        {
          HasConcat(fs[..i], [fs[i]], level);
          assert fs[..i + 1] == fs[..i] + [fs[i]];
        }
      }
      match fs[i].level {
        case Fail =>
          return FAIL;
        case Warn =>
          v := WARN;
        case Fine =>
      }
    }
    assert fs[..|fs|] == fs;
    if v == OK && unknown {
      v := UNKNOWN;
    }
  }

  lemma HasConcat(a: seq<Finding>, b: seq<Finding>, level: Level)
    ensures Has(a + b, level) <==> Has(a, level) || Has(b, level)
  {
    if Has(a, level) {
      var i :| 0 <= i < |a| && a[i].level == level;
      assert (a + b)[i].level == level;
    }
    if Has(b, level) {
      var i :| 0 <= i < |b| && b[i].level == level;
      assert (a + b)[|a| + i].level == level;
    }
  }

  // ---- Merge ----

  function AllFindings(rs: seq<Result>): seq<Finding> {
    if rs == [] then [] else AllFindings(rs[..|rs| - 1]) + rs[|rs| - 1].findings
  }

  predicate AnyUnknown(rs: seq<Result>) {
    exists i | 0 <= i < |rs| :: rs[i].verdict == UNKNOWN
  }

  function Merged(rs: seq<Result>): Result {
    Result(VerdictOf(AllFindings(rs), AnyUnknown(rs)), AllFindings(rs))
  }

  method Merge(rs: seq<Result>) returns (r: Result)
    ensures r == Merged(rs)
  {
    var fs: seq<Finding> := [];
    var unknown := false;
    for i := 0 to |rs|
      invariant fs == AllFindings(rs[..i])
      invariant unknown == AnyUnknown(rs[..i])
    {
      assert rs[..i + 1][..i] == rs[..i];
      fs := fs + rs[i].findings;
      assert rs[..i + 1] == rs[..i] + [rs[i]];
      AnyUnknownConcat(rs[..i], [rs[i]]);
      unknown := unknown || rs[i].verdict == UNKNOWN;
    }
    assert rs[..|rs|] == rs;
    var v := TakeVerdict(fs, unknown);
    r := Result(v, fs);
  }

  lemma AnyUnknownConcat(a: seq<Result>, b: seq<Result>)
    ensures AnyUnknown(a + b) <==> AnyUnknown(a) || AnyUnknown(b)
  {
    if AnyUnknown(a) {
      var i :| 0 <= i < |a| && a[i].verdict == UNKNOWN;
      assert (a + b)[i].verdict == UNKNOWN;
    }
    if AnyUnknown(b) {
      var i :| 0 <= i < |b| && b[i].verdict == UNKNOWN;
      assert (a + b)[|a| + i].verdict == UNKNOWN;
    }
  }

  // ---- the algebra of merging ----

  /** The order of verdicts: OK < UNKNOWN < WARN < FAIL. */
  function Rank(v: Verdict): nat {
    match v
    case OK => 0
    case UNKNOWN => 1
    case WARN => 2
    case FAIL => 3
  }

  /** A result a rule can give: its verdict is that of its findings, with or without something unseen. */
  predicate Consistent(r: Result) {
    r.verdict == VerdictOf(r.findings, r.verdict == UNKNOWN)
  }

  lemma ConsistentExactly(r: Result)
    ensures Consistent(r) <==> exists unknown: bool :: r.verdict == VerdictOf(r.findings, unknown)
  {
    assert r.verdict == VerdictOf(r.findings, true) || r.verdict == VerdictOf(r.findings, false)
      <==> exists unknown: bool :: r.verdict == VerdictOf(r.findings, unknown);
  }

  lemma {:induction false} AllFindingsConcat(a: seq<Result>, b: seq<Result>)
    ensures AllFindings(a + b) == AllFindings(a) + AllFindings(b)
  {
    if b == [] {
      assert a + b == a;
    } else {
      assert (a + b)[..|a + b| - 1] == a + b[..|b| - 1];
      AllFindingsConcat(a, b[..|b| - 1]);
    }
  }

  lemma AllFindingsOne(r: Result)
    ensures AllFindings([r]) == r.findings
  {
    assert [r][..0] == [];
  }

  lemma {:induction false} AllFindingsHas(rs: seq<Result>, level: Level)
    ensures Has(AllFindings(rs), level) <==> exists i | 0 <= i < |rs| :: Has(rs[i].findings, level)
  {
    if rs != [] {
      var init, last := rs[..|rs| - 1], rs[|rs| - 1];
      AllFindingsHas(init, level);
      HasConcat(AllFindings(init), last.findings, level);
      assert forall i | 0 <= i < |init| :: init[i] == rs[i];
      if Has(last.findings, level) {
        assert Has(rs[|rs| - 1].findings, level);
      }
      if i :| 0 <= i < |init| && Has(init[i].findings, level) {
        assert Has(rs[i].findings, level);
      }
    }
  }

  /** What each verdict means. */
  lemma VerdictExactly(fs: seq<Finding>, unknown: bool)
    ensures VerdictOf(fs, unknown) == FAIL <==> exists i | 0 <= i < |fs| :: fs[i].level == Fail
    ensures VerdictOf(fs, unknown) == WARN <==>
      (exists i | 0 <= i < |fs| :: fs[i].level == Warn) && forall i | 0 <= i < |fs| :: fs[i].level != Fail
    ensures VerdictOf(fs, unknown) == UNKNOWN <==> unknown && forall i | 0 <= i < |fs| :: fs[i].level == Fine
    ensures VerdictOf(fs, unknown) == OK <==> !unknown && forall i | 0 <= i < |fs| :: fs[i].level == Fine
  {
  }

  /** Merging takes the highest verdict, when every input is a result a rule can give. */
  lemma MergeIsMax(rs: seq<Result>)
    requires forall i | 0 <= i < |rs| :: Consistent(rs[i])
    ensures forall i | 0 <= i < |rs| :: Rank(rs[i].verdict) <= Rank(Merged(rs).verdict)
    ensures Merged(rs).verdict == OK || exists i | 0 <= i < |rs| :: rs[i].verdict == Merged(rs).verdict
  {
    AllFindingsHas(rs, Fail);
    AllFindingsHas(rs, Warn);
    if Merged(rs).verdict == FAIL {
      var i :| 0 <= i < |rs| && Has(rs[i].findings, Fail);
      assert rs[i].verdict == FAIL;
    } else if Merged(rs).verdict == WARN {
      var i :| 0 <= i < |rs| && Has(rs[i].findings, Warn);
      assert !Has(rs[i].findings, Fail) && rs[i].verdict == WARN;
    }
    forall i | 0 <= i < |rs|
      ensures Rank(rs[i].verdict) <= Rank(Merged(rs).verdict)
    {
      assert Has(rs[i].findings, Fail) ==> Merged(rs).verdict == FAIL;
    }
  }

  /** Merging one result changes nothing, exactly for the results a rule can give. */
  lemma MergeOfOne(r: Result)
    ensures Merged([r]) == r <==> Consistent(r)
  {
    AllFindingsOne(r);
    assert AnyUnknown([r]) <==> r.verdict == UNKNOWN by {
      assert [r][0] == r;
    }
  }

  /** A merged result is one a rule can give, so merging may go on. */
  lemma MergeIsConsistent(rs: seq<Result>)
    ensures Consistent(Merged(rs))
  {
  }

  lemma MergeOfTwo(a: Result, b: Result)
    ensures Merged([a, b]) == Result(VerdictOf(a.findings + b.findings, a.verdict == UNKNOWN || b.verdict == UNKNOWN), a.findings + b.findings)
  {
    assert [a, b] == [a] + [b];
    AllFindingsConcat([a], [b]);
    AllFindingsOne(a);
    AllFindingsOne(b);
    assert [a, b][0] == a && [a, b][1] == b;
  }

  lemma VerdictOfConcat(a: seq<Finding>, b: seq<Finding>, x: bool, y: bool)
    ensures VerdictOf(a + b, VerdictOf(a, x) == UNKNOWN || VerdictOf(b, y) == UNKNOWN) == VerdictOf(a + b, x || y)
  {
    HasConcat(a, b, Fail);
    HasConcat(a, b, Warn);
  }

  /** Merging in groups is merging all at once. */
  lemma MergeIsAssociative(a: seq<Result>, b: seq<Result>)
    ensures Merged([Merged(a), Merged(b)]) == Merged(a + b)
  {
    hide VerdictOf, AnyUnknown;
    MergeOfTwo(Merged(a), Merged(b));
    AllFindingsConcat(a, b);
    AnyUnknownConcat(a, b);
    VerdictOfConcat(AllFindings(a), AllFindings(b), AnyUnknown(a), AnyUnknown(b));
  }

  /** The merged verdict does not depend on the order of the results. */
  lemma MergeIgnoresOrder(a: seq<Result>, b: seq<Result>)
    requires multiset(a) == multiset(b)
    ensures Merged(a).verdict == Merged(b).verdict
  {
    AllFindingsHas(a, Fail);
    AllFindingsHas(b, Fail);
    AllFindingsHas(a, Warn);
    AllFindingsHas(b, Warn);
    SameMembers(a, b);
    SameMembers(b, a);
  }

  lemma SameMembers(a: seq<Result>, b: seq<Result>)
    requires multiset(a) == multiset(b)
    ensures forall i | 0 <= i < |a| :: exists j | 0 <= j < |b| :: b[j] == a[i]
  {
    forall i | 0 <= i < |a|
      ensures exists j | 0 <= j < |b| :: b[j] == a[i]
    {
      assert a[i] in multiset(a);
      assert a[i] in multiset(b);
      var j :| 0 <= j < |b| && b[j] == a[i];
    }
  }

  /** Merging a result with itself keeps its verdict, exactly for the results a rule can give. */
  lemma MergeIsIdempotent(r: Result)
    ensures Merged([r, r]).verdict == r.verdict <==> Consistent(r)
  {
    MergeOfTwo(r, r);
    HasConcat(r.findings, r.findings, Fail);
    HasConcat(r.findings, r.findings, Warn);
  }

  /** One input that could not decide keeps the merged result from reading OK; all findings stay, in order. */
  lemma MergeNeverHidesUnknown(rs: seq<Result>, i: nat)
    requires i < |rs| && rs[i].verdict == UNKNOWN
    ensures Merged(rs).verdict != OK
    ensures Merged(rs).findings == AllFindings(rs[..i]) + rs[i].findings + AllFindings(rs[i + 1..])
  {
    assert rs == rs[..i] + ([rs[i]] + rs[i + 1..]);
    AllFindingsConcat(rs[..i], [rs[i]] + rs[i + 1..]);
    AllFindingsConcat([rs[i]], rs[i + 1..]);
    AllFindingsOne(rs[i]);
  }
}
