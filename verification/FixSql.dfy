/**
 Fix SQL that survives the terminal: `Vacuum` of internal/rule/vacuum.go chooses between a statement
 and a pointer to --json by `hasControl`, and the text layer escapes what it prints. Strings here are
 byte strings, one character per byte; the options of a table are code points, as in VacuumOptions.
 `seqFix` of internal/rule/seq.go makes the same choice by a guard that is not quite as good.
 */
module FixSql {
  import opened Wrappers
  import opened Facts
  import opened Verdict
  import opened Judging
  import opened Picking
  import opened Names
  import opened Utf8
  import opened Escape
  import opened VacuumOptions

  // ---- what escaping leaves alone ----

  /** Text in front of an ASCII character is clean by itself: no encoding reaches over that character. */
  lemma {:induction false} CleanBefore(a: string, c: char, b: string, hostile: Hostile)
    requires c as int < 0x80 && Clean(a + [c] + b, hostile)
    ensures Clean(a, hostile) && !hostile(c as int) && Clean(b, hostile)
    decreases |a|
  {
    var s := a + [c] + b;
    if a == "" {
      assert s[0] == c && s[1..] == b;
    } else {
      var n := Decode(s).size;
      StopsBefore(s, |a|);
      assert s[..n] == a[..n] && s[n..] == a[n..] + [c] + b;
      hide Decode;
      DecodePrefix(s, a);
      CleanBefore(a[n..], c, b, hostile);
    }
  }

  /** A rune does not extend over an ASCII character. */
  lemma StopsBefore(s: string, k: nat)
    requires 0 < k < |s| && Decode(s).Rune? && s[k] as int < 0x80
    ensures Decode(s).size <= k
  {
  }

  /** A rune is one ASCII byte, or bytes that are all above ASCII. */
  lemma RuneBytes(s: string)
    requires s != "" && Decode(s).Rune?
    ensures var n := Decode(s).size;
      if s[0] as int < 0x80 then n == 1 else forall i | 0 <= i < n :: s[i] as int >= 0x80
  {
  }

  lemma QuotesAreClean(hostile: Hostile)
    requires PrintableSafe(hostile)
    ensures Clean([QUOTE], hostile) && Clean([QUOTE, QUOTE], hostile) && Clean(".", hostile)
  {
    PrintableIsClean([QUOTE], hostile);
    PrintableIsClean([QUOTE, QUOTE], hostile);
    PrintableIsClean(".", hostile);
  }

  lemma RuneIsClean(s: string, hostile: Hostile)
    requires s != "" && Clean(s, hostile)
    ensures Clean(s[..Decode(s).size], hostile)
  {
    hide Decode;
    var rune := s[..Decode(s).size];
    DecodePrefix(s, rune);
    assert rune[Decode(s).size..] == "";
  }

  /** Doubling quotes keeps a clean text clean. */
  lemma {:induction false} DoubledIsClean(s: string, hostile: Hostile)
    requires PrintableSafe(hostile) && Clean(s, hostile)
    ensures Clean(Doubled(s), hostile)
    decreases |s|
  {
    if s != "" {
      var n := Decode(s).size;
      var rune, rest := s[..n], s[n..];
      RuneBytes(s);
      hide Decode;
      DoubledIsClean(rest, hostile);
      RuneIsClean(s, hostile);
      QuotesAreClean(hostile);
      assert s == rune + rest;
      DoubledConcat(rune, rest);
      if s[0] == QUOTE {
        assert rune == [QUOTE] && Doubled(rune) == [QUOTE, QUOTE] by {
          assert rune[1..] == "";
        }
      } else {
        assert QUOTE !in rune;
        DoubledWithoutQuotes(rune);
      }
      CleanConcat(Doubled(rune), Doubled(rest), hostile);
    }
  }

  lemma QuotedIsClean(s: string, keywords: set<string>, hostile: Hostile)
    requires PrintableSafe(hostile) && Clean(s, hostile)
    ensures Clean(Quoted(s, keywords), hostile)
  {
    DoubledIsClean(s, hostile);
    QuotesAreClean(hostile);
    CleanConcat([QUOTE], Doubled(s), hostile);
    CleanConcat([QUOTE] + Doubled(s), [QUOTE], hostile);
  }

  lemma QualifiedIsClean(schema: string, rel: string, keywords: set<string>, hostile: Hostile)
    requires PrintableSafe(hostile) && Clean(schema, hostile) && Clean(rel, hostile)
    ensures Clean(Qualified(schema, rel, keywords), hostile)
  {
    QuotedIsClean(schema, keywords, hostile);
    QuotedIsClean(rel, keywords, hostile);
    QuotesAreClean(hostile);
    CleanConcat(Quoted(schema, keywords), ".", hostile);
    CleanConcat(Quoted(schema, keywords) + ".", Quoted(rel, keywords), hostile);
  }

  // ---- Vacuum ----

  datatype VacuumTable<F> = VacuumTable(schema: string, rel: string, dead: F, reltuples: F, options: seq<string>)

  datatype VacuumSetting<F> = VacuumSetting(autovacuum: string, trackCounts: string, base: F, scale: F)

  /** One thing a finding tells the reader to do. */
  datatype Next = Fix(sql: string) | Verify(command: string)

  const VACUUM: string := "VACUUM "

  function TableNext<F>(x: VacuumTable<F>, keywords: set<string>, hostile: Hostile): Next {
    if HasControl(x.schema + "." + x.rel, hostile) then Verify("kbdiag vacuum --json")
    else Fix(VACUUM + Qualified(x.schema, x.rel, keywords))
  }

  /** What to do about a table, in order. */
  function TableSteps<F>(x: VacuumTable<F>, keywords: set<string>, hostile: Hostile): seq<Next> {
    [TableNext(x, keywords, hostile), Verify("kbdiag txn"), Verify("kbdiag slots")]
  }

  /** A table past its threshold with autovacuum turned off for itself. */
  predicate Flagged<F>(x: VacuumTable<F>, set': VacuumSetting<F>, a: Arith<F>) {
    !Enabled(x.options) && !a.atMost(x.dead, Threshold(x.options, set'.base, set'.scale, x.reltuples, a))
  }

  function SwitchNext<F>(set': VacuumSetting<F>): Next {
    Fix("ALTER SYSTEM SET " + (if set'.autovacuum != "on" then "autovacuum" else "track_counts") + " = on")
  }

  function TablesFound<F>(rows: seq<VacuumTable<F>>, set': VacuumSetting<F>, a: Arith<F>, keywords: set<string>, hostile: Hostile): seq<(Finding, seq<Next>)> {
    if rows == [] then []
    else
      var x := rows[|rows| - 1];
      TablesFound(rows[..|rows| - 1], set', a, keywords, hostile)
      + (if Flagged(x, set', a) then [(Finding("vacuum.table_disabled", Warn, OfTable(x.schema, x.rel)), TableSteps(x, keywords, hostile))] else [])
  }

  function VacuumFound<F>(t: Probe<VacuumTable<F>>, s: Probe<VacuumSetting<F>>, a: Arith<F>, keywords: set<string>, hostile: Hostile): seq<(Finding, seq<Next>)> {
    if s.status != StatusOK || s.rows == [] then []
    else
      (if s.rows[0].autovacuum != "on" || s.rows[0].trackCounts != "on"
       then [(Finding("vacuum.disabled", Warn, OfServer), [SwitchNext(s.rows[0])])] else [])
      + (if t.status == StatusOK then TablesFound(t.rows, s.rows[0], a, keywords, hostile) else [])
  }

  function FindingsOf(found: seq<(Finding, seq<Next>)>): (fs: seq<Finding>)
    ensures |fs| == |found|
  {
    seq(|found|, i requires 0 <= i < |found| => found[i].0)
  }

  /** The loop over the tables. */
  method FlagTables<F>(rows: seq<VacuumTable<F>>, set': VacuumSetting<F>, a: Arith<F>, keywords: set<string>, hostile: Hostile) returns (found: seq<(Finding, seq<Next>)>)
    ensures found == TablesFound(rows, set', a, keywords, hostile)
  {
    hide HasControl, Qualified, Enabled, Threshold;
    found := [];
    for i := 0 to |rows|
      invariant found == TablesFound(rows[..i], set', a, keywords, hostile)
    {
      assert rows[..i + 1][..i] == rows[..i];
      var x := rows[i];
      var threshold, on := VacuumThreshold(x.options, set'.base, set'.scale, x.reltuples, a);
      if on || a.atMost(x.dead, threshold) {
        continue;
      }
      var fix := Fix(VACUUM + Qualified(x.schema, x.rel, keywords));
      if HasControl(x.schema + "." + x.rel, hostile) {
        fix := Verify("kbdiag vacuum --json");
      }
      found := found + [(Finding("vacuum.table_disabled", Warn, OfTable(x.schema, x.rel)), [fix, Verify("kbdiag txn"), Verify("kbdiag slots")])];
    }
    assert rows[..|rows|] == rows;
  }

  /** A finding about that table is among them. */
  ghost predicate Reports(found: seq<(Finding, seq<Next>)>, schema: string, rel: string) {
    exists k | 0 <= k < |found| :: found[k].0 == Finding("vacuum.table_disabled", Warn, OfTable(schema, rel))
  }

  lemma ReportsMore(found: seq<(Finding, seq<Next>)>, more: seq<(Finding, seq<Next>)>, schema: string, rel: string)
    ensures Reports(found + more, schema, rel) <==> Reports(found, schema, rel) || Reports(more, schema, rel)
  {
    var all := found + more;
    assert forall k | 0 <= k < |found| :: all[k] == found[k];
    assert forall k | 0 <= k < |more| :: all[|found| + k] == more[k];
    assert forall k | |found| <= k < |all| :: all[k] == more[k - |found|];
  }

  /** A row with those names has autovacuum off and is past its threshold. */
  ghost predicate HasFlagged<F>(rows: seq<VacuumTable<F>>, set': VacuumSetting<F>, a: Arith<F>, schema: string, rel: string) {
    exists i | 0 <= i < |rows| :: PastThreshold(rows[i], set', a) && rows[i].schema == schema && rows[i].rel == rel
  }

  /** Autovacuum is off for the table, and it has more dead tuples than its own threshold, by the last options that say so. */
  ghost predicate PastThreshold<F>(x: VacuumTable<F>, set': VacuumSetting<F>, a: Arith<F>) {
    && !Chosen(x.options, "autovacuum_enabled", READ_BOOL, true)
    && !a.atMost(x.dead, a.add(
         Chosen(x.options, "autovacuum_vacuum_threshold", a.parse, set'.base),
         a.mul(Chosen(x.options, "autovacuum_vacuum_scale_factor", a.parse, set'.scale), x.reltuples)))
  }

  lemma FlaggedExactly<F>(x: VacuumTable<F>, set': VacuumSetting<F>, a: Arith<F>)
    ensures Flagged(x, set', a) <==> PastThreshold(x, set', a)
  {
  }

  lemma HasFlaggedLast<F>(rows: seq<VacuumTable<F>>, set': VacuumSetting<F>, a: Arith<F>, schema: string, rel: string)
    requires rows != []
    ensures var x := rows[|rows| - 1];
      HasFlagged(rows, set', a, schema, rel) <==>
        HasFlagged(rows[..|rows| - 1], set', a, schema, rel) || (Flagged(x, set', a) && x.schema == schema && x.rel == rel)
  {
    var init := rows[..|rows| - 1];
    FlaggedExactly(rows[|init|], set', a);
    hide Flagged, PastThreshold;
    assert forall i | 0 <= i < |init| :: rows[i] == init[i];
  }

  /** A table is reported exactly when there is such a row. */
  lemma {:induction false} TablesFoundExactly<F>(rows: seq<VacuumTable<F>>, set': VacuumSetting<F>, a: Arith<F>, keywords: set<string>, hostile: Hostile, schema: string, rel: string)
    ensures Reports(TablesFound(rows, set', a, keywords, hostile), schema, rel) <==> HasFlagged(rows, set', a, schema, rel)
  {
    if rows == [] {
      ReportsNothing(schema, rel);
    } else {
      hide Flagged, TableSteps, Reports, HasFlagged;
      var n := |rows| - 1;
      var x := rows[n];
      TablesFoundExactly(rows[..n], set', a, keywords, hostile, schema, rel);
      HasFlaggedLast(rows, set', a, schema, rel);
      ReportsNothing(schema, rel);
      var found := (Finding("vacuum.table_disabled", Warn, OfTable(x.schema, x.rel)), TableSteps(x, keywords, hostile));
      ReportsOne(found, schema, rel);
      ReportsMore(TablesFound(rows[..n], set', a, keywords, hostile), if Flagged(x, set', a) then [found] else [], schema, rel);
    }
  }

  /** What is said of a table: the fix or where to find the raw name, then where to look if tuples remain. */
  lemma StepsExactly<F>(x: VacuumTable<F>, keywords: set<string>, hostile: Hostile)
    requires PrintableSafe(hostile)
    ensures TableSteps(x, keywords, hostile) == [
      if HasControl(x.schema, hostile) || HasControl(x.rel, hostile) then Verify("kbdiag vacuum --json")
      else Fix("VACUUM " + Qualified(x.schema, x.rel, keywords)),
      Verify("kbdiag txn"), Verify("kbdiag slots")]
  {
    hide HasControl, Qualified;
    FixGivenExactly(x, keywords, hostile);
  }

  /** One finding with those steps for each such table, in the order of the rows. */
  lemma TablePlaces<F(!new)>(rows: seq<VacuumTable<F>>, set': VacuumSetting<F>, a: Arith<F>, keywords: set<string>, hostile: Hostile) returns (idx: seq<nat>)
    ensures Places(idx, |rows|) && |TablesFound(rows, set', a, keywords, hostile)| == |idx|
    ensures forall i: nat :: i in idx <==> i < |rows| && PastThreshold(rows[i], set', a)
    ensures forall k | 0 <= k < |idx| ::
      var x := rows[idx[k]];
      TablesFound(rows, set', a, keywords, hostile)[k] ==
        (Finding("vacuum.table_disabled", Warn, OfTable(x.schema, x.rel)), TableSteps(x, keywords, hostile))
  {
    hide TableSteps;
    var f := (x: VacuumTable<F>) =>
      if Flagged(x, set', a) then Some((Finding("vacuum.table_disabled", Warn, OfTable(x.schema, x.rel)), TableSteps(x, keywords, hostile))) else None;
    idx := GivenPlaces(rows, f);
    TablesGiven(rows, set', a, keywords, hostile, f);
    forall x
      ensures Flagged(x, set', a) <==> PastThreshold(x, set', a)
    {
      FlaggedExactly(x, set', a);
    }
    hide Flagged, PastThreshold;
  }

  lemma {:induction false} TablesGiven<F(!new)>(rows: seq<VacuumTable<F>>, set': VacuumSetting<F>, a: Arith<F>, keywords: set<string>, hostile: Hostile, f: VacuumTable<F> -> Option<(Finding, seq<Next>)>)
    requires forall x :: f(x) == (if Flagged(x, set', a) then Some((Finding("vacuum.table_disabled", Warn, OfTable(x.schema, x.rel)), TableSteps(x, keywords, hostile))) else None)
    ensures TablesFound(rows, set', a, keywords, hostile) == Given(rows, f)
  {
    if rows != [] {
      hide Flagged, TableSteps;
      TablesGiven(rows[..|rows| - 1], set', a, keywords, hostile, f);
    }
  }

  /** The whole report: the switch first, then the tables; nothing without the settings. */
  lemma VacuumReport<F>(t: Probe<VacuumTable<F>>, s: Probe<VacuumSetting<F>>, a: Arith<F>, keywords: set<string>, hostile: Hostile)
    ensures s.status != StatusOK || s.rows == [] ==> VacuumFound(t, s, a, keywords, hostile) == []
    ensures s.status == StatusOK && s.rows != [] ==>
      var set' := s.rows[0];
      VacuumFound(t, s, a, keywords, hostile) ==
        (if set'.autovacuum != "on" then [(Finding("vacuum.disabled", Warn, OfServer), [Fix("ALTER SYSTEM SET autovacuum = on")])]
         else if set'.trackCounts != "on" then [(Finding("vacuum.disabled", Warn, OfServer), [Fix("ALTER SYSTEM SET track_counts = on")])]
         else [])
        + (if t.status == StatusOK then TablesFound(t.rows, set', a, keywords, hostile) else [])
  {
    hide TablesFound;
    assert "ALTER SYSTEM SET " + "autovacuum" + " = on" == "ALTER SYSTEM SET autovacuum = on";
    assert "ALTER SYSTEM SET " + "track_counts" + " = on" == "ALTER SYSTEM SET track_counts = on";
  }

  lemma ReportsNothing(schema: string, rel: string)
    ensures !Reports([], schema, rel)
  {
  }

  lemma ReportsOne(found: (Finding, seq<Next>), schema: string, rel: string)
    ensures Reports([found], schema, rel) <==> found.0 == Finding("vacuum.table_disabled", Warn, OfTable(schema, rel))
  {
    assert [found][0] == found;
  }

  method Vacuum<F>(t: Probe<VacuumTable<F>>, s: Probe<VacuumSetting<F>>, a: Arith<F>, role: Role, keywords: set<string>, hostile: Hostile)
    returns (v: Verdict, found: seq<(Finding, seq<Next>)>)
    ensures role == Standby ==> v == OK && found == []
    ensures role == Primary ==>
      && found == VacuumFound(t, s, a, keywords, hostile)
      && v == VerdictOf(FindingsOf(found), t.status == Skipped || t.status == Error || s.status != StatusOK || s.rows == [])
  {
    found := [];
    if role == Standby {
      return OK, [];
    }
    hide TablesFound, VerdictOf, SwitchNext;
    var (judge, unknown) := Collected(t.status);
    var known := s.status == StatusOK && s.rows != [];
    unknown := unknown || !known;
    if known && (s.rows[0].autovacuum != "on" || s.rows[0].trackCounts != "on") {
      found := [(Finding("vacuum.disabled", Warn, OfServer), [SwitchNext(s.rows[0])])];
    }
    if judge && known {
      var tables := FlagTables(t.rows, s.rows[0], a, keywords, hostile);
      found := found + tables;
    }
    v := TakeVerdict(FindingsOf(found), unknown);
  }

  /** A statement is given exactly for the tables whose two names the text can show as they are. */
  lemma FixGivenExactly<F>(x: VacuumTable<F>, keywords: set<string>, hostile: Hostile)
    requires PrintableSafe(hostile)
    ensures TableNext(x, keywords, hostile).Fix? <==> !HasControl(x.schema, hostile) && !HasControl(x.rel, hostile)
  {
    var name := x.schema + "." + x.rel;
    CleanIsNoControl(name, hostile);
    CleanIsNoControl(x.schema, hostile);
    CleanIsNoControl(x.rel, hostile);
    if Clean(name, hostile) {
      assert "." == ['.'];
      CleanBefore(x.schema, '.', x.rel, hostile);
    }
    if Clean(x.schema, hostile) && Clean(x.rel, hostile) {
      QuotesAreClean(hostile);
      CleanConcat(x.schema, ".", hostile);
      CleanConcat(x.schema + ".", x.rel, hostile);
    }
  }

  /**
   Whenever a VACUUM is suggested, the terminal shows it byte for byte, and what it shows names exactly
   that table: reading the two identifiers back gives the schema and the relation.
   */
  lemma FixShownVerbatim<F>(x: VacuumTable<F>, keywords: set<string>, hostile: Hostile)
    requires PrintableSafe(hostile) && TableNext(x, keywords, hostile).Fix?
    ensures var sql := TableNext(x, keywords, hostile).sql;
      && Escaped(sql, hostile) == sql
      && "VACUUM " <= sql && ReadQualified(sql[7..]) == Some((x.schema, x.rel))
  {
    FixGivenExactly(x, keywords, hostile);
    CleanIsNoControl(x.schema, hostile);
    CleanIsNoControl(x.rel, hostile);
    QualifiedIsClean(x.schema, x.rel, keywords, hostile);
    PrintableIsClean(VACUUM, hostile);
    var name := Qualified(x.schema, x.rel, keywords);
    CleanConcat(VACUUM, name, hostile);
    EscapedOfClean(VACUUM + name, hostile);
    QualifiedRoundTrip(x.schema, x.rel, keywords);
    assert (VACUUM + name)[|VACUUM|..] == name;
  }

  /** A fix a reader sees as it is, and that names what the finding is about. */
  predicate Shown(found: (Finding, seq<Next>), hostile: Hostile) {
    forall k | 0 <= k < |found.1| && found.1[k].Fix? ::
      var sql := found.1[k].sql;
      && Escaped(sql, hostile) == sql
      && (found.0.subject.OfTable? ==>
           && "VACUUM " <= sql
           && ReadQualified(sql[7..]) == Some((found.0.subject.schema, found.0.subject.name)))
  }

  lemma {:induction false} TableFixesShown<F>(rows: seq<VacuumTable<F>>, set': VacuumSetting<F>, a: Arith<F>, keywords: set<string>, hostile: Hostile)
    requires PrintableSafe(hostile)
    ensures forall i | 0 <= i < |TablesFound(rows, set', a, keywords, hostile)| :: Shown(TablesFound(rows, set', a, keywords, hostile)[i], hostile)
  {
    if rows != [] {
      hide Shown, TableSteps, Flagged;
      TableFixesShown(rows[..|rows| - 1], set', a, keywords, hostile);
      StepsShown(rows[|rows| - 1], keywords, hostile);
    }
  }

  lemma StepsShown<F>(x: VacuumTable<F>, keywords: set<string>, hostile: Hostile)
    requires PrintableSafe(hostile)
    ensures Shown((Finding("vacuum.table_disabled", Warn, OfTable(x.schema, x.rel)), TableSteps(x, keywords, hostile)), hostile)
  {
    hide TableNext, Escaped, ReadQualified;
    if TableNext(x, keywords, hostile).Fix? {
      FixShownVerbatim(x, keywords, hostile);
    }
  }

  lemma SwitchFixShown<F>(set': VacuumSetting<F>, hostile: Hostile)
    requires PrintableSafe(hostile)
    ensures Escaped(SwitchNext(set').sql, hostile) == SwitchNext(set').sql
  {
    var sql := SwitchNext(set').sql;
    PrintableIsClean(sql, hostile);
    EscapedOfClean(sql, hostile);
  }

  /** Every statement Vacuum gives, whatever the probes hold, reaches the terminal as it is and names the finding's own table. */
  lemma VacuumFixesShown<F>(t: Probe<VacuumTable<F>>, s: Probe<VacuumSetting<F>>, a: Arith<F>, keywords: set<string>, hostile: Hostile)
    requires PrintableSafe(hostile)
    ensures forall i | 0 <= i < |VacuumFound(t, s, a, keywords, hostile)| :: Shown(VacuumFound(t, s, a, keywords, hostile)[i], hostile)
  {
    if s.rows != [] {
      TableFixesShown(t.rows, s.rows[0], a, keywords, hostile);
      SwitchFixShown(s.rows[0], hostile);
    }
    hide TablesFound, Escaped, ReadQualified, SwitchNext;
  }

  // ---- the guard without the separator ----

  /** The guard `seqFix` of internal/rule/seq.go puts before its statement: the two names run together. */
  predicate SeqFixGiven(schema: string, name: string, hostile: Hostile) {
    !HasControl(schema + name, hostile)
  }

  /** With each name valid by itself, leaving the separator out makes no difference. */
  lemma SeqFixGuardExactly(schema: string, name: string, hostile: Hostile)
    requires PrintableSafe(hostile)
    ensures !HasControl(schema, hostile) && !HasControl(name, hostile) <==> SeqFixGiven(schema, name, hostile) && Valid(schema)
  {
    CleanIsNoControl(schema, hostile);
    CleanIsNoControl(name, hostile);
    CleanIsNoControl(schema + name, hostile);
    if Clean(schema, hostile) && Clean(name, hostile) {
      CleanConcat(schema, name, hostile);
    }
    if Clean(schema + name, hostile) && Valid(schema) {
      CleanSplit(schema, name, hostile);
    }
  }

  /** A valid text in front of another is clean when the two together are. */
  lemma {:induction false} CleanSplit(a: string, b: string, hostile: Hostile)
    requires Clean(a + b, hostile) && Valid(a)
    ensures Clean(a, hostile) && Clean(b, hostile)
    decreases |a|
  {
    var s := a + b;
    if a == "" {
      assert s == b;
    } else {
      hide Decode;
      var n := Decode(a).size;
      assert s[..n] == a[..n] && s[n..] == a[n..] + b;
      DecodePrefix(a, s);
      CleanSplit(a[n..], b, hostile);
    }
  }

  // ---- seqFix ----

  /** The statement `seqFix` gives: the name, or a stand-in, between the same words. */
  function SeqFixSql(s: Sequence, dataType: string, keywords: set<string>, hostile: Hostile): string {
    ALTER + " " + SeqFixName(s, keywords, hostile) + " " + SeqClause(s, dataType)
  }

  const ALTER: string := "ALTER SEQUENCE"

  function SeqFixName(s: Sequence, keywords: set<string>, hostile: Hostile): string {
    if SeqFixGiven(s.schema, s.name, hostile) then Qualified(s.schema, s.name, keywords) else "<sequence>"
  }

  /** typeBounds */
  function TypeBounds(dataType: string): (int64, int64) {
    if dataType == "smallint" then (-0x8000, 0x7FFF)
    else if dataType == "integer" then (-0x8000_0000, 0x7FFF_FFFF)
    else (-0x8000_0000_0000_0000, 0x7FFF_FFFF_FFFF_FFFF)
  }

  /** The limit to move: the sequence's own when it stops short of the type, else the type. */
  function SeqClause(s: Sequence, dataType: string): string {
    var (lo, hi) := TypeBounds(dataType);
    var own := (s.increment > 0 && s.max < hi) || (s.increment < 0 && s.min > lo);
    if !own && dataType != "bigint" then "AS bigint"
    else if s.increment < 0 then "MINVALUE <lower>"
    else "MAXVALUE <higher>"
  }

  /**
   What the statement changes: the type when the sequence stops where a small type ends, otherwise the limit it runs
   towards.
   */
  lemma SeqClauseExactly(s: Sequence, dataType: string)
    requires s.increment != 0
    ensures SeqClause(s, dataType) == "AS bigint" <==>
      || (dataType == "smallint" && if s.increment > 0 then s.max >= 32767 else s.min <= -32768)
      || (dataType == "integer" && if s.increment > 0 then s.max >= 2147483647 else s.min <= -2147483648)
      || (dataType !in {"smallint", "integer", "bigint"} && if s.increment > 0 then s.max == 9223372036854775807 else s.min == -9223372036854775808)
    ensures SeqClause(s, dataType) != "AS bigint" ==>
      SeqClause(s, dataType) == if s.increment > 0 then "MAXVALUE <higher>" else "MINVALUE <lower>"
  {
    assert "AS bigint"[0] != "MAXVALUE <higher>"[0] && "AS bigint"[0] != "MINVALUE <lower>"[0];
    assert "smallint" != "integer" && "smallint" != "bigint" && "integer" != "bigint";
  }

  /** The statement alters the sequence whose two names it reads back as, or leaves the name to be filled in. */
  lemma SeqFixReads(s: Sequence, dataType: string, keywords: set<string>, hostile: Hostile)
    ensures var sql, clause := SeqFixSql(s, dataType, keywords, hostile), SeqClause(s, dataType);
      if HasControl(s.schema + s.name, hostile) then sql == "ALTER SEQUENCE <sequence> " + clause
      else
        && sql == "ALTER SEQUENCE " + Qualified(s.schema, s.name, keywords) + " " + clause
        && ReadIdent(sql[15..]) == Some((s.schema, "." + Quoted(s.name, keywords) + " " + clause))
        && ReadIdent(Quoted(s.name, keywords) + " " + clause) == Some((s.name, " " + clause))
  {
    var clause := SeqClause(s, dataType);
    hide SeqClause, HasControl, Quoted, ReadIdent;
    var a, b := Quoted(s.schema, keywords), Quoted(s.name, keywords);
    var tail := "." + b + " " + clause;
    ReadQuotedIdent(s.schema, tail, keywords);
    ReadQuotedIdent(s.name, " " + clause, keywords);
    assert b + (" " + clause) == b + " " + clause;
    assert "ALTER SEQUENCE " + (a + "." + b) + " " + clause == "ALTER SEQUENCE " + (a + tail);
    assert ("ALTER SEQUENCE " + (a + tail))[15..] == a + tail;
  }

  /** Only clean text doubles to clean text. */
  lemma {:induction false} DoubledTellsClean(s: string, hostile: Hostile)
    requires Clean(Doubled(s), hostile)
    ensures Clean(s, hostile)
    decreases |s|
  {
    if s != "" {
      var d := Doubled(s);
      if s[0] == QUOTE {
        assert d == "" + [QUOTE] + ([QUOTE] + Doubled(s[1..]));
        CleanBefore("", QUOTE, [QUOTE] + Doubled(s[1..]), hostile);
        assert [QUOTE] + Doubled(s[1..]) == "" + [QUOTE] + Doubled(s[1..]);
        CleanBefore("", QUOTE, Doubled(s[1..]), hostile);
        DoubledTellsClean(s[1..], hostile);
        assert s == "" + [QUOTE] + s[1..];
        QuotedHead(s, hostile);
      } else {
        FirstRuneStays(s);
        var n := Decode(d).size;
        assert n <= |s| && s[..n] == d[..n] && d[n..] == Doubled(s[n..]);
        hide Decode;
        DoubledTellsClean(s[n..], hostile);
        DecodePrefix(d, s);
      }
    }
  }

  /** Clean text behind a quote. */
  lemma QuotedHead(s: string, hostile: Hostile)
    requires s != "" && s[0] == QUOTE && !hostile(QUOTE as int) && Clean(s[1..], hostile)
    ensures Clean(s, hostile)
  {
  }

  /** A text that does not open with a quote keeps its first rune when its quotes are doubled. */
  lemma FirstRuneStays(s: string)
    requires s != "" && s[0] != QUOTE && Decode(Doubled(s)).Rune?
    ensures var n := Decode(Doubled(s)).size;
      n <= |s| && Doubled(s)[..n] == s[..n] && Doubled(s)[n..] == Doubled(s[n..])
  {
    hide Decode, Doubled, QUOTE;
    RuneBeforeQuote(s);
    var n := Decode(Doubled(s)).size;
    var head, rest := s[..n], s[n..];
    assert s == head + rest;
    DoubledConcat(head, rest);
    DoubledWithoutQuotes(head);
    CutBetween(head, Doubled(rest));
  }

  lemma CutBetween(a: string, b: string)
    ensures (a + b)[..|a|] == a && (a + b)[|a|..] == b
  {
  }

  lemma RuneBeforeQuote(s: string)
    requires s != "" && s[0] != QUOTE && Decode(Doubled(s)).Rune?
    ensures Decode(Doubled(s)).size <= |s| && QUOTE !in s[..Decode(Doubled(s)).size]
  {
    var d := Doubled(s);
    var k := PrefixWithout(s);
    RuneBytes(d);
    assert d[0] == s[0];
    hide Decode, Doubled;
    assert Decode(d).size <= k;
    assert forall i | 0 <= i < k :: s[i] == s[..k][i];
  }

  /** Where the first quote stands, and the doubled text up to it. */
  lemma {:induction false} PrefixWithout(s: string) returns (k: nat)
    ensures k <= |s| && QUOTE !in s[..k] && (k < |s| ==> s[k] == QUOTE)
    ensures k <= |Doubled(s)| && (k < |s| ==> k < |Doubled(s)| && Doubled(s)[k] == QUOTE) && (k == |s| ==> Doubled(s) == s)
  {
    k := 0;
    if s != "" && s[0] != QUOTE {
      k := PrefixWithout(s[1..]);
      k := k + 1;
      assert s == [s[0]] + s[1..];
      assert s[..k] == [s[0]] + s[1..][..k - 1];
    }
  }

  lemma QuotedTellsClean(s: string, keywords: set<string>, hostile: Hostile)
    requires PrintableSafe(hostile) && Clean(Quoted(s, keywords), hostile)
    ensures Clean(s, hostile)
  {
    if !Plain(s, keywords) {
      var d := Doubled(s);
      assert [QUOTE] + d + [QUOTE] == "" + [QUOTE] + (d + [QUOTE]);
      CleanBefore("", QUOTE, d + [QUOTE], hostile);
      assert d + [QUOTE] == d + [QUOTE] + "";
      CleanBefore(d, QUOTE, "", hostile);
      DoubledTellsClean(s, hostile);
    }
  }

  /** A clean qualified name has clean parts: no encoding reaches over an ASCII quote or dot. */
  lemma QualifiedTellsClean(schema: string, rel: string, keywords: set<string>, hostile: Hostile)
    requires PrintableSafe(hostile) && Clean(Qualified(schema, rel, keywords), hostile)
    ensures Clean(schema, hostile) && Clean(rel, hostile)
  {
    var a, b := Quoted(schema, keywords), Quoted(rel, keywords);
    assert "." == ['.'];
    CleanBefore(a, '.', b, hostile);
    QuotedTellsClean(schema, keywords, hostile);
    QuotedTellsClean(rel, keywords, hostile);
  }

  /** Behind the guard, the name is shown as it is exactly when the schema is valid UTF-8 by itself. */
  lemma SeqNameShownExactly(schema: string, name: string, keywords: set<string>, hostile: Hostile)
    requires PrintableSafe(hostile) && SeqFixGiven(schema, name, hostile)
    ensures Escaped(Qualified(schema, name, keywords), hostile) == Qualified(schema, name, keywords) <==> Valid(schema)
    ensures Clean(Qualified(schema, name, keywords), hostile) <==> Valid(schema)
  {
    var q := Qualified(schema, name, keywords);
    SeqFixGuardExactly(schema, name, hostile);
    CleanIsNoControl(schema, hostile);
    CleanIsNoControl(name, hostile);
    CleanIsNoControl(q, hostile);
    UnchangedExactlyWithoutControl(q, hostile);
    if Valid(schema) {
      QualifiedIsClean(schema, name, keywords, hostile);
    }
    if Clean(q, hostile) {
      QualifiedTellsClean(schema, name, keywords, hostile);
    }
  }

  /** The statement seqFix gives is shown as it is exactly when the guard withholds the name or the schema is valid by itself. */
  lemma SeqFixShownExactly(s: Sequence, dataType: string, keywords: set<string>, hostile: Hostile)
    requires PrintableSafe(hostile)
    ensures var sql := SeqFixSql(s, dataType, keywords, hostile);
      Escaped(sql, hostile) == sql <==> !SeqFixGiven(s.schema, s.name, hostile) || Valid(s.schema)
  {
    hide Clean, SeqFixName, SeqClause, SeqFixGiven, Escaped, Valid;
    var sql := SeqFixSql(s, dataType, keywords, hostile);
    ShownExactlyClean(sql, hostile);
    WordsAreClean(s, dataType, hostile);
    SeqNameClean(s, keywords, hostile);
    CleanBetween(ALTER, SeqFixName(s, keywords, hostile), SeqClause(s, dataType), hostile);
  }

  lemma ShownExactlyClean(s: string, hostile: Hostile)
    requires PrintableSafe(hostile)
    ensures Escaped(s, hostile) == s <==> Clean(s, hostile)
  {
    CleanIsNoControl(s, hostile);
    UnchangedExactlyWithoutControl(s, hostile);
  }

  lemma WordsAreClean(s: Sequence, dataType: string, hostile: Hostile)
    requires PrintableSafe(hostile)
    ensures Clean(ALTER, hostile) && Clean(SeqClause(s, dataType), hostile)
  {
    hide Clean, TypeBounds;
    PrintableIsClean(ALTER, hostile);
    PrintableIsClean(SeqClause(s, dataType), hostile);
  }

  lemma SeqNameClean(s: Sequence, keywords: set<string>, hostile: Hostile)
    requires PrintableSafe(hostile)
    ensures Clean(SeqFixName(s, keywords, hostile), hostile) <==> !SeqFixGiven(s.schema, s.name, hostile) || Valid(s.schema)
  {
    if SeqFixGiven(s.schema, s.name, hostile) {
      hide Clean, SeqFixGiven;
      SeqNameShownExactly(s.schema, s.name, keywords, hostile);
    } else {
      PrintableIsClean("<sequence>", hostile);
    }
  }

  /** Between clean words, a name alone decides. */
  lemma CleanBetween(a: string, name: string, b: string, hostile: Hostile)
    requires PrintableSafe(hostile) && Clean(a, hostile) && Clean(b, hostile)
    ensures Clean(a + " " + name + " " + b, hostile) <==> Clean(name, hostile)
  {
    var s := a + " " + name + " " + b;
    PrintableIsClean(" ", hostile);
    hide Clean;
    if Clean(name, hostile) {
      CleanConcat(a, " ", hostile);
      CleanConcat(a + " ", name, hostile);
      CleanConcat(a + " " + name, " ", hostile);
      CleanConcat(a + " " + name + " ", b, hostile);
    }
    if Clean(s, hostile) {
      assert " " == [' '];
      assert s == a + [' '] + (name + " " + b);
      CleanBefore(a, ' ', name + " " + b, hostile);
      CleanBefore(name, ' ', b, hostile);
    }
  }

  /** One such name: an encoding cut in two passes the guard, and the terminal shows the name escaped. */
  lemma SeqFixGuardMisses(keywords: set<string>, hostile: Hostile)
    requires PrintableSafe(hostile) && !hostile(0xE9)
    ensures exists schema: string, name: string ::
      && SeqFixGiven(schema, name, hostile)
      && Escaped(Qualified(schema, name, keywords), hostile) != Qualified(schema, name, keywords)
  {
    var schema, name := ['\U{C3}'], ['\U{A9}'];
    var s := schema + name;
    assert Decode(s) == Rune(0xE9, 2) && s[2..] == "";
    CleanIsNoControl(s, hostile);
    assert Decode(schema) == Invalid;
    SeqNameShownExactly(schema, name, keywords, hostile);
  }
}
