/**
 repmgr.conf: `parseRepmgrConf` of internal/probe/cluster.go. A line is key=value or key value; #
 starts a comment, values may be quoted either way, and a later line overrides an earlier one.
 */
module RepmgrConf {
  import opened Wrappers
  import opened Strings

  type Conf = map<string, string>

  predicate IsBlank(c: char) { c == ' ' || c == '\t' }

  predicate IsQuote(c: char) { c == '\'' || c == '"' }

  /** strings.IndexAny(s, " \t"), the length when there is none. */
  function IndexBlank(s: string): (i: nat)
    ensures i <= |s|
    ensures forall j | 0 <= j < i :: !IsBlank(s[j])
    ensures i < |s| ==> IsBlank(s[i])
  {
    if s == "" || IsBlank(s[0]) then 0 else 1 + IndexBlank(s[1..])
  }

  predicate StartsWith(s: string, c: char) { s != "" && s[0] == c }

  /** The value of a trimmed text: quotes taken off, or a comment cut. */
  function Value(v: string): string {
    if v != "" && IsQuote(v[0]) then
      var end := Index(v[1..], v[0]);
      if end < |v| - 1 then v[1..end + 1] else v
    else
      var i := Index(v, '#');
      if i < |v| then Trim(v[..i]) else v
  }

  /** Key and value of one trimmed line before they are trimmed themselves. */
  function Cut(line: string): Option<(string, string)> {
    var eq := Index(line, '=');
    var b := IndexBlank(line);
    if b < |line| && (eq == |line| || b < eq) && !StartsWith(Trim(line[b..]), '=')
    then Some((line[..b], Trim(line[b..])))
    else if eq < |line| then Some((line[..eq], line[eq + 1..]))
    else None
  }

  function ParseTrimmed(line: string): Option<(string, string)> {
    if line == "" || line[0] == '#' || Cut(line).None? then None
    else
      var (k, v) := Cut(line).value;
      if Trim(k) == "" then None else Some((Trim(k), Value(Trim(v))))
  }

  function ParseLine(line: string): Option<(string, string)> {
    ParseTrimmed(Trim(line))
  }

  /** strings.Split(s, "\n") */
  function Lines(s: string): seq<string>
    decreases |s|
  {
    var i := Index(s, '\n');
    if i == |s| then [s] else [s[..i]] + Lines(s[i + 1..])
  }

  function With(m: Conf, entry: Option<(string, string)>): Conf {
    match entry
    case None => m
    case Some((k, v)) => m[k := v]
  }

  /** The settings of a list of lines, a later one over an earlier one. */
  function Settle(lines: seq<string>): Conf {
    if lines == [] then map[] else With(Settle(lines[..|lines| - 1]), ParseLine(lines[|lines| - 1]))
  }

  function Parse(s: string): Conf {
    Settle(Lines(s))
  }

  method ReadValue(text: string) returns (v: string)
    ensures v == Value(text)
  {
    v := text;
    if |v| > 0 && (v[0] == '\'' || v[0] == '"') {
      var end := Index(v[1..], v[0]);
      if end < |v| - 1 {
        v := v[1..end + 1];
      }
    } else {
      var h := Index(v, '#');
      if h < |v| {
        v := Trim(v[..h]);
      }
    }
  }

  method CutLine(line: string) returns (k: string, v: string, ok: bool)
    ensures ok == Cut(line).Some?
    ensures ok ==> Cut(line) == Some((k, v))
  {
    hide Index, IndexBlank, Trim;
    var eq := Index(line, '=');
    ok := eq < |line|;
    k, v := line[..eq], if ok then line[eq + 1..] else "";
    var i := IndexBlank(line);
    if i < |line| && (!ok || i < |k|) {
      var pre := Trim(line[i..]);
      if !StartsWith(pre, '=') {
        k, v, ok := line[..i], pre, true;
      }
    }
  }

  method ParseRepmgrConf(s: string) returns (out: Conf)
    ensures out == Parse(s)
  {
    hide Cut, Value, Trim, Lines;
    out := map[];
    var lines := Lines(s);
    for n := 0 to |lines|
      invariant out == Settle(lines[..n])
    {
      assert lines[..n + 1][..n] == lines[..n];
      var line := Trim(lines[n]);
      if line == "" || line[0] == '#' {
        continue;
      }
      var k, v, ok := CutLine(line);
      k := Trim(k);
      if !ok || k == "" {
        continue;
      }
      v := ReadValue(Trim(v));
      out := out[k := v];
    }
    assert lines[..|lines|] == lines;
  }

  // ---- files are parsed line by line ----

  lemma {:induction false} LinesConcat(a: string, b: string)
    ensures Lines(a + "\n" + b) == Lines(a) + Lines(b)
    decreases |a|
  {
    var s := a + "\n" + b;
    var i := Index(a, '\n');
    assert s[i] == '\n' && Index(s, '\n') == i;
    assert s[..i] == a[..i];
    if i == |a| {
      assert a[..i] == a && s[i + 1..] == b;
    } else {
      assert s[i + 1..] == a[i + 1..] + "\n" + b;
      LinesConcat(a[i + 1..], b);
    }
  }

  lemma WithOver(m: Conf, n: Conf, entry: Option<(string, string)>)
    ensures With(m + n, entry) == m + With(n, entry)
  {
  }

  lemma {:induction false} SettleConcat(a: seq<string>, b: seq<string>)
    ensures Settle(a + b) == Settle(a) + Settle(b)
  {
    hide ParseLine, With;
    if b == [] {
      assert a + b == a;
    } else {
      var init, last := b[..|b| - 1], b[|b| - 1];
      SettleConcat(a, init);
      assert (a + b)[..|a + b| - 1] == a + init;
      WithOver(Settle(a), Settle(init), ParseLine(last));
    }
  }

  /** Two files one after the other mean the first overridden by the second. */
  lemma ParseConcat(a: string, b: string)
    ensures Parse(a + "\n" + b) == Parse(a) + Parse(b)
  {
    LinesConcat(a, b);
    SettleConcat(Lines(a), Lines(b));
  }

  // ---- the keys a line can set ----

  /** No '=' and no blank. */
  ghost predicate Solid(k: string) {
    forall i | 0 <= i < |k| :: k[i] != '=' && !IsBlank(k[i])
  }

  ghost predicate CleanKey(k: string) {
    k != "" && Trimmed(k) && k[0] != '#' && Solid(k)
  }

  /** What stands before the first blank or '=', and spaces after it, trims to a clean key. */
  lemma CleanPrefix(line: string, m: nat, n: nat)
    requires m <= n <= |line| && line != "" && Trimmed(line) && line[0] != '#'
    requires Solid(line[..m]) && AllSpace(line[m..n])
    requires Trim(line[..n]) != ""
    ensures CleanKey(Trim(line[..n]))
  {
    var k := line[..n];
    assert Lead(k) == 0 by {
      assert k[0] == line[0];
    }
    assert forall i | m <= i < n :: k[i] == line[m..n][i - m];
    assert Tail(k) <= m;
    assert forall i | 0 <= i < m :: k[i] == line[..m][i];
  }

  /** Between a blank and the '=' that follows it only spaces stand. */
  lemma SpacesBeforeEquals(l: string, b: nat, eq: nat)
    requires b < eq < |l| && eq == Index(l, '=') && StartsWith(Trim(l[b..]), '=')
    ensures AllSpace(l[b..eq])
  {
    var rest := l[b..];
    var at := Lead(rest);
    FirstOfTrim(rest);
    hide Lead, Tail, Trim, IsSpace;
    assert rest[at] == '=' && l[b + at] == '=';
    forall i | 0 <= i < |l[b..eq]|
      ensures IsSpace(l[b..eq][i])
    {
      assert l[b..eq][i] == rest[i];
    }
  }

  lemma CutKeyIsClean(l: string)
    requires Cut(l).Some? && l != "" && Trimmed(l) && l[0] != '#'
    requires Trim(Cut(l).value.0) != ""
    ensures CleanKey(Trim(Cut(l).value.0))
  {
    var eq, b := Index(l, '='), IndexBlank(l);
    if b < eq < |l| && StartsWith(Trim(l[b..]), '=') {
      SpacesBeforeEquals(l, b, eq);
      CleanPrefix(l, b, eq);
    } else {
      var n := if b < eq then b else eq;
      CleanPrefix(l, n, n);
    }
  }

  lemma ParsedKeyIsClean(line: string)
    requires ParseLine(line).Some?
    ensures CleanKey(ParseLine(line).value.0)
  {
    CutKeyIsClean(Trim(line));
  }

  // ---- reading a printed line back ----

  lemma TrimKeepsFirst(left: string, c: char, s: string)
    requires AllSpace(left) && !IsSpace(c)
    ensures StartsWith(Trim(left + [c] + s), c)
  {
    var t := left + [c] + s;
    assert t[|left|] == c && Lead(t) == |left|;
  }

  /** A solid key, spaces if a blank opens them, and '=': the line is cut at the '='. */
  lemma CutAtEquals(k: string, sp: string, v: string)
    requires Solid(k) && AllSpace(sp) && '=' !in sp
    requires sp != "" ==> IsBlank(sp[0])
    ensures Cut(k + sp + "=" + v) == Some((k + sp, v))
  {
    hide Index, IndexBlank, Trim, Lead, Tail;
    var line := k + sp + "=" + v;
    var eq := |k + sp|;
    assert line[eq] == '=' && line[..eq] == k + sp && line[eq + 1..] == v;
    assert Index(line, '=') == eq;
    if sp != "" {
      assert line[|k|] == sp[0] && IndexBlank(line) == |k|;
      assert line[|k|..] == sp + ['='] + v;
      TrimKeepsFirst(sp, '=', v);
    }
  }

  lemma EqualsTrimmed(k: string, sp: string, v: string)
    requires k != "" && Trimmed(k) && (v != "" ==> !IsSpace(v[|v| - 1]))
    ensures Trimmed(k + sp + "=" + v)
  {
    var line := k + sp + "=" + v;
    assert line[0] == k[0] && line[|line| - 1] == if v == "" then '=' else v[|v| - 1];
  }

  lemma ParseEquals(k: string, sp: string, v: string)
    requires CleanKey(k) && AllSpace(sp) && '=' !in sp
    requires sp != "" ==> IsBlank(sp[0])
    requires v != "" ==> !IsSpace(v[|v| - 1])
    ensures ParseLine(k + sp + "=" + v) == Some((k, Value(Trim(v))))
  {
    hide Index, IndexBlank, Trim, Lead, Tail, IsSpace, Value, Cut;
    EqualsTrimmed(k, sp, v);
    TrimOfTrimmed(k + sp + "=" + v);
    CutAtEquals(k, sp, v);
    assert "" + k + sp == k + sp;
    TrimPadded("", k, sp);
    assert (k + sp + "=" + v)[0] == k[0];
  }

  function Line(key: string, q: char, value: string): string {
    key + "=" + ([q] + value + [q])
  }

  lemma ValueOfQuoted(q: char, value: string)
    requires IsQuote(q)
    ensures Value([q] + value + [q]) == value <==> q !in value
  {
    var v := [q] + value + [q];
    var end := Index(v[1..], q);
    assert v[1..] == value + [q] && v[1..][|value|] == q;
    assert v[1..end + 1] == v[1..][..end] == value[..end];
    assert value[..|value|] == value;
  }

  /** A key='value' line reads back as that pair exactly when the key is clean and the quote is not in the value. */
  lemma LineRoundTrip(key: string, q: char, value: string)
    requires q in {'\'', '"'}
    ensures ParseLine(Line(key, q, value)) == Some((key, value)) <==> CleanKey(key) && q !in value
  {
    hide ParseLine, Value;
    if ParseLine(Line(key, q, value)) == Some((key, value)) {
      ParsedKeyIsClean(Line(key, q, value));
    }
    if CleanKey(key) {
      var v := [q] + value + [q];
      assert Line(key, q, value) == key + "" + "=" + v;
      ParseEquals(key, "", v);
      TrimOfTrimmed(v);
      ValueOfQuoted(q, value);
    }
  }

  // ---- the three spellings of a setting ----

  /** Spaces and tabs, as many as there are. */
  ghost predicate Blanks(s: string) {
    forall i | 0 <= i < |s| :: s[i] == ' ' || s[i] == '\t'
  }

  lemma BlanksAreSpace(s: string)
    requires Blanks(s)
    ensures AllSpace(s) && '=' !in s
  {
  }

  /** key, '=' and value, with any blanks around the '='. */
  lemma SpellingWithEquals(k: string, a: string, b: string, v: string)
    requires CleanKey(k) && Blanks(a) && Blanks(b) && Trimmed(v)
    ensures ParseLine(k + a + "=" + (b + v)) == Some((k, Value(v)))
  {
    hide Value;
    TrimOfTrimmed(v);
    BlanksAreSpace(a);
    BlanksAreSpace(b);
    if v == "" {
      ParseEquals(k, a, "");
      EqualsTrimmed(k, a, "");
      EndTrimmed(k + a + "=" + "", b);
      assert k + a + "=" + (b + v) == k + a + "=" + "" + b;
    } else {
      assert (b + v)[|b + v| - 1] == v[|v| - 1];
      ParseEquals(k, a, b + v);
      TrimSkips(b, v);
    }
  }

  /** Space at the end of a line makes no difference. */
  lemma EndTrimmed(line: string, sp: string)
    requires Trimmed(line) && AllSpace(sp)
    ensures Trim(line + sp) == line == Trim(line)
  {
    assert "" + line + sp == line + sp;
    TrimPadded("", line, sp);
    TrimOfTrimmed(line);
  }

  lemma CutAtBlank(k: string, sp: string, v: string)
    requires Solid(k) && Blanks(sp) && sp != "" && Trimmed(v) && !StartsWith(v, '=')
    ensures Cut(k + sp + v) == Some((k, v))
  {
    hide Index, IndexBlank, Trim, Lead, Tail, IsSpace;
    var line := k + sp + v;
    BlanksAreSpace(sp);
    assert line[|k|] == sp[0] && IndexBlank(line) == |k|;
    assert line[..|k|] == k && line[|k|..] == sp + v;
    assert line[|k|] != '=';
    TrimSkips(sp, v);
    TrimOfTrimmed(v);
    assert Index(line, '=') > |k|;
  }

  lemma SpellingWithBlank(k: string, sp: string, v: string)
    requires CleanKey(k) && Blanks(sp) && sp != "" && Trimmed(v) && v != "" && v[0] != '='
    ensures ParseLine(k + sp + v) == Some((k, Value(v)))
  {
    var line := k + sp + v;
    assert line[0] == k[0] && line[|line| - 1] == v[|v| - 1];
    TrimOfTrimmed(line);
    CutAtBlank(k, sp, v);
    TrimOfTrimmed(v);
    TrimOfTrimmed(k);
  }

  lemma SpellingWithoutValue(k: string, sp: string)
    requires CleanKey(k) && Blanks(sp)
    ensures ParseLine(k + sp + "").None?
  {
    BlanksAreSpace(sp);
    EndTrimmed(k, sp);
    assert k + sp + "" == k + sp;
    assert Index(k, '=') == |k| && IndexBlank(k) == |k|;
  }

  lemma ValueOfEquals(v: string)
    requires Trimmed(v) && StartsWith(v, '=')
    ensures var i := Index(v, '#');
      i > 0 && Value(v) == Trim(v[..i]) && StartsWith(Value(v), '=')
  {
    var i := Index(v, '#');
    if i == |v| {
      TrimOfTrimmed(v);
      assert v[..i] == v;
    }
    var cut := v[..i];
    assert cut[0] == '=' && Lead(cut) == 0 && Tail(cut) > 0;
  }

  lemma SplitAfterEquals(v: string) returns (left: string)
    requires Trimmed(v) && StartsWith(v, '=')
    ensures AllSpace(left) && v == "=" + left + Trim(v[1..])
  {
    var w := v[1..];
    left := "";
    if w != "" {
      left := w[..Lead(w)];
      assert w[|w| - 1] == v[|v| - 1] && Tail(w) == |w|;
      assert Trim(w) == w[Lead(w)..];
    }
  }

  /** Dropping a leading '=' always changes a value. */
  lemma LeadingEqualsMatters(v: string)
    requires Trimmed(v) && StartsWith(v, '=')
    ensures Value(Trim(v[1..])) != Value(v)
  {
    var left := SplitAfterEquals(v);
    var r := Trim(v[1..]);
    ValueOfEquals(v);
    if r == "" {
    } else if IsQuote(r[0]) {
      QuoteStays(v, left, r, Index(v, '#'));
      QuoteGoes(r);
    } else {
      LongerWith(left, r);
    }
  }

  lemma QuoteGoes(r: string)
    requires r != "" && IsQuote(r[0])
    ensures r[0] !in Value(r) || Value(r) == r
  {
    var end := Index(r[1..], r[0]);
    assert forall j | 0 <= j < end :: r[1..end + 1][j] == r[1..][j];
  }

  lemma QuoteStays(v: string, left: string, r: string, i: nat)
    requires v == "=" + left + r && AllSpace(left) && r != "" && IsQuote(r[0])
    requires i == Index(v, '#')
    ensures r[0] in Trim(v[..i])
  {
    var at, cut := 1 + |left|, v[..i];
    assert v[at] == r[0] && v[0] == '=';
    assert forall j | 1 <= j < at :: v[j] == left[j - 1];
    assert at < i;
    assert cut[at] == r[0] && !IsSpace(r[0]);
    assert Lead(cut) <= at < Tail(cut);
    assert Trim(cut)[at - Lead(cut)] == r[0];
  }

  lemma CommentAfter(front: string, r: string)
    requires '#' !in front
    ensures Index(front + r, '#') == |front| + Index(r, '#')
    ensures (front + r)[..|front| + Index(r, '#')] == front + r[..Index(r, '#')]
  {
    var v, i := front + r, Index(r, '#');
    assert forall j | 0 <= j < i :: v[|front| + j] == r[j];
    assert i < |r| ==> v[|front| + i] == '#';
  }

  lemma ValueUnquoted(r: string)
    requires Trimmed(r) && r != "" && !IsQuote(r[0])
    ensures Value(r) == Trim(r[..Index(r, '#')])
  {
    hide Index, Trim, Lead, Tail, IsSpace;
    TrimOfTrimmed(r);
    assert r[..|r|] == r;
  }

  lemma LongerWith(left: string, r: string)
    requires AllSpace(left) && Trimmed(r) && r != "" && !IsQuote(r[0])
    ensures var v := "=" + left + r; |Value(r)| < |Trim(v[..Index(v, '#')])|
  {
    hide Value, Trim, Index;
    var front := "=" + left;
    assert forall j | 0 <= j < |front| :: front[j] != '#';
    CommentAfter(front, r);
    ValueUnquoted(r);
    TrimLengths(front, r[..Index(r, '#')]);
  }

  lemma TrimLengths(front: string, s: string)
    requires front != "" && !IsSpace(front[0])
    ensures |Trim(s)| < |Trim(front + s)|
  {
    var t, n := front + s, |front|;
    assert t[0] == front[0] && Lead(t) == 0 && Tail(t) > 0;
    if Tail(s) > 0 {
      assert t[n + Tail(s) - 1] == s[Tail(s) - 1];
      assert Tail(t) >= n + Tail(s);
    }
  }

  /**
   "k=v" and "k = v" say the same, and "k v" does exactly when the value is not empty and does not begin
   with '=', whatever spaces and tabs stand between.
   */
  lemma SpellingsAgree(k: string, a: string, b: string, sp: string, v: string)
    requires CleanKey(k) && Trimmed(v) && Blanks(a) && Blanks(b) && Blanks(sp) && sp != ""
    ensures ParseLine(k + a + "=" + (b + v)) == Some((k, Value(v)))
    ensures ParseLine(k + sp + v) == ParseLine(k + a + "=" + (b + v)) <==> v != "" && v[0] != '='
  {
    SpellingWithEquals(k, a, b, v);
    if v == "" {
      SpellingWithoutValue(k, sp);
    } else if v[0] == '=' {
      SpellingAmbiguous(k, sp, v);
    } else {
      SpellingWithBlank(k, sp, v);
    }
  }

  lemma SpellingAmbiguous(k: string, sp: string, v: string)
    requires CleanKey(k) && Blanks(sp) && Trimmed(v) && StartsWith(v, '=')
    ensures ParseLine(k + sp + v).Some? && ParseLine(k + sp + v).value.1 != Value(v)
  {
    hide Value;
    assert v == "=" + v[1..];
    assert k + sp + v == k + sp + "=" + v[1..];
    assert |v| > 1 ==> v[|v| - 1] == v[1..][|v| - 2];
    BlanksAreSpace(sp);
    ParseEquals(k, sp, v[1..]);
    LeadingEqualsMatters(v);
  }

  // ---- what a line's end may hold ----

  /** White space at the end leaves a text that begins with something else as it was, but for itself. */
  lemma EndCut(front: string, rest: string) returns (m: nat)
    requires front != "" && Trimmed(front)
    ensures m <= |rest| && Trim(front + rest) == front + rest[..m]
    ensures AllSpace(rest[m..])
  {
    hide IsSpace, Lead, Tail;
    var s, n := front + rest, |front|;
    assert s[0] == front[0] && Lead(s) == 0;
    assert s[n - 1] == front[n - 1];
    m := Tail(s) - n;
    assert s[..n + m] == front + rest[..m];
    assert s[n + m..] == rest[m..];
    assert s[0..n + m] == s[..n + m];
  }

  /** Whatever follows the closing quote is not part of the value. */
  lemma TextAfterQuoteIgnored(key: string, q: char, value: string, rest: string)
    requires CleanKey(key) && q in {'\'', '"'} && q !in value
    ensures ParseLine(Line(key, q, value) + rest) == Some((key, value))
  {
    var line := Line(key, q, value);
    assert Trimmed(line) by {
      assert line[0] == key[0] && line[|line| - 1] == q;
    }
    hide Value, ParseTrimmed, Trim, IsSpace, CleanKey, Trimmed;
    var m := EndCut(line, rest);
    var v := [q] + value + [q] + rest[..m];
    assert line + rest[..m] == key + "" + "=" + v;
    QuotedThenMore(q, value, rest[..m]);
    TrimOfQuoted(q, v);
    ParseAtEquals(key, v);
  }

  /** Nothing is trimmed off a text that begins with a quote and ends a trimmed line. */
  lemma TrimOfQuoted(q: char, v: string)
    requires IsQuote(q) && v != "" && v[0] == q
    ensures Trimmed(v) ==> Trim(v) == v
    ensures !IsSpace(v[0])
  {
    if Trimmed(v) {
      TrimOfTrimmed(v);
    }
  }

  lemma QuotedThenMore(q: char, value: string, rest: string)
    requires IsQuote(q) && q !in value
    ensures Value([q] + value + [q] + rest) == value
  {
    var v := [q] + value + [q] + rest;
    assert v[1..] == value + [q] + rest;
    assert v[1..][|value|] == q && Index(v[1..], q) == |value|;
    assert v[1..|value| + 1] == value;
  }

  /** A trimmed key=text line that begins with a quote behind the sign. */
  lemma ParseAtEquals(key: string, v: string)
    requires CleanKey(key) && Trimmed(key + "" + "=" + v)
    ensures ParseTrimmed(key + "" + "=" + v) == Some((key, Value(Trim(v))))
  {
    hide Value;
    CutAtEquals(key, "", v);
    TrimOfTrimmed(key);
    assert key + "" == key;
    assert (key + "" + "=" + v)[0] == key[0];
  }

  /** A quote that is not closed is part of the value. */
  lemma OpenQuoteStays(key: string, q: char, value: string)
    requires CleanKey(key) && q in {'\'', '"'} && q !in value && Trimmed([q] + value)
    ensures ParseLine(key + "=" + ([q] + value)) == Some((key, [q] + value))
  {
    var v := [q] + value;
    assert key + "=" + v == key + "" + "=" + v;
    TrimOfTrimmed(v);
    QuoteStaysOpen(q, value);
    hide Value, ParseLine, Trim;
    ParseEquals(key, "", v);
  }

  lemma QuoteStaysOpen(q: char, value: string)
    requires IsQuote(q) && q !in value
    ensures Value([q] + value) == [q] + value
  {
    assert ([q] + value)[1..] == value;
  }

  /** A comment ends a value that is not quoted, and the white space before it goes too. */
  lemma CommentIgnored(key: string, value: string, sp: string, comment: string)
    requires CleanKey(key) && Trimmed(value) && '#' !in value && AllSpace(sp)
    requires value != "" ==> value[0] !in {'\'', '"'}
    ensures ParseLine(key + "=" + (value + sp + "#" + comment)) == Some((key, value))
  {
    var front := value + sp + "#";
    var line := key + "" + "=" + front;
    assert Trimmed(line) by {
      assert line[0] == key[0] && line[|line| - 1] == '#';
    }
    assert '#' !in value && (value != "" ==> !IsQuote(value[0]));
    hide Value, ParseTrimmed, Trim, IsSpace, CleanKey, IsQuote;
    var m := EndCut(line, comment);
    CommentedLine(key, front, comment, m);
    EndOfCut(key, front, comment[..m]);
    ValueBeforeComment(value, sp, comment[..m]);
    ParseAtEquals(key, front + comment[..m]);
  }

  lemma CommentedLine(key: string, front: string, comment: string, m: nat)
    requires m <= |comment|
    ensures key + "=" + (front + comment) == key + "" + "=" + front + comment
    ensures key + "" + "=" + front + comment[..m] == key + "" + "=" + (front + comment[..m])
  {
  }

  /** The end of a trimmed line is no space. */
  lemma EndOfCut(key: string, front: string, tail: string)
    requires Trimmed(key + "" + "=" + front + tail)
    ensures tail != "" ==> !IsSpace(tail[|tail| - 1])
  {
    var s := key + "" + "=" + front + tail;
    assert tail != "" ==> s[|s| - 1] == tail[|tail| - 1];
  }

  lemma ValueBeforeComment(value: string, sp: string, comment: string)
    requires Trimmed(value) && '#' !in value && AllSpace(sp)
    requires value != "" ==> !IsQuote(value[0])
    requires comment != "" ==> !IsSpace(comment[|comment| - 1])
    ensures Value(Trim(value + sp + "#" + comment)) == value
  {
    hide IsSpace, IsQuote, Trim, Value, AllSpace, Trimmed;
    if value == "" {
      OnlyComment(sp, comment);
      assert value + sp + "#" + comment == sp + ("#" + comment);
    } else {
      BeforeComment(value, sp);
      ValueOfCommented(value + sp, comment);
    }
  }

  lemma BeforeComment(value: string, sp: string)
    requires value != "" && Trimmed(value) && '#' !in value && AllSpace(sp) && !IsQuote(value[0])
    ensures var front := value + sp;
      front != "" && !IsSpace(front[0]) && !IsQuote(front[0]) && '#' !in front && Trim(front) == value
  {
    EndTrimmed(value, sp);
    SpaceIsNoComment(sp);
    assert (value + sp)[0] == value[0];
    hide Trim, IsSpace, AllSpace;
  }

  lemma ValueOfCommented(front: string, comment: string)
    requires front != "" && !IsSpace(front[0]) && !IsQuote(front[0]) && '#' !in front
    requires comment != "" ==> !IsSpace(comment[|comment| - 1])
    ensures Value(Trim(front + "#" + comment)) == Trim(front)
  {
    var c := "#" + comment;
    var v := front + c;
    assert front + "#" + comment == v;
    assert Trimmed(v) by {
      assert v[0] == front[0] && v[|v| - 1] == if comment == "" then '#' else comment[|comment| - 1];
    }
    TrimOfTrimmed(v);
    CommentOpens(comment);
    hide Trim, Index, IsSpace, Trimmed;
    CommentAfter(front, c);
    assert v[..|front|] == front && v[0] == front[0];
  }

  lemma CommentOpens(comment: string)
    ensures Index("#" + comment, '#') == 0 && ("#" + comment)[..0] == ""
  {
  }

  lemma OnlyComment(sp: string, comment: string)
    requires AllSpace(sp) && (comment != "" ==> !IsSpace(comment[|comment| - 1]))
    ensures Value(Trim(sp + ("#" + comment))) == ""
  {
    var c := "#" + comment;
    assert Trimmed(c) by {
      assert c[0] == '#' && c[|c| - 1] == if comment == "" then '#' else comment[|comment| - 1];
    }
    TrimSkips(sp, c);
    TrimOfTrimmed(c);
    CommentOpens(comment);
    TrimOfTrimmed("");
    hide Trim, Index, IsSpace;
    assert c[0] == '#';
  }

  lemma SpaceIsNoComment(sp: string)
    requires AllSpace(sp)
    ensures '#' !in sp
  {
  }

  /** Spaces, tabs and carriage returns around a line make no difference, so files with either line end read the same. */
  lemma LineEndsIgnored(before: string, line: string, after: string)
    requires forall i | 0 <= i < |before| :: before[i] in {' ', '\t', '\r'}
    requires forall i | 0 <= i < |after| :: after[i] in {' ', '\t', '\r'}
    ensures ParseLine(before + line + after) == ParseLine(line)
  {
    assert before + line + after == before + (line + after);
    TrimSkips(before, line + after);
    TrimDrops(line, after);
  }

  // ---- a whole file ----

  /** A line of a file, as someone would write it. */
  datatype Item = Pair(key: string, q: char, value: string) | Empty(space: string) | Comment(space: string, text: string)

  function ItemLine(item: Item): string {
    match item
    case Pair(key, q, value) => Line(key, q, value)
    case Empty(space) => space
    case Comment(space, text) => space + "#" + text
  }

  ghost predicate ItemValid(item: Item) {
    && '\n' !in ItemLine(item)
    && match item
       case Pair(key, q, value) => IsQuote(q) && CleanKey(key) && q !in value
       case Empty(space) => AllSpace(space)
       case Comment(space, text) => AllSpace(space)
  }

  function Print(items: seq<Item>): string {
    if items == [] then "" else ItemLine(items[0]) + "\n" + Print(items[1..])
  }

  function ItemLines(items: seq<Item>): seq<string> {
    if items == [] then [] else [ItemLine(items[0])] + ItemLines(items[1..])
  }

  /** The value of the last pair with a key. */
  function LastValue(items: seq<Item>, key: string): Option<string> {
    if items == [] then None
    else
      var later := LastValue(items[1..], key);
      if later.Some? then later
      else if items[0].Pair? && items[0].key == key then Some(items[0].value)
      else None
  }

  lemma ItemParses(item: Item)
    requires ItemValid(item)
    ensures ParseLine(ItemLine(item)) == if item.Pair? then Some((item.key, item.value)) else None
  {
    match item
    case Pair(key, q, value) =>
      LineRoundTrip(key, q, value);
    case Empty(space) =>
      assert space == space + "" + "";
      TrimPadded(space, "", "");
    case Comment(space, text) =>
      TrimKeepsFirst(space, '#', text);
  }

  lemma {:induction false} PrintLines(items: seq<Item>)
    requires forall i | 0 <= i < |items| :: ItemValid(items[i])
    ensures Lines(Print(items)) == ItemLines(items) + [""]
  {
    hide ItemLine;
    if items != [] {
      var line := ItemLine(items[0]);
      PrintLines(items[1..]);
      LinesConcat(line, Print(items[1..]));
      assert ItemValid(items[0]) && Index(line, '\n') == |line|;
    }
  }

  lemma SettleOne(line: string)
    ensures Settle([line]) == With(map[], ParseLine(line))
  {
    assert [line][..0] == [];
  }

  lemma {:induction false} SettleItems(items: seq<Item>, key: string)
    requires forall i | 0 <= i < |items| :: ItemValid(items[i])
    ensures var m := Settle(ItemLines(items));
      LastValue(items, key) == if key in m then Some(m[key]) else None
  {
    if items != [] {
      var line := ItemLine(items[0]);
      SettleItems(items[1..], key);
      SettleConcat([line], ItemLines(items[1..]));
      SettleOne(line);
      ItemParses(items[0]);
    }
  }

  /** A printed file parses back to its pairs, the last one of each key, whatever blank and comment lines stand between. */
  lemma FileRoundTrip(items: seq<Item>, key: string)
    requires forall i | 0 <= i < |items| :: ItemValid(items[i])
    ensures var m := Parse(Print(items));
      LastValue(items, key) == if key in m then Some(m[key]) else None
  {
    PrintLines(items);
    SettleItems(items, key);
    SettleConcat(ItemLines(items), [""]);
    SettleOne("");
    assert ParseLine("").None?;
  }
}
