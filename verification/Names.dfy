/**
 Identifiers: `quoteIdent` and `qualified` of internal/rule/names.go, and the reader that undoes them.

 A string is a sequence of characters. Every test these functions make is against an ASCII
 character, so the same definitions serve for code points and for the bytes of an encoding
 (one character below 256 per byte, as in module Utf8).

 The keyword table is a parameter: what is proved holds for every table.
 */
module Names {
  import opened Wrappers

  const QUOTE: char := '"'

  predicate PlainStart(c: char) {
    'a' <= c <= 'z' || c == '_'
  }

  predicate PlainRest(c: char) {
    PlainStart(c) || '0' <= c <= '9' || c == '$'
  }

  /** A lower-case identifier that needs no quotes. */
  predicate Plain(s: string, keywords: set<string>) {
    && s != ""
    && s !in keywords
    && PlainStart(s[0])
    && forall i | 1 <= i < |s| :: PlainRest(s[i])
  }

  /** The text with every double quote doubled. */
  function Doubled(s: string): string {
    if s == "" then ""
    else (if s[0] == QUOTE then [QUOTE, QUOTE] else [s[0]]) + Doubled(s[1..])
  }

  function Quoted(s: string, keywords: set<string>): string {
    if Plain(s, keywords) then s else [QUOTE] + Doubled(s) + [QUOTE]
  }

  function Qualified(schema: string, rel: string, keywords: set<string>): string {
    Quoted(schema, keywords) + "." + Quoted(rel, keywords)
  }

  /** quoteIdent: the flag starts from the keyword test and falls at the first odd character. */
  method QuoteIdent(s: string, keywords: set<string>) returns (r: string)
    ensures r == Quoted(s, keywords)
  {
    var plain := s != "" && s !in keywords;
    for i := 0 to |s|
      invariant plain <==> s != "" && s !in keywords
      invariant forall k | 0 <= k < i :: if k == 0 then PlainStart(s[k]) else PlainRest(s[k])
    {
      var c := s[i];
      if !('a' <= c <= 'z' || c == '_' || (i > 0 && ('0' <= c <= '9' || c == '$'))) {
        plain := false;
        break;
      }
    }
    r := if plain then s else [QUOTE] + Doubled(s) + [QUOTE];
  }

  lemma {:induction false} DoubledConcat(a: string, b: string)
    ensures Doubled(a + b) == Doubled(a) + Doubled(b)
  {
    if a == "" {
      assert a + b == b;
      assert Doubled(a) + Doubled(b) == Doubled(b);
    } else {
      var c := if a[0] == QUOTE then [QUOTE, QUOTE] else [a[0]];
      DoubledConcat(a[1..], b);
      assert (a + b)[1..] == a[1..] + b;
      assert Doubled(a + b) == c + Doubled((a + b)[1..]);
      assert c + (Doubled(a[1..]) + Doubled(b)) == c + Doubled(a[1..]) + Doubled(b);
    }
  }

  lemma {:induction false} DoubledWithoutQuotes(s: string)
    requires QUOTE !in s
    ensures Doubled(s) == s
  {
    if s != "" {
      assert s[0] in s && QUOTE !in s[1..];
      DoubledWithoutQuotes(s[1..]);
    }
  }

  // ---- reading a quoted identifier back ----

  /** Reads a quoted name whose opening quote is already consumed: the name, and what follows its closing quote. */
  function ReadQuoted(s: string): (r: Option<(string, string)>)
    ensures r.Some? ==> |r.value.1| < |s|
    decreases |s|
  {
    if s == "" then None
    else if s[0] != QUOTE then
      match ReadQuoted(s[1..])
      case None => None
      case Some(p) => Some(([s[0]] + p.0, p.1))
    else if |s| > 1 && s[1] == QUOTE then
      match ReadQuoted(s[2..])
      case None => None
      case Some(p) => Some(([QUOTE] + p.0, p.1))
    else Some(("", s[1..]))
  }

  /** Length of the unquoted identifier a text starts with. */
  function PlainLength(s: string): (n: nat)
    ensures n <= |s|
  {
    if s != "" && PlainRest(s[0]) then 1 + PlainLength(s[1..]) else 0
  }

  /** Reads one identifier, quoted or not, off the front of a text. */
  function ReadIdent(s: string): (r: Option<(string, string)>) {
    if s == "" then None
    else if s[0] == QUOTE then ReadQuoted(s[1..])
    else Some((s[..PlainLength(s)], s[PlainLength(s)..]))
  }

  /** Reads schema.relation, and nothing after it. */
  function ReadQualified(s: string): (r: Option<(string, string)>) {
    match ReadIdent(s)
    case None => None
    case Some(a) =>
      if a.1 == "" || a.1[0] != '.' then None
      else match ReadIdent(a.1[1..])
        case None => None
        case Some(b) => if b.1 == "" then Some((a.0, b.0)) else None
  }

  lemma {:induction false} ReadDoubled(name: string, rest: string)
    requires rest == "" || rest[0] != QUOTE
    ensures ReadQuoted(Doubled(name) + [QUOTE] + rest) == Some((name, rest))
  {
    var t := Doubled(name) + [QUOTE] + rest;
    if name == "" {
      assert t == [QUOTE] + rest;
    } else {
      var tail := Doubled(name[1..]) + [QUOTE] + rest;
      ReadDoubled(name[1..], rest);
      if name[0] == QUOTE {
        assert t == [QUOTE, QUOTE] + tail;
        assert t[2..] == tail;
      } else {
        assert t == [name[0]] + tail;
        assert t[1..] == tail;
      }
      assert name == [name[0]] + name[1..];
    }
  }

  lemma {:induction false} PlainPrefix(s: string, rest: string)
    requires forall i | 0 <= i < |s| :: PlainRest(s[i])
    requires rest == "" || !PlainRest(rest[0])
    ensures PlainLength(s + rest) == |s|
  {
    if s == "" {
      assert s + rest == rest;
    } else {
      assert (s + rest)[1..] == s[1..] + rest;
      PlainPrefix(s[1..], rest);
    }
  }

  lemma ReadPlain(name: string, rest: string, keywords: set<string>)
    requires Plain(name, keywords)
    requires rest == "" || !PlainRest(rest[0])
    ensures ReadIdent(name + rest) == Some((name, rest))
  {
    PlainPrefix(name, rest);
    assert (name + rest)[0] == name[0] != QUOTE;
  }

  /** Whatever the name, the identifier printed for it reads back as that name, up to the next delimiter. */
  lemma ReadQuotedIdent(name: string, rest: string, keywords: set<string>)
    requires rest == "" || (rest[0] != QUOTE && !PlainRest(rest[0]))
    ensures ReadIdent(Quoted(name, keywords) + rest) == Some((name, rest))
  {
    if Plain(name, keywords) {
      ReadPlain(name, rest, keywords);
    } else {
      ReadDoubled(name, rest);
      assert ([QUOTE] + Doubled(name) + [QUOTE] + rest)[1..] == Doubled(name) + [QUOTE] + rest;
    }
  }

  lemma QualifiedRoundTrip(schema: string, rel: string, keywords: set<string>)
    ensures ReadQualified(Qualified(schema, rel, keywords)) == Some((schema, rel))
  {
    var tail := "." + Quoted(rel, keywords);
    assert Qualified(schema, rel, keywords) == Quoted(schema, keywords) + tail;
    ReadQuotedIdent(schema, tail, keywords);
    assert tail[1..] == Quoted(rel, keywords);
    ReadQuotedIdent(rel, "", keywords);
    assert Quoted(rel, keywords) + "" == Quoted(rel, keywords);
  }

  /** No two (schema, relation) pairs share a qualified name, dots and quotes inside the names included. */
  lemma QualifiedInjective(schema1: string, rel1: string, schema2: string, rel2: string, keywords: set<string>)
    requires Qualified(schema1, rel1, keywords) == Qualified(schema2, rel2, keywords)
    ensures schema1 == schema2 && rel1 == rel2
  {
    QualifiedRoundTrip(schema1, rel1, keywords);
    QualifiedRoundTrip(schema2, rel2, keywords);
  }

  // ---- the printed identifier, character by character ----

  lemma {:induction false} DoubledCounts(s: string, c: char)
    ensures multiset(Doubled(s))[c] == (if c == '"' then 2 else 1) * multiset(s)[c]
    ensures |Doubled(s)| >= |s|
  {
    if s != "" {
      DoubledCounts(s[1..], c);
      assert s == [s[0]] + s[1..];
      var head := if s[0] == QUOTE then [QUOTE, QUOTE] else [s[0]];
      assert Doubled(s) == head + Doubled(s[1..]);
    }
  }

  /**
   A name is left alone exactly when it is no keyword and made of lower-case letters, underscores and, after
   the first character, digits and dollars. Any other stands between double quotes, with its own doubled and
   every other character as often as it was.
   */
  lemma QuotedExactly(s: string, keywords: set<string>, c: char)
    ensures Quoted(s, keywords) == s <==>
      && s != "" && s !in keywords
      && forall i | 0 <= i < |s| :: 'a' <= s[i] <= 'z' || s[i] == '_' || (i > 0 && ('0' <= s[i] <= '9' || s[i] == '$'))
    ensures var q := Quoted(s, keywords);
      q != s ==>
        && |q| >= 2 && q[0] == '"' && q[|q| - 1] == '"'
        && multiset(q)[c] == if c == '"' then 2 * multiset(s)[c] + 2 else multiset(s)[c]
  {
    DoubledCounts(s, c);
  }

  /** Two names are joined by one dot, without quotes exactly when neither needs them. */
  lemma QualifiedExactly(schema: string, rel: string, keywords: set<string>)
    ensures Qualified(schema, rel, keywords) == schema + "." + rel <==> Quoted(schema, keywords) == schema && Quoted(rel, keywords) == rel
  {
    DoubledCounts(schema, '.');
    DoubledCounts(rel, '.');
    var q := Qualified(schema, rel, keywords);
    assert |Quoted(schema, keywords)| >= |schema| && |Quoted(rel, keywords)| >= |rel|;
  }
}
