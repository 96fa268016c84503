/**
 synchronous_standby_names: the lexer `syncTokens` of internal/rule/repl.go. It fails exactly on an
 odd number of double quotes, and on every other text it is the inverse of writing tokens out with
 blanks between them.
 */
module SyncLexer {
  import opened Wrappers
  import opened Names

  datatype Token = Token(s: string, quoted: bool)

  const OPEN := Token("(", false)
  const CLOSE := Token(")", false)
  const COMMA := Token(",", false)

  predicate IsGap(c: char) { c == ' ' || c == '\t' || c == '\n' }

  predicate IsPunct(c: char) { c == ',' || c == '(' || c == ')' }

  /** The characters an unquoted word stops at. */
  predicate IsSpecial(c: char) { IsGap(c) || IsPunct(c) || c == QUOTE }

  // ---- the lexer ----

  function WordLength(s: string): (n: nat)
    ensures n <= |s|
    ensures forall i | 0 <= i < n :: !IsSpecial(s[i])
    ensures n < |s| ==> IsSpecial(s[n])
  {
    if s != "" && !IsSpecial(s[0]) then 1 + WordLength(s[1..]) else 0
  }

  function Before(head: seq<Token>, rest: Option<seq<Token>>): Option<seq<Token>> {
    match rest
    case None => None
    case Some(toks) => Some(head + toks)
  }

  /** The tokens of a text, None when a quoted name is not closed. */
  function Lex(s: string): Option<seq<Token>>
    decreases |s|
  {
    if s == "" then Some([])
    else if IsGap(s[0]) then Lex(s[1..])
    else if IsPunct(s[0]) then Before([Token([s[0]], false)], Lex(s[1..]))
    else if s[0] == QUOTE then
      match ReadQuoted(s[1..])
      case None => None
      case Some(p) => Before([Token(p.0, true)], Lex(p.1))
    else
      var n := WordLength(s);
      Before([Token(s[..n], false)], Lex(s[n..]))
  }

  function Ahead(read: string, rest: Option<(string, string)>): Option<(string, string)> {
    match rest
    case None => None
    case Some(p) => Some((read + p.0, p.1))
  }

  lemma BeforeIsAssociative(a: seq<Token>, b: seq<Token>, rest: Option<seq<Token>>)
    ensures Before([], rest) == rest
    ensures Before(a, Before(b, rest)) == Before(a + b, rest)
  {
    if rest.Some? {
      assert [] + rest.value == rest.value;
      assert a + (b + rest.value) == (a + b) + rest.value;
    }
  }

  lemma AheadIsAssociative(a: string, b: string, rest: Option<(string, string)>)
    ensures Ahead("", rest) == rest
    ensures Ahead(a, Ahead(b, rest)) == Ahead(a + b, rest)
  {
    if rest.Some? {
      assert "" + rest.value.0 == rest.value.0;
      assert a + (b + rest.value.0) == (a + b) + rest.value.0;
    }
  }

  /** The quoted name that starts after position `start`: the inner loop of syncTokens. */
  method ScanQuoted(rs: string, start: nat) returns (name: string, next: nat, ok: bool)
    requires start <= |rs|
    ensures ok == ReadQuoted(rs[start..]).Some?
    ensures ok ==> start < next <= |rs| && ReadQuoted(rs[start..]) == Some((name, rs[next..]))
  {
    var i := start;
    name := "";
    AheadIsAssociative("", "", ReadQuoted(rs[start..]));
    while i < |rs|
      invariant start <= i <= |rs|
      invariant ReadQuoted(rs[start..]) == Ahead(name, ReadQuoted(rs[i..]))
    {
      var here := rs[i..];
      if rs[i] == QUOTE {
        if i + 1 < |rs| && rs[i + 1] == QUOTE {
          assert here[2..] == rs[i + 2..];
          AheadIsAssociative(name, [QUOTE], ReadQuoted(rs[i + 2..]));
          name := name + [QUOTE];
          i := i + 2;
        } else {
          assert here[1..] == rs[i + 1..];
          assert name + "" == name;
          return name, i + 1, true;
        }
      } else {
        assert here[1..] == rs[i + 1..];
        AheadIsAssociative(name, [rs[i]], ReadQuoted(rs[i + 1..]));
        name := name + [rs[i]];
        i := i + 1;
      }
    }
    return "", |rs|, false;
  }

  method ScanWord(rs: string, start: nat) returns (end: nat)
    requires start < |rs| && !IsSpecial(rs[start])
    ensures start < end <= |rs| && end - start == WordLength(rs[start..])
  {
    end := start;
    while end < |rs| && !IsSpecial(rs[end])
      invariant start <= end <= |rs|
      invariant WordLength(rs[start..]) == (end - start) + WordLength(rs[end..])
    {
      assert rs[end..][1..] == rs[end + 1..];
      end := end + 1;
    }
  }

  method SyncTokens(rs: string) returns (toks: seq<Token>, ok: bool)
    ensures ok == Lex(rs).Some?
    ensures toks == if ok then Lex(rs).value else []
  {
    hide ReadQuoted, WordLength;
    var out: seq<Token> := [];
    var i := 0;
    BeforeIsAssociative([], [], Lex(rs));
    assert rs[0..] == rs;
    while i < |rs|
      invariant 0 <= i <= |rs|
      invariant Lex(rs) == Before(out, Lex(rs[i..]))
    {
      var here := rs[i..];
      var r := rs[i];
      if r == ' ' || r == '\t' || r == '\n' {
        assert here[1..] == rs[i + 1..];
        i := i + 1;
      } else if r == ',' || r == '(' || r == ')' {
        assert here[1..] == rs[i + 1..];
        BeforeIsAssociative(out, [Token([r], false)], Lex(rs[i + 1..]));
        out := out + [Token([r], false)];
        i := i + 1;
      } else if r == QUOTE {
        assert here[1..] == rs[i + 1..];
        var name, next, closed := ScanQuoted(rs, i + 1);
        if !closed {
          return [], false;
        }
        BeforeIsAssociative(out, [Token(name, true)], Lex(rs[next..]));
        out := out + [Token(name, true)];
        i := next;
      } else {
        var j := ScanWord(rs, i);
        assert here[..j - i] == rs[i..j] && here[j - i..] == rs[j..];
        BeforeIsAssociative(out, [Token(rs[i..j], false)], Lex(rs[j..]));
        out := out + [Token(rs[i..j], false)];
        i := j;
      }
    }
    assert out + [] == out;
    return out, true;
  }

  // ---- what the lexer accepts: an even number of quotes ----

  function Quotes(s: string): nat {
    if s == "" then 0 else (if s[0] == QUOTE then 1 else 0) + Quotes(s[1..])
  }

  lemma {:induction false} QuotesSplit(s: string, i: nat)
    requires i <= |s|
    ensures Quotes(s) == Quotes(s[..i]) + Quotes(s[i..])
  {
    if i == 0 {
      assert s[..0] == "" && s[0..] == s;
    } else {
      QuotesSplit(s[1..], i - 1);
      assert s[..i][1..] == s[1..][..i - 1] && s[1..][i - 1..] == s[i..];
    }
  }

  lemma {:induction false} NoQuotes(s: string)
    requires QUOTE !in s
    ensures Quotes(s) == 0
  {
    if s != "" {
      assert QUOTE !in s[1..];
      NoQuotes(s[1..]);
    }
  }

  /** The rest of a quoted name is read exactly when a lone quote closes it, an odd number of quotes further on. */
  lemma {:induction false} ReadQuotedParity(s: string)
    ensures ReadQuoted(s).None? ==> Quotes(s) % 2 == 0
    ensures ReadQuoted(s).Some? ==> Quotes(s) % 2 == (Quotes(ReadQuoted(s).value.1) + 1) % 2
    decreases |s|
  {
    if s == "" {
    } else if s[0] == QUOTE && |s| > 1 && s[1] == QUOTE {
      assert s[1..][1..] == s[2..];
      ReadQuotedParity(s[2..]);
    } else {
      ReadQuotedParity(s[1..]);
    }
  }

  /** syncTokens fails exactly on an odd number of double quotes. */
  lemma {:induction false} LexFailsOnOddQuotes(s: string)
    ensures Lex(s).None? <==> Quotes(s) % 2 == 1
    decreases |s|
  {
    if s == "" {
    } else if IsGap(s[0]) || IsPunct(s[0]) {
      LexFailsOnOddQuotes(s[1..]);
    } else if s[0] == QUOTE {
      ReadQuotedParity(s[1..]);
      var p := ReadQuoted(s[1..]);
      if p.Some? {
        LexFailsOnOddQuotes(p.value.1);
      }
    } else {
      var n := WordLength(s);
      QuotesSplit(s, n);
      NoQuotes(s[..n]);
      LexFailsOnOddQuotes(s[n..]);
    }
  }

  // ---- the lexer is the inverse of writing tokens out ----

  predicate IsWord(t: Token) {
    !t.quoted && t.s != "" && forall c | c in t.s :: !IsSpecial(c)
  }

  predicate IsLexeme(t: Token) {
    t.quoted || t == OPEN || t == CLOSE || t == COMMA || IsWord(t)
  }

  function Text(t: Token): string {
    if t.quoted then [QUOTE] + Doubled(t.s) + [QUOTE] else t.s
  }

  predicate Blank(gap: string) {
    forall c | c in gap :: IsGap(c)
  }

  /** The tokens written out, with a gap before, between and after them. */
  function Written(gaps: seq<string>, toks: seq<Token>): string
    requires |gaps| == |toks| + 1
  {
    if toks == [] then gaps[0] else gaps[0] + (Text(toks[0]) + Written(gaps[1..], toks[1..]))
  }

  /** Two words, or two quoted names, run together unless something separates them. */
  predicate Clash(a: Token, b: Token) {
    (IsWord(a) && IsWord(b)) || (a.quoted && b.quoted)
  }

  /** Lexemes and blank gaps, with something in the gap between two tokens that clash. */
  ghost predicate Spaced(gaps: seq<string>, toks: seq<Token>) {
    && |gaps| == |toks| + 1
    && Blank(gaps[0])
    && (toks != [] ==>
         && IsLexeme(toks[0])
         && (|toks| > 1 && Clash(toks[0], toks[1]) ==> gaps[1] != "")
         && Spaced(gaps[1..], toks[1..]))
  }

  lemma {:induction false} LexSkipsGap(gap: string, rest: string)
    requires Blank(gap)
    ensures Lex(gap + rest) == Lex(rest)
  {
    if gap == "" {
      assert gap + rest == rest;
    } else {
      assert (gap + rest)[1..] == gap[1..] + rest;
      assert gap[0] in gap;
      LexSkipsGap(gap[1..], rest);
    }
  }

  lemma {:induction false} WordStops(word: string, rest: string)
    requires forall c | c in word :: !IsSpecial(c)
    requires rest == "" || IsSpecial(rest[0])
    ensures WordLength(word + rest) == |word|
  {
    if word == "" {
      assert word + rest == rest;
    } else {
      assert (word + rest)[1..] == word[1..] + rest;
      assert word[0] in word;
      WordStops(word[1..], rest);
    }
  }

  lemma LexTakesWord(word: string, rest: string)
    requires IsWord(Token(word, false))
    requires rest != "" ==> IsSpecial(rest[0])
    ensures Lex(word + rest) == Before([Token(word, false)], Lex(rest))
  {
    var s := word + rest;
    WordStops(word, rest);
    assert word[0] in word;
    assert s[0] == word[0] && !IsSpecial(s[0]);
    assert s[..|word|] == word && s[|word|..] == rest;
  }

  lemma LexQuote(t: string)
    requires ReadQuoted(t).Some?
    ensures Lex([QUOTE] + t) == Before([Token(ReadQuoted(t).value.0, true)], Lex(ReadQuoted(t).value.1))
  {
    assert ([QUOTE] + t)[1..] == t;
  }

  lemma LexTakesQuoted(name: string, rest: string)
    requires rest != "" ==> rest[0] != QUOTE
    ensures Lex([QUOTE] + Doubled(name) + [QUOTE] + rest) == Before([Token(name, true)], Lex(rest))
  {
    hide Doubled, ReadQuoted;
    var t := Doubled(name) + [QUOTE] + rest;
    ReadDoubled(name, rest);
    LexQuote(t);
    assert [QUOTE] + Doubled(name) + [QUOTE] + rest == [QUOTE] + t;
  }

  /** What follows a token does not continue it. */
  predicate Ends(t: Token, rest: string) {
    rest != "" ==> (t.quoted ==> rest[0] != QUOTE) && (IsWord(t) ==> IsSpecial(rest[0]))
  }

  /** One token is lexed off the front when what follows does not continue it. */
  lemma LexTakes(t: Token, rest: string)
    requires IsLexeme(t) && Ends(t, rest)
    ensures Lex(Text(t) + rest) == Before([t], Lex(rest))
  {
    if t.quoted {
      LexTakesQuoted(t.s, rest);
    } else if IsWord(t) {
      LexTakesWord(t.s, rest);
    } else {
      var s := t.s + rest;
      assert s[1..] == rest && s[0] == t.s[0] && t.s == [t.s[0]];
    }
  }

  /** What a written text starts with. */
  lemma FirstCharacter(gaps: seq<string>, toks: seq<Token>)
    requires Spaced(gaps, toks)
    ensures var s := Written(gaps, toks);
      if gaps[0] != "" then s != "" && IsGap(s[0])
      else if toks != [] then s != "" && Text(toks[0]) != "" && s[0] == Text(toks[0])[0]
      else s == ""
  {
    if gaps[0] != "" {
      assert gaps[0][0] in gaps[0];
    }
  }

  /** Whether a token may stand before another without a gap. */
  lemma ClashIsNotEnds(t: Token, n: Token, rest: string)
    requires IsLexeme(t) && IsLexeme(n)
    requires rest != "" && Text(n) != "" && rest[0] == Text(n)[0]
    ensures Ends(t, rest) <==> !Clash(t, n)
  {
    if IsWord(n) {
      assert n.s[0] in n.s;
    }
  }

  lemma WrittenEnds(t: Token, gaps: seq<string>, toks: seq<Token>)
    requires IsLexeme(t) && Spaced(gaps, toks)
    ensures Ends(t, Written(gaps, toks)) <==> (toks != [] && Clash(t, toks[0]) ==> gaps[0] != "")
  {
    FirstCharacter(gaps, toks);
    if toks != [] && gaps[0] == "" {
      ClashIsNotEnds(t, toks[0], Written(gaps, toks));
    }
  }

  lemma {:induction false} LexWritten(gaps: seq<string>, toks: seq<Token>)
    requires Spaced(gaps, toks)
    ensures Lex(Written(gaps, toks)) == Some(toks)
    decreases |toks|
  {
    if toks == [] {
      LexSkipsGap(gaps[0], "");
      assert gaps[0] + "" == gaps[0];
    } else {
      hide Lex, IsLexeme, Text, Blank, Clash, Ends;
      var rest := Written(gaps[1..], toks[1..]);
      LexWritten(gaps[1..], toks[1..]);
      WrittenEnds(toks[0], gaps[1..], toks[1..]);
      LexTakes(toks[0], rest);
      LexSkipsGap(gaps[0], Text(toks[0]) + rest);
      assert [toks[0]] + toks[1..] == toks;
    }
  }

  /** Every text that lexes is its own tokens written out with blanks between them. */
  lemma {:induction false} LexUnwritten(s: string) returns (gaps: seq<string>)
    requires Lex(s).Some?
    ensures Spaced(gaps, Lex(s).value)
    ensures Written(gaps, Lex(s).value) == s
    decreases |s|
  {
    hide Text, IsPunct, Doubled, ReadQuoted, WordLength, IsLexeme;
    var toks := Lex(s).value;
    if s == "" {
      gaps := [""];
    } else if IsGap(s[0]) {
      var g := LexUnwritten(s[1..]);
      gaps := [[s[0]] + g[0]] + g[1..];
      assert gaps[1..] == g[1..];
      assert s == [s[0]] + s[1..];
      assert Blank(g[0]);
    } else {
      LexHead(s);
      var t := toks[0];
      var g := LexUnwritten(s[|Text(t)|..]);
      UnwrittenStep(s, t, toks[1..], g);
      gaps := [""] + g;
      assert toks == [t] + toks[1..];
    }
  }

  lemma UnwrittenStep(s: string, t: Token, more: seq<Token>, g: seq<string>)
    requires Leads(t, s, more)
    requires Spaced(g, more) && Written(g, more) == s[|Text(t)|..]
    ensures Spaced([""] + g, [t] + more)
    ensures Written([""] + g, [t] + more) == s
  {
    hide Lex, IsLexeme, Text, Clash, Ends;
    WrittenEnds(t, g, more);
    assert ([""] + g)[1..] == g && ([t] + more)[1..] == more;
    assert Blank("");
  }

  /** `t` stands at the front of `s`, ends where it must, and is followed by a text that lexes to `more`. */
  ghost predicate Leads(t: Token, s: string, more: seq<Token>) {
    && IsLexeme(t)
    && 0 < |Text(t)| <= |s| && s[..|Text(t)|] == Text(t)
    && var rest := s[|Text(t)|..];
    && Lex(rest) == Some(more)
    && Ends(t, rest)
  }

  lemma LexHeadQuoted(s: string)
    requires s != "" && s[0] == QUOTE && Lex(s).Some?
    ensures Lex(s).value != [] && Leads(Lex(s).value[0], s, Lex(s).value[1..])
  {
    var p := ReadQuoted(s[1..]).value;
    ReadQuotedText(s[1..]);
    var text := [QUOTE] + Doubled(p.0) + [QUOTE];
    assert s == text + p.1;
    assert s[..|text|] == text && s[|text|..] == p.1;
  }

  lemma LexHeadWord(s: string)
    requires s != "" && !IsSpecial(s[0]) && Lex(s).Some?
    ensures Lex(s).value != [] && Leads(Lex(s).value[0], s, Lex(s).value[1..])
  {
    var n := WordLength(s);
    var t := Lex(s).value[0];
    assert t == Token(s[..n], false) && IsWord(t);
  }

  lemma LexHead(s: string)
    requires s != "" && !IsGap(s[0]) && Lex(s).Some?
    ensures Lex(s).value != [] && Leads(Lex(s).value[0], s, Lex(s).value[1..])
  {
    if s[0] == QUOTE {
      LexHeadQuoted(s);
    } else if IsPunct(s[0]) {
      var t := Token([s[0]], false);
      assert Lex(s) == Before([t], Lex(s[1..])) && s[..1] == [s[0]];
      assert t.s[0] in t.s;
    } else {
      LexHeadWord(s);
    }
  }

  lemma {:induction false} ReadQuotedText(s: string)
    requires ReadQuoted(s).Some?
    ensures var p := ReadQuoted(s).value;
      && s == Doubled(p.0) + [QUOTE] + p.1
      && (p.1 != "" ==> p.1[0] != QUOTE)
    decreases |s|
  {
    var p := ReadQuoted(s).value;
    if s[0] != QUOTE {
      ReadQuotedText(s[1..]);
      assert p.0[1..] == ReadQuoted(s[1..]).value.0;
    } else if |s| > 1 && s[1] == QUOTE {
      ReadQuotedText(s[2..]);
      assert p.0[1..] == ReadQuoted(s[2..]).value.0;
    }
  }

  /** Lexing is exactly the inverse of writing tokens out: nothing but spacing is lost, nothing is made up. */
  lemma LexInvertsWritten(s: string, toks: seq<Token>)
    ensures Lex(s) == Some(toks) <==> exists gaps :: Spaced(gaps, toks) && Written(gaps, toks) == s
  {
    if Lex(s) == Some(toks) {
      var gaps := LexUnwritten(s);
    }
    forall gaps | Spaced(gaps, toks) && Written(gaps, toks) == s
      ensures Lex(s) == Some(toks)
    {
      LexWritten(gaps, toks);
    }
  }

  /** What the first character of a text decides. */
  lemma FirstCharacterDecides(s: string)
    requires s != ""
    ensures s[0] in {' ', '\t', '\n'} ==> Lex(s) == Lex(s[1..])
    ensures s[0] in {',', '(', ')'} ==>
      Lex(s) == if Lex(s[1..]).Some? then Some([Token([s[0]], false)] + Lex(s[1..]).value) else None
    ensures s[0] == '"' && Lex(s).Some? ==> Lex(s).value != [] && Lex(s).value[0].quoted
    ensures s[0] !in {' ', '\t', '\n', ',', '(', ')', '"'} && Lex(s).Some? ==>
      && Lex(s).value != []
      && var t := Lex(s).value[0];
         && !t.quoted && t.s != "" && t.s <= s
         && (forall i | 0 <= i < |t.s| :: t.s[i] !in {' ', '\t', '\n', ',', '(', ')', '"'})
         && (|t.s| < |s| ==> s[|t.s|] in {' ', '\t', '\n', ',', '(', ')', '"'})
  {
  }
}
