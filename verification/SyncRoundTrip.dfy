/**
 Printing a synchronous_standby_names value with `quoteIdent` and parsing it back: the round trip
 through internal/rule/names.go and internal/rule/repl.go.
 */
module SyncRoundTrip {
  import opened Wrappers
  import opened Names
  import opened SyncLexer
  import opened SyncNames
  import Keywords

  /** Pieces of text with a gap before, between and after them. */
  function Weave(gaps: seq<string>, pieces: seq<string>): string
    requires |gaps| == |pieces| + 1
  {
    if pieces == [] then gaps[0] else gaps[0] + (pieces[0] + Weave(gaps[1..], pieces[1..]))
  }

  /** q1 , q2 , ... : the quoted names and the commas between them, as separate pieces of text. */
  function Commas(names: seq<string>, keywords: set<string>): seq<string>
    requires names != []
  {
    if |names| == 1 then [Quoted(names[0], keywords)]
    else [Quoted(names[0], keywords), ","] + Commas(names[1..], keywords)
  }

  predicate IsMethodWord(word: string) {
    EqualFold(word, "first") || EqualFold(word, "any")
  }

  /** The pieces of "n (q1, q2, ...)". */
  function Counting(n: nat, names: seq<string>, keywords: set<string>): seq<string>
    requires names != []
  {
    [Itoa(n), "("] + Commas(names, keywords) + [")"]
  }

  /** The pieces of "METHOD n (q1, q2, ...)", without METHOD when there is no word. */
  function Setting(word: Option<string>, n: nat, names: seq<string>, keywords: set<string>): seq<string>
    requires names != []
  {
    (if word.Some? then [word.value] else []) + Counting(n, names, keywords)
  }

  // ---- the tokens behind the pieces ----

  function Texts(toks: seq<Token>): (pieces: seq<string>)
    ensures |pieces| == |toks|
    ensures forall i | 0 <= i < |toks| :: pieces[i] == Text(toks[i])
  {
    seq(|toks|, i requires 0 <= i < |toks| => Text(toks[i]))
  }

  lemma {:induction false} WovenIsWritten(gaps: seq<string>, toks: seq<Token>)
    requires |gaps| == |toks| + 1
    ensures Weave(gaps, Texts(toks)) == Written(gaps, toks)
    decreases |toks|
  {
    hide Text;
    if toks != [] {
      assert Texts(toks)[1..] == Texts(toks[1..]);
      WovenIsWritten(gaps[1..], toks[1..]);
    }
  }

  function NameToken(name: string, keywords: set<string>): Token {
    Token(name, !Plain(name, keywords))
  }

  function NameTokens(names: seq<string>, keywords: set<string>): (toks: seq<Token>)
    requires names != []
    ensures |toks| == 2 * |names| - 1
    ensures forall j | 0 <= j < |toks| :: toks[j] == if j % 2 == 0 then NameToken(names[j / 2], keywords) else COMMA
  {
    seq(2 * |names| - 1, j requires 0 <= j < 2 * |names| - 1 =>
      if j % 2 == 0 then NameToken(names[j / 2], keywords) else COMMA)
  }

  function CountTokens(n: nat, names: seq<string>, keywords: set<string>): seq<Token>
    requires names != []
  {
    [Token(Itoa(n), false), OPEN] + NameTokens(names, keywords) + [CLOSE]
  }

  function SettingTokens(word: Option<string>, n: nat, names: seq<string>, keywords: set<string>): seq<Token>
    requires names != []
  {
    (if word.Some? then [Token(word.value, false)] else []) + CountTokens(n, names, keywords)
  }

  lemma NameTokenIsName(name: string, keywords: set<string>)
    ensures var t := NameToken(name, keywords);
      && Text(t) == Quoted(name, keywords)
      && IsName(t) && (t.quoted || IsWord(t))
  {
    var t := NameToken(name, keywords);
    if Plain(name, keywords) {
      assert PlainRest(t.s[0]);
      forall c | c in t.s
        ensures PlainRest(c)
      {
      }
    }
  }

  lemma TextsConcat(a: seq<Token>, b: seq<Token>)
    ensures Texts(a + b) == Texts(a) + Texts(b)
  {
  }

  lemma NameTokensStep(names: seq<string>, keywords: set<string>)
    requires |names| > 1
    ensures NameTokens(names, keywords) == [NameToken(names[0], keywords), COMMA] + NameTokens(names[1..], keywords)
  {
    hide NameTokens, NameToken;
    var toks, rest := NameTokens(names, keywords), NameTokens(names[1..], keywords);
    forall j | 2 <= j < |toks|
      ensures toks[j] == rest[j - 2]
    {
      assert j % 2 == 0 ==> names[j / 2] == names[1..][(j - 2) / 2];
    }
  }

  lemma {:induction false} CommasAreNameTokens(names: seq<string>, keywords: set<string>)
    requires names != []
    ensures Commas(names, keywords) == Texts(NameTokens(names, keywords))
  {
    var head := NameToken(names[0], keywords);
    NameTokenIsName(names[0], keywords);
    if |names| == 1 {
      assert NameTokens(names, keywords) == [head];
    } else {
      CommasAreNameTokens(names[1..], keywords);
      NameTokensStep(names, keywords);
      TextsConcat([head, COMMA], NameTokens(names[1..], keywords));
      assert Texts([head, COMMA]) == [Text(head), ","];
    }
  }

  lemma NameTokensAreList(names: seq<string>, keywords: set<string>)
    requires names != []
    ensures var toks := NameTokens(names, keywords);
      && IsList(toks) && ListNames(toks) == names
      && (forall j | 0 <= j < |toks| :: IsLexeme(toks[j]))
      && (forall j | 0 < j < |toks| :: !Clash(toks[j - 1], toks[j]))
  {
    var toks := NameTokens(names, keywords);
    assert "," == [','] && !IsWord(COMMA) by {
      assert ',' in COMMA.s;
    }
    forall j | 0 <= j < |toks|
      ensures IsLexeme(toks[j]) && (j % 2 == 0 ==> IsName(toks[j]))
    {
      if j % 2 == 0 {
        NameTokenIsName(names[j / 2], keywords);
      }
    }
    assert ListNames(toks) == names;
  }

  lemma MethodWordIsWord(word: string)
    requires IsMethodWord(word)
    ensures IsWord(Token(word, false))
  {
    forall i | 0 <= i < |word|
      ensures !IsSpecial(word[i])
    {
      assert FoldsTo(word[i], if EqualFold(word, "first") then "first"[i] else "any"[i]);
    }
  }

  ghost predicate Blanks(gaps: seq<string>) {
    forall i | 0 <= i < |gaps| :: Blank(gaps[i])
  }

  lemma PunctuationIsNoWord()
    ensures !IsWord(OPEN) && !IsWord(CLOSE) && !IsWord(COMMA)
  {
    assert '(' in OPEN.s && ')' in CLOSE.s && ',' in COMMA.s;
  }

  /** Lexemes that need no blanks between them. */
  ghost predicate Tight(toks: seq<Token>) {
    && (forall j | 0 <= j < |toks| :: IsLexeme(toks[j]))
    && (forall j | 0 < j < |toks| :: !Clash(toks[j - 1], toks[j]))
  }

  lemma TightConcat(a: seq<Token>, b: seq<Token>)
    requires Tight(a) && Tight(b)
    requires a != [] && b != [] ==> !Clash(a[|a| - 1], b[0])
    ensures Tight(a + b)
  {
    var toks := a + b;
    forall j | 0 < j < |toks|
      ensures !Clash(toks[j - 1], toks[j])
    {
      if j > |a| {
        assert toks[j - 1] == b[j - 1 - |a|] && toks[j] == b[j - |a|];
      }
    }
  }

  lemma ListTight(num: Token, list: seq<Token>)
    requires IsWord(num) && Tight(list) && list != [] && !Clash(OPEN, list[0]) && !Clash(list[|list| - 1], CLOSE)
    ensures Tight([num, OPEN] + list + [CLOSE])
  {
    PunctuationIsNoWord();
    TightConcat([num, OPEN], list);
    TightConcat([num, OPEN] + list, [CLOSE]);
  }

  lemma NumTight(num: Token, names: seq<string>, keywords: set<string>)
    requires names != [] && IsWord(num)
    ensures Tight([num, OPEN] + NameTokens(names, keywords) + [CLOSE])
  {
    NameTokensAreList(names, keywords);
    PunctuationIsNoWord();
    ListTight(num, NameTokens(names, keywords));
  }

  lemma CountTexts(num: string, names: seq<string>, keywords: set<string>)
    requires names != []
    ensures Texts([Token(num, false), OPEN] + NameTokens(names, keywords) + [CLOSE]) == [num, "("] + Commas(names, keywords) + [")"]
  {
    var list, lead := NameTokens(names, keywords), [Token(num, false), OPEN];
    CommasAreNameTokens(names, keywords);
    TextsConcat(lead, list);
    TextsConcat(lead + list, [CLOSE]);
    assert Texts(lead) == [num, "("] && Texts([CLOSE]) == [")"];
  }

  lemma {:induction false} TightSpaced(gaps: seq<string>, toks: seq<Token>)
    requires Tight(toks) && |gaps| == |toks| + 1 && Blanks(gaps)
    ensures Spaced(gaps, toks)
    decreases |toks|
  {
    hide IsLexeme, Clash, Blank;
    if toks != [] {
      assert |toks| > 1 ==> !Clash(toks[0], toks[1]);
      assert Tight(toks[1..]) by {
        assert forall j | 0 < j < |toks| - 1 :: toks[1..][j - 1] == toks[j] && toks[1..][j] == toks[j + 1];
      }
      TightSpaced(gaps[1..], toks[1..]);
    }
  }

  lemma WordThenTight(head: Token, toks: seq<Token>, gaps: seq<string>)
    requires IsWord(head) && Tight(toks)
    requires |gaps| == |toks| + 2 && Blanks(gaps) && gaps[1] != ""
    ensures Spaced(gaps, [head] + toks)
  {
    TightSpaced(gaps[1..], toks);
    assert ([head] + toks)[1..] == toks;
  }

  lemma SettingSpaced(word: Option<string>, n: nat, names: seq<string>, keywords: set<string>, gaps: seq<string>)
    requires names != []
    requires word.Some? ==> IsMethodWord(word.value)
    requires |gaps| == |Setting(word, n, names, keywords)| + 1 && Blanks(gaps)
    requires word.Some? ==> gaps[1] != ""
    ensures Setting(word, n, names, keywords) == Texts(SettingTokens(word, n, names, keywords))
    ensures Spaced(gaps, SettingTokens(word, n, names, keywords))
  {
    var count := CountTokens(n, names, keywords);
    AtoiOfItoa(n);
    NumTight(Token(Itoa(n), false), names, keywords);
    CountTexts(Itoa(n), names, keywords);
    if word.None? {
      assert [] + count == count;
      TightSpaced(gaps, count);
    } else {
      var head := Token(word.value, false);
      MethodWordIsWord(word.value);
      TextsConcat([head], count);
      assert Texts([head]) == [word.value];
      WordThenTight(head, count, gaps);
    }
  }

  lemma CountParses(num: Token, n: nat, list: seq<Token>)
    requires IsWord(num) && Atoi(num.s) == Some(n) && IsList(list)
    ensures var toks := [num, OPEN] + list + [CLOSE];
      Parse(toks) == Some((n, ListNames(list))) && FormOf(toks) == Count
  {
    var toks := [num, OPEN] + list + [CLOSE];
    assert !IsFirst(num) && !IsAny(num) by {
      if IsFirst(num) || IsAny(num) {
        NotAnInt(num);
      }
    }
    assert Counted(toks, n, ListNames(list));
    assert Derives(Count, toks, n, ListNames(list));
    DerivesOnlyFormOf(Count, toks, n, ListNames(list));
    ParseIsGrammar(toks, n, ListNames(list));
  }

  lemma MethodParses(head: Token, num: Token, n: nat, list: seq<Token>)
    requires IsFirst(head) || IsAny(head)
    requires IsWord(num) && Atoi(num.s) == Some(n) && IsList(list)
    ensures var toks := [head] + ([num, OPEN] + list + [CLOSE]);
      Parse(toks) == Some((n, ListNames(list))) && FormOf(toks) == if IsAny(head) then Any else First
  {
    var count := [num, OPEN] + list + [CLOSE];
    var toks := [head] + count;
    assert toks[1..] == count && Counted(count, n, ListNames(list));
    var form := if IsAny(head) then Any else First;
    assert Derives(form, toks, n, ListNames(list));
    DerivesOnlyFormOf(form, toks, n, ListNames(list));
    ParseIsGrammar(toks, n, ListNames(list));
  }

  /** What is no int is no count: with a method word in front the count is missing, without one the parenthesis is out of place. */
  lemma TooManyRejected(head: seq<Token>, num: Token, list: seq<Token>)
    requires head == [] || (|head| == 1 && (IsFirst(head[0]) || IsAny(head[0])))
    requires IsWord(num) && Atoi(num.s).None?
    ensures Parse(head + ([num, OPEN] + list + [CLOSE])).None?
  {
    assert Atoi("(").None? by {
      assert Digits("(").None?;
    }
    hide Atoi, EqualFold;
    var toks := head + ([num, OPEN] + list + [CLOSE]);
    if head == [] {
      assert toks[0] == num && toks[1] == OPEN;
    } else {
      NotAnInt(head[0]);
      assert toks[0] == head[0] && toks[1] == num;
    }
  }

  lemma SettingParses(word: Option<string>, n: nat, names: seq<string>, keywords: set<string>)
    requires names != []
    requires word.Some? ==> IsMethodWord(word.value)
    ensures var toks := SettingTokens(word, n, names, keywords);
      if n <= MAX_INT then
        && Parse(toks) == Some((n, names))
        && FormOf(toks) == if word.None? then Count else if EqualFold(word.value, "any") then Any else First
      else Parse(toks).None?
  {
    var num, list := Token(Itoa(n), false), NameTokens(names, keywords);
    AtoiOfItoa(n);
    NameTokensAreList(names, keywords);
    if n > MAX_INT {
      TooManyRejected(if word.Some? then [Token(word.value, false)] else [], num, list);
    } else if word.Some? {
      MethodParses(Token(word.value, false), num, n, list);
    } else {
      CountParses(num, n, list);
      assert [] + CountTokens(n, names, keywords) == CountTokens(n, names, keywords);
    }
  }

  lemma WeaveStep(gap: string, piece: string, gaps: seq<string>, pieces: seq<string>)
    requires |gaps| == |pieces| + 1
    ensures Weave([gap] + gaps, [piece] + pieces) == gap + (piece + Weave(gaps, pieces))
  {
    assert ([gap] + gaps)[1..] == gaps && ([piece] + pieces)[1..] == pieces;
  }

  /** Nothing between two pieces makes them one. */
  lemma WeaveJoined(gap: string, a: string, b: string, gaps: seq<string>, rest: seq<string>)
    requires |gaps| == |rest| + 1
    ensures Weave([gap, ""] + gaps, [a, b] + rest) == Weave([gap] + gaps, [a + b] + rest)
  {
    hide Weave;
    WeaveStep(gap, a, [""] + gaps, [b] + rest);
    WeaveStep("", b, gaps, rest);
    WeaveStep(gap, a + b, gaps, rest);
    assert [gap] + ([""] + gaps) == [gap, ""] + gaps && [a] + ([b] + rest) == [a, b] + rest;
    var tail := Weave(gaps, rest);
    assert "" + (b + tail) == b + tail;
    assert a + (b + tail) == (a + b) + tail;
  }

  /** A method word with the count right behind it is a word that is no number. */
  lemma JoinedWord(word: string, n: nat)
    requires IsMethodWord(word)
    ensures IsWord(Token(word + Itoa(n), false)) && Atoi(word + Itoa(n)).None?
  {
    AtoiOfItoa(n);
    MethodWordIsWord(word);
    assert FoldsTo(word[0], if EqualFold(word, "first") then 'f' else 'a');
    hide EqualFold, IsMethodWord, Itoa, Atoi;
    WordsConcat(word, Itoa(n));
    NotDigits(word + Itoa(n));
  }

  lemma WordsConcat(a: string, b: string)
    requires IsWord(Token(a, false)) && IsWord(Token(b, false))
    ensures IsWord(Token(a + b, false)) && (a + b)[0] == a[0]
  {
    forall c | c in a + b
      ensures !IsSpecial(c)
    {
      assert c in a || c in b;
    }
  }

  lemma NotDigits(s: string)
    requires s != "" && s[0] != '-' && s[0] != '+' && !('0' <= s[0] <= '9')
    ensures Atoi(s).None?
  {
    DigitsStart(s);
  }

  lemma {:induction false} DigitsStart(s: string)
    requires s != ""
    ensures Digits(s).Some? ==> '0' <= s[0] <= '9'
  {
    if |s| > 1 {
      DigitsStart(s[..|s| - 1]);
    }
  }

  lemma SettingPieces(word: string, num: string, n: nat, names: seq<string>, keywords: set<string>) returns (rest: seq<string>)
    requires names != []
    ensures Setting(Some(word), n, names, keywords) == [word, Itoa(n)] + rest
    ensures [num, "("] + Commas(names, keywords) + [")"] == [num] + rest
  {
    rest := ["("] + Commas(names, keywords) + [")"];
  }

  lemma JoinedRejected(word: string, n: nat, names: seq<string>, keywords: set<string>, gaps: seq<string>)
    requires names != [] && IsMethodWord(word)
    requires |gaps| == |Setting(Some(word), n, names, keywords)| + 1 && Blanks(gaps) && gaps[1] == ""
    ensures ParseText(Weave(gaps, Setting(Some(word), n, names, keywords))).None?
  {
    JoinedWord(word, n);
    hide Setting, Commas, IsMethodWord, Itoa, Weave, IsWord, ParseText, Atoi, Blanks;
    var num := Token(word + Itoa(n), false);
    var rest := SettingPieces(word, num.s, n, names, keywords);
    var gap, tail := GapsAround(gaps);
    WeaveJoined(gap, word, Itoa(n), tail, rest);
    BadCountRejected(num, names, keywords, [gap] + tail, [num.s] + rest);
  }

  lemma GapsAround(gaps: seq<string>) returns (gap: string, tail: seq<string>)
    requires |gaps| >= 2 && Blanks(gaps) && gaps[1] == ""
    ensures gaps == [gap, ""] + tail && Blanks([gap] + tail)
  {
    gap, tail := gaps[0], gaps[2..];
  }

  /** A word that is no number, and a list in parentheses after it. */
  lemma BadCountRejected(num: Token, names: seq<string>, keywords: set<string>, gaps: seq<string>, pieces: seq<string>)
    requires names != [] && IsWord(num) && Atoi(num.s).None?
    requires pieces == [num.s, "("] + Commas(names, keywords) + [")"]
    requires |gaps| == |pieces| + 1 && Blanks(gaps)
    ensures ParseText(Weave(gaps, pieces)).None?
  {
    hide Weave, Written, Lex, Parse, Commas, Clash, Atoi;
    var list := NameTokens(names, keywords);
    var toks := [num, OPEN] + list + [CLOSE];
    NameTokensAreList(names, keywords);
    PunctuationIsNoWord();
    CountTexts(num.s, names, keywords);
    NumTight(num, names, keywords);
    TightSpaced(gaps, toks);
    WovenIsWritten(gaps, toks);
    LexWritten(gaps, toks);
    TooManyRejected([], num, list);
    assert [] + toks == toks;
  }

  /**
   For every method word in any letter case (or none), every N, every non-empty list of names
   whatever their characters, and any blanks between the pieces, parsing the printed setting
   gives back N and the names, and the wording chosen is the method's. It is rejected exactly when
   the count is no 64-bit int, or nothing stands between the method word and the count.
   */
  lemma RoundTrip(word: Option<string>, n: nat, names: seq<string>, keywords: set<string>, gaps: seq<string>)
    requires names != []
    requires word.Some? ==> IsMethodWord(word.value)
    requires |gaps| == |Setting(word, n, names, keywords)| + 1 && Blanks(gaps)
    ensures var s := Weave(gaps, Setting(word, n, names, keywords));
      && ParseText(s) == (if n >= 0x8000_0000_0000_0000 || (word.Some? && gaps[1] == "") then None else Some((n, names)))
      && (ParseText(s).Some? ==> (FormOf(Lex(s).value).Any? <==> word.Some? && EqualFold(word.value, "any")))
  {
    if word.Some? && gaps[1] == "" {
      JoinedRejected(word.value, n, names, keywords, gaps);
      return;
    }
    SettingSpaced(word, n, names, keywords, gaps);
    WovenIsWritten(gaps, SettingTokens(word, n, names, keywords));
    LexWritten(gaps, SettingTokens(word, n, names, keywords));
    SettingParses(word, n, names, keywords);
  }

  /**
   With the word spelled in any mix of capital and small letters, the count an int, and any spaces, tabs and
   newlines around the pieces, at least one behind the word: ANY is read as ANY, FIRST as FIRST, with their
   count and names.
   */
  lemma AnyLetterCase(word: string, n: nat, names: seq<string>, keywords: set<string>, gaps: seq<string>)
    requires names != [] && n < 0x8000_0000_0000_0000
    requires || (|word| == 3 && forall i | 0 <= i < 3 :: word[i] == "any"[i] || word[i] == "ANY"[i])
             || (|word| == 5 && forall i | 0 <= i < 5 :: word[i] == "first"[i] || word[i] == "FIRST"[i])
    requires |gaps| == |Setting(Some(word), n, names, keywords)| + 1 && gaps[1] != ""
    requires forall i | 0 <= i < |gaps| :: forall c | c in gaps[i] :: c in {' ', '\t', '\n'}
    ensures var s := Weave(gaps, Setting(Some(word), n, names, keywords));
      && ParseText(s) == Some((n, names))
      && FormOf(Lex(s).value) == if |word| == 3 then Any else First
  {
    var head := Token(word, false);
    AnyExactly(head);
    FirstExactly(head);
    assert IsMethodWord(word) && (EqualFold(word, "any") <==> |word| == 3);
    assert Blanks(gaps) by {
      forall i | 0 <= i < |gaps|
        ensures Blank(gaps[i])
      {
      }
    }
    hide EqualFold;
    SettingSpaced(Some(word), n, names, keywords, gaps);
    WovenIsWritten(gaps, SettingTokens(Some(word), n, names, keywords));
    LexWritten(gaps, SettingTokens(Some(word), n, names, keywords));
    SettingParses(Some(word), n, names, keywords);
  }

  lemma BareSpaced(names: seq<string>, keywords: set<string>, gaps: seq<string>)
    requires names != []
    requires |gaps| == |Commas(names, keywords)| + 1 && Blanks(gaps)
    ensures Commas(names, keywords) == Texts(NameTokens(names, keywords))
    ensures Lex(Weave(gaps, Commas(names, keywords))) == Some(NameTokens(names, keywords))
  {
    CommasAreNameTokens(names, keywords);
    NameTokensAreList(names, keywords);
    TightSpaced(gaps, NameTokens(names, keywords));
    WovenIsWritten(gaps, NameTokens(names, keywords));
    LexWritten(gaps, NameTokens(names, keywords));
  }

  lemma PlainMethodWord(name: string, keywords: set<string>)
    ensures IsFirst(NameToken(name, keywords)) || IsAny(NameToken(name, keywords))
       <==> name in {"first", "any"} && name !in keywords
  {
    if Plain(name, keywords) && EqualFold(name, "first") {
      assert forall i | 0 <= i < |name| :: PlainRest(name[i]) && FoldsTo(name[i], "first"[i]);
      assert name == "first";
    }
    if Plain(name, keywords) && EqualFold(name, "any") {
      assert forall i | 0 <= i < |name| :: PlainRest(name[i]) && FoldsTo(name[i], "any"[i]);
      assert name == "any";
    }
  }

  /**
   A bare list parses back to one of its names exactly when it is a single name or does not
   open with a method word that quoteIdent leaves unquoted; otherwise it is rejected.
   */
  lemma BareRoundTrip(names: seq<string>, keywords: set<string>, gaps: seq<string>)
    requires names != []
    requires |gaps| == |Commas(names, keywords)| + 1 && Blanks(gaps)
    ensures var rejected := |names| > 1 && names[0] in {"first", "any"} && names[0] !in keywords;
      ParseText(Weave(gaps, Commas(names, keywords))) == if rejected then None else Some((1, names))
  {
    var toks := NameTokens(names, keywords);
    BareSpaced(names, keywords, gaps);
    NameTokensAreList(names, keywords);
    PlainMethodWord(names[0], keywords);
    if |toks| > 1 {
      assert toks[1] == COMMA;
      if IsFirst(toks[0]) || IsAny(toks[0]) {
        BareMethodWordRejected(toks);
      }
    }
  }

  /** With the real keyword table the rejected lists are those that open with the name first. */
  lemma BareRoundTripWithTable(names: seq<string>, gaps: seq<string>)
    requires names != []
    requires |gaps| == |Commas(names, Keywords.Table)| + 1 && Blanks(gaps)
    ensures ParseText(Weave(gaps, Commas(names, Keywords.Table))) ==
      if |names| > 1 && names[0] == "first" then None else Some((1, names))
  {
    Keywords.AnyIsFirstIsNot();
    BareRoundTrip(names, Keywords.Table, gaps);
  }
}
