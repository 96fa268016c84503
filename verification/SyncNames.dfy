/**
 synchronous_standby_names: the parser `parseSyncNames` and the description `SyncNames` of
 internal/rule/repl.go, proved against a grammar over tokens and against the printer `quoteIdent`.
 */
module SyncNames {
  import opened Wrappers
  import opened Names
  import opened SyncLexer

  // ---- numbers, as strconv.Atoi reads them into a 64-bit int ----

  const MAX_INT: nat := 0x7FFF_FFFF_FFFF_FFFF

  /** The value of a run of decimal digits. */
  function Digits(s: string): Option<nat> {
    if s == "" then Some(0)
    else
      var last := s[|s| - 1];
      if !('0' <= last <= '9') then None
      else match Digits(s[..|s| - 1])
        case None => None
        case Some(n) => Some(10 * n + (last as int - '0' as int))
  }

  function Atoi(s: string): Option<int> {
    var signed := s != "" && (s[0] == '-' || s[0] == '+');
    var body := if signed then s[1..] else s;
    if body == "" then None
    else match Digits(body)
      case None => None
      case Some(n) =>
        var v: int := if signed && s[0] == '-' then -(n as int) else n;
        if -(MAX_INT as int) - 1 <= v <= MAX_INT then Some(v) else None
  }

  /** A number as fmt prints it. */
  function Itoa(n: nat): string {
    (if n < 10 then "" else Itoa(n / 10)) + [(n % 10 + '0' as int) as char]
  }

  lemma {:induction false} DigitsOfItoa(n: nat)
    ensures Digits(Itoa(n)) == Some(n)
    ensures Itoa(n) != "" && forall c | c in Itoa(n) :: '0' <= c <= '9'
  {
    if n >= 10 {
      DigitsOfItoa(n / 10);
    }
    var s := Itoa(n);
    assert s[..|s| - 1] == if n < 10 then "" else Itoa(n / 10);
  }

  lemma AtoiOfDigits(s: string, n: nat)
    requires s != "" && (forall c | c in s :: '0' <= c <= '9')
    requires Digits(s) == Some(n)
    ensures Atoi(s) == if n <= MAX_INT then Some(n) else None
    ensures IsWord(Token(s, false))
  {
    assert s[0] in s;
  }

  lemma AtoiOfItoa(n: nat)
    ensures Atoi(Itoa(n)) == if n < 0x8000_0000_0000_0000 then Some(n) else None
    ensures IsWord(Token(Itoa(n), false))
  {
    DigitsOfItoa(n);
    AtoiOfDigits(Itoa(n), n);
  }

  // ---- decimal numbers by their places ----

  ghost predicate Decimal(s: string) {
    s != "" && forall i | 0 <= i < |s| :: '0' <= s[i] <= '9'
  }

  ghost function Power10(k: nat): nat {
    if k == 0 then 1 else 10 * Power10(k - 1)
  }

  /** Each digit times the power of ten of its place. */
  ghost function DecimalValue(s: string): int {
    if s == "" then 0 else (s[0] as int - '0' as int) * Power10(|s| - 1) + DecimalValue(s[1..])
  }

  lemma {:induction false} ValueOfMore(s: string, c: char)
    ensures DecimalValue(s + [c]) == 10 * DecimalValue(s) + (c as int - '0' as int)
  {
    var t := s + [c];
    if s == "" {
      assert t[1..] == "";
      assert Power10(0) == 1;
    } else {
      ValueOfMore(s[1..], c);
      assert t[1..] == s[1..] + [c];
      TenTimes(s[0] as int - '0' as int, Power10(|s| - 1));
    }
  }

  lemma TenTimes(d: int, p: int)
    ensures d * (10 * p) == 10 * (d * p)
  {
  }

  lemma {:induction false} DigitsByPlaces(s: string)
    requires s != ""
    ensures Digits(s).Some? <==> Decimal(s)
    ensures Decimal(s) ==> Digits(s) == Some(DecimalValue(s)) && DecimalValue(s) >= 0
  {
    var n := |s| - 1;
    assert s == s[..n] + [s[n]];
    ValueOfMore(s[..n], s[n]);
    assert Decimal(s) <==> (n == 0 || Decimal(s[..n])) && '0' <= s[n] <= '9' by {
      assert forall i | 0 <= i < n :: s[..n][i] == s[i];
    }
    if n > 0 {
      DigitsByPlaces(s[..n]);
    } else {
      assert s[..n] == "";
    }
  }

  /** Atoi reads decimal digits after an optional sign, into 64 bits, and nothing else. */
  lemma AtoiExactly(s: string, v: int)
    ensures Atoi(s) == Some(v) <==>
      && -0x8000_0000_0000_0000 <= v < 0x8000_0000_0000_0000
      && (|| (Decimal(s) && v == DecimalValue(s))
          || (s != "" && s[0] == '+' && Decimal(s[1..]) && v == DecimalValue(s[1..]))
          || (s != "" && s[0] == '-' && Decimal(s[1..]) && v == -DecimalValue(s[1..])))
  {
    if s != "" {
      var body := if s[0] == '-' || s[0] == '+' then s[1..] else s;
      if body != "" {
        DigitsByPlaces(body);
      }
    }
  }

  /** A count is printed in decimal, without a zero in front. */
  lemma {:induction false} ItoaByPlaces(n: nat)
    ensures Decimal(Itoa(n)) && DecimalValue(Itoa(n)) == n
    ensures |Itoa(n)| > 1 ==> Itoa(n)[0] != '0'
  {
    if n >= 10 {
      ItoaByPlaces(n / 10);
      ValueOfMore(Itoa(n / 10), (n % 10 + '0' as int) as char);
      assert |Itoa(n / 10)| == 1 ==> Itoa(n / 10)[0] as int - '0' as int == n / 10 by {
        assert |Itoa(n / 10)| == 1 ==> n / 10 < 10;
      }
    } else {
      ValueOfMore("", (n % 10 + '0' as int) as char);
      assert "" + [(n + '0' as int) as char] == Itoa(n);
    }
  }

  // ---- the method words, compared as strings.EqualFold does ----

  /** Simple case folding of one letter of the method words: the long s folds to s. */
  predicate FoldsTo(c: char, lower: char) {
    || c == lower
    || ('a' <= lower <= 'z' && c as int == lower as int - 32)
    || (lower == 's' && c == '\U{17F}')
  }

  predicate EqualFold(s: string, lower: string) {
    |s| == |lower| && forall i | 0 <= i < |s| :: FoldsTo(s[i], lower[i])
  }

  predicate IsFirst(t: Token) { !t.quoted && EqualFold(t.s, "first") }

  predicate IsAny(t: Token) { !t.quoted && EqualFold(t.s, "any") }

  // ---- the parser ----

  predicate IsName(t: Token) { t != COMMA && t != OPEN && t != CLOSE }

  /** name {, name} */
  predicate IsList(toks: seq<Token>) {
    && |toks| % 2 == 1
    && forall j | 0 <= j < |toks| :: if j % 2 == 0 then IsName(toks[j]) else toks[j] == COMMA
  }

  function ListNames(toks: seq<Token>): (names: seq<string>)
    requires |toks| % 2 == 1
    ensures |toks| == 2 * |names| - 1
  {
    seq((|toks| + 1) / 2, j requires 0 <= 2 * j < |toks| => toks[2 * j].s)
  }

  /** Is token i the number of an "N (" ? */
  predicate IsCount(toks: seq<Token>, i: nat) {
    i + 1 < |toks| && !toks[i].quoted && Atoi(toks[i].s).Some? && toks[i + 1] == OPEN
  }

  function Parse(toks: seq<Token>): Option<(nat, seq<string>)> {
    if toks == [] then Some((0, []))
    else
      var i := if |toks| > 1 && (IsFirst(toks[0]) || IsAny(toks[0])) then 1 else 0;
      var last := |toks| - 1;
      if IsCount(toks, i) then
        var n := Atoi(toks[i].s).value;
        if n < 0 || toks[last] != CLOSE || !IsList(toks[i + 2..last]) then None
        else Some((n, ListNames(toks[i + 2..last])))
      else if i == 1 || !IsList(toks) then None
      else Some((1, ListNames(toks)))
  }

  function ParseText(s: string): Option<(nat, seq<string>)> {
    match Lex(s)
    case None => None
    case Some(toks) => Parse(toks)
  }

  /** The part of parseSyncNames after the count: name {, name}. */
  method ReadNames(toks: seq<Token>) returns (names: seq<string>, ok: bool)
    ensures ok == IsList(toks)
    ensures names == if ok then ListNames(toks) else []
  {
    names := [];
    for j := 0 to |toks|
      invariant |names| == (j + 1) / 2
      invariant forall k | 0 <= k < |names| :: names[k] == toks[2 * k].s
      invariant forall k | 0 <= k < j :: if k % 2 == 0 then IsName(toks[k]) else toks[k] == COMMA
    {
      var t := toks[j];
      if j % 2 == 0 && (t.quoted || (t.s != "," && t.s != "(" && t.s != ")")) {
        names := names + [t.s];
      } else if j % 2 == 1 && t.s == "," && !t.quoted {
      } else {
        return [], false;
      }
    }
    if |names| == 0 || |toks| % 2 == 0 {
      return [], false;
    }
    assert names == ListNames(toks);
    return names, true;
  }

  /** parseSyncNames: no index or slice below is ever out of range. */
  method ParseSyncNames(s: string) returns (need: nat, names: seq<string>, ok: bool)
    ensures ok == ParseText(s).Some?
    ensures ok ==> ParseText(s) == Some((need, names))
    ensures !ok ==> need == 0 && names == []
  {
    hide Lex, Atoi, EqualFold, IsList;
    var toks, lexed := SyncTokens(s);
    if !lexed {
      return 0, [], false;
    }
    if |toks| == 0 {
      return 0, [], true;
    }
    need := 1;
    var i := 0;
    if |toks| > 1 && !toks[0].quoted && (EqualFold(toks[0].s, "first") || EqualFold(toks[0].s, "any")) {
      i := 1;
    }
    var n := Atoi(toks[i].s);
    if n.Some? && !toks[i].quoted && i + 1 < |toks| && toks[i + 1] == OPEN {
      if n.value < 0 || toks[|toks| - 1] != CLOSE {
        return 0, [], false;
      }
      need, toks := n.value, toks[i + 2..|toks| - 1];
    } else if i == 1 {
      return 0, [], false;
    }
    names, ok := ReadNames(toks);
    if !ok {
      return 0, [], false;
    }
  }

  // ---- the grammar ----

  datatype Form = Nothing | Bare | Count | First | Any

  /** `N (list)`, with N read as an int that is not negative. */
  ghost predicate Counted(toks: seq<Token>, need: nat, names: seq<string>) {
    exists num: Token, list: seq<Token> {:trigger [num, OPEN] + list} ::
      && toks == [num, OPEN] + list + [CLOSE]
      && !num.quoted && Atoi(num.s) == Some(need)
      && IsList(list) && names == ListNames(list)
  }

  /** The setting's grammar: nothing | list | N (list) | FIRST N (list) | ANY N (list). */
  ghost predicate Derives(form: Form, toks: seq<Token>, need: nat, names: seq<string>) {
    match form
    case Nothing => toks == [] && need == 0 && names == []
    case Bare => IsList(toks) && need == 1 && names == ListNames(toks) && (|toks| == 1 || !(IsFirst(toks[0]) || IsAny(toks[0])))
    case Count => Counted(toks, need, names)
    case First => toks != [] && IsFirst(toks[0]) && Counted(toks[1..], need, names)
    case Any => toks != [] && IsAny(toks[0]) && Counted(toks[1..], need, names)
  }

  lemma CountedAt(toks: seq<Token>, i: nat, need: nat, names: seq<string>)
    requires i <= |toks|
    ensures Counted(toks[i..], need, names) <==>
              && IsCount(toks, i) && Atoi(toks[i].s) == Some(need) && toks[|toks| - 1] == CLOSE
              && IsList(toks[i + 2..|toks| - 1]) && names == ListNames(toks[i + 2..|toks| - 1])
  {
    var rest := toks[i..];
    forall num: Token, list: seq<Token> | rest == [num, OPEN] + list + [CLOSE]
      ensures toks[i] == num && toks[i + 1] == OPEN && toks[|toks| - 1] == CLOSE && toks[i + 2..|toks| - 1] == list
    {
      assert rest[0] == num && rest[1] == OPEN && rest[|rest| - 1] == CLOSE;
      assert list == rest[2..|rest| - 1];
    }
    if IsCount(toks, i) && toks[|toks| - 1] == CLOSE {
      var list := toks[i + 2..|toks| - 1];
      assert rest == [toks[i], OPEN] + list + [CLOSE];
    }
  }

  lemma NotAnInt(t: Token)
    requires IsFirst(t) || IsAny(t)
    ensures Atoi(t.s).None?
  {
    var body := t.s;
    assert FoldsTo(body[|body| - 1], if IsFirst(t) then 't' else 'y');
  }

  /** The branch the parser takes decides the only form a token list can have. */
  function FormOf(toks: seq<Token>): Form {
    if toks == [] then Nothing
    else if |toks| > 1 && IsFirst(toks[0]) then First
    else if |toks| > 1 && IsAny(toks[0]) then Any
    else if IsCount(toks, 0) then Count
    else Bare
  }

  lemma DerivesOnlyFormOf(form: Form, toks: seq<Token>, need: nat, names: seq<string>)
    requires Derives(form, toks, need, names)
    ensures form == FormOf(toks)
  {
    CountedAt(toks, 0, need, names);
    assert toks[0..] == toks;
    if toks != [] {
      CountedAt(toks, 1, need, names);
      if IsFirst(toks[0]) || IsAny(toks[0]) {
        NotAnInt(toks[0]);
      }
      if IsFirst(toks[0]) && IsAny(toks[0]) {
        assert false;
      }
    }
  }

  /** parseSyncNames accepts exactly the grammar, with the grammar's number and names. */
  lemma ParseIsGrammar(toks: seq<Token>, need: nat, names: seq<string>)
    ensures Parse(toks) == Some((need, names)) <==> Derives(FormOf(toks), toks, need, names)
    ensures Parse(toks) == Some((need, names)) <==> exists form :: Derives(form, toks, need, names)
  {
    hide Atoi, EqualFold, IsList, ListNames, Counted;
    CountedAt(toks, 0, need, names);
    assert toks[0..] == toks;
    if toks != [] {
      CountedAt(toks, 1, need, names);
    }
    forall form | Derives(form, toks, need, names)
      ensures form == FormOf(toks)
    {
      DerivesOnlyFormOf(form, toks, need, names);
    }
  }

  /** A bare list that opens with an unquoted FIRST or ANY is rejected, whatever follows. */
  lemma BareMethodWordRejected(toks: seq<Token>)
    requires |toks| > 1 && (IsFirst(toks[0]) || IsAny(toks[0]))
    requires IsList(toks)
    ensures Parse(toks).None?
  {
    assert toks[1] == COMMA;
    assert Digits(",").None?;
  }

  // ---- lists and method words, by their characters ----

  /** Tokens with a comma between each two. */
  ghost function Joined(ns: seq<Token>): (toks: seq<Token>)
    requires ns != []
    ensures |toks| == 2 * |ns| - 1
  {
    if |ns| == 1 then ns else [ns[0], Token(",", false)] + Joined(ns[1..])
  }

  /** No token a list could not hold: quoted, or no punctuation. */
  ghost predicate AllNames(ns: seq<Token>) {
    ns != [] && forall i | 0 <= i < |ns| :: ns[i].quoted || ns[i].s !in {",", "(", ")"}
  }

  lemma {:induction false} JoinedAt(ns: seq<Token>, j: nat)
    requires ns != [] && j < 2 * |ns| - 1
    ensures Joined(ns)[j] == if j % 2 == 0 then ns[j / 2] else Token(",", false)
  {
    if j >= 2 {
      JoinedAt(ns[1..], j - 2);
      assert j % 2 == 0 ==> ns[1..][(j - 2) / 2] == ns[j / 2];
    }
  }

  /** A list is exactly names joined with commas, and its names are theirs in order. */
  lemma ListExactly(toks: seq<Token>)
    ensures IsList(toks) <==> exists ns :: AllNames(ns) && Joined(ns) == toks
  {
    if IsList(toks) {
      var ns := ListTokens(toks);
    }
    forall ns | AllNames(ns) && Joined(ns) == toks
      ensures IsList(toks)
    {
      ListOfJoined(ns);
    }
  }

  lemma ListTokens(toks: seq<Token>) returns (ns: seq<Token>)
    requires IsList(toks)
    ensures AllNames(ns) && Joined(ns) == toks
  {
    ns := seq((|toks| + 1) / 2, i requires 0 <= 2 * i < |toks| => toks[2 * i]);
    forall i | 0 <= i < |ns|
      ensures ns[i].quoted || ns[i].s !in {",", "(", ")"}
    {
      assert IsName(toks[2 * i]);
    }
    forall j | 0 <= j < |toks|
      ensures Joined(ns)[j] == toks[j]
    {
      JoinedAt(ns, j);
    }
  }

  lemma ListOfJoined(ns: seq<Token>)
    requires AllNames(ns)
    ensures IsList(Joined(ns)) && |ListNames(Joined(ns))| == |ns|
    ensures forall i | 0 <= i < |ns| :: ListNames(Joined(ns))[i] == ns[i].s
  {
    hide Joined;
    var toks := Joined(ns);
    forall j | 0 <= j < |toks|
      ensures toks[j] == if j % 2 == 0 then ns[j / 2] else Token(",", false)
    {
      JoinedAt(ns, j);
    }
    forall i | 0 <= i < |ns|
      ensures toks[2 * i] == ns[i]
    {
      assert (2 * i) / 2 == i;
    }
  }

  /** ANY in any letter case, and nothing else. */
  lemma AnyExactly(t: Token)
    ensures IsAny(t) <==> !t.quoted && |t.s| == 3 && forall i | 0 <= i < 3 :: t.s[i] == "any"[i] || t.s[i] == "ANY"[i]
  {
    assert forall i | 0 <= i < 3 :: "ANY"[i] as int == "any"[i] as int - 32;
    assert forall i | 0 <= i < 3 && |t.s| == 3 :: FoldsTo(t.s[i], "any"[i]) <==> t.s[i] == "any"[i] || t.s[i] == "ANY"[i];
  }

  /** FIRST in any letter case, a long s for the s included, and nothing else. */
  lemma FirstExactly(t: Token)
    ensures IsFirst(t) <==>
      !t.quoted && |t.s| == 5 && forall i | 0 <= i < 5 :: t.s[i] == "first"[i] || t.s[i] == "FIRST"[i] || (i == 3 && t.s[i] == '\U{17F}')
  {
    assert forall i | 0 <= i < 5 :: "FIRST"[i] as int == "first"[i] as int - 32 && ("first"[i] == 's' <==> i == 3);
    assert forall i | 0 <= i < 5 && |t.s| == 5 ::
      FoldsTo(t.s[i], "first"[i]) <==> t.s[i] == "first"[i] || t.s[i] == "FIRST"[i] || (i == 3 && t.s[i] == '\U{17F}');
  }

  // ---- the description ----

  datatype Wording = NoWording | AnyOf(n: nat) | FirstBy(n: nat)

  /** SyncNames: it lexes the text a second time to choose between the two wordings. */
  method SyncNames(s: string) returns (need: nat, names: seq<string>, desc: Wording, ok: bool)
    ensures ok == ParseText(s).Some?
    ensures ok ==> ParseText(s) == Some((need, names))
    ensures desc.NoWording? <==> !ok || need == 0
    ensures ok && need > 0 ==> desc == if FormOf(Lex(s).value).Any? then AnyOf(need) else FirstBy(need)
  {
    need, names, ok := ParseSyncNames(s);
    if !ok || need == 0 {
      return need, names, NoWording, ok;
    }
    var toks, _ := SyncTokens(s);
    if |toks| > 2 && !toks[0].quoted && EqualFold(toks[0].s, "any") {
      return need, names, AnyOf(need), true;
    }
    return need, names, FirstBy(need), true;
  }
}
