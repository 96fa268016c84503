/**
 The line a table's dead tuples are judged against: `VacuumThreshold` of internal/rule/vacuum.go and
 `parseBool` of internal/rule/names.go.

 The server computes in float4. Its numbers are a parameter, with the operations the code uses: what is
 proved holds for any arithmetic, rounding included.
 */
module VacuumOptions {
  import opened Wrappers
  import opened Strings

  // ---- parseBool ----

  /** A word, how many of its letters are enough, and what it means. */
  datatype Word = Word(text: string, min: nat, value: bool)

  const WORDS: seq<Word> := [
    Word("true", 1, true), Word("false", 1, false), Word("yes", 1, true), Word("no", 1, false),
    Word("on", 2, true), Word("off", 2, false), Word("1", 1, true), Word("0", 1, false)
  ]

  /** strings.ToLower, as far as the words can tell: no letter outside ASCII becomes one of theirs. */
  function Lower(s: string): (r: string)
    ensures |r| == |s|
  {
    seq(|s|, i requires 0 <= i < |s| => if 'A' <= s[i] <= 'Z' then (s[i] as int + 32) as char else s[i])
  }

  predicate Fits(t: string, x: Word) {
    |t| >= x.min && t <= x.text
  }

  /** The value of the first word from the i-th on that fits. */
  function FirstFit(t: string, i: nat): Option<bool>
    requires i <= |WORDS|
    decreases |WORDS| - i
  {
    if i == |WORDS| then None
    else if Fits(t, WORDS[i]) then Some(WORDS[i].value)
    else FirstFit(t, i + 1)
  }

  function ParsedBool(s: string): Option<bool> {
    var t := Lower(Trim(s));
    if t == "" then None else FirstFit(t, 0)
  }

  method ParseBool(s: string) returns (value: bool, ok: bool)
    ensures ok == ParsedBool(s).Some?
    ensures ok ==> ParsedBool(s) == Some(value)
  {
    hide Trim, Fits;
    var t := Lower(Trim(s));
    if t == "" {
      return false, false;
    }
    for i := 0 to |WORDS|
      invariant FirstFit(t, 0) == FirstFit(t, i)
    {
      var x := WORDS[i];
      if Fits(t, x) {
        return x.value, true;
      }
    }
    return false, false;
  }

  /** t abbreviates word i. */
  predicate Abbreviates(t: string, i: nat)
    requires i < |WORDS|
  {
    t != "" && t <= WORDS[i].text
  }

  /** Where abbreviations of the words can be told apart: by their first letter, but for on and off. */
  lemma FirstLetters(t: string, i: nat, j: nat)
    requires i < j < |WORDS| && Abbreviates(t, i) && Abbreviates(t, j)
    ensures t == "o" && i == 4 && j == 5
  {
    assert t[0] == WORDS[i].text[0] == WORDS[j].text[0];
    assert i == 4 && j == 5;
    assert t[..|t|] == t == "on"[..|t|] && "on"[1] != "off"[1];
  }

  /** The least lengths of the table pick out exactly the abbreviations that belong to one word alone. */
  lemma FitsExactlyUnique(t: string, i: nat)
    requires i < |WORDS|
    ensures t != "" && Fits(t, WORDS[i]) <==> Abbreviates(t, i) && forall j | 0 <= j < |WORDS| && Abbreviates(t, j) :: j == i
  {
    if Abbreviates(t, i) {
      forall j | 0 <= j < |WORDS| && Abbreviates(t, j) && j != i
        ensures t == "o" && {i, j} == {4, 5}
      {
        if i < j {
          FirstLetters(t, i, j);
        } else {
          FirstLetters(t, j, i);
        }
      }
      if t == "o" {
        assert Abbreviates(t, 4) && Abbreviates(t, 5);
      }
      assert |t| == 1 && (i == 4 || i == 5) ==> t == "o" by {
        assert t[0] == WORDS[i].text[0];
      }
    }
  }

  lemma {:induction false} FirstFitIs(t: string, i: nat, v: bool)
    requires i <= |WORDS| && t != ""
    ensures FirstFit(t, i) == Some(v) ==> exists k | i <= k < |WORDS| :: Fits(t, WORDS[k]) && WORDS[k].value == v
    ensures FirstFit(t, i) == None ==> forall k | i <= k < |WORDS| :: !Fits(t, WORDS[k])
    decreases |WORDS| - i
  {
    hide WORDS, Fits;
    if i < |WORDS| {
      FirstFitIs(t, i + 1, v);
    }
  }

  /** A boolean is read exactly from a unique abbreviation of one of the words, in any letter case, and means what that word does. */
  lemma ParseBoolExactly(s: string, v: bool)
    ensures var t := Lower(Trim(s));
      ParsedBool(s) == Some(v) <==>
        exists i | 0 <= i < |WORDS| ::
          Abbreviates(t, i) && WORDS[i].value == v && forall j | 0 <= j < |WORDS| && Abbreviates(t, j) :: j == i
  {
    var t := Lower(Trim(s));
    hide Lower, Trim;
    if t != "" {
      forall i | 0 <= i < |WORDS|
        ensures Fits(t, WORDS[i]) <==> Abbreviates(t, i) && forall j | 0 <= j < |WORDS| && Abbreviates(t, j) :: j == i
      {
        FitsExactlyUnique(t, i);
      }
      FirstFitIs(t, 0, v);
      FirstFitIs(t, 0, !v);
    }
  }

  /** s is a lower-case word with any of its letters as capitals. */
  ghost predicate Spells(s: string, word: string) {
    |s| == |word| && forall i | 0 <= i < |s| :: s[i] == word[i] || ('a' <= word[i] <= 'z' && s[i] as int == word[i] as int - 32)
  }

  /** s spells the front of a word. */
  ghost predicate SpellsFront(s: string, word: string) {
    s != "" && |s| <= |word| && Spells(s, word[..|s|])
  }

  lemma LowerFront(s: string, word: string)
    requires forall i | 0 <= i < |word| :: !('A' <= word[i] <= 'Z')
    ensures s != "" && Lower(s) <= word <==> SpellsFront(s, word)
  {
    if |s| <= |word| {
      assert forall i | 0 <= i < |s| :: Lower(s)[i] == word[i] <==> s[i] == word[i] || ('a' <= word[i] <= 'z' && s[i] as int == word[i] as int - 32);
      assert Lower(s) <= word <==> forall i | 0 <= i < |s| :: Lower(s)[i] == word[i];
    }
  }

  /** What the texts of a boolean are, and what each means. */
  lemma ParseBoolMeans(s: string)
    ensures var t := Trim(s);
      && (ParsedBool(s) == Some(true) <==> SpellsFront(t, "true") || SpellsFront(t, "yes") || Spells(t, "on") || t == "1")
      && (ParsedBool(s) == Some(false) <==> SpellsFront(t, "false") || SpellsFront(t, "no") || Spells(t, "of") || Spells(t, "off") || t == "0")
  {
    var t := Trim(s);
    hide Trim;
    LowerFront(t, "true");
    LowerFront(t, "false");
    LowerFront(t, "yes");
    LowerFront(t, "no");
    LowerFront(t, "on");
    LowerFront(t, "off");
    LowerFront(t, "1");
    LowerFront(t, "0");
    FrontOfOn(t);
    if t != "" {
      AllFits(Lower(t));
    }
  }

  lemma FrontOfOn(t: string)
    ensures Spells(t, "on") <==> SpellsFront(t, "on") && |t| >= 2
    ensures Spells(t, "of") || Spells(t, "off") <==> SpellsFront(t, "off") && |t| >= 2
    ensures t == "1" <==> SpellsFront(t, "1")
    ensures t == "0" <==> SpellsFront(t, "0")
  {
    assert "on"[..2] == "on" && "off"[..3] == "off" && "off"[..2] == "of" && "1"[..1] == "1" && "0"[..1] == "0";
  }

  /** The value read, word by word. */
  lemma AllFits(t: string)
    requires t != ""
    ensures FirstFit(t, 0) == Some(true) <==> t <= "true" || t <= "yes" || (t <= "on" && |t| >= 2) || t <= "1"
    ensures FirstFit(t, 0) == Some(false) <==> t <= "false" || t <= "no" || (t <= "off" && |t| >= 2) || t <= "0"
  {
    FirstFitIs(t, 0, true);
    FirstFitIs(t, 0, false);
    OneFits(t);
    TheWords();
    hide WORDS, FirstFit;
    assert Fits(t, WORDS[0]) || Fits(t, WORDS[2]) || Fits(t, WORDS[4]) || Fits(t, WORDS[6]) <==>
      exists k | 0 <= k < |WORDS| :: Fits(t, WORDS[k]) && WORDS[k].value;
    assert Fits(t, WORDS[1]) || Fits(t, WORDS[3]) || Fits(t, WORDS[5]) || Fits(t, WORDS[7]) <==>
      exists k | 0 <= k < |WORDS| :: Fits(t, WORDS[k]) && !WORDS[k].value;
  }

  lemma OneFits(t: string)
    requires t != ""
    ensures forall i, j | 0 <= i < |WORDS| && 0 <= j < |WORDS| && Fits(t, WORDS[i]) && Fits(t, WORDS[j]) :: i == j
  {
    forall i | 0 <= i < |WORDS|
      ensures Fits(t, WORDS[i]) <==> Abbreviates(t, i) && forall j | 0 <= j < |WORDS| && Abbreviates(t, j) :: j == i
    {
      FitsExactlyUnique(t, i);
    }
    hide WORDS, Fits, Abbreviates;
  }

  lemma TheWords()
    ensures |WORDS| == 8
    ensures WORDS[0] == Word("true", 1, true) && WORDS[1] == Word("false", 1, false) && WORDS[2] == Word("yes", 1, true) && WORDS[3] == Word("no", 1, false)
    ensures WORDS[4] == Word("on", 2, true) && WORDS[5] == Word("off", 2, false) && WORDS[6] == Word("1", 1, true) && WORDS[7] == Word("0", 1, false)
  {
  }

  // ---- VacuumThreshold ----

  /** The numbers the threshold is computed in. */
  datatype Arith<!F> = Arith(parse: string -> Option<F>, add: (F, F) -> F, mul: (F, F) -> F, atMost: (F, F) -> bool)

  const ENABLED: string := "autovacuum_enabled"
  const BASE: string := "autovacuum_vacuum_threshold"
  const SCALE: string := "autovacuum_vacuum_scale_factor"

  /** What one "name=value" entry says about a name; None when it is about another, or does not parse. */
  function Says<T>(option: string, name: string, parse: string -> Option<T>): Option<T> {
    var i := Index(option, '=');
    if i < |option| && option[..i] == name then parse(option[i + 1..]) else None
  }

  /** The last entry that says something about a name decides. */
  function Chosen<T>(options: seq<string>, name: string, parse: string -> Option<T>, default: T): T {
    if options == [] then default
    else
      var said := Says(options[|options| - 1], name, parse);
      if said.Some? then said.value else Chosen(options[..|options| - 1], name, parse, default)
  }

  const READ_BOOL: string -> Option<bool> := (s: string) => ParsedBool(s)

  function Threshold<F>(options: seq<string>, base: F, scale: F, reltuples: F, a: Arith<F>): F {
    a.add(Chosen(options, BASE, a.parse, base), a.mul(Chosen(options, SCALE, a.parse, scale), reltuples))
  }

  predicate Enabled(options: seq<string>) {
    Chosen(options, ENABLED, READ_BOOL, true)
  }

  /** One loop keeps all three settings. */
  method VacuumThreshold<F>(options: seq<string>, base: F, scale: F, reltuples: F, a: Arith<F>) returns (threshold: F, on: bool)
    ensures threshold == Threshold(options, base, scale, reltuples, a)
    ensures on == Enabled(options)
    ensures threshold == a.add(
      Chosen(options, "autovacuum_vacuum_threshold", a.parse, base),
      a.mul(Chosen(options, "autovacuum_vacuum_scale_factor", a.parse, scale), reltuples))
    ensures on == Chosen(options, "autovacuum_enabled", READ_BOOL, true)
  {
    hide ParsedBool, Index;
    var b, sf := base, scale;
    on := true;
    for n := 0 to |options|
      invariant b == Chosen(options[..n], BASE, a.parse, base)
      invariant sf == Chosen(options[..n], SCALE, a.parse, scale)
      invariant on == Chosen(options[..n], ENABLED, READ_BOOL, true)
    {
      assert options[..n + 1][..n] == options[..n];
      var i := Index(options[n], '=');
      if i == |options[n]| {
        continue;
      }
      var k, v := options[n][..i], options[n][i + 1..];
      OptionNames(k);
      if k == ENABLED {
        var value, ok := ParseBool(v);
        if ok {
          on := value;
        }
      } else if k == BASE {
        var f := a.parse(v);
        if f.Some? {
          b := f.value;
        }
      } else if k == SCALE {
        var f := a.parse(v);
        if f.Some? {
          sf := f.value;
        }
      }
    }
    assert options[..|options|] == options;
    threshold := a.add(b, a.mul(sf, reltuples));
  }

  lemma OptionNames(k: string)
    ensures k == ENABLED ==> k != BASE && k != SCALE
    ensures k == BASE ==> k != SCALE
  {
    assert |ENABLED| != |BASE| && |BASE| != |SCALE| && |ENABLED| != |SCALE|;
  }

  /** An entry says something about a name exactly when it is that name, an equals sign and a text that parses. */
  lemma SaysExactly<T>(option: string, name: string, parse: string -> Option<T>, said: T)
    requires '=' !in name
    ensures Says(option, name, parse) == Some(said) <==> exists v: string :: option == name + "=" + v && parse(v) == Some(said)
  {
    var i := Index(option, '=');
    if i < |option| && option[..i] == name {
      assert option == name + "=" + option[i + 1..];
    }
    forall v: string | option == name + "=" + v
      ensures i == |name| && option[..i] == name && option[i + 1..] == v
    {
      assert option[|name|] == '=';
      assert forall j | 0 <= j < |name| :: option[j] == name[j] && name[j] in name;
    }
  }

  /** The last entry that says something decides, and the default only when none does. */
  lemma {:induction false} ChosenExactly<T>(options: seq<string>, name: string, parse: string -> Option<T>, default: T)
    ensures
      || (Chosen(options, name, parse, default) == default && forall j | 0 <= j < |options| :: Says(options[j], name, parse).None?)
      || exists i | 0 <= i < |options| ::
           && Says(options[i], name, parse) == Some(Chosen(options, name, parse, default))
           && forall j | i < j < |options| :: Says(options[j], name, parse).None?
  {
    if options != [] {
      hide Says;
      var n := |options| - 1;
      var init := options[..n];
      ChosenExactly(init, name, parse, default);
      assert forall j | 0 <= j < n :: init[j] == options[j];
      if Says(options[n], name, parse).None? {
        if i :| 0 <= i < n && Says(init[i], name, parse) == Some(Chosen(init, name, parse, default)) && (forall j | i < j < n :: Says(init[j], name, parse).None?) {
          assert Says(options[i], name, parse) == Some(Chosen(options, name, parse, default));
        }
      }
    }
  }

  /** Entries after the last one that says something change nothing; without one the server's setting stays. */
  lemma {:induction false} LastEntryDecides<T>(options: seq<string>, name: string, parse: string -> Option<T>, default: T, i: nat)
    requires i <= |options|
    requires forall j | i <= j < |options| :: Says(options[j], name, parse).None?
    ensures Chosen(options, name, parse, default) ==
      if i == 0 then default
      else if Says(options[i - 1], name, parse).Some? then Says(options[i - 1], name, parse).value
      else Chosen(options[..i - 1], name, parse, default)
  {
    if i < |options| {
      var n := |options| - 1;
      LastEntryDecides(options[..n], name, parse, default, i);
      assert i > 0 ==> options[..n][..i - 1] == options[..i - 1];
    } else {
      assert options[..i] == options;
    }
  }
}
