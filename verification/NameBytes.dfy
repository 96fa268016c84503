/**
 Code points and bytes: quoting a name commutes with UTF-8, so what is proved of `quoteIdent` over code
 points (the way the parser of synchronous_standby_names reads) is also true of the bytes it is printed in.
 */
module NameBytes {
  import opened Names
  import opened Utf8

  /** The UTF-8 encoding of a text given as code points. */
  function Bytes(t: string): string {
    if t == "" then "" else Encode(t[0] as int) + Bytes(t[1..])
  }

  lemma {:induction false} BytesConcat(a: string, b: string)
    ensures Bytes(a + b) == Bytes(a) + Bytes(b)
  {
    if a == "" {
      assert a + b == b;
    } else {
      hide Encode;
      BytesConcat(a[1..], b);
      assert (a + b)[1..] == a[1..] + b;
      Regroup(Encode(a[0] as int), Bytes(a[1..]), Bytes(b));
    }
  }

  predicate AboveAscii(t: string) {
    forall i | 0 <= i < |t| :: t[i] as int >= 0x80
  }

  lemma EncodeHead(c: char)
    ensures if c as int < 0x80 then Encode(c as int) == [c] else AboveAscii(Encode(c as int))
  {
    var r := c as int;
    if r >= 0x80 {
      var e := Encode(r);
      assert e[0] as int >= 0x80 && e[1] as int >= 0x80;
      assert |e| > 2 ==> e[2] as int >= 0x80;
      assert |e| > 3 ==> e[3] as int >= 0x80;
    }
  }

  predicate Ascii(t: string) {
    forall i | 0 <= i < |t| :: t[i] as int < 0x80
  }

  /** The encoding has only ASCII bytes exactly when the text is ASCII, and then it is the text itself. */
  lemma {:induction false} AsciiBytes(t: string)
    ensures Ascii(t) <==> Ascii(Bytes(t))
    ensures Ascii(t) ==> Bytes(t) == t
  {
    if t != "" {
      AsciiBytes(t[1..]);
      EncodeHead(t[0]);
      hide Encode;
      var e, rest := Encode(t[0] as int), Bytes(t[1..]);
      assert Bytes(t) == e + rest;
      assert t == [t[0]] + t[1..];
      AsciiConcat([t[0]], t[1..]);
      AsciiConcat(e, rest);
      assert e[0] as int < 0x80 <==> t[0] as int < 0x80;
      assert Ascii(e) <==> Ascii([t[0]]);
    }
  }

  lemma AsciiConcat(a: string, b: string)
    ensures Ascii(a + b) <==> Ascii(a) && Ascii(b)
  {
    assert forall i | 0 <= i < |a| :: (a + b)[i] == a[i];
    assert forall i | 0 <= i < |b| :: (a + b)[|a| + i] == b[i];
  }

  lemma PlainBytes(t: string, keywords: set<string>)
    ensures Plain(Bytes(t), keywords) <==> Plain(t, keywords)
    ensures Plain(t, keywords) ==> Bytes(t) == t
  {
    AsciiBytes(t);
  }

  lemma {:induction false} DoubledBytes(t: string)
    ensures Doubled(Bytes(t)) == Bytes(Doubled(t))
  {
    if t != "" {
      DoubledBytes(t[1..]);
      EncodeHead(t[0]);
      var c := if t[0] == QUOTE then [QUOTE, QUOTE] else [t[0]];
      QuotePairBytes(t[0]);
      hide Encode;
      DoubledConcat(Encode(t[0] as int), Bytes(t[1..]));
      BytesConcat(c, Doubled(t[1..]));
    }
  }

  /** Doubling the quotes of one encoded character. */
  lemma QuotePairBytes(c: char)
    ensures Doubled(Encode(c as int)) == Bytes(if c == QUOTE then [QUOTE, QUOTE] else [c])
  {
    EncodeHead(c);
    var e := Encode(c as int);
    hide Encode;
    if c == QUOTE {
      AsciiBytes([QUOTE, QUOTE]);
      assert e[1..] == "";
    } else {
      DoubledWithoutQuotes(e);
      assert [c][1..] == "";
    }
  }

  /** Quoting the code points and encoding the result is quoting the encoded bytes. */
  lemma QuotedBytes(t: string, keywords: set<string>)
    ensures Quoted(Bytes(t), keywords) == Bytes(Quoted(t, keywords))
  {
    PlainBytes(t, keywords);
    DoubledBytes(t);
    AsciiBytes([QUOTE]);
    BytesConcat([QUOTE], Doubled(t));
    BytesConcat([QUOTE] + Doubled(t), [QUOTE]);
  }
}
