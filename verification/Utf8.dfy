/**
 UTF-8 as Go's unicode/utf8 decodes it, against the encoding of section 3 and the byte ranges of section 4 of RFC 3629.

 A byte string is a sequence of characters, one per byte. A character of 256 or more is never part
 of a valid encoding, so everything here is total on strings.
 */
module Utf8 {

  /** Unicode scalar values. */
  predicate IsScalar(r: int) {
    0 <= r < 0xD800 || 0xE000 <= r <= 0x10FFFF
  }

  function Byte(b: int): char
    requires 0 <= b < 256
  {
    b as char
  }

  /** What is left of a rune without its low six bits. */
  function Rest(r: nat): nat { r / 0x40 }

  /** The byte that carries the low six bits. */
  function Tail(r: nat): char { Byte(0x80 + r % 0x40) }

  /** RFC 3629, section 3. */
  function Encode(r: int): (s: string)
    requires IsScalar(r)
    ensures 1 <= |s| <= 4
  {
    var r1, r2, r3 := Rest(r), Rest(Rest(r)), Rest(Rest(Rest(r)));
    if r < 0x80 then [Byte(r)]
    else if r < 0x800 then [Byte(0xC0 + r1), Tail(r)]
    else if r < 0x10000 then [Byte(0xE0 + r2), Tail(r1), Tail(r)]
    else [Byte(0xF0 + r3), Tail(r2), Tail(r1), Tail(r)]
  }

  function EncodeAll(rs: seq<int>): string
    requires forall i | 0 <= i < |rs| :: IsScalar(rs[i])
  {
    if rs == [] then "" else Encode(rs[0]) + EncodeAll(rs[1..])
  }

  // ---- decoding ----

  datatype Decoded = Rune(code: int, size: nat) | Invalid

  predicate IsTail(c: char) {
    0x80 <= c as int <= 0xBF
  }

  /** The second bytes allowed after a first byte of a three-byte encoding. */
  predicate SecondOf3(b0: int, b1: int) {
    (if b0 == 0xE0 then 0xA0 else 0x80) <= b1 <= (if b0 == 0xED then 0x9F else 0xBF)
  }

  predicate SecondOf4(b0: int, b1: int) {
    (if b0 == 0xF0 then 0x90 else 0x80) <= b1 <= (if b0 == 0xF4 then 0x8F else 0xBF)
  }

  /** utf8.DecodeRuneInString; Invalid is (RuneError, 1). */
  function Decode(s: string): (d: Decoded)
    requires s != ""
    ensures d.Rune? ==> 1 <= d.size <= 4 && d.size <= |s|
  {
    var b0 := s[0] as int;
    if b0 < 0x80 then Rune(b0, 1)
    else if 0xC2 <= b0 <= 0xDF && |s| >= 2 && IsTail(s[1]) then
      Rune((b0 - 0xC0) * 0x40 + (s[1] as int - 0x80), 2)
    else if 0xE0 <= b0 <= 0xEF && |s| >= 3 && SecondOf3(b0, s[1] as int) && IsTail(s[2]) then
      Rune((b0 - 0xE0) * 0x1000 + (s[1] as int - 0x80) * 0x40 + (s[2] as int - 0x80), 3)
    else if 0xF0 <= b0 <= 0xF4 && |s| >= 4 && SecondOf4(b0, s[1] as int) && IsTail(s[2]) && IsTail(s[3]) then
      Rune((b0 - 0xF0) * 0x40000 + (s[1] as int - 0x80) * 0x1000 + (s[2] as int - 0x80) * 0x40 + (s[3] as int - 0x80), 4)
    else Invalid
  }

  /** utf8.ValidString */
  predicate Valid(s: string)
    decreases |s|
  {
    s == "" || (Decode(s).Rune? && Valid(s[Decode(s).size..]))
  }

  /** A rune cut into six-bit digits below a leading one. */
  lemma SixBits(a: nat, b: nat, c: nat, d: nat)
    requires b < 0x40 && c < 0x40 && d < 0x40
    ensures var r := a * 0x40000 + b * 0x1000 + c * 0x40 + d;
      && Rest(r) == a * 0x1000 + b * 0x40 + c && r % 0x40 == d
      && Rest(Rest(r)) == a * 0x40 + b && Rest(r) % 0x40 == c
      && Rest(Rest(Rest(r))) == a && Rest(Rest(r)) % 0x40 == b
  {
  }

  /** The examples of section 7 of RFC 3629. */
  lemma Examples()
    ensures Encode(0x41) == ['\U{41}']
    ensures Encode(0x391) == ['\U{CE}', '\U{91}']
    ensures Encode(0x2262) == ['\U{E2}', '\U{89}', '\U{A2}']
    ensures Encode(0xD55C) == ['\U{ED}', '\U{95}', '\U{9C}']
    ensures Encode(0x233B4) == ['\U{F0}', '\U{A3}', '\U{8E}', '\U{B4}']
  {
  }

  lemma EncodeOfDecode2(s: string)
    requires s != "" && Decode(s).Rune? && Decode(s).size == 2
    ensures IsScalar(Decode(s).code) && Encode(Decode(s).code) == s[..2]
  {
    SixBits(0, 0, s[0] as int - 0xC0, s[1] as int - 0x80);
  }

  lemma EncodeOfDecode3(s: string)
    requires s != "" && Decode(s).Rune? && Decode(s).size == 3
    ensures IsScalar(Decode(s).code) && Encode(Decode(s).code) == s[..3]
  {
    SixBits(0, s[0] as int - 0xE0, s[1] as int - 0x80, s[2] as int - 0x80);
  }

  lemma EncodeOfDecode4(s: string)
    requires s != "" && Decode(s).Rune? && Decode(s).size == 4
    ensures IsScalar(Decode(s).code) && Encode(Decode(s).code) == s[..4]
  {
    SixBits(s[0] as int - 0xF0, s[1] as int - 0x80, s[2] as int - 0x80, s[3] as int - 0x80);
  }

  lemma EncodeOfDecode(s: string)
    requires s != "" && Decode(s).Rune?
    ensures IsScalar(Decode(s).code)
    ensures Encode(Decode(s).code) == s[..Decode(s).size]
  {
    var n := Decode(s).size;
    if n == 1 {
    } else {
      assert 2 <= n <= 4;
      hide Decode, Encode;
      if n == 2 {
        EncodeOfDecode2(s);
      } else if n == 3 {
        EncodeOfDecode3(s);
      } else {
        EncodeOfDecode4(s);
      }
    }
  }

  lemma DecodeOfEncode2(r: int, s: string)
    requires 0x80 <= r < 0x800 && Encode(r) <= s
    ensures Decode(s) == Rune(r, 2)
  {
    var e := Encode(r);
    assert s[0] == e[0] && s[1] == e[1];
  }

  lemma DecodeOfEncode3(r: int, s: string)
    requires 0x800 <= r < 0x10000 && IsScalar(r) && Encode(r) <= s
    ensures Decode(s) == Rune(r, 3)
  {
    var e := Encode(r);
    assert s[0] == e[0] && s[1] == e[1] && s[2] == e[2];
  }

  lemma DecodeOfEncode4(r: int, s: string)
    requires 0x10000 <= r && IsScalar(r) && Encode(r) <= s
    ensures Decode(s) == Rune(r, 4)
  {
    var e := Encode(r);
    assert s[0] == e[0] && s[1] == e[1] && s[2] == e[2] && s[3] == e[3];
  }

  lemma DecodeOfEncode(r: int, rest: string)
    requires IsScalar(r)
    ensures Decode(Encode(r) + rest) == Rune(r, |Encode(r)|)
  {
    var s := Encode(r) + rest;
    if r < 0x80 {
    } else if r < 0x800 {
      DecodeOfEncode2(r, s);
    } else if r < 0x10000 {
      DecodeOfEncode3(r, s);
    } else {
      DecodeOfEncode4(r, s);
    }
  }

  /** Only the bytes of the rune decide how it decodes. */
  lemma DecodePrefix(s: string, t: string)
    requires s != "" && Decode(s).Rune? && Decode(s).size <= |t| && t[..Decode(s).size] == s[..Decode(s).size]
    ensures Decode(t) == Decode(s)
  {
    assert forall i | 0 <= i < Decode(s).size :: t[i] == t[..Decode(s).size][i] == s[i];
  }

  lemma {:induction false} ValidEncodeAll(rs: seq<int>)
    requires forall i | 0 <= i < |rs| :: IsScalar(rs[i])
    ensures Valid(EncodeAll(rs))
  {
    if rs != [] {
      hide Decode, Encode;
      ValidEncodeAll(rs[1..]);
      DecodeOfEncode(rs[0], EncodeAll(rs[1..]));
      assert EncodeAll(rs)[|Encode(rs[0])|..] == EncodeAll(rs[1..]);
    }
  }

  lemma {:induction false} ValidIsEncoded(s: string) returns (rs: seq<int>)
    requires Valid(s)
    ensures forall i | 0 <= i < |rs| :: IsScalar(rs[i])
    ensures EncodeAll(rs) == s
    decreases |s|
  {
    rs := [];
    if s != "" {
      hide Decode, Encode, Valid, IsScalar;
      CutRune(s);
      var d := Decode(s);
      var more := ValidIsEncoded(s[d.size..]);
      rs := [d.code] + more;
      assert rs[1..] == more;
      assert forall i | 0 < i < |rs| :: rs[i] == more[i - 1];
    }
  }

  /** A valid text is the encoding of its first rune, and a valid text after it. */
  lemma CutRune(s: string)
    requires s != "" && Valid(s)
    ensures var d := Decode(s);
      d.Rune? && IsScalar(d.code) && Valid(s[d.size..]) && s == Encode(d.code) + s[d.size..]
  {
    hide Decode, Encode, IsScalar;
    EncodeOfDecode(s);
    assert s == s[..Decode(s).size] + s[Decode(s).size..];
  }

  /** The decoder accepts exactly the strings the encoder makes. */
  lemma ValidExactlyEncoded(s: string)
    ensures Valid(s) <==> exists rs: seq<int> :: (forall i | 0 <= i < |rs| :: IsScalar(rs[i])) && EncodeAll(rs) == s
  {
    if Valid(s) {
      var rs := ValidIsEncoded(s);
    }
    forall rs: seq<int> | (forall i | 0 <= i < |rs| :: IsScalar(rs[i])) && EncodeAll(rs) == s
      ensures Valid(s)
    {
      ValidEncodeAll(rs);
    }
  }

  lemma Regroup(a: string, b: string, c: string)
    ensures a + (b + c) == a + b + c
  {
  }
}
