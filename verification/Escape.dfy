/**
 The terminal text layer: `escapeControl` of internal/report/render.go and `hasControl` of
 internal/rule/names.go.

 The characters a terminal must not see (controls, format characters, line and paragraph
 separators) are a parameter: what is proved holds for every such set that leaves printable ASCII out.
 */
module Escape {
  import opened Utf8

  type Hostile = int -> bool

  predicate PrintableSafe(hostile: Hostile) {
    forall r | 0x20 <= r < 0x7F :: !hostile(r)
  }

  /** strings.IndexFunc(s, hostile) >= 0; a byte that does not decode counts as U+FFFD. */
  predicate AnyHostile(s: string, hostile: Hostile)
    decreases |s|
  {
    s != "" &&
    match Decode(s)
    case Rune(r, n) => hostile(r) || AnyHostile(s[n..], hostile)
    case Invalid => hostile(0xFFFD) || AnyHostile(s[1..], hostile)
  }

  predicate HasControl(s: string, hostile: Hostile) {
    !Valid(s) || AnyHostile(s, hostile)
  }

  /** Valid UTF-8 with nothing hostile in it. */
  predicate Clean(s: string, hostile: Hostile)
    decreases |s|
  {
    s == "" || (Decode(s).Rune? && !hostile(Decode(s).code) && Clean(s[Decode(s).size..], hostile))
  }

  lemma {:induction false} CleanIsNoControl(s: string, hostile: Hostile)
    ensures Clean(s, hostile) <==> !HasControl(s, hostile)
    decreases |s|
  {
    if s != "" && Decode(s).Rune? {
      hide Decode;
      CleanIsNoControl(s[Decode(s).size..], hostile);
    }
  }

  // ---- hexadecimal, as fmt's %02x and %04x print it ----

  function HexDigit(d: nat): char
    requires d < 16
  {
    if d < 10 then ('0' as int + d) as char else ('a' as int + d - 10) as char
  }

  /** n in hexadecimal, at least `width` digits. */
  function Hex(n: nat, width: nat): string
    decreases n, width
  {
    if n == 0 && width == 0 then ""
    else Hex(n / 16, if width > 0 then width - 1 else 0) + [HexDigit(n % 16)]
  }

  // ---- escaping ----

  function EscapedByte(b: nat): string { "\\x" + Hex(b, 2) }

  function EscapedRune(r: int, hostile: Hostile): string
    requires IsScalar(r)
  {
    if !hostile(r) then Encode(r)
    else if r < 0x80 then EscapedByte(r)
    else "\\u" + Hex(r, 4)
  }

  /** The text with every hostile rune and every byte that does not decode written as an escape. */
  function Escaped(s: string, hostile: Hostile): string
    decreases |s|
  {
    if s == "" then ""
    else match Decode(s)
      case Rune(r, n) =>
        EncodeOfDecode(s);
        EscapedRune(r, hostile) + Escaped(s[n..], hostile)
      case Invalid => EscapedByte(s[0] as int) + Escaped(s[1..], hostile)
  }

  /** escapeControl: the index always moves forward, at least one byte at a time. */
  method EscapeControl(s: string, hostile: Hostile) returns (out: string)
    ensures out == Escaped(s, hostile)
  {
    if Valid(s) && !AnyHostile(s, hostile) {
      CleanIsNoControl(s, hostile);
      EscapedOfClean(s, hostile);
      return s;
    }
    hide Decode, Hex, Encode;
    out := "";
    var i := 0;
    while i < |s|
      invariant 0 <= i <= |s|
      invariant Escaped(s, hostile) == out + Escaped(s[i..], hostile)
    {
      ghost var i0, out0 := i, out;
      match Decode(s[i..]) {
        case Invalid =>
          out := out + ("\\x" + Hex(s[i] as int, 2));
          i := i + 1;
        case Rune(r, n) =>
          EncodeOfDecode(s[i..]);
          if !hostile(r) {
            out := out + Encode(r);
          } else if r < 0x80 {
            out := out + ("\\x" + Hex(r, 2));
          } else {
            out := out + ("\\u" + Hex(r, 4));
          }
          i := i + n;
      }
      EscapedStep(s, i0, i, hostile);
      Regroup(out0, out[|out0|..], Escaped(s[i..], hostile));
    }
  }

  /** The escape of what stands at position i, the next rune starting at j. */
  lemma EscapedStep(s: string, i: nat, j: nat, hostile: Hostile)
    requires i < |s| && j == i + (if Decode(s[i..]).Rune? then Decode(s[i..]).size else 1)
    ensures j <= |s|
    ensures var rest := Escaped(s[j..], hostile);
      match Decode(s[i..])
      case Rune(r, n) => IsScalar(r) && Escaped(s[i..], hostile) == EscapedRune(r, hostile) + rest
      case Invalid => Escaped(s[i..], hostile) == EscapedByte(s[i] as int) + rest
  {
    hide Decode, EscapedRune, EscapedByte;
    EncodeOfDecodeAt(s[i..]);
    assert s[i..][j - i..] == s[j..];
  }

  lemma EncodeOfDecodeAt(s: string)
    requires s != ""
    ensures Decode(s).Rune? ==> IsScalar(Decode(s).code)
  {
    if Decode(s).Rune? {
      EncodeOfDecode(s);
    }
  }

  lemma EscapedKeeps(s: string, hostile: Hostile)
    requires s != "" && Decode(s).Rune? && !hostile(Decode(s).code)
    ensures Escaped(s, hostile) == s[..Decode(s).size] + Escaped(s[Decode(s).size..], hostile)
  {
    hide Decode, Encode, IsScalar, EscapedByte;
    EncodeOfDecode(s);
  }

  lemma {:induction false} EscapedOfClean(s: string, hostile: Hostile)
    requires Clean(s, hostile)
    ensures Escaped(s, hostile) == s
    decreases |s|
  {
    if s != "" {
      hide Decode, Escaped, Clean;
      CleanHead(s, hostile);
      EscapedKeeps(s, hostile);
      EscapedOfClean(s[Decode(s).size..], hostile);
    }
  }

  lemma CleanHead(s: string, hostile: Hostile)
    requires s != "" && Clean(s, hostile)
    ensures Decode(s).Rune? && !hostile(Decode(s).code) && Clean(s[Decode(s).size..], hostile)
    ensures s == s[..Decode(s).size] + s[Decode(s).size..]
  {
    hide Decode;
  }

  // ---- the digits of an escape ----

  ghost function HexValue(c: char): int {
    if '0' <= c <= '9' then c as int - '0' as int
    else if 'a' <= c <= 'f' then c as int - 'a' as int + 10
    else -1
  }

  ghost function Power16(k: nat): nat {
    if k == 0 then 1 else 16 * Power16(k - 1)
  }

  ghost predicate HexDigits(s: string) {
    forall i | 0 <= i < |s| :: HexValue(s[i]) >= 0
  }

  /** Each digit times the power of sixteen of its place. */
  ghost function FromHex(s: string): int {
    if s == "" then 0 else HexValue(s[0]) * Power16(|s| - 1) + FromHex(s[1..])
  }

  lemma {:induction false} FromHexMore(s: string, c: char)
    ensures FromHex(s + [c]) == 16 * FromHex(s) + HexValue(c)
  {
    var t := s + [c];
    if s == "" {
      assert t[1..] == "" && Power16(0) == 1;
    } else {
      FromHexMore(s[1..], c);
      assert t[1..] == s[1..] + [c];
      SixteenTimes(HexValue(s[0]), Power16(|s| - 1));
    }
  }

  lemma SixteenTimes(d: int, p: int)
    ensures d * (16 * p) == 16 * (d * p)
  {
  }

  /** The digits read as the number, there are at least as many as asked for, and more only without a zero in front. */
  lemma {:induction false} HexReads(n: nat, width: nat)
    ensures HexDigits(Hex(n, width)) && FromHex(Hex(n, width)) == n
    ensures |Hex(n, width)| >= width
    ensures |Hex(n, width)| > width ==> Hex(n, width)[0] != '0'
    decreases n, width
  {
    if n != 0 || width != 0 {
      var less := if width > 0 then width - 1 else 0;
      HexReads(n / 16, less);
      FromHexMore(Hex(n / 16, less), HexDigit(n % 16));
    }
  }

  lemma {:induction false} HexLength(n: nat, width: nat)
    requires n < Power16(width)
    ensures |Hex(n, width)| == width
    decreases width
  {
    if width > 0 {
      HexLength(n / 16, width - 1);
    }
  }

  /** What stands for the front of a text: the rune itself, or a mark and digits that read as its number. */
  lemma EscapeOfFront(s: string, hostile: Hostile) returns (digits: string)
    requires s != "" && s[0] as int < 0x100
    ensures Decode(s).Invalid? ==>
      && Escaped(s, hostile) == "\\x" + digits + Escaped(s[1..], hostile)
      && |digits| == 2 && HexDigits(digits) && FromHex(digits) == s[0] as int
    ensures Decode(s).Rune? ==>
      var r, rest := Decode(s).code, Escaped(s[Decode(s).size..], hostile);
      if !hostile(r) then Escaped(s, hostile) == s[..Decode(s).size] + rest
      else if r < 0x80 then
        && Escaped(s, hostile) == "\\x" + digits + rest
        && |digits| == 2 && HexDigits(digits) && FromHex(digits) == r
      else
        && Escaped(s, hostile) == "\\u" + digits + rest
        && |digits| >= 4 && (|digits| > 4 ==> digits[0] != '0') && HexDigits(digits) && FromHex(digits) == r
  {
    assert Power16(2) == 0x100 by {
      assert Power16(1) == 16 * Power16(0);
    }
    digits := "";
    hide Decode, Hex, FromHex, HexDigits, Encode, Power16;
    match Decode(s) {
      case Invalid =>
        digits := Hex(s[0] as int, 2);
        HexReads(s[0] as int, 2);
        HexLength(s[0] as int, 2);
      case Rune(r, n) =>
        EncodeOfDecode(s);
        if hostile(r) {
          digits := Hex(r, if r < 0x80 then 2 else 4);
          HexReads(r, if r < 0x80 then 2 else 4);
          if r < 0x80 {
            HexLength(r, 2);
          }
        }
    }
  }

  // ---- what comes out is clean ----

  lemma {:induction false} CleanConcat(a: string, b: string, hostile: Hostile)
    requires Clean(a, hostile) && Clean(b, hostile)
    ensures Clean(a + b, hostile)
    decreases |a|
  {
    if a == "" {
      assert a + b == b;
    } else {
      hide Decode;
      var n := Decode(a).size;
      assert (a + b)[..n] == a[..n] && (a + b)[n..] == a[n..] + b;
      DecodePrefix(a, a + b);
      CleanConcat(a[n..], b, hostile);
    }
  }

  lemma {:induction false} PrintableIsClean(s: string, hostile: Hostile)
    requires PrintableSafe(hostile)
    requires forall i | 0 <= i < |s| :: ' ' <= s[i] <= '~'
    ensures Clean(s, hostile)
  {
    if s != "" {
      assert Decode(s) == Rune(s[0] as int, 1);
      PrintableIsClean(s[1..], hostile);
    }
  }

  lemma {:induction false} HexIsPrintable(n: nat, width: nat)
    ensures forall i | 0 <= i < |Hex(n, width)| :: ' ' <= Hex(n, width)[i] <= '~'
    decreases n, width
  {
    if n != 0 || width != 0 {
      HexIsPrintable(n / 16, if width > 0 then width - 1 else 0);
    }
  }

  lemma EscapeIsClean(mark: string, n: nat, width: nat, hostile: Hostile)
    requires PrintableSafe(hostile) && mark in {"\\x", "\\u"}
    ensures Clean(mark + Hex(n, width), hostile)
  {
    HexIsPrintable(n, width);
    PrintableIsClean(mark + Hex(n, width), hostile);
  }

  lemma EscapedRuneIsClean(r: int, hostile: Hostile)
    requires PrintableSafe(hostile) && IsScalar(r)
    ensures Clean(EscapedRune(r, hostile), hostile)
  {
    hide Decode, Encode, Hex;
    if !hostile(r) {
      DecodeOfEncode(r, "");
      assert Encode(r) + "" == Encode(r);
      assert Encode(r)[|Encode(r)|..] == "";
    } else if r < 0x80 {
      EscapeIsClean("\\x", r, 2, hostile);
    } else {
      EscapeIsClean("\\u", r, 4, hostile);
    }
  }

  /** Whatever the bytes, what reaches the terminal is valid UTF-8 with no hostile character. */
  lemma {:induction false} EscapedIsClean(s: string, hostile: Hostile)
    requires PrintableSafe(hostile)
    ensures Clean(Escaped(s, hostile), hostile)
    decreases |s|
  {
    if s != "" {
      hide Decode, EscapedRune, Hex;
      match Decode(s) {
        case Rune(r, n) =>
          EncodeOfDecode(s);
          EscapedIsClean(s[n..], hostile);
          EscapedRuneIsClean(r, hostile);
          CleanConcat(EscapedRune(r, hostile), Escaped(s[n..], hostile), hostile);
        case Invalid =>
          EscapedIsClean(s[1..], hostile);
          EscapeIsClean("\\x", s[0] as int, 2, hostile);
          CleanConcat(EscapedByte(s[0] as int), Escaped(s[1..], hostile), hostile);
      }
    }
  }

  lemma EscapedIsSafe(s: string, hostile: Hostile)
    requires PrintableSafe(hostile)
    ensures Valid(Escaped(s, hostile)) && !AnyHostile(Escaped(s, hostile), hostile)
  {
    EscapedIsClean(s, hostile);
    CleanIsNoControl(Escaped(s, hostile), hostile);
  }

  lemma EscapedIdempotent(s: string, hostile: Hostile)
    requires PrintableSafe(hostile)
    ensures Escaped(Escaped(s, hostile), hostile) == Escaped(s, hostile)
  {
    EscapedIsClean(s, hostile);
    EscapedOfClean(Escaped(s, hostile), hostile);
  }

  /** The rule package's hasControl foresees exactly which names the report package will alter. */
  lemma UnchangedExactlyWithoutControl(s: string, hostile: Hostile)
    requires PrintableSafe(hostile)
    ensures Escaped(s, hostile) == s <==> !HasControl(s, hostile)
  {
    CleanIsNoControl(s, hostile);
    if Clean(s, hostile) {
      EscapedOfClean(s, hostile);
    }
    EscapedIsClean(s, hostile);
  }
}
