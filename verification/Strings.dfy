/** The parts of Go's strings package the parsers use, on sequences of characters. */
module Strings {

  /** unicode.IsSpace */
  predicate IsSpace(c: char) {
    || '\t' <= c <= '\r' || c == ' ' || c == '\U{85}' || c == '\U{A0}' || c == '\U{1680}'
    || '\U{2000}' <= c <= '\U{200A}' || c == '\U{2028}' || c == '\U{2029}' || c == '\U{202F}'
    || c == '\U{205F}' || c == '\U{3000}'
  }

  ghost predicate AllSpace(s: string) {
    forall i | 0 <= i < |s| :: IsSpace(s[i])
  }

  ghost predicate Trimmed(s: string) {
    s != "" ==> !IsSpace(s[0]) && !IsSpace(s[|s| - 1])
  }

  /** Index of the first character that is not a space. */
  function Lead(s: string): (n: nat)
    ensures n <= |s|
    ensures forall i | 0 <= i < n :: IsSpace(s[i])
    ensures n < |s| ==> !IsSpace(s[n])
  {
    if s != "" && IsSpace(s[0]) then 1 + Lead(s[1..]) else 0
  }

  /** Index after the last character that is not a space. */
  function Tail(s: string): (n: nat)
    ensures n <= |s|
    ensures forall i | n <= i < |s| :: IsSpace(s[i])
    ensures n > 0 ==> !IsSpace(s[n - 1])
  {
    if s != "" && IsSpace(s[|s| - 1]) then Tail(s[..|s| - 1]) else |s|
  }

  /** strings.TrimSpace */
  function Trim(s: string): (r: string)
    ensures Trimmed(r)
  {
    if Lead(s) < Tail(s) then s[Lead(s)..Tail(s)] else ""
  }

  /** Index of the first c, the length when there is none. */
  function Index(s: string, c: char): (i: nat)
    ensures i <= |s|
    ensures forall j | 0 <= j < i :: s[j] != c
    ensures i < |s| ==> s[i] == c
  {
    if s == "" || s[0] == c then 0 else 1 + Index(s[1..], c)
  }

  /** A trimmed text between spaces trims to itself. */
  lemma TrimPadded(left: string, mid: string, right: string)
    requires AllSpace(left) && AllSpace(right) && Trimmed(mid)
    ensures Trim(left + mid + right) == mid
  {
    var s := left + mid + right;
    if mid == "" {
      assert forall i | 0 <= i < |s| :: IsSpace(s[i]);
    } else {
      assert s[|left|] == mid[0] && s[|left| + |mid| - 1] == mid[|mid| - 1];
      assert Lead(s) == |left| && Tail(s) == |left| + |mid|;
    }
  }

  lemma TrimOfTrimmed(s: string)
    requires Trimmed(s)
    ensures Trim(s) == s
  {
    assert "" + s + "" == s;
    TrimPadded("", s, "");
  }

  lemma FirstOfTrim(s: string)
    requires Trim(s) != ""
    ensures Lead(s) < |s| && Trim(s)[0] == s[Lead(s)]
  {
  }

  lemma TrimIs(s: string, a: nat, b: nat)
    requires a < b <= |s| && !IsSpace(s[a]) && !IsSpace(s[b - 1])
    requires forall i | 0 <= i < a :: IsSpace(s[i])
    requires forall i | b <= i < |s| :: IsSpace(s[i])
    ensures Trim(s) == s[a..b]
  {
    assert Lead(s) == a && Tail(s) == b;
  }

  /** Spaces in front make no difference to trimming. */
  lemma TrimSkips(left: string, s: string)
    requires AllSpace(left)
    ensures Trim(left + s) == Trim(s)
  {
    hide Lead, Tail, IsSpace;
    var t, n, a, b := left + s, |left|, Lead(s), Tail(s);
    assert forall i | 0 <= i < n :: t[i] == left[i];
    assert forall i | n <= i < |t| :: t[i] == s[i - n];
    if a < |s| {
      TrimIs(t, n + a, n + b);
      assert t[n + a..n + b] == s[a..b];
    } else {
      assert Lead(t) == |t|;
    }
  }

  lemma SpaceConcat(a: string, b: string)
    requires AllSpace(a) && AllSpace(b)
    ensures AllSpace(a + b)
  {
    hide IsSpace;
  }

  /** What trimming removes is only space. */
  lemma TrimParts(s: string) returns (left: string, right: string)
    ensures s == left + Trim(s) + right && AllSpace(left) && AllSpace(right)
  {
    hide IsSpace, Lead, Tail;
    var a, b := Lead(s), Tail(s);
    if a < b {
      left, right := s[..a], s[b..];
    } else {
      left, right := s, "";
      assert Trim(s) == "";
    }
  }

  /** Spaces behind make no difference to trimming. */
  lemma TrimDrops(s: string, more: string)
    requires AllSpace(more)
    ensures Trim(s + more) == Trim(s)
  {
    hide Trim, IsSpace, AllSpace;
    var left, right := TrimParts(s);
    SpaceConcat(right, more);
    TrimPadded(left, Trim(s), right + more);
    assert left + Trim(s) + right + more == left + Trim(s) + (right + more);
  }
}
