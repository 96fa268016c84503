/**
 Sequence headroom: `SeqLeft` of internal/rule/seq.go, proved against counting nextval calls. Exact
 arithmetic over the whole int64 range, ascending and descending; the used fraction is over reals.
 */
module SeqLeft {
  import opened Wrappers
  import opened Facts
  import opened Reals

  /** nextval succeeds from value v. */
  predicate CanStep(s: Sequence, v: int) {
    if s.increment > 0 then v + s.increment <= s.max else v + s.increment >= s.min
  }

  /** How far v is from the limit in the direction the sequence moves. */
  function Room(s: Sequence, v: int): int {
    if s.increment > 0 then s.max - v else v - s.min
  }

  /** How many nextval calls in a row succeed from v: the reference the quotient is compared with. */
  function Steps(s: Sequence, v: int): nat
    requires s.increment != 0
    decreases if Room(s, v) < 0 then 0 else Room(s, v)
  {
    if CanStep(s, v) then 1 + Steps(s, v + s.increment) else 0
  }

  function Span(s: Sequence): int {
    Room(s, s.start)
  }

  function Used(s: Sequence, v: int): real {
    if Span(s) <= 0 then 1.0
    else
      var room := if Room(s, v) < 0 then 0 else Room(s, v);
      var r := (Span(s) - room) as real / Span(s) as real;
      if r < 0.0 then 0.0 else if r > 1.0 then 1.0 else r
  }

  method SeqLeft(s: Sequence) returns (left: int, used: real, ok: bool)
    ensures ok <==> s.last.Some? && s.increment != 0
    ensures ok ==> left == Steps(s, s.last.value) && used == Used(s, s.last.value)
    ensures !ok ==> left == 0 && used == 0.0
  {
    if s.last.None? || s.increment == 0 {
      return 0, 0.0, false;
    }
    var last, inc := s.last.value, s.increment as int;
    var room, span;
    if s.increment > 0 {
      room, span := s.max - last, s.max - s.start;
    } else {
      room, span := last - s.min, s.start - s.min;
      inc := -inc;
    }
    if room < 0 {
      room := 0;
    }
    left := room / inc;
    StepsAreQuotient(s, last);
    if span <= 0 {
      return left, 1.0, true;
    }
    var r := (span - room) as real / span as real;
    used := if r < 0.0 then 0.0 else r;
    used := if used > 1.0 then 1.0 else used;
    return left, used, true;
  }

  lemma QuotientStep(a: nat, b: nat)
    requires 0 < b <= a
    ensures a / b == 1 + (a - b) / b
  {
    var q, r := (a - b) / b, (a - b) % b;
    assert a - b == b * q + r;
    assert a == b * (q + 1) + r;
    FloorIs(a, b, q + 1, r);
  }

  lemma FloorIs(a: nat, b: nat, q: nat, r: nat)
    requires r < b && a == b * q + r
    ensures a / b == q
  {
    var d := a / b;
    assert a == b * d + a % b;
    LessFactor(b, d, q + 1);
    LessFactor(b, q, d + 1);
  }

  lemma LessFactor(b: nat, x: int, y: int)
    requires b * x < b * y
    ensures x < y
  {
    assert b * (y - x) > 0;
  }

  function Magnitude(s: Sequence): nat {
    if s.increment > 0 then s.increment as int else -(s.increment as int)
  }

  /** The quotient SeqLeft computes is the number of nextval calls that still succeed. */
  lemma {:induction false} StepsAreQuotient(s: Sequence, v: int)
    requires s.increment != 0
    ensures Steps(s, v) == (if Room(s, v) < 0 then 0 else Room(s, v)) / Magnitude(s)
    decreases if Room(s, v) < 0 then 0 else Room(s, v)
  {
    if CanStep(s, v) {
      StepsAreQuotient(s, v + s.increment);
      assert Room(s, v + s.increment) == Room(s, v) - Magnitude(s);
      QuotientStep(Room(s, v), Magnitude(s));
    } else {
      assert Room(s, v) < Magnitude(s);
      FloorIs(if Room(s, v) < 0 then 0 else Room(s, v), Magnitude(s), 0, if Room(s, v) < 0 then 0 else Room(s, v));
    }
  }

  /** A successful nextval uses up exactly one of what is left, and never lowers the used fraction. */
  lemma OneStep(s: Sequence, v: int)
    requires s.increment != 0 && CanStep(s, v)
    ensures Steps(s, v) == Steps(s, v + s.increment) + 1
    ensures Used(s, v) <= Used(s, v + s.increment)
  {
    if Span(s) > 0 {
      var a, b, c := Span(s) - Room(s, v), Span(s) - Room(s, v + s.increment), Span(s);
      assert a <= b;
      QuotientGrows(a as real, b as real, c as real);
    }
  }

  lemma UsedIsFraction(s: Sequence, v: int)
    ensures 0.0 <= Used(s, v) <= 1.0
    ensures Used(s, v) == 1.0 <==> Span(s) <= 0 || Room(s, v) <= 0
  {
    if Span(s) > 0 {
      var room := if Room(s, v) < 0 then 0 else Room(s, v);
      var used, span := (Span(s) - room) as real, Span(s) as real;
      QuotientIs(span, span, 1.0);
      QuotientGrows(used, span, span);
      if room > 0 {
        assert (used / span) * span == used;
        FactorLess(used / span, 1.0, span);
      }
    }
  }

  /** The values a run of n successful nextval calls goes through. */
  function After(s: Sequence, v: int, n: nat): int {
    if n == 0 then v else After(s, v, n - 1) + s.increment
  }

  lemma {:induction false} AfterStep(s: Sequence, v: int, n: nat)
    ensures After(s, v, n + 1) == After(s, v + s.increment, n)
  {
    if n > 0 {
      AfterStep(s, v, n - 1);
    }
  }

  /** Over a whole run: exactly Steps calls succeed, and the one after them fails. */
  lemma {:induction false} WholeRun(s: Sequence, v: int, n: nat)
    requires s.increment != 0
    ensures n < Steps(s, v) ==> CanStep(s, After(s, v, n)) && Steps(s, After(s, v, n)) == Steps(s, v) - n
    ensures n == Steps(s, v) ==> !CanStep(s, After(s, v, n))
    decreases n
  {
    if n > 0 && CanStep(s, v) {
      WholeRun(s, v + s.increment, n - 1);
      AfterStep(s, v, n - 1);
    }
  }

  /** n more values can be handed out exactly when the n-th of them is inside the limit. */
  lemma {:induction false} StepsExactly(s: Sequence, v: int, n: nat)
    requires s.increment != 0 && n > 0
    ensures n <= Steps(s, v) <==> if s.increment > 0 then v + n * s.increment <= s.max else v + n * s.increment >= s.min
    decreases n
  {
    if n > 1 {
      OneFewer(n, s.increment);
      if CanStep(s, v) {
        StepsExactly(s, v + s.increment, n - 1);
      }
    }
  }

  lemma OneFewer(n: nat, d: int)
    requires n > 1 && d != 0
    ensures n * d == d + (n - 1) * d
    ensures (n - 1) * d > 0 <==> d > 0
  {
  }

  /** The used fraction, times the range from the start to the limit, is how far the last value is from the start, kept inside the range. */
  lemma UsedExactly(s: Sequence, v: int)
    requires s.increment != 0
    ensures var range := if s.increment > 0 then s.max - s.start else s.start - s.min;
      var gone := if s.increment > 0 then v - s.start else s.start - v;
      if range <= 0 then Used(s, v) == 1.0
      else Used(s, v) * range as real == (if gone < 0 then 0 else if gone > range then range else gone) as real
  {
  }
}
