/**
 Sizes and durations for people: `Bytes` and `Duration` of internal/units/units.go, `execTime` of
 internal/report/format.go. Dividing by 1024 is exact in float64; for the times, float64 is idealised
 to the reals.
 */
module Units {
  import opened Reals

  /** math.Round: to the nearest integer, halves away from zero. */
  function Round(x: real): int {
    if x >= 0.0 then (x + 0.5).Floor else -((-x + 0.5).Floor)
  }

  lemma RoundMonotone(x: real, y: real)
    requires x <= y
    ensures Round(x) <= Round(y)
  {
  }

  lemma RoundNear(x: real)
    ensures -0.5 <= x - Round(x) as real <= 0.5
  {
  }

  // ---- Bytes ----

  /** A size as printed: a whole number of a unit, 0 for bytes up to 5 for PB. */
  datatype Size = Size(number: int, unit: nat)

  const LAST_UNIT: nat := 5

  function Pow1024(i: nat): (p: nat)
    ensures p > 0
  {
    if i == 0 then 1 else 1024 * Pow1024(i - 1)
  }

  /** b in the given unit. */
  function In(b: real, unit: nat): real {
    b / Pow1024(unit) as real
  }

  predicate Small(n: int) { -10240 < n < 10240 }

  /** The unit a size is printed in: the least whose rounded value is below 10240, or the last. */
  ghost predicate IsUnit(b: real, unit: nat) {
    && unit <= LAST_UNIT
    && (unit < LAST_UNIT ==> Small(Round(In(b, unit))))
    && forall j | 0 <= j < unit :: !Small(Round(In(b, j)))
  }

  lemma InNext(b: real, i: nat)
    ensures In(b, i + 1) == In(b, i) / 1024.0
  {
    var p, q := Pow1024(i) as real, In(b, i);
    assert Pow1024(i + 1) as real == 1024.0 * p;
    assert q * p == b;
    QuotientIs(b, 1024.0 * p, q / 1024.0);
  }

  method Bytes(b: real) returns (r: Size)
    ensures IsUnit(b, r.unit) && r.number == Round(In(b, r.unit))
  {
    var x := b;
    var i := 0;
    while (Round(x) >= 10240 || Round(x) <= -10240) && i < LAST_UNIT
      invariant i <= LAST_UNIT && x == In(b, i)
      invariant forall j | 0 <= j < i :: !Small(Round(In(b, j)))
      decreases LAST_UNIT - i
    {
      InNext(b, i);
      x := x / 1024.0;
      i := i + 1;
    }
    r := Size(Round(x), i);
  }

  /** There is only one such unit. */
  lemma UnitIsUnique(b: real, u: nat, v: nat)
    requires IsUnit(b, u) && IsUnit(b, v)
    ensures u == v
  {
  }

  lemma {:induction false} InShrinks(b: real, c: real, i: nat)
    requires b <= c
    ensures In(b, i) <= In(c, i)
    ensures In(b, i) * Pow1024(i) as real == b
  {
    if i == 0 {
    } else {
      InNext(b, i - 1);
      InNext(c, i - 1);
      InShrinks(b, c, i - 1);
    }
  }

  /** The amount a printed size stands for. */
  function Amount(s: Size): int {
    s.number * Pow1024(s.unit)
  }

  /** In every unit strictly between bytes and PB the number printed is 10 to 10239. */
  lemma MiddleUnitsPrintTenToTenThousand(b: real, unit: nat)
    requires b >= 0.0 && IsUnit(b, unit) && 0 < unit
    ensures Round(In(b, unit)) >= 10
    ensures unit < 5 ==> Round(In(b, unit)) <= 10239
  {
    InNext(b, unit - 1);
    assert !Small(Round(In(b, unit - 1)));
    InShrinks(0.0, b, unit - 1);
    assert In(0.0, unit - 1) == 0.0;
  }

  lemma OffByHalf(b: real, x: real, r: real, p: real)
    requires p > 0.0 && x * p == b && -0.5 <= x - r <= 0.5
    ensures -0.5 * p <= b - r * p
    ensures b - r * p <= 0.5 * p
  {
    ProductNotNegative(x - r + 0.5, p);
    ProductNotNegative(0.5 - x + r, p);
  }

  /** What is printed is off by at most half a unit. */
  lemma OffByHalfAUnit(b: real, unit: nat)
    ensures var p := Pow1024(unit) as real;
      -0.5 * p <= b - Round(In(b, unit)) as real * p <= 0.5 * p
  {
    hide Round, In, Pow1024;
    RoundNear(In(b, unit));
    InShrinks(b, b, unit);
    OffByHalf(b, In(b, unit), Round(In(b, unit)) as real, Pow1024(unit) as real);
  }

  lemma ScaleInt(x: int, y: int, p: nat)
    requires x <= y
    ensures x * p <= y * p
  {
    assert (y - x) * p >= 0;
  }

  lemma {:induction false} Pow1024Grows(i: nat, j: nat)
    requires i < j
    ensures 1024 * Pow1024(i) <= Pow1024(j)
  {
    if i + 1 < j {
      Pow1024Grows(i, j - 1);
    }
  }

  /** A larger size is never printed as a smaller amount, across unit switches included. */
  lemma PrintedAmountMonotone(b: real, c: real, s: Size, t: Size)
    requires 0.0 <= b <= c
    requires IsUnit(b, s.unit) && s.number == Round(In(b, s.unit))
    requires IsUnit(c, t.unit) && t.number == Round(In(c, t.unit))
    ensures Amount(s) <= Amount(t)
  {
    if t.unit < s.unit {
      InShrinks(b, c, t.unit);
      InShrinks(0.0, b, t.unit);
      assert In(0.0, t.unit) == 0.0;
      RoundMonotone(In(b, t.unit), In(c, t.unit));
      assert false;
    } else if s.unit == t.unit {
      InShrinks(b, c, s.unit);
      RoundMonotone(In(b, s.unit), In(c, s.unit));
      ScaleInt(s.number, t.number, Pow1024(s.unit));
    } else {
      MiddleUnitsPrintTenToTenThousand(c, t.unit);
      assert Small(s.number);
      Pow1024Grows(s.unit, t.unit);
      ScaleInt(s.number, 10240, Pow1024(s.unit));
      ScaleInt(10, t.number, Pow1024(t.unit));
    }
  }

  lemma MirrorAt(b: real, unit: nat)
    ensures In(-b, unit) == -In(b, unit)
    ensures Round(In(-b, unit)) == -Round(In(b, unit))
  {
    var p, q := Pow1024(unit) as real, In(b, unit);
    assert q * p == b && (-q) * p == -b;
    QuotientIs(-b, p, -q);
  }

  lemma MirrorIsUnit(b: real, c: real, unit: nat)
    requires c == -b && IsUnit(b, unit)
    ensures IsUnit(c, unit)
  {
    hide Round, In;
    MirrorAt(b, unit);
    forall j | 0 <= j < unit
      ensures !Small(Round(In(c, j)))
    {
      MirrorAt(b, j);
    }
  }

  /** Negative sizes are printed as the positive ones with a sign. */
  lemma NegativeSizesMirror(b: real, unit: nat)
    ensures Round(In(-b, unit)) == -Round(In(b, unit))
    ensures IsUnit(-b, unit) <==> IsUnit(b, unit)
  {
    MirrorAt(b, unit);
    if IsUnit(b, unit) {
      MirrorIsUnit(b, -b, unit);
    } else if IsUnit(-b, unit) {
      MirrorIsUnit(-b, b, unit);
    }
  }

  /** A size is rounded half up exactly when it is not negative or is not halfway; no caller passes a negative one. */
  lemma RoundsHalfUpExactly(b: real, unit: nat)
    ensures var x := In(b, unit);
      Round(x) == (x + 0.5).Floor <==> b >= 0.0 || (x + 0.5).Floor as real != x + 0.5
  {
    var x := In(b, unit);
    assert x * Pow1024(unit) as real == b;
    assert x >= 0.0 <==> b >= 0.0;
    hide In;
  }

  // ---- the integer form: pg_size_pretty ----

  /** pg_size_pretty, on whole sizes: keep one extra bit, step by 1024 until the number is below 10240, then round it half up. */
  function SizePretty(halves: nat, unit: nat): Size
    requires 1 <= unit <= 5
    decreases 5 - unit
  {
    if halves < 2 * 10240 - 1 || unit == 5 then Size((halves + 1) / 2, unit)
    else SizePretty(halves / 1024, unit + 1)
  }

  function PgSizePretty(b: nat): Size {
    if b < 10240 then Size(b, 0) else SizePretty(b / 512, 1)
  }

  /** Half units of a whole size, by shifting: first nine bits, then ten for every further unit. */
  function Halves(b: nat, unit: nat): nat
    requires unit >= 1
  {
    if unit == 1 then b / 512 else Halves(b, unit - 1) / 1024
  }

  lemma ShiftStep(b: nat, h: nat, half: nat)
    requires h * half <= b < (h + 1) * half
    ensures (h / 1024) * (1024 * half) <= b < (h / 1024 + 1) * (1024 * half)
  {
    var g := h / 1024;
    ScaleInt(1024 * g, h, half);
    ScaleInt(h + 1, 1024 * (g + 1), half);
    assert g * (1024 * half) == 1024 * g * half && (g + 1) * (1024 * half) == 1024 * (g + 1) * half;
  }

  /** Shifting step by step is dividing by the half unit at once: the quotient, rounded down. */
  lemma {:induction false} HalvesIsFloor(b: nat, unit: nat)
    requires unit >= 1
    ensures var half := 512 * Pow1024(unit - 1);
      Halves(b, unit) * half <= b < (Halves(b, unit) + 1) * half
  {
    if unit > 1 {
      HalvesIsFloor(b, unit - 1);
      ShiftStep(b, Halves(b, unit - 1), 512 * Pow1024(unit - 2));
    }
  }

  lemma Twice(x: real, y: real, p: real, q: real)
    requires q == 2.0 * p && y * q == x
    ensures (2.0 * y) * p == x
  {
  }

  lemma Between(z: real, h: real, p: real, x: real)
    requires p > 0.0 && z * p == x && h * p <= x < (h + 1.0) * p
    ensures h <= z < h + 1.0
  {
    FactorAtMost(h, z, p);
    FactorLess(z, h + 1.0, p);
  }

  lemma RoundOfHalves(y: real, h: nat)
    requires h as real <= 2.0 * y < h as real + 1.0
    ensures Round(y) == (h + 1) / 2
  {
    var f := (y + 0.5).Floor;
    assert 2 * f <= h + 1 < 2 * f + 2;
  }

  lemma RealBounds(b: nat, h: nat, half: nat)
    requires h * half <= b < (h + 1) * half
    ensures h as real * half as real <= b as real < (h as real + 1.0) * half as real
  {
    assert (h * half) as real == h as real * half as real;
    assert ((h + 1) * half) as real == (h as real + 1.0) * half as real;
  }

  /** Rounding a size in a unit is rounding its half units. */
  lemma RoundIsHalves(b: nat, x: real, unit: nat)
    requires unit >= 1 && x == b as real
    ensures Round(In(x, unit)) == (Halves(b, unit) + 1) / 2
  {
    var h, half := Halves(b, unit), 512 * Pow1024(unit - 1);
    assert Pow1024(unit) == 2 * half;
    HalvesIsFloor(b, unit);
    InShrinks(x, x, unit);
    HalvesBound(b, x, h, half, In(x, unit), Pow1024(unit));
    RoundOfHalves(In(x, unit), h);
  }

  lemma HalvesBound(b: nat, x: real, h: nat, half: nat, y: real, p: nat)
    requires x == b as real && half > 0 && p == 2 * half && h * half <= b < (h + 1) * half && y * p as real == x
    ensures h as real <= 2.0 * y < h as real + 1.0
  {
    RealBounds(b, h, half);
    Twice(x, y, half as real, p as real);
    Between(2.0 * y, h as real, half as real, x);
  }

  lemma {:induction false} SizePrettyIsUnit(b: nat, x: real, unit: nat)
    requires 1 <= unit <= LAST_UNIT && x == b as real
    requires forall j | 0 <= j < unit :: !Small(Round(In(x, j)))
    ensures var s := SizePretty(Halves(b, unit), unit);
      IsUnit(x, s.unit) && s.number == Round(In(x, s.unit))
    decreases LAST_UNIT - unit
  {
    hide Round, In;
    RoundIsHalves(b, x, unit);
    if !(Halves(b, unit) < 2 * 10240 - 1 || unit == LAST_UNIT) {
      SizePrettyIsUnit(b, x, unit + 1);
    }
  }

  /** Bytes prints every whole size as pg_size_pretty's integer arithmetic does. */
  lemma BytesIsPgSizePretty(b: nat, x: real, s: Size)
    requires x == b as real && IsUnit(x, s.unit) && s.number == Round(In(x, s.unit))
    ensures s == PgSizePretty(b)
    ensures s.unit >= 1 ==> s.number == (Halves(b, s.unit) + 1) / 2
  {
    assert In(x, 0) == x && Round(x) == b;
    if b >= 10240 {
      SizePrettyIsUnit(b, x, 1);
      UnitIsUnique(x, s.unit, PgSizePretty(b).unit);
    } else {
      UnitIsUnique(x, s.unit, 0);
    }
    if s.unit >= 1 {
      RoundIsHalves(b, x, s.unit);
    }
  }

  // ---- Duration ----

  /** A duration as printed: its two largest units, or seconds alone. */
  datatype Text = Two(first: nat, second: nat, unit: nat) | Seconds(n: nat)

  /** Seconds in a day, an hour, a minute, a second. */
  function UnitOf(i: nat): nat {
    if i == 0 then 86400 else if i == 1 then 3600 else if i == 2 then 60 else 1
  }

  /** What a printed duration stands for. */
  function Value(t: Text): nat
    requires t.Two? ==> t.unit < 3
  {
    match t
    case Two(first, second, unit) => first * UnitOf(unit) + second * UnitOf(unit + 1)
    case Seconds(n) => n
  }

  /** The whole seconds a duration is judged by. */
  function Whole(s: real): nat {
    if Round(s) < 0 then 0 else Round(s)
  }

  /** The unit that leads the text of n seconds, 3 when there is nothing above seconds. */
  function Leading(n: nat): (unit: nat)
    ensures unit <= 3
    ensures unit < 3 ==> n >= UnitOf(unit)
    ensures unit > 0 ==> n < UnitOf(unit - 1)
  {
    if n >= 86400 then 0 else if n >= 3600 then 1 else if n >= 60 then 2 else 3
  }

  /** The number of days, hours, minutes or seconds in n seconds, after the larger units. */
  function Part(n: nat, i: nat): nat
    requires i <= 3
  {
    if i == 0 then n / 86400 else if i == 1 then n % 86400 / 3600 else if i == 2 then n % 3600 / 60 else n % 60
  }

  lemma PartZero(n: nat, i: nat)
    requires i < 3 && (i > 0 ==> n < UnitOf(i - 1))
    ensures Part(n, i) == 0 <==> n < UnitOf(i)
  {
  }

  lemma DaysAndHours(n: nat)
    ensures n / 86400 * 86400 + n % 86400 / 3600 * 3600 == n - n % 3600
  {
    var d, r := n / 86400, n % 86400;
    var h, e := r / 3600, r % 3600;
    assert n == 3600 * (24 * d + h) + e;
  }

  lemma HoursAndMinutes(n: nat)
    ensures n / 3600 * 3600 + n % 3600 / 60 * 60 == n - n % 60
  {
    var h, r := n / 3600, n % 3600;
    var m, e := r / 60, r % 60;
    assert n == 60 * (60 * h + m) + e;
  }

  lemma PartsAddUp(n: nat, i: nat)
    requires i < 3 && (i > 0 ==> n < UnitOf(i - 1))
    ensures Part(n, i + 1) * UnitOf(i + 1) < UnitOf(i)
    ensures Part(n, i) * UnitOf(i) + Part(n, i + 1) * UnitOf(i + 1) == n - n % UnitOf(i + 1)
  {
    if i == 0 {
      DaysAndHours(n);
    } else if i == 1 {
      HoursAndMinutes(n);
    }
  }

  function DurationText(n: nat): Text {
    var unit := Leading(n);
    if unit == 3 then Seconds(n) else Two(Part(n, unit), Part(n, unit + 1), unit)
  }

  method Duration(s: real) returns (t: Text)
    ensures t == DurationText(Whole(s))
  {
    hide Round, Part;
    var n := Round(s);
    if n < 0 {
      n := 0;
    }
    for i := 0 to 3
      invariant i > 0 ==> n < UnitOf(i - 1)
    {
      PartZero(n, i);
      if Part(n, i) != 0 {
        return Two(Part(n, i), Part(n, i + 1), i);
      }
    }
    LastPart(n);
    return Seconds(Part(n, 3));
  }

  lemma LastPart(n: nat)
    requires n < 60
    ensures Part(n, 3) == n
  {
  }

  /** A text leads with at least one of its unit, its second number is below one of it, and it reads as n cut down to the second unit. */
  lemma DurationMeans(n: nat)
    ensures var t := DurationText(n);
      if t.Two? then
        && t.unit < 3 && 1 <= t.first && t.second * UnitOf(t.unit + 1) < UnitOf(t.unit)
        && Value(t) == Cut(n) && Cut(n) <= n < Cut(n) + UnitOf(t.unit + 1)
      else Value(t) == n && n < 60
  {
    hide Part;
    var unit := Leading(n);
    if unit < 3 {
      PartZero(n, unit);
      PartsAddUp(n, unit);
    }
  }

  /** The seconds a text keeps: the rounded ones cut down to its second unit. */
  function Kept(s: real): nat {
    Cut(Whole(s))
  }

  function Cut(n: nat): nat {
    var unit := Leading(n);
    if unit == 0 then n - n % 3600 else if unit == 1 then n - n % 60 else n
  }

  lemma CutMonotone(m: nat, n: nat)
    requires m <= n
    ensures Cut(m) <= Cut(n)
  {
    if Leading(n) == 0 && Leading(m) != 0 {
      assert Cut(n) >= 86400;
    } else if Leading(n) == 1 && Leading(m) != 1 {
      assert Cut(n) >= 3600;
    }
  }

  /** A longer duration never reads as a shorter one. */
  lemma DurationMonotone(s: real, t: real)
    requires s <= t
    ensures var a, b := DurationText(Whole(s)), DurationText(Whole(t));
      && (a.Two? ==> a.unit < 3) && (b.Two? ==> b.unit < 3)
      && Value(a) <= Value(b)
    ensures Kept(s) <= Kept(t)
  {
    RoundMonotone(s, t);
    CutMonotone(Whole(s), Whole(t));
    DurationMeans(Whole(s));
    DurationMeans(Whole(t));
  }

  /**
   A duration reads as a time near the one given: at most half a second above it, and below it by less than one of
   its second unit, less half a second. A negative time reads as no time.
   */
  lemma DurationNear(s: real)
    ensures var t := DurationText(Whole(s));
      && (t.Two? ==> t.unit < 3)
      && var unit := if t.Two? then UnitOf(t.unit + 1) else 1;
         if s < 0.0 then Value(t) == 0 else -0.5 <= s - Value(t) as real < unit as real - 0.5
  {
    DurationMeans(Whole(s));
    if s >= 0.0 {
      RoundNear(s);
      RoundBelow(s);
    }
    hide Part, DurationText, Value, Cut;
  }

  lemma RoundBelow(s: real)
    requires s >= 0.0
    ensures Round(s) >= 0 && s < Round(s) as real + 0.5
  {
  }

  // ---- execTime ----

  /** A statement time as printed: hundredths or whole milliseconds, hundredths of seconds, or a duration. */
  datatype Exec = Hundredths(h: int) | Millis(ms: int) | Secs(h: int) | Long(text: Text)

  function ExecOf(s: real): Exec {
    var h := Round(s * 100000.0);
    if Round(s * 100.0) >= 6000 then Long(DurationText(Whole(s)))
    else if Round(h as real / 100.0) >= 1000 then Secs(Round(s * 100.0))
    else if h >= 1000 then Millis(Round(h as real / 100.0))
    else Hundredths(h)
  }

  method ExecTime(s: real) returns (e: Exec)
    ensures e == ExecOf(s)
  {
    var ms := Round(s * 100000.0) as real / 100.0;
    if Round(s * 100.0) as real / 100.0 >= 60.0 {
      var t := Duration(s);
      return Long(t);
    }
    if Round(ms) >= 1000 {
      return Secs(Round(s * 100.0));
    }
    if ms >= 10.0 {
      return Millis(Round(ms));
    }
    return Hundredths(Round(s * 100000.0));
  }

  /** What a text stands for, in hundredths of a millisecond. */
  function ExecValue(e: Exec): int
    requires e.Long? && e.text.Two? ==> e.text.unit < 3
  {
    match e
    case Hundredths(h) => h
    case Millis(ms) => 100 * ms
    case Secs(h) => 1000 * h
    case Long(text) => 100000 * Value(text)
  }

  /** The numbers printed: never 1000 ms, never 60 s; past that, the duration's own text. */
  lemma ExecTimeInRange(s: real)
    requires s >= 0.0
    ensures match ExecOf(s)
      case Hundredths(h) => 0 <= h <= 999
      case Millis(ms) => 10 <= ms <= 999
      case Secs(h) => 100 <= h <= 5999
      case Long(text) => text.Two? && text.unit < 3 && Value(text) == Kept(s) >= 60
  {
    hide DurationText, Value;
    if ExecOf(s).Long? {
      assert Whole(s) >= 60;
      hide Round;
      DurationMeans(Whole(s));
      CutMonotone(60, Whole(s));
    }
  }

  /**
   What is printed is near the time: half a hundredth of a millisecond, half a millisecond and half a hundredth (it
   is rounded twice), half a hundredth of a second, or within the second unit of the duration.
   */
  lemma ExecTimeNear(s: real)
    requires s >= 0.0
    ensures var e := ExecOf(s);
      match e
      case Hundredths(h) => -0.5 <= s * 100000.0 - h as real <= 0.5
      case Millis(ms) => -50.5 <= s * 100000.0 - 100.0 * ms as real <= 50.5
      case Secs(h) => -500.0 <= s * 100000.0 - 1000.0 * h as real <= 500.0
      case Long(text) =>
        text.Two? && text.unit < 3 && -0.5 <= s - Value(text) as real < UnitOf(text.unit + 1) as real - 0.5
  {
    var h := Round(s * 100000.0);
    RoundNear(s * 100000.0);
    RoundNear(h as real / 100.0);
    RoundNear(s * 100.0);
    DurationNear(s);
    ExecTimeInRange(s);
    hide Round, Value, DurationText;
  }

  /** A longer time never reads as a shorter one, across the switches of unit included. */
  lemma ExecTimeMonotone(s: real, t: real)
    requires 0.0 <= s <= t
    ensures ExecOf(s).Long? && ExecOf(s).text.Two? ==> ExecOf(s).text.unit < 3
    ensures ExecOf(t).Long? && ExecOf(t).text.Two? ==> ExecOf(t).text.unit < 3
    ensures ExecValue(ExecOf(s)) <= ExecValue(ExecOf(t))
  {
    hide DurationText, Value, Cut;
    ExecTimeInRange(s);
    ExecTimeInRange(t);
    RoundMonotone(s * 100000.0, t * 100000.0);
    RoundMonotone(s * 100.0, t * 100.0);
    RoundMonotone(Round(s * 100000.0) as real / 100.0, Round(t * 100000.0) as real / 100.0);
    DurationMonotone(s, t);
  }
}
