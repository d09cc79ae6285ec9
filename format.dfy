/**
 * `FormatShort`, `FormatLong` and `plural` (ms.go:78-132): a millisecond count is
 * written in the largest of days, hours, minutes and seconds that does not exceed
 * its magnitude, rounded to a whole number of that unit, or as plain milliseconds
 * below one second.
 *
 * Each formatter is written as the source's chain of tests; `Selects` and
 * `ShortText`/`LongText` say declaratively which bracket is chosen and what is
 * printed for it, and the lemmas below prove that the chains implement them.
 */
module Formatting {
  import opened Wrappers
  import opened Text
  import opened Units

  /** A float64 argument: the two special classes the formatters reject, or a number. */
  datatype Float64 = NaN | PosInf | NegInf | Finite(value: real)

  /** `ErrNaN` and `ErrInfinity`; only the identity of each error matters. */
  datatype FormatError = ErrNaN | ErrInfinity

  function Abs(x: real): (a: real)
    ensures a >= 0.0 && (a == x || a == -x)
  {
    if x < 0.0 then -x else x
  }

  /**
   * The integer that `%.0f` prints for `x`: the nearest one, and the even one of two
   * equally near (Go's fmt rounds the exact binary value half to even).
   */
  function Round(x: real): (k: int)
    ensures -0.5 <= k as real - x <= 0.5
    ensures (k as real - x == 0.5 || x - k as real == 0.5) ==> k % 2 == 0
  {
    var f := x.Floor;
    var frac := x - f as real;
    if frac < 0.5 then f
    else if frac > 0.5 then f + 1
    else if f % 2 == 0 then f
    else f + 1
  }

  /** Only one integer is as near to `x` as `Round` asks, ties broken to even. */
  lemma RoundUnique(x: real, k: int)
    requires -0.5 <= k as real - x <= 0.5
    requires (k as real - x == 0.5 || x - k as real == 0.5) ==> k % 2 == 0
    ensures k == Round(x)
  {
    var r := Round(x);
    assert -1.0 <= (k - r) as real <= 1.0;
    assert k == r || k == r + 1 || k == r - 1;
  }

  /** Rounding half to even is symmetric about zero. */
  lemma RoundNegate(x: real)
    ensures Round(-x) == -Round(x)
  {
    RoundUnique(-x, -Round(x));
  }

  /** The ranges the formatters distinguish, largest first. */
  datatype Bracket = Days | Hours | Minutes | Seconds | Milliseconds

  /** The magnitude from which a bracket is used; also the unit it counts in. */
  function Threshold(b: Bracket): real
  {
    match b
    case Days => DayMs
    case Hours => HourMs
    case Minutes => MinuteMs
    case Seconds => SecondMs
    case Milliseconds => 0.0
  }

  /** The thresholds as plain numbers, in decreasing order. */
  lemma ThresholdTable()
    ensures Threshold(Days) == 86400000.0 && Threshold(Hours) == 3600000.0
    ensures Threshold(Minutes) == 60000.0 && Threshold(Seconds) == 1000.0
    ensures Threshold(Milliseconds) == 0.0
  {
  }

  /** `b` is the largest bracket whose threshold `msAbs` reaches. */
  predicate Selects(b: Bracket, msAbs: real)
  {
    Threshold(b) <= msAbs && forall c :: Threshold(c) <= msAbs ==> Threshold(c) <= Threshold(b)
  }

  /** Every magnitude selects exactly one bracket. */
  lemma SelectionUnique(msAbs: real)
    requires msAbs >= 0.0
    ensures exists b :: Selects(b, msAbs)
    ensures forall b, c :: Selects(b, msAbs) && Selects(c, msAbs) ==> b == c
  {
    var b :=
      if msAbs >= DayMs then Days
      else if msAbs >= HourMs then Hours
      else if msAbs >= MinuteMs then Minutes
      else if msAbs >= SecondMs then Seconds
      else Milliseconds;
    assert Selects(b, msAbs);
  }

  /** Plain milliseconds are used exactly below one second. */
  lemma MillisecondsBelowOneSecond(b: Bracket, msAbs: real)
    requires msAbs >= 0.0 && Selects(b, msAbs)
    ensures b == Milliseconds <==> msAbs < SecondMs
  {
    ThresholdTable();
    assert Threshold(Seconds) <= msAbs ==> Threshold(Seconds) <= Threshold(b);
  }

  /** The selected bracket is the one whose range holds `msAbs`. */
  lemma SelectsRange(b: Bracket, msAbs: real)
    requires Selects(b, msAbs)
    ensures b == Days <==> msAbs >= DayMs
    ensures b == Hours <==> HourMs <= msAbs < DayMs
    ensures b == Minutes <==> MinuteMs <= msAbs < HourMs
    ensures b == Seconds <==> SecondMs <= msAbs < MinuteMs
    ensures b == Milliseconds <==> msAbs < SecondMs
  {
    ThresholdTable();
    assert Threshold(Days) <= msAbs ==> Threshold(Days) <= Threshold(b);
    assert Threshold(Hours) <= msAbs ==> Threshold(Hours) <= Threshold(b);
    assert Threshold(Minutes) <= msAbs ==> Threshold(Minutes) <= Threshold(b);
    assert Threshold(Seconds) <= msAbs ==> Threshold(Seconds) <= Threshold(b);
  }

  /** The whole number of bracket units `ms` rounds to. */
  function Count(ms: real, b: Bracket): int
    requires b != Milliseconds
  {
    Round(ms / Threshold(b))
  }

  /** The suffix `FormatShort` writes after the count. */
  function Symbol(b: Bracket): string
  {
    match b
    case Days => "d"
    case Hours => "h"
    case Minutes => "m"
    case Seconds => "s"
    case Milliseconds => "ms"
  }

  /** The word `FormatLong` writes after the count, in the singular. */
  function Name(b: Bracket): string
    requires b != Milliseconds
  {
    match b
    case Days => "day"
    case Hours => "hour"
    case Minutes => "minute"
    case Seconds => "second"
  }

  /** What `FormatShort` prints for `ms` in bracket `b`. */
  function ShortText(ms: real, b: Bracket, decimal: real -> string): string
  {
    if b == Milliseconds then decimal(ms) + "ms" else IntText(Count(ms, b)) + Symbol(b)
  }

  /** What `FormatLong` prints for `ms` in bracket `b`: singular exactly for a count of one. */
  function LongText(ms: real, b: Bracket, decimal: real -> string): string
  {
    if b == Milliseconds then decimal(ms) + " ms"
    else Counted(Count(ms, b), Name(b))
  }

  /** `k` units called `name`, singular exactly for a count of one. */
  function Counted(k: int, name: string): string
  {
    IntText(k) + " " + name + (if k == 1 || k == -1 then "" else "s")
  }

  /**
   * Go's `plural` (ms.go:126-132): `ms` counted in units of `n`, with an `s` on the
   * unit name once the magnitude reaches one and a half units. Called with the
   * magnitude of `ms` and at least one unit of it, that puts the `s` on exactly when
   * the printed count is not one.
   */
  function Plural(ms: real, msAbs: real, n: real, name: string): (r: string)
    requires n > 0.0
    ensures msAbs == Abs(ms) && msAbs >= n ==> r == Counted(Round(ms / n), name)
  {
    PluralTest(ms, msAbs, n);
    var isPlural := msAbs >= n * 1.5;
    if isPlural then IntText(Round(ms / n)) + " " + name + "s"
    else IntText(Round(ms / n)) + " " + name
  }

  /**
   * Go's `FormatShort` (ms.go:79-100). `decimal` is `strconv.FormatFloat(ms, 'f', -1, 64)`,
   * the shortest decimal text of the number, which is not part of this model.
   */
  function FormatShort(x: Float64, decimal: real -> string): (r: Result<string, FormatError>)
    ensures r == Failure(ErrNaN) <==> x.NaN?
    ensures r == Failure(ErrInfinity) <==> x.PosInf? || x.NegInf?
  {
    match x
    case NaN => Failure(ErrNaN)
    case PosInf => Failure(ErrInfinity)
    case NegInf => Failure(ErrInfinity)
    case Finite(ms) =>
      var msAbs := Abs(ms);
      if msAbs >= DayMs then Success(IntText(Round(ms / DayMs)) + "d")
      else if msAbs >= HourMs then Success(IntText(Round(ms / HourMs)) + "h")
      else if msAbs >= MinuteMs then Success(IntText(Round(ms / MinuteMs)) + "m")
      else if msAbs >= SecondMs then Success(IntText(Round(ms / SecondMs)) + "s")
      else Success(decimal(ms) + "ms")
  }

  /** Go's `FormatLong` (ms.go:103-124). */
  function FormatLong(x: Float64, decimal: real -> string): (r: Result<string, FormatError>)
    ensures r == Failure(ErrNaN) <==> x.NaN?
    ensures r == Failure(ErrInfinity) <==> x.PosInf? || x.NegInf?
  {
    match x
    case NaN => Failure(ErrNaN)
    case PosInf => Failure(ErrInfinity)
    case NegInf => Failure(ErrInfinity)
    case Finite(ms) =>
      var msAbs := Abs(ms);
      if msAbs >= DayMs then Success(Plural(ms, msAbs, DayMs, "day"))
      else if msAbs >= HourMs then Success(Plural(ms, msAbs, HourMs, "hour"))
      else if msAbs >= MinuteMs then Success(Plural(ms, msAbs, MinuteMs, "minute"))
      else if msAbs >= SecondMs then Success(Plural(ms, msAbs, SecondMs, "second"))
      else Success(decimal(ms) + " ms")
  }

  /** The chain of tests in `FormatShort` picks the selected bracket. */
  lemma FormatShortSelects(ms: real, b: Bracket, decimal: real -> string)
    requires Selects(b, Abs(ms))
    ensures FormatShort(Finite(ms), decimal) == Success(ShortText(ms, b, decimal))
  {
    SelectsRange(b, Abs(ms));
  }

  /** Once the count is at least one in magnitude, `plural`'s test is "the count is not ±1". */
  lemma PluralByCount(x: real)
    requires Abs(x) >= 1.0
    ensures Abs(x) >= 1.5 <==> Round(x) != 1 && Round(x) != -1
  {
    RoundNegate(x);
    if x < 0.0 {
      assert Round(x) == -Round(-x);
    }
  }

  /** Scaling by a positive number keeps the sign. */
  lemma ScaleSign(a: real, n: real)
    requires n > 0.0
    ensures a >= 0.0 <==> a * n >= 0.0
  {
    if a < 0.0 {
      assert -a * n > 0.0;
    }
  }

  /** Comparing `msAbs` with multiples of `n` is comparing the ratio `ms / n`. */
  lemma RatioBounds(ms: real, n: real)
    requires n > 0.0
    ensures Abs(ms) >= n ==> Abs(ms / n) >= 1.0
    ensures Abs(ms) >= n * 1.5 <==> Abs(ms / n) >= 1.5
  {
    var r := ms / n;
    assert ms == r * n;
    assert Abs(ms) == Abs(r) * n;
    ScaleSign(Abs(r) - 1.5, n);
    ScaleSign(Abs(r) - 1.0, n);
  }

  /** `plural`'s test, for the magnitude of `ms` and at least one unit, is "the count is not ±1". */
  lemma PluralTest(ms: real, msAbs: real, n: real)
    requires n > 0.0
    ensures msAbs == Abs(ms) && msAbs >= n ==>
              (msAbs >= n * 1.5 <==> Round(ms / n) != 1 && Round(ms / n) != -1)
  {
    if msAbs == Abs(ms) && msAbs >= n {
      RatioBounds(ms, n);
      PluralByCount(ms / n);
    }
  }

  /** The chain of tests in `FormatLong` picks the selected bracket. */
  lemma FormatLongSelects(ms: real, b: Bracket, decimal: real -> string)
    requires Selects(b, Abs(ms))
    ensures FormatLong(Finite(ms), decimal) == Success(LongText(ms, b, decimal))
  {
    FormatLongChain(ms, b, decimal);
    if b != Milliseconds {
      PluralLongText(ms, b, decimal);
    }
  }

  /** `plural` with the bracket's threshold and name prints the bracket's long text. */
  lemma PluralLongText(ms: real, b: Bracket, decimal: real -> string)
    requires b != Milliseconds && Selects(b, Abs(ms))
    ensures Plural(ms, Abs(ms), Threshold(b), Name(b)) == LongText(ms, b, decimal)
  {
    assert Threshold(b) > 0.0 by { ThresholdTable(); }
    PluralCount(ms, Threshold(b), Name(b), Count(ms, b));
  }

  lemma PluralCount(ms: real, n: real, name: string, k: int)
    requires n > 0.0 && Abs(ms) >= n && k == Round(ms / n)
    ensures Plural(ms, Abs(ms), n, name) == Counted(k, name)
  {
  }

  /** The chain of tests in `FormatLong` calls `plural` with the selected bracket. */
  lemma FormatLongChain(ms: real, b: Bracket, decimal: real -> string)
    requires Selects(b, Abs(ms))
    ensures b == Milliseconds ==> FormatLong(Finite(ms), decimal) == Success(decimal(ms) + " ms")
    ensures b != Milliseconds ==>
              FormatLong(Finite(ms), decimal) == Success(Plural(ms, Abs(ms), Threshold(b), Name(b)))
  {
    SelectsRange(b, Abs(ms));
  }

  /** In every bracket but milliseconds the count is at least one in magnitude. */
  lemma CountNonZero(ms: real, b: Bracket)
    requires b != Milliseconds && Selects(b, Abs(ms))
    ensures Count(ms, b) != 0
    ensures ms > 0.0 ==> Count(ms, b) >= 1
  {
    RatioBounds(ms, Threshold(b));
  }

  lemma IntTextNegate(k: int)
    requires k > 0
    ensures IntText(-k) == "-" + IntText(k)
  {
  }

  /** Negation negates the count. */
  lemma CountNegate(ms: real, b: Bracket)
    requires b != Milliseconds
    ensures Count(-ms, b) == -Count(ms, b)
  {
    assert -ms / Threshold(b) == -(ms / Threshold(b));
    RoundNegate(ms / Threshold(b));
  }

  /** The bracket `ms` selects for a positive count of seconds or more. */
  lemma PositiveBracket(ms: real) returns (b: Bracket)
    requires ms >= SecondMs
    ensures b != Milliseconds && Selects(b, ms) && Selects(b, Abs(-ms))
    ensures Count(ms, b) >= 1 && Count(-ms, b) == -Count(ms, b)
  {
    SelectionUnique(ms);
    b :| Selects(b, ms);
    SelectsRange(b, ms);
    assert Abs(-ms) == ms;
    CountNonZero(ms, b);
    CountNegate(ms, b);
  }

  /** Negating a count of at least one second puts a minus sign before the short text. */
  lemma FormatShortNegate(ms: real, decimal: real -> string)
    requires ms >= SecondMs
    ensures FormatShort(Finite(-ms), decimal).Success?
    ensures FormatShort(Finite(-ms), decimal).value == "-" + FormatShort(Finite(ms), decimal).value
  {
    var b := PositiveBracket(ms);
    FormatShortSelects(ms, b, decimal);
    FormatShortSelects(-ms, b, decimal);
    IntTextNegate(Count(ms, b));
  }

  /** Negating a count of at least one second puts a minus sign before the long text. */
  lemma FormatLongNegate(ms: real, decimal: real -> string)
    requires ms >= SecondMs
    ensures FormatLong(Finite(-ms), decimal).Success?
    ensures FormatLong(Finite(-ms), decimal).value == "-" + FormatLong(Finite(ms), decimal).value
  {
    var b := PositiveBracket(ms);
    FormatLongSelects(ms, b, decimal);
    FormatLongSelects(-ms, b, decimal);
    CountedNegate(Count(ms, b), Name(b));
  }

  lemma CountedNegate(k: int, name: string)
    requires k >= 1
    ensures Counted(-k, name) == "-" + Counted(k, name)
  {
    var tail := " " + name + (if k == 1 then "" else "s");
    IntTextNegate(k);
    assert Counted(k, name) == IntText(k) + tail;
    assert Counted(-k, name) == ("-" + IntText(k)) + tail;
  }

  /** Both formatters choose the same bracket for the same input. */
  lemma FormatsAgree(ms: real, decimal: real -> string)
    ensures exists b ::
              && Selects(b, Abs(ms))
              && FormatShort(Finite(ms), decimal) == Success(ShortText(ms, b, decimal))
              && FormatLong(Finite(ms), decimal) == Success(LongText(ms, b, decimal))
  {
    SelectionUnique(Abs(ms));
    var b :| Selects(b, Abs(ms));
    FormatShortSelects(ms, b, decimal);
    FormatLongSelects(ms, b, decimal);
  }
}
