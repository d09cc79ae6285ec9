/**
 * The unit constants of the package, in milliseconds (ms.go:13-20).
 * Go's untyped constants are exact, so they are exact reals here.
 */
module Units {

  const SecondMs: real := 1000.0
  const MinuteMs: real := SecondMs * 60.0
  const HourMs: real := MinuteMs * 60.0
  const DayMs: real := HourMs * 24.0
  const WeekMs: real := DayMs * 7.0
  /** A year of 365.25 days. */
  const YearMs: real := DayMs * 365.25

  /** The units the parser knows, each with its millisecond factor. */
  datatype Unit = Millisecond | Second | Minute | Hour | Day | Week | Year

  function Factor(u: Unit): (f: real)
    ensures f >= 1.0
  {
    match u
    case Millisecond => 1.0
    case Second => SecondMs
    case Minute => MinuteMs
    case Hour => HourMs
    case Day => DayMs
    case Week => WeekMs
    case Year => YearMs
  }

  /** The factors as plain numbers, and the fact that no two units share one. */
  lemma FactorTable()
    ensures Factor(Millisecond) == 1.0 && Factor(Second) == 1000.0
    ensures Factor(Minute) == 60000.0 && Factor(Hour) == 3600000.0
    ensures Factor(Day) == 86400000.0 && Factor(Week) == 604800000.0
    ensures Factor(Year) == 31557600000.0
    ensures forall u, v :: Factor(u) == Factor(v) ==> u == v
  {
  }

  /** A count of `u` expressed in milliseconds. */
  function InMilliseconds(count: real, u: Unit): (ms: real)
    ensures count >= 0.0 <==> ms >= 0.0
  {
    count * Factor(u)
  }

  /** Conversion is linear in the count: `count` units are `count` times one unit. */
  lemma InMillisecondsScale(count: real, u: Unit)
    ensures InMilliseconds(count, u) == count * InMilliseconds(1.0, u)
  {
  }

  /** Conversion commutes with negation. */
  lemma InMillisecondsNegate(count: real, u: Unit)
    ensures InMilliseconds(-count, u) == -InMilliseconds(count, u)
  {
  }
}
