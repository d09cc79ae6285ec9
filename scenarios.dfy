/**
 * The cases of the package's tests and examples (ms_test.go), as lemmas about the model.
 */
module Scenarios {
  import opened Wrappers
  import opened Text
  import opened Grammar
  import opened Units
  import opened Parsing
  import opened Formatting
  import opened RoundTrip

  /** A spelled-out match parses to its value; the premises are checked case by case. */
  lemma ParseExample(n: Numeral, spaces: nat, token: string, u: Unit, text: string, value: real)
    requires NumeralWellFormed(n) && IsLowerWord(token) && token in CaseTokens(u)
    requires text == SpellNumeral(n) + Spaces(spaces) + token && Utf8Length(text) <= MaxInputBytes
    requires InMilliseconds(FloatValue(n), u) == value
    ensures Parse(text) == Success(value)
  {
    ParseSpelled(n, spaces, token, u);
  }

  /** "2 days" is 172800000 (ms_test.go:44, :197). */
  lemma TwoDays()
    ensures Parse("2 days") == Success(172800000.0)
  {
    var n := Numeral(false, "2", None);
    assert "2 days" == SpellNumeral(n) + Spaces(1) + "days" by { assert Spaces(1) == " "; }
    assert "days" in CaseTokens(Day) by { assert CaseTokens(Day)[0] == "days"; }
    assert InMilliseconds(FloatValue(n), Day) == 172800000.0 by { assert DigitsValue("2") == 2; }
    ParseExample(n, 1, "days", Day, "2 days", 172800000.0);
  }

  /** "2.5 hrs" is 9000000 (ms_test.go:205). */
  lemma TwoAndAHalfHours()
    ensures Parse("2.5 hrs") == Success(9000000.0)
  {
    var n := Numeral(false, "2", Some("5"));
    assert "2.5 hrs" == SpellNumeral(n) + Spaces(1) + "hrs" by { assert Spaces(1) == " "; }
    assert "hrs" in CaseTokens(Hour) by { assert CaseTokens(Hour)[2] == "hrs"; }
    assert InMilliseconds(FloatValue(n), Hour) == 9000000.0 by { assert DigitsValue("2") == 2 && DigitsValue("5") == 5; }
    ParseExample(n, 1, "hrs", Hour, "2.5 hrs", 9000000.0);
  }

  /** "1y" is 365.25 days (ms_test.go:213). */
  lemma OneYear()
    ensures Parse("1y") == Success(31557600000.0)
  {
    var n := Numeral(false, "1", None);
    assert "1y" == SpellNumeral(n) + Spaces(0) + "y";
    assert "y" in CaseTokens(Year) by { assert CaseTokens(Year)[4] == "y"; }
    assert InMilliseconds(FloatValue(n), Year) == 31557600000.0 by { assert DigitsValue("1") == 1; }
    ParseExample(n, 0, "y", Year, "1y", 31557600000.0);
  }

  /** Several spaces may separate the number from the unit (ms_test.go:27). */
  lemma SpacedSecond()
    ensures Parse("1   s") == Success(1000.0)
  {
    var n := Numeral(false, "1", None);
    assert "1   s" == SpellNumeral(n) + Spaces(3) + "s" by { assert Spaces(3) == "   "; }
    assert "s" in CaseTokens(Second) by { assert CaseTokens(Second)[4] == "s"; }
    assert InMilliseconds(FloatValue(n), Second) == 1000.0 by { assert DigitsValue("1") == 1; }
    ParseExample(n, 3, "s", Second, "1   s", 1000.0);
  }

  /** A number may start at its point (ms_test.go:29). */
  lemma HalfMillisecond()
    ensures Parse(".5ms") == Success(0.5)
  {
    var n := Numeral(false, "", Some("5"));
    assert ".5ms" == SpellNumeral(n) + Spaces(0) + "ms";
    assert "ms" in CaseTokens(Millisecond) by { assert CaseTokens(Millisecond)[4] == "ms"; }
    assert InMilliseconds(FloatValue(n), Millisecond) == 0.5 by { assert DigitsValue("5") == 5; }
    ParseExample(n, 0, "ms", Millisecond, ".5ms", 0.5);
  }

  /** A negative number that starts at its point (ms_test.go:33). */
  lemma MinusHalfHour()
    ensures Parse("-.5h") == Success(-1800000.0)
  {
    var n := Numeral(true, "", Some("5"));
    assert "-.5h" == SpellNumeral(n) + Spaces(0) + "h";
    assert "h" in CaseTokens(Hour) by { assert CaseTokens(Hour)[4] == "h"; }
    assert InMilliseconds(FloatValue(n), Hour) == -1800000.0 by { assert DigitsValue("5") == 5; }
    ParseExample(n, 0, "h", Hour, "-.5h", -1800000.0);
  }

  /** The long spelling of milliseconds (ms_test.go:39). */
  lemma FiftyThreeMilliseconds()
    ensures Parse("53 milliseconds") == Success(53.0)
  {
    var n := Numeral(false, "53", None);
    assert "53 milliseconds" == SpellNumeral(n) + Spaces(1) + "milliseconds" by { assert Spaces(1) == " "; }
    assert "milliseconds" in CaseTokens(Millisecond) by { assert CaseTokens(Millisecond)[0] == "milliseconds"; }
    assert InMilliseconds(FloatValue(n), Millisecond) == 53.0 by { assert DigitsValue("53") == 53; }
    ParseExample(n, 1, "milliseconds", Millisecond, "53 milliseconds", 53.0);
  }

  /** A fraction of an hour (ms_test.go:26). */
  lemma OneAndAHalfHours()
    ensures Parse("1.5h") == Success(5400000.0)
  {
    var n := Numeral(false, "1", Some("5"));
    assert "1.5h" == SpellNumeral(n) + Spaces(0) + "h";
    assert "h" in CaseTokens(Hour) by { assert CaseTokens(Hour)[4] == "h"; }
    assert InMilliseconds(FloatValue(n), Hour) == 5400000.0 by { assert DigitsValue("1") == 1 && DigitsValue("5") == 5; }
    ParseExample(n, 0, "h", Hour, "1.5h", 5400000.0);
  }

  /** The unit may be upper case (ms_test.go:28). */
  lemma UpperCaseHour()
    ensures Parse("1.5H") == Success(5400000.0)
  {
    OneAndAHalfHours();
    assert Lower("1.5H") == Lower("1.5h");
    ParseCaseInsensitive("1.5H", "1.5h");
  }

  /**
   * A one followed by `k` zeros is 10^k while it fits in 100 bytes, that is up to the
   * 99 zeros of ms_test.go:18, and too long from 100 zeros on.
   */
  lemma OneFollowedByZeros(k: nat)
    ensures k <= 99 ==> Parse("1" + Zeros(k)) == Success(Pow10(k) as real)
    ensures k >= 100 ==> Parse("1" + Zeros(k)) == Failure(ErrTooLong)
  {
    OneAndZeros(k);
    if k <= 99 {
      UnitlessNumber("1" + Zeros(k));
    }
  }

  /** A run of at most 100 digits is read as a whole number of milliseconds. */
  lemma UnitlessNumber(s: string)
    requires |s| > 0 && AllDigits(s) && Utf8Length(s) <= MaxInputBytes
    ensures Parse(s) == Success(DigitsValue(s) as real)
  {
    var n := Numeral(false, s, None);
    assert SpellNumeral(n) == s by { assert Magnitude(n) == s; }
    ParseUnitless(n);
  }

  /** The empty input has no number (ms_test.go:54). */
  lemma EmptyInput()
    ensures Parse("") == Failure(ErrInvalidFormat)
  {
  }

  /** Text without a digit has no number (ms_test.go:55). */
  lemma NoDigits()
    ensures Parse("â˜ƒ") == Failure(ErrInvalidFormat)
  {
    assert Utf8Length("â˜ƒ") == 6;
    assert DigitRun("â˜ƒ") == 0;
  }

  /** A text whose first character is no letter, even in lower case, is no unit token. */
  lemma NoLetterFirst(u: string)
    requires |u| > 0 && !('a' <= Lower(u)[0] <= 'z')
    ensures !AcceptsUnit(u)
  {
    ListedIsIn(UnitAlternatives, Lower(u));
    AlternativeIsLowerWord(Lower(u));
  }

  /** A short enough input whose number is followed by no unit token is refused. */
  lemma RejectedExample(s: string, l: Lexeme)
    requires Scan(s) == Some(l) && !AcceptsUnit(l.unit) && Utf8Length(s) <= MaxInputBytes
    ensures Parse(s) == Failure(ErrInvalidFormat)
  {
  }

  /** A sign in the middle is not part of any unit (ms_test.go:56). */
  lemma SignInside()
    ensures Parse("10-.5") == Failure(ErrInvalidFormat)
  {
    var s := "10-.5";
    var u := "-.5";
    var n := Numeral(false, "10", None);
    assert s == Magnitude(n) + u;
    ScanUnsignedNumeral(n, u, s);
    var l := Lexeme(n, 0, u);
    assert !AcceptsUnit(u) by {
      assert Lower(u)[0] == '-';
      NoLetterFirst(u);
    }
    assert Utf8Length(s) == 5 by {
      AsciiLength(s);
    }
    RejectedExample(s, l);
  }

  /** 101 digits are refused before matching (ms_test.go:64-66). */
  lemma TooManyDigits()
    ensures Parse(seq(101, _ => '1')) == Failure(ErrTooLong)
  {
    RepeatLength('1', 101);
  }

  /** The guard counts bytes: 51 two-byte characters are too long though only 51 long. */
  lemma TooManyBytes()
    ensures Parse(seq(51, _ => 'é')) == Failure(ErrTooLong)
  {
    RepeatLength('é', 51);
  }

  /** `MustParse("10 hours")` returns (ms_test.go:244). */
  lemma MustParseTenHours()
    ensures MustParse("10 hours") == Returned(36000000.0)
  {
    var n := Numeral(false, "10", None);
    assert "10 hours" == SpellNumeral(n) + Spaces(1) + "hours" by { assert Spaces(1) == " "; }
    assert "hours" in CaseTokens(Hour) by { assert CaseTokens(Hour)[0] == "hours"; }
    assert InMilliseconds(FloatValue(n), Hour) == 36000000.0 by { assert DigitsValue("10") == 10; }
    ParseExample(n, 1, "hours", Hour, "10 hours", 36000000.0);
  }

  /** `MustParse` aborts with the error `Parse` reports. */
  lemma MustParseEmpty()
    ensures MustParse("") == Panicked(ErrInvalidFormat)
  {
  }

  /** The bracket a magnitude selects, with its range. */
  lemma Selected(msAbs: real) returns (b: Bracket)
    requires msAbs >= 0.0
    ensures Selects(b, msAbs)
    ensures b == Days <==> msAbs >= DayMs
    ensures b == Hours <==> HourMs <= msAbs < DayMs
    ensures b == Minutes <==> MinuteMs <= msAbs < HourMs
    ensures b == Seconds <==> SecondMs <= msAbs < MinuteMs
  {
    SelectionUnique(msAbs);
    b :| Selects(b, msAbs);
    SelectsRange(b, msAbs);
  }

  /** Both texts of a duration whose bracket and count are known. */
  lemma FormatExample(ms: real, b: Bracket, k: int, decimal: real -> string)
    requires b != Milliseconds && Selects(b, Abs(ms)) && Count(ms, b) == k
    ensures FormatShort(Finite(ms), decimal) == Success(IntText(k) + Symbol(b))
    ensures FormatLong(Finite(ms), decimal) == Success(Counted(k, Name(b)))
  {
    FormatShortSelects(ms, b, decimal);
    FormatLongSelects(ms, b, decimal);
  }

  /** One minute (ms_test.go:99, :142, :238). */
  lemma OneMinute(decimal: real -> string)
    ensures FormatShort(Finite(60000.0), decimal) == Success("1m")
    ensures FormatLong(Finite(60000.0), decimal) == Success("1 minute")
  {
    var b := Selected(60000.0);
    assert Count(60000.0, Minutes) == 1;
    FormatExample(60000.0, Minutes, 1, decimal);
    assert IntText(1) + "m" == "1m";
    assert Counted(1, "minute") == "1 minute";
  }

  /** Minus three minutes (ms_test.go:242, :258). */
  lemma MinusThreeMinutes(decimal: real -> string)
    ensures FormatShort(Finite(-180000.0), decimal) == Success("-3m")
    ensures FormatLong(Finite(-180000.0), decimal) == Success("-3 minutes")
  {
    var b := Selected(180000.0);
    assert Abs(-180000.0) == 180000.0;
    assert Count(-180000.0, Minutes) == -3;
    FormatExample(-180000.0, Minutes, -3, decimal);
    assert IntText(-3) + "m" == "-3m";
    assert Counted(-3, "minute") == "-3 minutes";
  }

  /** A little under three days (ms_test.go:117, :160). */
  lemma AlmostThreeDays(decimal: real -> string)
    ensures FormatShort(Finite(234234234.0), decimal) == Success("3d")
    ensures FormatLong(Finite(234234234.0), decimal) == Success("3 days")
  {
    var b := Selected(234234234.0);
    assert Count(234234234.0, Days) == 3;
    FormatExample(234234234.0, Days, 3, decimal);
    assert IntText(3) + "d" == "3d";
    assert Counted(3, "day") == "3 days";
  }

  /** 1.2 seconds is still one second (ms_test.go:94, :137). */
  lemma OneSecond(decimal: real -> string)
    ensures FormatShort(Finite(1200.0), decimal) == Success("1s")
    ensures FormatLong(Finite(1200.0), decimal) == Success("1 second")
  {
    var b := Selected(1200.0);
    assert Count(1200.0, Seconds) == 1;
    FormatExample(1200.0, Seconds, 1, decimal);
    assert IntText(1) + "s" == "1s";
    assert Counted(1, "second") == "1 second";
  }

  /** Minus 1.2 seconds is minus one second, in the singular (ms_test.go:97, :140). */
  lemma MinusOneSecond(decimal: real -> string)
    ensures FormatShort(Finite(-1200.0), decimal) == Success("-1s")
    ensures FormatLong(Finite(-1200.0), decimal) == Success("-1 second")
  {
    var b := Selected(1200.0);
    assert Abs(-1200.0) == 1200.0;
    assert Count(-1200.0, Seconds) == -1;
    FormatExample(-1200.0, Seconds, -1, decimal);
    assert IntText(-1) + "s" == "-1s";
    assert Counted(-1, "second") == "-1 second";
  }

  /** Ten seconds, in the plural (ms_test.go:95, :138). */
  lemma TenSeconds(decimal: real -> string)
    ensures FormatShort(Finite(10000.0), decimal) == Success("10s")
    ensures FormatLong(Finite(10000.0), decimal) == Success("10 seconds")
  {
    var b := Selected(10000.0);
    assert Count(10000.0, Seconds) == 10;
    FormatExample(10000.0, Seconds, 10, decimal);
    assert NatText(10) == "10";
    assert IntText(10) + "s" == "10s";
    assert Counted(10, "second") == "10 seconds";
  }

  /** `%.0f` rounds a tie to even: 2.5 seconds is two seconds, 3.5 seconds four. */
  lemma TiesToEven(decimal: real -> string)
    ensures FormatLong(Finite(2500.0), decimal) == Success("2 seconds")
    ensures FormatShort(Finite(3500.0), decimal) == Success("4s")
  {
    var b := Selected(2500.0);
    var c := Selected(3500.0);
    assert Count(2500.0, Seconds) == 2;
    assert Count(3500.0, Seconds) == 4;
    FormatExample(2500.0, Seconds, 2, decimal);
    FormatExample(3500.0, Seconds, 4, decimal);
    assert IntText(4) + "s" == "4s";
    assert Counted(2, "second") == "2 seconds";
  }

  /**
   * Below one second the number itself is printed (ms_test.go:91-92, :134-135). The
   * digits come from `decimal`; given the digits `FormatFloat` prints for 500 and -500,
   * the texts are the ones the tests expect.
   */
  lemma MillisecondExamples(decimal: real -> string)
    ensures FormatShort(Finite(500.0), decimal) == Success(decimal(500.0) + "ms")
    ensures FormatShort(Finite(-500.0), decimal) == Success(decimal(-500.0) + "ms")
    ensures FormatLong(Finite(500.0), decimal) == Success(decimal(500.0) + " ms")
    ensures FormatLong(Finite(-500.0), decimal) == Success(decimal(-500.0) + " ms")
    ensures decimal(500.0) == "500" && decimal(-500.0) == "-500" ==>
              && FormatShort(Finite(500.0), decimal) == Success("500ms")
              && FormatShort(Finite(-500.0), decimal) == Success("-500ms")
              && FormatLong(Finite(500.0), decimal) == Success("500 ms")
              && FormatLong(Finite(-500.0), decimal) == Success("-500 ms")
  {
    assert "500" + "ms" == "500ms" && "-500" + "ms" == "-500ms";
    assert "500" + " ms" == "500 ms" && "-500" + " ms" == "-500 ms";
  }

  /** NaN and both infinities are refused by both formatters (ms_test.go:173-193). */
  lemma SpecialValues(decimal: real -> string)
    ensures FormatShort(NaN, decimal) == Failure(ErrNaN) && FormatLong(NaN, decimal) == Failure(ErrNaN)
    ensures FormatShort(PosInf, decimal) == Failure(ErrInfinity)
    ensures FormatShort(NegInf, decimal) == Failure(ErrInfinity)
    ensures FormatLong(PosInf, decimal) == Failure(ErrInfinity)
    ensures FormatLong(NegInf, decimal) == Failure(ErrInfinity)
  {
  }
}
