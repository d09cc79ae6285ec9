/**
 * The formatters' output read back by `Parse`: a formatted duration parses to its
 * count times the unit of its bracket, which is within half a unit of the original.
 */
module RoundTrip {
  import opened Wrappers
  import opened Text
  import opened Grammar
  import opened Units
  import opened Parsing
  import opened Formatting

  /** The parser's unit for each bracket the formatters count in. */
  function BracketUnit(b: Bracket): (u: Unit)
    requires b != Milliseconds
    ensures Factor(u) == Threshold(b)
  {
    match b
    case Days => Day
    case Hours => Hour
    case Minutes => Minute
    case Seconds => Second
  }

  /** The rounded count, back in milliseconds, is within half a unit of `ms`. */
  lemma CountNear(ms: real, b: Bracket)
    requires b != Milliseconds
    ensures Abs(InMilliseconds(Count(ms, b) as real, BracketUnit(b)) - ms) <= Threshold(b) / 2.0
  {
    var k := Count(ms, b) as real;
    assert InMilliseconds(k, BracketUnit(b)) == k * Threshold(b);
    match b
    case Days => assert ms / DayMs * DayMs == ms;
    case Hours => assert ms / HourMs * HourMs == ms;
    case Minutes => assert ms / MinuteMs * MinuteMs == ms;
    case Seconds => assert ms / SecondMs * SecondMs == ms;
  }

  /** The numeral `%.0f` writes for `k`. */
  function IntNumeral(k: int): (n: Numeral)
    ensures NumeralWellFormed(n) && SpellNumeral(n) == IntText(k)
  {
    var n := Numeral(k < 0, NatText(if k < 0 then -k else k), None);
    assert Magnitude(n) == n.whole;
    n
  }

  lemma IntNumeralValue(k: int)
    ensures FloatValue(IntNumeral(k)) == k as real
  {
    NatTextValue(if k < 0 then -k else k);
  }

  /** A lower-case word is its own lower case. */
  lemma LowerWordFixed(a: string)
    requires IsLowerWord(a)
    ensures Lower(a) == a
  {
    forall i | 0 <= i < |a| ensures Lower(a)[i] == a[i] {
      assert 'a' <= a[i] <= 'z';
    }
  }

  /** A lower-case token that a case of the switch lists is accepted by the pattern. */
  lemma CaseTokenAccepted(token: string, u: Unit)
    requires IsLowerWord(token) && token in CaseTokens(u)
    ensures AcceptsUnit(token) && Lower(token) in CaseTokens(u)
  {
    LowerWordFixed(token);
    SwitchSelectsCase(token, u);
    SwitchCoversGrammar(token);
    ListedIsIn(UnitAlternatives, token);
  }

  /** A numeral followed by `spaces` spaces and a lower-case token of `u` parses to that many `u`. */
  lemma ParseSpelled(n: Numeral, spaces: nat, token: string, u: Unit)
    requires NumeralWellFormed(n) && IsLowerWord(token) && token in CaseTokens(u)
    requires Utf8Length(SpellNumeral(n) + Spaces(spaces) + token) <= MaxInputBytes
    ensures Parse(SpellNumeral(n) + Spaces(spaces) + token) == Success(InMilliseconds(FloatValue(n), u))
  {
    CaseTokenAccepted(token, u);
    var l := Lexeme(n, spaces, token);
    ParseValue(l, u);
  }

  /** `k` followed by `spaces` spaces and `token` parses to `k` units of `u`. */
  lemma ParseCount(k: int, spaces: nat, token: string, u: Unit)
    requires IsLowerWord(token) && token in CaseTokens(u)
    requires Utf8Length(IntText(k) + Spaces(spaces) + token) <= MaxInputBytes
    ensures Parse(IntText(k) + Spaces(spaces) + token) == Success(InMilliseconds(k as real, u))
  {
    ParseSpelled(IntNumeral(k), spaces, token, u);
    IntNumeralValue(k);
  }

  /**
   * One of a unit parses to the unit's factor and `k` of it, with the same spacing, to
   * `k` times that: "2d" is twice "1d", "3 hours" three times "1 hours".
   */
  lemma ParseMultiple(k: int, spaces: nat, token: string, u: Unit)
    requires IsLowerWord(token) && token in CaseTokens(u)
    requires Utf8Length(IntText(k) + Spaces(spaces) + token) <= MaxInputBytes
    requires Utf8Length("1" + Spaces(spaces) + token) <= MaxInputBytes
    ensures Parse("1" + Spaces(spaces) + token) == Success(Factor(u))
    ensures Parse(IntText(k) + Spaces(spaces) + token) == Success(k as real * Factor(u))
  {
    ParseCount(k, spaces, token, u);
    ParseOne(spaces, token, u);
    InMillisecondsScale(k as real, u);
  }

  lemma ParseOne(spaces: nat, token: string, u: Unit)
    requires IsLowerWord(token) && token in CaseTokens(u)
    requires Utf8Length("1" + Spaces(spaces) + token) <= MaxInputBytes
    ensures Parse("1" + Spaces(spaces) + token) == Success(InMilliseconds(1.0, u))
  {
    assert IntText(1) == "1";
    ParseCount(1, spaces, token, u);
  }

  lemma SymbolToken(b: Bracket)
    requires b != Milliseconds
    ensures IsLowerWord(Symbol(b)) && Symbol(b) in CaseTokens(BracketUnit(b))
  {
  }

  lemma NameToken(b: Bracket, plural: bool)
    requires b != Milliseconds
    ensures var t := Name(b) + (if plural then "s" else "");
            IsLowerWord(t) && t in CaseTokens(BracketUnit(b))
  {
    match b
    case Days => assert CaseTokens(Day)[if plural then 0 else 1] == Name(b) + (if plural then "s" else "");
    case Hours => assert CaseTokens(Hour)[if plural then 0 else 1] == Name(b) + (if plural then "s" else "");
    case Minutes => assert CaseTokens(Minute)[if plural then 0 else 1] == Name(b) + (if plural then "s" else "");
    case Seconds => assert CaseTokens(Second)[if plural then 0 else 1] == Name(b) + (if plural then "s" else "");
  }

  /** The short text of a counting bracket parses to its count of the bracket's unit. */
  lemma ParseShortText(ms: real, b: Bracket, decimal: real -> string)
    requires b != Milliseconds && Utf8Length(ShortText(ms, b, decimal)) <= MaxInputBytes
    ensures Parse(ShortText(ms, b, decimal)) == Success(InMilliseconds(Count(ms, b) as real, BracketUnit(b)))
  {
    SymbolToken(b);
    var k := Count(ms, b);
    assert ShortText(ms, b, decimal) == IntText(k) + Spaces(0) + Symbol(b);
    ParseCount(k, 0, Symbol(b), BracketUnit(b));
  }

  /** `k` spelled out with the bracket's unit name, singular or plural, parses to `k` of that unit. */
  lemma ParseCounted(k: int, b: Bracket)
    requires b != Milliseconds && Utf8Length(Counted(k, Name(b))) <= MaxInputBytes
    ensures Parse(Counted(k, Name(b))) == Success(InMilliseconds(k as real, BracketUnit(b)))
  {
    var plural := !(k == 1 || k == -1);
    var token := Name(b) + (if plural then "s" else "");
    NameToken(b, plural);
    var head := IntText(k) + " ";
    assert Spaces(1) == " ";
    assert Counted(k, Name(b)) == head + Name(b) + (if plural then "s" else "");
    assert head + Name(b) + (if plural then "s" else "") == head + token;
    ParseCount(k, 1, token, BracketUnit(b));
  }

  /** The long text of a counting bracket parses to its count of the bracket's unit. */
  lemma ParseLongText(ms: real, b: Bracket, decimal: real -> string)
    requires b != Milliseconds && Utf8Length(LongText(ms, b, decimal)) <= MaxInputBytes
    ensures Parse(LongText(ms, b, decimal)) == Success(InMilliseconds(Count(ms, b) as real, BracketUnit(b)))
  {
    var k := Count(ms, b);
    assert LongText(ms, b, decimal) == Counted(k, Name(b));
    ParseCounted(k, b);
  }

  /**
   * `FormatShort` from one second up round-trips through `Parse` to its count of the
   * selected unit, within half that unit of the input, when the text fits the length guard.
   */
  lemma ShortRoundTrip(ms: real, b: Bracket, decimal: real -> string)
    requires Selects(b, Abs(ms)) && b != Milliseconds
    requires Utf8Length(FormatShort(Finite(ms), decimal).value) <= MaxInputBytes
    ensures Parse(FormatShort(Finite(ms), decimal).value)
         == Success(InMilliseconds(Count(ms, b) as real, BracketUnit(b)))
    ensures Abs(Parse(FormatShort(Finite(ms), decimal).value).value - ms) <= Threshold(b) / 2.0
  {
    FormatShortSelects(ms, b, decimal);
    ParseShortText(ms, b, decimal);
    CountNear(ms, b);
  }

  /** The same for `FormatLong`, whose unit word is singular or plural. */
  lemma LongRoundTrip(ms: real, b: Bracket, decimal: real -> string)
    requires Selects(b, Abs(ms)) && b != Milliseconds
    requires Utf8Length(FormatLong(Finite(ms), decimal).value) <= MaxInputBytes
    ensures Parse(FormatLong(Finite(ms), decimal).value)
         == Success(InMilliseconds(Count(ms, b) as real, BracketUnit(b)))
    ensures Abs(Parse(FormatLong(Finite(ms), decimal).value).value - ms) <= Threshold(b) / 2.0
  {
    FormatLongSelects(ms, b, decimal);
    ParseLongText(ms, b, decimal);
    CountNear(ms, b);
  }

  /** A numeral worth `ms`, then `spaces` spaces and "ms", parses to `ms`. */
  lemma ParseMilliseconds(ms: real, n: Numeral, spaces: nat)
    requires NumeralWellFormed(n) && FloatValue(n) == ms
    requires Utf8Length(SpellNumeral(n)) + spaces + 2 <= MaxInputBytes
    ensures Parse(SpellNumeral(n) + Spaces(spaces) + "ms") == Success(ms)
  {
    var t := Spaces(spaces) + "ms";
    assert SpellNumeral(n) + Spaces(spaces) + "ms" == SpellNumeral(n) + t;
    AppendLength(SpellNumeral(n), t);
    AsciiLength(t);
    assert IsLowerWord("ms") && "ms" in CaseTokens(Millisecond) by {
      assert CaseTokens(Millisecond)[4] == "ms";
    }
    ParseSpelled(n, spaces, "ms", Millisecond);
    assert InMilliseconds(ms, Millisecond) == ms;
  }

  /**
   * Below one second both formatters print the number itself; when that text is a
   * numeral worth exactly `ms`, parsing gives `ms` back.
   */
  lemma MillisecondsRoundTrip(ms: real, n: Numeral, decimal: real -> string)
    requires Abs(ms) < SecondMs
    requires NumeralWellFormed(n) && SpellNumeral(n) == decimal(ms) && FloatValue(n) == ms
    requires Utf8Length(decimal(ms)) + 3 <= MaxInputBytes
    ensures Parse(FormatShort(Finite(ms), decimal).value) == Success(ms)
    ensures Parse(FormatLong(Finite(ms), decimal).value) == Success(ms)
  {
    assert Selects(Milliseconds, Abs(ms));
    FormatShortSelects(ms, Milliseconds, decimal);
    FormatLongSelects(ms, Milliseconds, decimal);
    assert decimal(ms) + "ms" == SpellNumeral(n) + Spaces(0) + "ms";
    assert decimal(ms) + " ms" == SpellNumeral(n) + Spaces(1) + "ms";
    ParseMilliseconds(ms, n, 0);
    ParseMilliseconds(ms, n, 1);
  }
}
