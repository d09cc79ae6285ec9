/**
 * `Parse` and `MustParse` (ms.go:39-76): a byte-length guard, the anchored match of
 * the duration pattern, and the `switch` that turns the unit token into a factor.
 */
module Parsing {
  import opened Wrappers
  import opened Text
  import opened Grammar
  import opened Units

  /** The longest input `Parse` looks at, in bytes (ms.go:41). */
  const MaxInputBytes: nat := 100

  /** `ErrTooLong` and `ErrInvalidFormat`; only the identity of each error matters. */
  datatype ParseError = ErrTooLong | ErrInvalidFormat

  /** The tokens listed in the `switch` case of each unit (ms.go:50-62). */
  function CaseTokens(u: Unit): seq<string>
  {
    match u
    case Year => ["years", "year", "yrs", "yr", "y"]
    case Week => ["weeks", "week", "w"]
    case Day => ["days", "day", "d"]
    case Hour => ["hours", "hour", "hrs", "hr", "h"]
    case Minute => ["minutes", "minute", "mins", "min", "m"]
    case Second => ["seconds", "second", "secs", "sec", "s"]
    case Millisecond => ["milliseconds", "millisecond", "msecs", "msec", "ms", ""]
  }

  /**
   * The `switch` of ms.go:49-66 on an already lower-cased token, cases in source order.
   * `None` is the `default` branch, which panics.
   */
  function SwitchUnit(token: string): (r: Option<Unit>)
    ensures r.Some? ==> token in CaseTokens(r.value)
    ensures r.None? ==> forall u :: token !in CaseTokens(u)
  {
    CasesListed(token);
    if Listed(CaseTokens(Year), token) then Some(Year)
    else if Listed(CaseTokens(Week), token) then Some(Week)
    else if Listed(CaseTokens(Day), token) then Some(Day)
    else if Listed(CaseTokens(Hour), token) then Some(Hour)
    else if Listed(CaseTokens(Minute), token) then Some(Minute)
    else if Listed(CaseTokens(Second), token) then Some(Second)
    else if Listed(CaseTokens(Millisecond), token) then Some(Millisecond)
    else None
  }

  /** Searching a case list is membership in it. */
  lemma CasesListed(token: string)
    ensures forall u :: Listed(CaseTokens(u), token) <==> token in CaseTokens(u)
  {
    forall u { ListedIsIn(CaseTokens(u), token); }
  }

  /** No token is listed under two units, so the order of the cases does not matter. */
  lemma SwitchCasesDisjoint(u: Unit, v: Unit, token: string)
    requires token in CaseTokens(u) && token in CaseTokens(v)
    ensures u == v
  {
    CaseOwnsToken(u, token);
  }

  /** A token listed under `u` is listed under no other unit. */
  lemma CaseOwnsToken(u: Unit, token: string)
    requires token in CaseTokens(u)
    ensures forall v :: token in CaseTokens(v) ==> v == u
  {
    var i :| 0 <= i < |CaseTokens(u)| && CaseTokens(u)[i] == token;
    forall v | token in CaseTokens(v)
      ensures v == u
    {
      var j :| 0 <= j < |CaseTokens(v)| && CaseTokens(v)[j] == token;
      TokensDiffer(u, i, v, j);
    }
  }

  /** Equal entries of two case lists belong to the same unit. */
  lemma TokensDiffer(u: Unit, i: nat, v: Unit, j: nat)
    requires i < |CaseTokens(u)| && j < |CaseTokens(v)|
    ensures CaseTokens(u)[i] == CaseTokens(v)[j] ==> u == v
  {
  }

  /** The switch picks exactly the unit whose case lists the token. */
  lemma SwitchSelectsCase(token: string, u: Unit)
    ensures SwitchUnit(token) == Some(u) <==> token in CaseTokens(u)
  {
    forall v { ListedIsIn(CaseTokens(v), token); }
    if token in CaseTokens(u) {
      var v := SwitchUnit(token);
      assert v.Some? && token in CaseTokens(v.value);
      SwitchCasesDisjoint(u, v.value, token);
    }
  }

  /**
   * The switch handles exactly the tokens the pattern's unit group can capture (and the
   * empty token of an absent unit): the `default: panic` is unreachable, and no case is dead.
   */
  lemma SwitchCoversGrammar(token: string)
    ensures SwitchUnit(token).Some? <==> token == [] || token in UnitAlternatives
  {
    forall v { ListedIsIn(CaseTokens(v), token); }
    assert SwitchUnit(token).Some? <==> exists v :: token in CaseTokens(v);
    assert forall a | a in UnitAlternatives :: exists v :: a in CaseTokens(v);
  }

  /** strconv.ParseFloat of the first capture group, exactly. */
  function FloatValue(n: Numeral): (r: real)
    requires NumeralWellFormed(n)
    ensures n.negative ==> r <= 0.0
    ensures !n.negative ==> r >= 0.0
  {
    var magnitude := DigitsValue(n.whole) as real
      + match n.fraction
        case None => 0.0
        case Some(f) => DigitsValue(f) as real / Pow10(|f|) as real;
    if n.negative then -magnitude else magnitude
  }

  lemma FloatValueSign(n: Numeral)
    requires NumeralWellFormed(n)
    ensures FloatValue(n.(negative := true)) == -FloatValue(n.(negative := false))
  {
  }

  /** The unit that the `switch` selects for the unit token of an accepted input. */
  function UnitOf(token: string): (u: Unit)
    requires AcceptsUnit(token)
    ensures Lower(token) in CaseTokens(u)
  {
    ListedIsIn(UnitAlternatives, Lower(token));
    SwitchCoversGrammar(Lower(token));
    var u := SwitchUnit(Lower(token)).value;
    SwitchSelectsCase(Lower(token), u);
    u
  }

  /** The number of a match converted by the factor of its unit (ms.go:48-63). */
  function LexemeValue(l: Lexeme): real
    requires WellFormed(l)
  {
    InMilliseconds(FloatValue(l.number), UnitOf(l.unit))
  }

  /** The unit whose case lists the token is the one `UnitOf` picks. */
  lemma UnitOfCase(token: string, u: Unit)
    requires AcceptsUnit(token) && Lower(token) in CaseTokens(u)
    ensures UnitOf(token) == u
  {
    SwitchCasesDisjoint(u, UnitOf(token), Lower(token));
  }

  /** Go's `Parse` (ms.go:40-67). */
  function Parse(str: string): (r: Result<real, ParseError>)
    ensures r == Failure(ErrTooLong) <==> Utf8Length(str) > MaxInputBytes
    ensures r == Failure(ErrInvalidFormat) <==> Utf8Length(str) <= MaxInputBytes && Recognise(str).None?
  {
    if Utf8Length(str) > MaxInputBytes then Failure(ErrTooLong)
    else match Recognise(str)
      case None => Failure(ErrInvalidFormat)
      case Some(l) =>
        Success(LexemeValue(l))
  }

  /** `MustParse`'s outcome: the value, or a panic carrying the error. */
  datatype Abortable<T> = Returned(value: T) | Panicked(reason: ParseError)

  /** Go's `MustParse` (ms.go:70-76). */
  function MustParse(str: string): (o: Abortable<real>)
    ensures o.Returned? <==> Parse(str).Success?
    ensures o.Returned? ==> o.value == Parse(str).value
    ensures o.Panicked? ==> o.reason == Parse(str).error
  {
    match Parse(str)
    case Success(ms) => Returned(ms)
    case Failure(e) => Panicked(e)
  }

  /** `Parse` of an input of at most 100 bytes that the pattern matches. */
  lemma ParseRecognised(str: string, l: Lexeme)
    requires WellFormed(l) && Recognise(str) == Some(l) && Utf8Length(str) <= MaxInputBytes
    ensures Parse(str) == Success(LexemeValue(l))
  {
  }

  lemma LexemeValueOf(l: Lexeme, u: Unit)
    requires WellFormed(l) && Lower(l.unit) in CaseTokens(u)
    ensures LexemeValue(l) == InMilliseconds(FloatValue(l.number), u)
  {
    UnitOfCase(l.unit, u);
  }

  /** `Parse` succeeds on exactly the short enough strings of the pattern's language. */
  lemma ParseAcceptsLanguage(str: string)
    ensures Parse(str).Success? <==> Utf8Length(str) <= MaxInputBytes && InLanguage(str)
  {
    RecogniseDecides(str);
  }

  /** On success the result is the number times the factor of its unit. */
  lemma ParseValue(l: Lexeme, u: Unit)
    requires WellFormed(l) && Lower(l.unit) in CaseTokens(u)
    requires Utf8Length(Spell(l)) <= MaxInputBytes
    ensures Parse(Spell(l)) == Success(InMilliseconds(FloatValue(l.number), u))
  {
    RecogniseComplete(l);
    ParseRecognised(Spell(l), l);
    LexemeValueOf(l, u);
  }

  /** A number without a unit is returned unchanged (ms.go:62-63). */
  lemma ParseUnitless(n: Numeral)
    requires NumeralWellFormed(n) && Utf8Length(SpellNumeral(n)) <= MaxInputBytes
    ensures Parse(SpellNumeral(n)) == Success(FloatValue(n))
  {
    assert InMilliseconds(FloatValue(n), Millisecond) == FloatValue(n);
    var l := Lexeme(n, 0, "");
    assert Spell(l) == SpellNumeral(n);
    assert Lower(l.unit) in CaseTokens(Millisecond);
    ParseValue(l, Millisecond);
  }

  lemma LexemeValueNegated(l: Lexeme)
    requires WellFormed(l)
    ensures LexemeValue(l.(number := l.number.(negative := true)))
         == -LexemeValue(l.(number := l.number.(negative := false)))
  {
    var pos := l.(number := l.number.(negative := false));
    var neg := l.(number := l.number.(negative := true));
    var c := FloatValue(pos.number);
    var u := UnitOf(l.unit);
    FloatValueSign(l.number);
    assert FloatValue(neg.number) == -c;
    assert LexemeValue(pos) == InMilliseconds(c, u);
    assert LexemeValue(neg) == InMilliseconds(-c, u);
    InMillisecondsNegate(c, u);
  }

  lemma PrependLength(c: char, t: string)
    ensures Utf8Length([c] + t) == CharWidth(c) + Utf8Length(t)
  {
    assert ([c] + t)[1..] == t;
  }

  /** A leading minus negates the result and changes nothing else. */
  lemma ParseNegation(t: string)
    requires t == [] || t[0] != '-'
    requires Utf8Length(t) < MaxInputBytes
    ensures Parse("-" + t).Success? <==> Parse(t).Success?
    ensures Parse(t).Success? ==> Parse("-" + t).value == -Parse(t).value
  {
    PrependLength('-', t);
    RecogniseNegation(t);
    if Recognise(t).Some? {
      var l := Recognise(t).value;
      var l' := l.(number := l.number.(negative := true));
      assert WellFormed(l');
      ParseRecognised(t, l);
      ParseRecognised("-" + t, l');
      LexemeValueNegated(l);
      assert l.(number := l.number.(negative := false)) == l;
    }
  }

  lemma LexemeValueLower(l: Lexeme)
    requires WellFormed(l)
    ensures WellFormed(l.(unit := Lower(l.unit)))
    ensures LexemeValue(l.(unit := Lower(l.unit))) == LexemeValue(l)
  {
    LowerIdempotent(l.unit);
    assert Lower(l.unit) == [] <==> l.unit == [];
  }

  /** Upper- and lower-case spellings give the same result. */
  lemma ParseLower(s: string)
    ensures Parse(Lower(s)) == Parse(s)
  {
    LowerIdempotent(s);
    LowerLength(Lower(s), s);
    RecogniseLower(s);
    if Recognise(s).Some? {
      var l := Recognise(s).value;
      LexemeValueLower(l);
      if Utf8Length(s) <= MaxInputBytes {
        ParseRecognised(s, l);
        ParseRecognised(Lower(s), l.(unit := Lower(l.unit)));
      }
    }
  }

  lemma ParseCaseInsensitive(s: string, t: string)
    requires Lower(s) == Lower(t)
    ensures Parse(s) == Parse(t)
  {
    ParseLower(s);
    ParseLower(t);
  }

  lemma SpellLength(l: Lexeme)
    requires WellFormed(l)
    ensures Utf8Length(Spell(l)) == |SpellNumeral(l.number)| + l.spaces + |l.unit|
  {
    WellFormedAscii(l);
    AsciiLength(Spell(l));
  }

  /** Any run of spaces between the number and the unit gives the same result as none. */
  lemma ParseIgnoresSpaces(l: Lexeme)
    requires WellFormed(l) && Utf8Length(Spell(l)) <= MaxInputBytes
    ensures Parse(Spell(l)) == Parse(Spell(l.(spaces := 0)))
  {
    var l0 := l.(spaces := 0);
    SpellLength(l);
    SpellLength(l0);
    RecogniseComplete(l);
    RecogniseComplete(l0);
    ParseRecognised(Spell(l), l);
    ParseRecognised(Spell(l0), l0);
    assert LexemeValue(l) == LexemeValue(l0);
  }
}
