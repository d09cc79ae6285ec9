/**
 * How Go's regexp and `strings.ToLower` disagree. Under `(?i)` the pattern compares
 * letters by Unicode simple case folding, which puts two non-ASCII characters in the
 * classes of ASCII letters: U+017F LATIN SMALL LETTER LONG S with `s` and `S`, and
 * U+212A KELVIN SIGN with `k` and `K`. `strings.ToLower` maps KELVIN SIGN to `k`, so a
 * token spelled with it reaches the right case of the `switch` (ms.go:49-63); it leaves
 * LONG S alone, being already lower case, so a token spelled with LONG S is matched by
 * the pattern (ms.go:36, ms.go:44) and then found in no case, and the `default` panics
 * (ms.go:64-65). `ParseAsWritten` models this; `Parsing.Parse` is the corrected
 * behaviour, which uses one case mapping for both steps and is total.
 */
module CaseFolding {
  import opened Wrappers
  import opened Text
  import opened Grammar
  import opened Units
  import opened Parsing

  /** LATIN SMALL LETTER LONG S. */
  const LongS: char := '\U{017F}'

  /** KELVIN SIGN. */
  const KelvinSign: char := '\U{212A}'

  /**
   * The case folding the pattern applies, as far as the letters of the unit
   * alternatives are concerned: ASCII letters lose their case, LONG S becomes `s` and
   * KELVIN SIGN becomes `k`. No other character folds onto an ASCII letter.
   */
  function FoldChar(c: char): char
  {
    if c == LongS then 's' else if c == KelvinSign then 'k' else AsciiLower(c)
  }

  /**
   * The folding of a whole token: no ASCII upper-case letter, LONG S or KELVIN SIGN is
   * left, and no other character changes.
   */
  function Fold(s: string): (r: string)
    ensures |r| == |s|
    ensures forall i :: 0 <= i < |r| ==> !('A' <= r[i] <= 'Z') && r[i] != LongS && r[i] != KelvinSign
    ensures forall i :: 0 <= i < |s| ==>
              'A' <= s[i] <= 'Z' || s[i] == LongS || s[i] == KelvinSign || r[i] == s[i]
  {
    seq(|s|, i requires 0 <= i < |s| => FoldChar(s[i]))
  }

  /**
   * `strings.ToLower` on the characters a matched unit token can hold
   * (`MatchedTokenLetters`): ASCII letters, LONG S, which stays as it is, and KELVIN
   * SIGN, whose lower case is `k`.
   */
  function GoLowerChar(c: char): char
  {
    if c == KelvinSign then 'k' else AsciiLower(c)
  }

  /**
   * `strings.ToLower` of a token: no ASCII upper-case letter or KELVIN SIGN is left,
   * LONG S is kept, and no other character changes.
   */
  function GoLower(s: string): (r: string)
    ensures |r| == |s|
    ensures forall i :: 0 <= i < |r| ==> !('A' <= r[i] <= 'Z') && r[i] != KelvinSign
    ensures forall i :: 0 <= i < |s| ==> s[i] == LongS ==> r[i] == LongS
    ensures forall i :: 0 <= i < |s| ==> 'A' <= s[i] <= 'Z' || s[i] == KelvinSign || r[i] == s[i]
  {
    seq(|s|, i requires 0 <= i < |s| => GoLowerChar(s[i]))
  }

  /**
   * What the unit group of the pattern accepts under Unicode case folding. On ASCII
   * tokens it is the unit group of the ASCII-folding grammar.
   */
  function MatchesUnitAsWritten(u: string): (r: bool)
    ensures AllAscii(u) ==> (r <==> AcceptsUnit(u))
  {
    AsciiFold(u);
    u == [] || Listed(UnitAlternatives, Fold(u))
  }

  /** On ASCII text the pattern's folding is ASCII lower-casing. */
  lemma AsciiFold(u: string)
    ensures AllAscii(u) ==> Fold(u) == Lower(u)
  {
    if AllAscii(u) {
      forall i | 0 <= i < |u| ensures Fold(u)[i] == Lower(u)[i] {
        assert IsAscii(u[i]);
      }
    }
  }

  /**
   * The whole anchored pattern under Unicode case folding. It matches everything the
   * ASCII-folding grammar matches, and on ASCII input exactly that.
   */
  function MatchesAsWritten(str: string): (r: bool)
    ensures Recognise(str).Some? ==> r
    ensures AllAscii(str) ==> (r <==> Recognise(str).Some?)
  {
    MatchesAsciiAgree(str);
    Scan(str).Some? && MatchesUnitAsWritten(Scan(str).value.unit)
  }

  /** The unit token of an ASCII input is ASCII, and Unicode folding accepts what ASCII folding does. */
  lemma MatchesAsciiAgree(str: string)
    ensures Scan(str).Some? ==>
              (AcceptsUnit(Scan(str).value.unit) ==> MatchesUnitAsWritten(Scan(str).value.unit))
    ensures Scan(str).Some? && AllAscii(str) ==> AllAscii(Scan(str).value.unit)
  {
    if Scan(str).Some? {
      AcceptedMatches(Scan(str).value.unit);
      UnitAscii(str);
    }
  }

  lemma UnitAscii(str: string)
    requires Scan(str).Some?
    ensures AllAscii(str) ==> AllAscii(Scan(str).value.unit)
  {
    ScanSound(str);
    var l := Scan(str).value;
    SuffixAscii(SpellNumeral(l.number) + Spaces(l.spaces), l.unit, str);
  }

  /** The end of an ASCII text is ASCII. */
  lemma SuffixAscii(p: string, u: string, str: string)
    requires str == p + u
    ensures AllAscii(str) ==> AllAscii(u)
  {
    if AllAscii(str) {
      forall i | 0 <= i < |u| ensures IsAscii(u[i]) {
        assert u[i] == str[|p| + i];
      }
    }
  }

  /** A character of the end of a text is a character of the text. */
  lemma SuffixChar(p: string, u: string, str: string, c: char)
    requires str == p + u
    ensures c in u ==> c in str
  {
    if c in u {
      var i :| 0 <= i < |u| && u[i] == c;
      assert str[|p| + i] == c;
    }
  }

  /** A call of Go's `Parse` either returns or reaches `panic("unreachable")`. */
  datatype Outcome = Finished(result: Result<real, ParseError>) | Unreachable

  /** Go's `Parse` (ms.go:40-67) with the case folding of Go's regexp and of `strings.ToLower`. */
  function ParseAsWritten(str: string): (o: Outcome)
    ensures o == Finished(Failure(ErrTooLong)) <==> Utf8Length(str) > MaxInputBytes
    ensures o == Finished(Failure(ErrInvalidFormat)) <==>
              Utf8Length(str) <= MaxInputBytes && !MatchesAsWritten(str)
  {
    if Utf8Length(str) > MaxInputBytes then Finished(Failure(ErrTooLong))
    else match Scan(str)
      case None => Finished(Failure(ErrInvalidFormat))
      case Some(l) =>
        if !MatchesUnitAsWritten(l.unit) then Finished(Failure(ErrInvalidFormat))
        else match SwitchUnit(GoLower(l.unit))
          case None => Unreachable
          case Some(u) =>
            ScanSound(str);
            Finished(Success(InMilliseconds(FloatValue(l.number), u)))
  }

  /** Only ASCII letters, LONG S and KELVIN SIGN fold onto a lower-case ASCII letter. */
  lemma FoldedLetter(c: char)
    ensures 'a' <= FoldChar(c) <= 'z' ==> ('a' <= c <= 'z' || 'A' <= c <= 'Z' || c == LongS || c == KelvinSign)
  {
  }

  /** A unit token the pattern matches is spelled with ASCII letters, LONG S and KELVIN SIGN. */
  lemma MatchedTokenLetters(u: string)
    requires MatchesUnitAsWritten(u)
    ensures forall i :: 0 <= i < |u| ==>
              'a' <= u[i] <= 'z' || 'A' <= u[i] <= 'Z' || u[i] == LongS || u[i] == KelvinSign
  {
    if u != [] {
      var t := Fold(u);
      ListedIsIn(UnitAlternatives, t);
      AlternativeShape(t);
      forall i | 0 <= i < |u|
        ensures 'a' <= u[i] <= 'z' || 'A' <= u[i] <= 'Z' || u[i] == LongS || u[i] == KelvinSign
      {
        assert t[i] == FoldChar(u[i]);
        FoldedLetter(u[i]);
      }
    }
  }

  /**
   * Without LONG S the pattern's case folding is `strings.ToLower`; without KELVIN SIGN
   * as well, both are ASCII lower-casing.
   */
  lemma FoldWithoutLongS(u: string)
    requires LongS !in u
    ensures Fold(u) == GoLower(u)
    ensures KelvinSign !in u ==> GoLower(u) == Lower(u)
  {
    forall i | 0 <= i < |u| ensures Fold(u)[i] == GoLower(u)[i] {
      assert u[i] != LongS;
    }
    if KelvinSign !in u {
      forall i | 0 <= i < |u| ensures GoLower(u)[i] == Lower(u)[i] {
        assert u[i] != KelvinSign;
      }
    }
  }

  /** A token holding a character beyond ASCII is no unit token of `Parsing.Parse`. */
  lemma NonAsciiNotAccepted(u: string, i: nat)
    requires i < |u| && !IsAscii(u[i])
    ensures !AcceptsUnit(u)
  {
    if IsUnitToken(u) {
      UnitTokenShape(u);
      assert false;
    }
  }

  /** Every unit token of `Parsing.Parse` is matched under Unicode case folding too, with the same folding. */
  lemma AcceptedMatches(u: string)
    ensures AcceptsUnit(u) ==> MatchesUnitAsWritten(u) && Fold(u) == Lower(u)
  {
    if AcceptsUnit(u) && u != [] {
      UnitTokenShape(u);
      forall i | 0 <= i < |u| ensures Fold(u)[i] == Lower(u)[i] {
        assert IsAscii(u[i]);
      }
      assert Fold(u) == Lower(u);
    }
  }

  /** A token with LONG S in it is no unit token, and no case of the switch lists it. */
  lemma LongSNotListed(u: string)
    requires LongS in u
    ensures !AcceptsUnit(u)
    ensures SwitchUnit(GoLower(u)).None?
  {
    var i :| 0 <= i < |u| && u[i] == LongS;
    NonAsciiNotAccepted(u, i);
    var t := GoLower(u);
    assert t[i] == LongS;
    AlternativeIsLowerWord(t);
    assert t !in UnitAlternatives;
    SwitchCoversGrammar(t);
  }

  /** The unit token is the end of the input. */
  lemma UnitIsSuffix(str: string, c: char)
    requires Scan(str).Some?
    ensures c in Scan(str).value.unit ==> c in str
  {
    ScanSound(str);
    var l := Scan(str).value;
    SuffixChar(SpellNumeral(l.number) + Spaces(l.spaces), l.unit, str, c);
  }


  /**
   * The code as written panics exactly when the input passes the guard, the pattern
   * matches it under Unicode case folding, and its unit token holds LONG S; the
   * corrected `Parse` refuses every such input.
   */
  lemma AsWrittenPanics(str: string)
    ensures ParseAsWritten(str) == Unreachable <==>
              Utf8Length(str) <= MaxInputBytes && MatchesAsWritten(str) && LongS in Scan(str).value.unit
    ensures ParseAsWritten(str) == Unreachable ==> LongS in str && Parse(str) == Failure(ErrInvalidFormat)
  {
    if Utf8Length(str) <= MaxInputBytes && MatchesAsWritten(str) {
      var u := Scan(str).value.unit;
      UnitIsSuffix(str, LongS);
      if LongS in u {
        LongSNotListed(u);
      } else {
        FoldWithoutLongS(u);
        SwitchCoversGrammar(GoLower(u));
        ListedIsIn(UnitAlternatives, GoLower(u));
      }
    }
  }

  /**
   * When the code as written returns, it returns what the corrected `Parse` returns,
   * except on an input holding KELVIN SIGN that the code as written accepts and `Parse`
   * refuses as `ErrInvalidFormat`. So the two differ only on inputs holding LONG S or
   * KELVIN SIGN.
   */
  lemma AsWrittenFinished(str: string)
    ensures ParseAsWritten(str).Finished? ==>
              || ParseAsWritten(str) == Finished(Parse(str))
              || (&& KelvinSign in str
                  && ParseAsWritten(str).result.Success?
                  && Parse(str) == Failure(ErrInvalidFormat))
  {
    if Utf8Length(str) <= MaxInputBytes && Scan(str).Some? && ParseAsWritten(str).Finished? {
      var l := Scan(str).value;
      var u := l.unit;
      ScanSound(str);
      UnitIsSuffix(str, KelvinSign);
      AsWrittenPanics(str);
      AcceptedMatches(u);
      if MatchesUnitAsWritten(u) {
        FoldWithoutLongS(u);
        if KelvinSign in u {
          var i :| 0 <= i < |u| && u[i] == KelvinSign;
          NonAsciiNotAccepted(u, i);
        } else {
          assert Recognise(str) == Some(l);
          SwitchSelectsCase(Lower(u), UnitOf(u));
        }
      }
    }
  }

  /** "1ſ": the pattern matches it and the switch has no case for it. */
  lemma LongSPanics()
    ensures ParseAsWritten("1ſ") == Unreachable
    ensures Parse("1ſ") == Failure(ErrInvalidFormat)
  {
    var str := "1ſ";
    var u := "ſ";
    var n := Numeral(false, "1", None);
    assert str == Magnitude(n) + u;
    ScanUnsignedNumeral(n, u, str);
    assert Utf8Length(str) == 3;
    assert Fold(u) == "s" == UnitAlternatives[9];
    ListedIsIn(UnitAlternatives, "s");
    assert LongS in u;
    LongSNotListed(u);
  }

  /**
   * "1weeK" with KELVIN SIGN for the last letter (7 bytes): the code as written reads it
   * as one week, while the corrected `Parse`, which folds only ASCII, refuses it.
   */
  lemma KelvinWeek()
    ensures ParseAsWritten("1wee\U{212A}") == Finished(Success(604800000.0))
    ensures Parse("1wee\U{212A}") == Failure(ErrInvalidFormat)
  {
    var str := "1wee\U{212A}";
    var u := "wee\U{212A}";
    var n := Numeral(false, "1", None);
    KelvinWeekScan();
    KelvinWeekLength();
    KelvinWeekUnit();
    assert InMilliseconds(FloatValue(n), Week) == 604800000.0 by {
      assert FloatValue(n) == 1.0;
      FactorTable();
    }
    AsWrittenReturns(str, Lexeme(n, 0, u), Week);
    NonAsciiNotAccepted(u, 3);
  }

  lemma KelvinWeekScan()
    ensures Scan("1wee\U{212A}") == Some(Lexeme(Numeral(false, "1", None), 0, "wee\U{212A}"))
  {
    var n := Numeral(false, "1", None);
    assert "1wee\U{212A}" == Magnitude(n) + "wee\U{212A}";
    ScanUnsignedNumeral(n, "wee\U{212A}", "1wee\U{212A}");
  }

  lemma KelvinWeekLength()
    ensures Utf8Length("1wee\U{212A}") == 7
  {
    assert "1wee\U{212A}" == "1wee" + [KelvinSign];
    AsciiLength("1wee");
    AppendLength("1wee", [KelvinSign]);
  }

  /** The pattern folds the token onto "week", and `strings.ToLower` turns it into "week". */
  lemma KelvinWeekUnit()
    ensures MatchesUnitAsWritten("wee\U{212A}")
    ensures SwitchUnit(GoLower("wee\U{212A}")) == Some(Week)
  {
    var u := "wee\U{212A}";
    assert Fold(u) == "week" == UnitAlternatives[24];
    ListedIsIn(UnitAlternatives, "week");
    assert GoLower(u) == "week";
    SwitchSelectsCase("week", Week);
  }

  /** The path of ms.go:40-63 that returns a value. */
  lemma AsWrittenReturns(str: string, l: Lexeme, u: Unit)
    requires Utf8Length(str) <= MaxInputBytes && Scan(str) == Some(l) && NumeralWellFormed(l.number)
    requires MatchesUnitAsWritten(l.unit) && SwitchUnit(GoLower(l.unit)) == Some(u)
    ensures ParseAsWritten(str) == Finished(Success(InMilliseconds(FloatValue(l.number), u)))
  {
  }
}
