/**
 * The duration pattern compiled in `init` (ms.go:36):
 *
 *   (?i)^(-?(?:\d+)?\.?\d+) *(<unit alternatives>)?$
 *
 * as a hand-written recogniser over strings. The number group `-?\d*\.?\d+` is the
 * language `-?(\d+ | \d*\.\d+)`; the unit group is optional and matched without regard
 * to the case of ASCII letters. `Lexeme` is the decomposition of a matching string and
 * `Spell` rebuilds the string from it; `Recognise` is proved to invert `Spell` on
 * exactly the well-formed lexemes.
 */
module Grammar {
  import opened Wrappers
  import opened Text

  /** The first capture group: sign, digits before the point, digits after it. */
  datatype Numeral = Numeral(negative: bool, whole: string, fraction: Option<string>)

  /** A whole match: the number, the spaces after it, and the unit token ("" when absent). */
  datatype Lexeme = Lexeme(number: Numeral, spaces: nat, unit: string)

  /**
   * The alternatives of the second capture group, `milliseconds?|msecs?|ms|...|yrs?|y`,
   * in pattern order, grouped by the unit they name.
   */
  const UnitAlternatives: seq<string> :=
    MillisecondAlternatives + SecondAlternatives + MinuteAlternatives + HourAlternatives
    + DayAlternatives + WeekAlternatives + YearAlternatives

  const MillisecondAlternatives: seq<string> := ["milliseconds", "millisecond", "msecs", "msec", "ms"]
  const SecondAlternatives: seq<string> := ["seconds", "second", "secs", "sec", "s"]
  const MinuteAlternatives: seq<string> := ["minutes", "minute", "mins", "min", "m"]
  const HourAlternatives: seq<string> := ["hours", "hour", "hrs", "hr", "h"]
  const DayAlternatives: seq<string> := ["days", "day", "d"]
  const WeekAlternatives: seq<string> := ["weeks", "week", "w"]
  const YearAlternatives: seq<string> := ["years", "year", "yrs", "yr", "y"]

  /** `x` is one of `xs`, searched front to back. */
  predicate Listed(xs: seq<string>, x: string)
  {
    |xs| > 0 && (xs[0] == x || Listed(xs[1..], x))
  }

  lemma {:induction false} ListedIsIn(xs: seq<string>, x: string)
    ensures Listed(xs, x) <==> x in xs
  {
    if |xs| > 0 {
      ListedIsIn(xs[1..], x);
      assert xs == [xs[0]] + xs[1..];
    }
  }

  /** `u` matches one of the alternatives, ignoring the case of ASCII letters. */
  predicate IsUnitToken(u: string) { Listed(UnitAlternatives, Lower(u)) }

  /** What the optional unit group accepts. */
  predicate AcceptsUnit(u: string) { u == [] || IsUnitToken(u) }

  predicate NumeralWellFormed(n: Numeral)
  {
    && AllDigits(n.whole)
    && match n.fraction
       case None => |n.whole| > 0
       case Some(f) => AllDigits(f) && |f| > 0
  }

  predicate WellFormed(l: Lexeme)
  {
    NumeralWellFormed(l.number) && AcceptsUnit(l.unit)
  }

  function Spaces(k: nat): (s: string)
    ensures |s| == k
  {
    seq(k, _ => ' ')
  }

  /** The number without its sign. */
  function Magnitude(n: Numeral): string
  {
    n.whole + (match n.fraction case None => "" case Some(f) => "." + f)
  }

  function SpellNumeral(n: Numeral): string
  {
    (if n.negative then "-" else "") + Magnitude(n)
  }

  function Spell(l: Lexeme): string
  {
    SpellNumeral(l.number) + Spaces(l.spaces) + l.unit
  }

  /** The strings the anchored pattern matches. */
  ghost predicate InLanguage(s: string)
  {
    exists l :: WellFormed(l) && Spell(l) == s
  }

  /** A text that cannot continue the number or the run of spaces before it. */
  predicate Separated(u: string)
  {
    u == [] || (!IsDigit(u[0]) && u[0] != '.' && u[0] != ' ')
  }

  predicate IsLowerWord(a: string)
  {
    |a| > 0 && forall i :: 0 <= i < |a| ==> 'a' <= a[i] <= 'z'
  }

  /** The same fact stated for any text: if it is an alternative, it is a lower-case word. */
  lemma AlternativeIsLowerWord(a: string)
    ensures a in UnitAlternatives ==> IsLowerWord(a)
  {
    if a in UnitAlternatives {
      AlternativeShape(a);
    }
  }

  /** Each alternative is a non-empty run of lower-case ASCII letters. */
  lemma AlternativeShape(a: string)
    requires a in UnitAlternatives
    ensures IsLowerWord(a)
  {
    AlternativeGroup(a);
    if a in MillisecondAlternatives { MillisecondShape(a); }
    if a in SecondAlternatives { SecondShape(a); }
    if a in MinuteAlternatives { MinuteShape(a); }
    if a in HourAlternatives { HourShape(a); }
    if a in DayAlternatives { DayShape(a); }
    if a in WeekAlternatives { WeekShape(a); }
    if a in YearAlternatives { YearShape(a); }
  }

  lemma AlternativeGroup(a: string)
    requires a in UnitAlternatives
    ensures || a in MillisecondAlternatives || a in SecondAlternatives || a in MinuteAlternatives
            || a in HourAlternatives || a in DayAlternatives || a in WeekAlternatives
            || a in YearAlternatives
  {
  }

  lemma MillisecondShape(a: string)
    requires a in MillisecondAlternatives
    ensures IsLowerWord(a)
  {
  }

  lemma SecondShape(a: string)
    requires a in SecondAlternatives
    ensures IsLowerWord(a)
  {
  }

  lemma MinuteShape(a: string)
    requires a in MinuteAlternatives
    ensures IsLowerWord(a)
  {
  }

  lemma HourShape(a: string)
    requires a in HourAlternatives
    ensures IsLowerWord(a)
  {
  }

  lemma DayShape(a: string)
    requires a in DayAlternatives
    ensures IsLowerWord(a)
  {
  }

  lemma WeekShape(a: string)
    requires a in WeekAlternatives
    ensures IsLowerWord(a)
  {
  }

  lemma YearShape(a: string)
    requires a in YearAlternatives
    ensures IsLowerWord(a)
  {
  }

  /** A unit token is non-empty ASCII and cannot continue a number or a run of spaces. */
  lemma UnitTokenShape(u: string)
    requires IsUnitToken(u)
    ensures |u| > 0 && Separated(u) && AllAscii(u)
  {
    var a := Lower(u);
    ListedIsIn(UnitAlternatives, a);
    AlternativeShape(a);
    assert a[0] == AsciiLower(u[0]);
    forall i | 0 <= i < |u| ensures IsAscii(u[i]) {
      assert a[i] == AsciiLower(u[i]);
    }
  }

  /** The length of the longest prefix of decimal digits. */
  function DigitRun(s: string): (n: nat)
    ensures n <= |s| && AllDigits(s[..n])
    ensures n < |s| ==> !IsDigit(s[n])
  {
    if |s| > 0 && IsDigit(s[0]) then
      var n := 1 + DigitRun(s[1..]);
      assert s[..n] == [s[0]] + s[1..][..n - 1];
      n
    else 0
  }

  /** The length of the longest prefix of ASCII spaces (the pattern's ` *`). */
  function SpaceRun(s: string): (n: nat)
    ensures n <= |s| && s[..n] == Spaces(n)
    ensures n < |s| ==> s[n] != ' '
  {
    if |s| > 0 && s[0] == ' ' then
      var n := 1 + SpaceRun(s[1..]);
      assert s[..n] == [s[0]] + s[1..][..n - 1];
      n
    else 0
  }

  /** After the number: the run of spaces, and whatever is left as the unit token. */
  function Tail(n: Numeral, rest: string): Lexeme
  {
    var k := SpaceRun(rest);
    Lexeme(n, k, rest[k..])
  }

  /**
   * Splits `s` into the number group, the spaces and the remaining text. `None` when
   * `s` has no number at its start: no digit, or a point not followed by a digit.
   */
  function Scan(s: string): Option<Lexeme>
  {
    if |s| > 0 && s[0] == '-' then ScanUnsigned(true, s[1..]) else ScanUnsigned(false, s)
  }

  /** The number after the optional sign: `\d+` or `\d*\.\d+`, the longest that fits. */
  function ScanUnsigned(negative: bool, r: string): Option<Lexeme>
  {
    var i := DigitRun(r);
    if i < |r| && r[i] == '.' then ScanFraction(negative, r[..i], r[i + 1..])
    else if i == 0 then None
    else Some(Tail(Numeral(negative, r[..i], None), r[i..]))
  }

  /** The digits after the point; at least one is needed. */
  function ScanFraction(negative: bool, whole: string, r: string): Option<Lexeme>
  {
    var j := DigitRun(r);
    if j == 0 then None
    else Some(Tail(Numeral(negative, whole, Some(r[..j])), r[j..]))
  }

  /** The whole anchored match: a number followed by spaces and an accepted unit. */
  function Recognise(s: string): (r: Option<Lexeme>)
    ensures r.Some? ==> WellFormed(r.value) && Spell(r.value) == s
  {
    match Scan(s)
    case None => None
    case Some(l) =>
      ScanSound(s);
      if AcceptsUnit(l.unit) then Some(l) else None
  }

  lemma {:induction false} DigitRunOf(p: string, q: string)
    requires AllDigits(p) && (q == [] || !IsDigit(q[0]))
    ensures DigitRun(p + q) == |p|
  {
    if p != [] {
      assert (p + q)[1..] == p[1..] + q;
      DigitRunOf(p[1..], q);
    } else {
      assert p + q == q;
    }
  }

  lemma {:induction false} SpaceRunOf(k: nat, q: string)
    requires q == [] || q[0] != ' '
    ensures SpaceRun(Spaces(k) + q) == k
  {
    if k > 0 {
      assert (Spaces(k) + q)[1..] == Spaces(k - 1) + q;
      SpaceRunOf(k - 1, q);
    } else {
      assert Spaces(k) + q == q;
    }
  }

  lemma TailOf(n: Numeral, k: nat, u: string)
    requires Separated(u)
    ensures Tail(n, Spaces(k) + u) == Lexeme(n, k, u)
  {
    SpaceRunOf(k, u);
    assert (Spaces(k) + u)[k..] == u;
  }

  lemma TailSound(n: Numeral, rest: string)
    ensures Tail(n, rest).number == n
    ensures Spaces(Tail(n, rest).spaces) + Tail(n, rest).unit == rest
  {
    var k := SpaceRun(rest);
    assert rest == rest[..k] + rest[k..];
  }

  lemma ScanFractionOf(negative: bool, whole: string, f: string, tail: string)
    requires AllDigits(f) && |f| > 0 && (tail == [] || !IsDigit(tail[0]))
    ensures ScanFraction(negative, whole, f + tail) == Some(Tail(Numeral(negative, whole, Some(f)), tail))
  {
    DigitRunOf(f, tail);
    assert (f + tail)[..|f|] == f;
    assert (f + tail)[|f|..] == tail;
  }

  lemma ScanWholeOf(n: Numeral, tail: string)
    requires NumeralWellFormed(n) && n.fraction.None?
    requires tail == [] || (!IsDigit(tail[0]) && tail[0] != '.')
    ensures ScanUnsigned(n.negative, Magnitude(n) + tail) == Some(Tail(n, tail))
  {
    var r := Magnitude(n) + tail;
    assert r == n.whole + tail;
    DigitRunOf(n.whole, tail);
    assert r[..|n.whole|] == n.whole;
    assert r[|n.whole|..] == tail;
  }

  lemma ScanPointOf(n: Numeral, tail: string)
    requires NumeralWellFormed(n) && n.fraction.Some?
    requires tail == [] || !IsDigit(tail[0])
    ensures ScanUnsigned(n.negative, Magnitude(n) + tail) == Some(Tail(n, tail))
  {
    var f := n.fraction.value;
    var rest := f + tail;
    PointSplit(n.whole, f, tail);
    DigitRunOf(n.whole, "." + rest);
    ScanFractionOf(n.negative, n.whole, f, tail);
  }

  lemma PointSplit(w: string, f: string, tail: string)
    ensures var r := (w + ("." + f)) + tail;
      && r == w + ("." + (f + tail))
      && r[..|w|] == w && r[|w|] == '.' && r[|w| + 1..] == f + tail
  {
    var r := (w + ("." + f)) + tail;
    assert r == w + ("." + (f + tail));
  }

  lemma ScanUnsignedOf(n: Numeral, tail: string)
    requires NumeralWellFormed(n)
    requires tail == [] || (!IsDigit(tail[0]) && tail[0] != '.')
    ensures ScanUnsigned(n.negative, Magnitude(n) + tail) == Some(Tail(n, tail))
  {
    if n.fraction.None? {
      ScanWholeOf(n, tail);
    } else {
      ScanPointOf(n, tail);
    }
  }

  /** An unsigned number directly followed by a text that cannot continue it. */
  lemma ScanUnsignedNumeral(n: Numeral, u: string, s: string)
    requires NumeralWellFormed(n) && !n.negative && s == Magnitude(n) + u
    requires Separated(u) && (u == [] || u[0] != '.')
    ensures Scan(s) == Some(Lexeme(n, 0, u))
  {
    ScanUnsignedOf(n, u);
    TailOf(n, 0, u);
    assert Spaces(0) + u == u;
    assert |s| > 0 && s[0] != '-' by {
      if n.whole == [] {
        assert s[0] == '.';
      } else {
        assert s[0] == n.whole[0];
      }
    }
  }

  /** `Spell` is the sign followed by the unsigned rest. */
  lemma SpellSplit(l: Lexeme)
    ensures Spell(l) == (if l.number.negative then "-" else "") + (Magnitude(l.number) + (Spaces(l.spaces) + l.unit))
  {
  }

  lemma MagnitudeStart(n: Numeral)
    requires NumeralWellFormed(n)
    ensures |Magnitude(n)| > 0 && Magnitude(n)[0] != '-'
  {
    match n.fraction
    case None =>
      assert Magnitude(n)[0] == n.whole[0];
    case Some(f) =>
  }

  lemma SpacesThenSeparated(k: nat, u: string)
    requires Separated(u)
    ensures var tail := Spaces(k) + u; tail == [] || (!IsDigit(tail[0]) && tail[0] != '.')
  {
    if k > 0 {
      assert (Spaces(k) + u)[0] == ' ';
    } else {
      assert Spaces(k) + u == u;
    }
  }

  /** Scanning what `Spell` produces gives the lexeme back. */
  lemma ScanSpell(l: Lexeme)
    requires NumeralWellFormed(l.number) && Separated(l.unit)
    ensures Scan(Spell(l)) == Some(l)
  {
    var n := l.number;
    var tail := Spaces(l.spaces) + l.unit;
    var m := Magnitude(n);
    var r := m + tail;
    MagnitudeStart(n);
    assert r[0] == m[0];
    SpacesThenSeparated(l.spaces, l.unit);
    ScanUnsignedOf(n, tail);
    TailOf(n, l.spaces, l.unit);
    SpellSplit(l);
    assert Spell(l) == (if n.negative then "-" else "") + r;
    ScanSigned(n.negative, r);
  }

  /** `Scan` takes a leading minus sign as the sign of the number. */
  lemma ScanSigned(negative: bool, r: string)
    requires |r| > 0 && r[0] != '-'
    ensures Scan((if negative then "-" else "") + r) == ScanUnsigned(negative, r)
  {
    if negative {
      assert ("-" + r)[1..] == r;
    } else {
      assert "" + r == r;
    }
  }

  lemma ScanFractionSound(negative: bool, whole: string, r: string)
    requires ScanFraction(negative, whole, r).Some?
    ensures var l := ScanFraction(negative, whole, r).value;
      && l.number.negative == negative && l.number.whole == whole
      && l.number.fraction.Some? && AllDigits(l.number.fraction.value) && |l.number.fraction.value| > 0
      && l.number.fraction.value + Spaces(l.spaces) + l.unit == r
  {
    var j := DigitRun(r);
    var f := r[..j];
    var n := Numeral(negative, whole, Some(f));
    var l := Tail(n, r[j..]);
    assert ScanFraction(negative, whole, r) == Some(l);
    assert f + Spaces(l.spaces) + l.unit == r by {
      TailSound(n, r[j..]);
      JoinAfter(f, Spaces(l.spaces), l.unit, r);
    }
  }

  lemma JoinAfter(f: string, spaces: string, unit: string, r: string)
    requires |f| <= |r| && f == r[..|f|] && spaces + unit == r[|f|..]
    ensures f + spaces + unit == r
  {
    assert r == r[..|f|] + r[|f|..];
  }

  lemma FractionJoin(n: Numeral, spaces: nat, unit: string, r: string, i: nat)
    requires n.fraction.Some? && i < |r| && r[..i] == n.whole && r[i] == '.'
    requires n.fraction.value + Spaces(spaces) + unit == r[i + 1..]
    ensures Magnitude(n) + Spaces(spaces) + unit == r
  {
    var f := n.fraction.value;
    var rest := Spaces(spaces) + unit;
    assert f + rest == r[i + 1..];
    assert r == r[..i] + ("." + r[i + 1..]);
    assert Magnitude(n) + rest == r;
  }

  lemma ScanWholeSound(negative: bool, r: string, i: nat)
    requires 0 < i <= |r| && AllDigits(r[..i])
    ensures var l := Tail(Numeral(negative, r[..i], None), r[i..]);
      && NumeralWellFormed(l.number) && l.number.negative == negative
      && Magnitude(l.number) + Spaces(l.spaces) + l.unit == r
  {
    var l := Tail(Numeral(negative, r[..i], None), r[i..]);
    TailSound(Numeral(negative, r[..i], None), r[i..]);
    assert Magnitude(l.number) == r[..i];
    assert r == r[..i] + r[i..];
  }

  lemma ScanPointSound(negative: bool, r: string, i: nat)
    requires i < |r| && r[i] == '.' && AllDigits(r[..i])
    requires ScanFraction(negative, r[..i], r[i + 1..]).Some?
    ensures var l := ScanFraction(negative, r[..i], r[i + 1..]).value;
      && NumeralWellFormed(l.number) && l.number.negative == negative
      && Magnitude(l.number) + Spaces(l.spaces) + l.unit == r
  {
    var l := ScanFraction(negative, r[..i], r[i + 1..]).value;
    ScanFractionSound(negative, r[..i], r[i + 1..]);
    FractionJoin(l.number, l.spaces, l.unit, r, i);
  }

  lemma ScanUnsignedSound(negative: bool, r: string)
    requires ScanUnsigned(negative, r).Some?
    ensures var l := ScanUnsigned(negative, r).value;
      && NumeralWellFormed(l.number) && l.number.negative == negative
      && Magnitude(l.number) + Spaces(l.spaces) + l.unit == r
  {
    var i := DigitRun(r);
    if i < |r| && r[i] == '.' {
      ScanPointSound(negative, r, i);
    } else {
      ScanWholeSound(negative, r, i);
    }
  }

  lemma SpellSigned(l: Lexeme, r: string)
    requires Magnitude(l.number) + Spaces(l.spaces) + l.unit == r
    ensures Spell(l) == (if l.number.negative then "-" else "") + r
  {
    SpellSplit(l);
    assert Magnitude(l.number) + (Spaces(l.spaces) + l.unit) == r;
  }

  lemma SplitSign(s: string)
    ensures |s| > 0 && s[0] == '-' ==> s == "-" + s[1..]
  {
  }

  /** What `Scan` finds is a well-formed number, and spelling it back gives the input. */
  lemma ScanSound(s: string)
    requires Scan(s).Some?
    ensures NumeralWellFormed(Scan(s).value.number)
    ensures Spell(Scan(s).value) == s
  {
    var negative := |s| > 0 && s[0] == '-';
    var r := if negative then s[1..] else s;
    assert Scan(s) == ScanUnsigned(negative, r);
    ScanUnsignedSound(negative, r);
    SpellSigned(Scan(s).value, r);
    SplitSign(s);
  }

  lemma RecogniseComplete(l: Lexeme)
    requires WellFormed(l)
    ensures Recognise(Spell(l)) == Some(l)
  {
    if l.unit != [] { UnitTokenShape(l.unit); }
    ScanSpell(l);
  }

  /** The recogniser decides the pattern's language, and its decomposition is unique. */
  lemma RecogniseDecides(s: string)
    ensures Recognise(s).Some? <==> InLanguage(s)
    ensures forall l :: WellFormed(l) && Spell(l) == s ==> Recognise(s) == Some(l)
  {
    forall l | WellFormed(l) && Spell(l) == s ensures Recognise(s) == Some(l) {
      RecogniseComplete(l);
    }
  }

  /** The lexeme with its unit token lower-cased. */
  function LowerUnit(o: Option<Lexeme>): Option<Lexeme>
  {
    match o
    case None => None
    case Some(l) => Some(l.(unit := Lower(l.unit)))
  }

  lemma {:induction false} DigitRunLower(s: string)
    ensures DigitRun(Lower(s)) == DigitRun(s)
  {
    if |s| > 0 {
      assert Lower(s)[0] == AsciiLower(s[0]);
      LowerSlice(s, 1, |s|);
      assert Lower(s)[1..] == Lower(s[1..]);
      DigitRunLower(s[1..]);
    }
  }

  lemma {:induction false} SpaceRunLower(s: string)
    ensures SpaceRun(Lower(s)) == SpaceRun(s)
  {
    if |s| > 0 {
      assert Lower(s)[0] == AsciiLower(s[0]);
      LowerSlice(s, 1, |s|);
      assert Lower(s)[1..] == Lower(s[1..]);
      SpaceRunLower(s[1..]);
    }
  }

  lemma LowerDigits(s: string)
    requires AllDigits(s)
    ensures Lower(s) == s
  {
  }

  /** Lower-casing commutes with splitting off a prefix of digits. */
  lemma LowerAfterDigits(r: string, i: nat)
    requires i <= |r| && AllDigits(r[..i])
    ensures Lower(r)[..i] == r[..i]
    ensures Lower(r)[i..] == Lower(r[i..])
  {
    LowerSlice(r, 0, i);
    LowerDigits(r[..i]);
    LowerSlice(r, i, |r|);
  }

  lemma TailLower(n: Numeral, rest: string)
    ensures Tail(n, Lower(rest)) == Tail(n, rest).(unit := Lower(Tail(n, rest).unit))
  {
    SpaceRunLower(rest);
    LowerSlice(rest, SpaceRun(rest), |rest|);
  }

  lemma ScanFractionLower(negative: bool, whole: string, r: string)
    ensures ScanFraction(negative, whole, Lower(r)) == LowerUnit(ScanFraction(negative, whole, r))
  {
    DigitRunLower(r);
    var j := DigitRun(r);
    LowerAfterDigits(r, j);
    TailLower(Numeral(negative, whole, Some(r[..j])), r[j..]);
  }

  lemma ScanWholeLower(negative: bool, r: string, i: nat)
    requires i <= |r| && AllDigits(r[..i])
    ensures Tail(Numeral(negative, Lower(r)[..i], None), Lower(r)[i..])
         == Tail(Numeral(negative, r[..i], None), r[i..]).(unit := Lower(Tail(Numeral(negative, r[..i], None), r[i..]).unit))
  {
    LowerAfterDigits(r, i);
    TailLower(Numeral(negative, r[..i], None), r[i..]);
  }

  lemma ScanUnsignedLower(negative: bool, r: string)
    ensures ScanUnsigned(negative, Lower(r)) == LowerUnit(ScanUnsigned(negative, r))
  {
    DigitRunLower(r);
    var i := DigitRun(r);
    assert (i < |r| && Lower(r)[i] == '.') <==> (i < |r| && r[i] == '.') by {
      if i < |r| {
        assert Lower(r)[i] == AsciiLower(r[i]);
      }
    }
    if i < |r| && r[i] == '.' {
      ScanPointLower(negative, r, i);
    } else {
      ScanWholeLower(negative, r, i);
    }
  }

  /** The fraction after the point, lower-cased. */
  lemma ScanPointLower(negative: bool, r: string, i: nat)
    requires i < |r| && r[i] == '.' && AllDigits(r[..i])
    ensures ScanFraction(negative, Lower(r)[..i], Lower(r)[i + 1..])
         == LowerUnit(ScanFraction(negative, r[..i], r[i + 1..]))
  {
    LowerAfterDigits(r, i);
    LowerSlice(r, i + 1, |r|);
    var w, x := r[..i], r[i + 1..];
    assert Lower(r)[..i] == w && Lower(r)[i + 1..] == Lower(x);
    ScanFractionLower(negative, w, x);
  }

  /** Lower-casing the input only lower-cases the unit token that `Scan` finds. */
  lemma ScanLower(s: string)
    ensures Scan(Lower(s)) == LowerUnit(Scan(s))
  {
    if |s| > 0 && s[0] == '-' {
      assert Lower(s)[0] == '-';
      LowerSlice(s, 1, |s|);
      var x := s[1..];
      assert Lower(s)[1..] == Lower(x);
      ScanUnsignedLower(true, x);
    } else {
      assert |s| > 0 ==> Lower(s)[0] == AsciiLower(s[0]) != '-';
      ScanUnsignedLower(false, s);
    }
  }

  /** The pattern is case-insensitive: lower-casing the input lower-cases the match. */
  lemma RecogniseLower(s: string)
    ensures Recognise(Lower(s)) == LowerUnit(Recognise(s))
  {
    ScanLower(s);
    if Scan(s).Some? {
      var u := Scan(s).value.unit;
      LowerIdempotent(u);
      assert Lower(u) == [] <==> u == [];
    }
  }

  /** The lexeme with the sign of its number set to `negative`. */
  function WithSign(o: Option<Lexeme>, negative: bool): Option<Lexeme>
  {
    match o
    case None => None
    case Some(l) => Some(l.(number := l.number.(negative := negative)))
  }

  /** The sign flag plays no part in how the rest of the number is scanned. */
  lemma ScanUnsignedSign(negative: bool, r: string)
    ensures ScanUnsigned(negative, r) == WithSign(ScanUnsigned(false, r), negative)
  {
  }

  /** Every accepted input is plain ASCII. */
  lemma WellFormedAscii(l: Lexeme)
    requires WellFormed(l)
    ensures AllAscii(Spell(l))
  {
    if l.unit != [] { UnitTokenShape(l.unit); }
    var n := l.number;
    assert AllAscii(Magnitude(n)) by {
      match n.fraction
      case None =>
      case Some(f) =>
        assert Magnitude(n) == n.whole + ("." + f);
    }
    assert Spell(l) == (if n.negative then "-" else "") + Magnitude(n) + Spaces(l.spaces) + l.unit;
  }

  /** Prefixing a minus sign to an unsigned input only makes its number negative. */
  lemma RecogniseNegation(t: string)
    requires t == [] || t[0] != '-'
    ensures Recognise("-" + t) == WithSign(Recognise(t), true)
    ensures Recognise(t).Some? ==> !Recognise(t).value.number.negative
  {
    var s := "-" + t;
    assert s[0] == '-' && s[1..] == t;
    assert Scan(s) == ScanUnsigned(true, t);
    assert Scan(t) == ScanUnsigned(false, t);
    ScanUnsignedSign(true, t);
    if Scan(t).Some? {
      ScanUnsignedSound(false, t);
    }
  }
}
