/** Character-level helpers shared by the parser and the formatters. */
module Text {

  predicate IsDigit(c: char) { '0' <= c <= '9' }

  predicate AllDigits(s: string) { forall i :: 0 <= i < |s| ==> IsDigit(s[i]) }

  predicate IsAscii(c: char) { c as int < 0x80 }

  predicate AllAscii(s: string) { forall i :: 0 <= i < |s| ==> IsAscii(s[i]) }

  /** Lower-casing of the ASCII letters; every other character is left alone. */
  function AsciiLower(c: char): (l: char)
    ensures IsDigit(l) <==> IsDigit(c)
    ensures IsAscii(l) <==> IsAscii(c)
    ensures !('A' <= l <= 'Z')
    ensures 'A' <= c <= 'Z' || l == c
  {
    if 'A' <= c <= 'Z' then (c as int + 32) as char else c
  }

  /** `strings.ToLower` on ASCII text: no upper-case letter is left, and only those change. */
  function Lower(s: string): (r: string)
    ensures |r| == |s|
    ensures forall i {:trigger r[i]} :: 0 <= i < |r| ==> !('A' <= r[i] <= 'Z')
    ensures forall i {:trigger r[i]} :: 0 <= i < |r| ==> 'A' <= s[i] <= 'Z' || r[i] == s[i]
  {
    seq(|s|, i requires 0 <= i < |s| => AsciiLower(s[i]))
  }

  lemma LowerIdempotent(s: string)
    ensures Lower(Lower(s)) == Lower(s)
  {
  }

  lemma LowerSlice(s: string, i: int, j: int)
    requires 0 <= i <= j <= |s|
    ensures Lower(s)[i..j] == Lower(s[i..j])
  {
  }

  /** Two characters with the same lower case are equal unless both are ASCII letters. */
  lemma SameLowerCase(c: char, d: char)
    requires AsciiLower(c) == AsciiLower(d) && c != d
    ensures IsAscii(c) && IsAscii(d)
    ensures !IsDigit(c) && c != '.' && c != '-' && c != ' '
  {
  }

  /** The number of bytes of the UTF-8 encoding of `c`. */
  function CharWidth(c: char): (n: nat)
    ensures 1 <= n <= 4
    ensures n == 1 <==> IsAscii(c)
  {
    var k := c as int;
    if k < 0x80 then 1 else if k < 0x800 then 2 else if k < 0x1_0000 then 3 else 4
  }

  /** Go's `len` of a string: the length in bytes of its UTF-8 encoding. */
  function Utf8Length(s: string): (n: nat)
    ensures |s| <= n <= 4 * |s|
  {
    if s == [] then 0 else CharWidth(s[0]) + Utf8Length(s[1..])
  }

  lemma DigitsAscii(s: string)
    requires AllDigits(s)
    ensures AllAscii(s)
  {
    forall i | 0 <= i < |s| ensures IsAscii(s[i]) { assert IsDigit(s[i]); }
  }

  lemma {:induction false} AsciiLength(s: string)
    requires AllAscii(s)
    ensures Utf8Length(s) == |s|
  {
    if s != [] {
      AsciiLength(s[1..]);
    }
  }

  /** The byte length of a concatenation is the sum of the byte lengths. */
  lemma {:induction false} AppendLength(s: string, t: string)
    ensures Utf8Length(s + t) == Utf8Length(s) + Utf8Length(t)
  {
    if s != [] {
      assert (s + t)[1..] == s[1..] + t;
      AppendLength(s[1..], t);
    } else {
      assert s + t == t;
    }
  }

  /** A string of `k` copies of `c` is `k` times as long in bytes as `c`. */
  lemma {:induction false} RepeatLength(c: char, k: nat)
    ensures Utf8Length(seq(k, _ => c)) == k * CharWidth(c)
  {
    if k > 0 {
      var s := seq(k, _ => c);
      assert s[1..] == seq(k - 1, _ => c);
      RepeatLength(c, k - 1);
    }
  }

  /** Changing the case of ASCII letters does not change the byte length. */
  lemma {:induction false} LowerLength(s: string, t: string)
    requires Lower(s) == Lower(t)
    ensures Utf8Length(s) == Utf8Length(t)
  {
    if s != [] {
      assert AsciiLower(s[0]) == Lower(s)[0] == Lower(t)[0] == AsciiLower(t[0]);
      assert CharWidth(s[0]) == CharWidth(t[0]) by {
        if s[0] != t[0] { SameLowerCase(s[0], t[0]); }
      }
      LowerSlice(s, 1, |s|);
      LowerSlice(t, 1, |t|);
      assert Lower(s[1..]) == Lower(s)[1..] == Lower(t)[1..] == Lower(t[1..]);
      LowerLength(s[1..], t[1..]);
    }
  }

  function DigitValue(c: char): (n: nat)
    requires IsDigit(c)
    ensures n < 10
  {
    c as int - '0' as int
  }

  function Digit(n: nat): (c: char)
    requires n < 10
    ensures IsDigit(c) && DigitValue(c) == n
  {
    ('0' as int + n) as char
  }

  function Pow10(n: nat): (p: nat)
    ensures p >= 1
  {
    if n == 0 then 1 else 10 * Pow10(n - 1)
  }

  /** The value of a string of decimal digits, most significant first. */
  function DigitsValue(s: string): (n: nat)
    requires AllDigits(s)
    ensures n < Pow10(|s|)
  {
    if s == [] then 0 else 10 * DigitsValue(s[..|s| - 1]) + DigitValue(s[|s| - 1])
  }

  function Zeros(k: nat): (z: string)
    ensures |z| == k && AllDigits(z)
  {
    seq(k, _ => '0')
  }

  lemma ZerosAppended(s: string, k: nat)
    requires AllDigits(s)
    ensures AllDigits(s + Zeros(k))
  {
    var t := s + Zeros(k);
    forall i | 0 <= i < |t| ensures IsDigit(t[i]) {
      if i >= |s| { assert t[i] == Zeros(k)[i - |s|]; }
    }
  }

  lemma LastZero(t: string, u: string)
    requires |t| > 0 && AllDigits(t) && t[..|t| - 1] == u && t[|t| - 1] == '0'
    ensures DigitsValue(t) == 10 * DigitsValue(u)
  {
  }

  lemma TimesPow10(v: nat, k: nat)
    requires k > 0
    ensures 10 * (v * Pow10(k - 1)) == v * Pow10(k)
  {
  }

  /** Trailing zeros multiply the value by a power of ten. */
  lemma {:induction false} TrailingZeros(s: string, k: nat)
    requires AllDigits(s)
    ensures AllDigits(s + Zeros(k))
    ensures DigitsValue(s + Zeros(k)) == DigitsValue(s) * Pow10(k)
  {
    ZerosAppended(s, k);
    if k > 0 {
      var t := s + Zeros(k);
      var u := s + Zeros(k - 1);
      ZerosAppended(s, k - 1);
      assert t[..|t| - 1] == u;
      assert t[|t| - 1] == '0';
      TrailingZeros(s, k - 1);
      LastZero(t, u);
      TimesPow10(DigitsValue(s), k);
    } else {
      assert s + Zeros(k) == s;
    }
  }

  /** The decimal digits of `n`, without leading zeros (Go's `%.0f` of a whole number). */
  function NatText(n: nat): (s: string)
    ensures AllDigits(s) && |s| >= 1
    ensures s[0] == '0' ==> n == 0
  {
    if n < 10 then [Digit(n)] else NatText(n / 10) + [Digit(n % 10)]
  }

  /** Go's `%.0f` of a whole number: a minus sign exactly when it is negative, then the digits of its magnitude. */
  function IntText(i: int): (s: string)
    ensures |s| >= 1
    ensures s[0] == '-' <==> i < 0
    ensures i >= 0 ==> AllDigits(s) && DigitsValue(s) == i
    ensures i < 0 ==> AllDigits(s[1..]) && DigitsValue(s[1..]) == -i
  {
    NatTextValue(if i < 0 then -i else i);
    if i < 0 then "-" + NatText(-i) else NatText(i)
  }

  /** Printing a number and reading its digits back gives the number. */
  lemma {:induction false} NatTextValue(n: nat)
    ensures DigitsValue(NatText(n)) == n
  {
    if n >= 10 {
      var s := NatText(n);
      assert s[..|s| - 1] == NatText(n / 10);
      NatTextValue(n / 10);
    }
  }

  /** A one followed by `k` zeros: `k + 1` ASCII digits worth 10^k. */
  lemma OneAndZeros(k: nat)
    ensures AllDigits("1" + Zeros(k)) && DigitsValue("1" + Zeros(k)) == Pow10(k)
    ensures Utf8Length("1" + Zeros(k)) == k + 1
  {
    OneAndZerosValue(k);
    OneAndZerosLength(k);
  }

  lemma OneAndZerosValue(k: nat)
    ensures AllDigits("1" + Zeros(k)) && DigitsValue("1" + Zeros(k)) == Pow10(k)
  {
    assert DigitsValue("1") == 1;
    TrailingZeros("1", k);
  }

  lemma OneAndZerosLength(k: nat)
    ensures Utf8Length("1" + Zeros(k)) == k + 1
  {
    ZerosAppended("1", k);
    DigitsAscii("1" + Zeros(k));
    AsciiLength("1" + Zeros(k));
  }
}
