/** The digits that the console prints for a number (kernel/console.c), and that the C library's parsers read
    them back as the same number (libc/src/stdlib/atoi.c). */
module Numerals {
  import opened Characters
  import opened Strtol

  function DigitChar(d: nat, upper: bool): char
    requires d < 36
  {
    if d < 10 then '0' + d as char else (if upper then 'A' else 'a') + (d - 10) as char
  }

  // The digits of v, most significant first, none for 0.
  function Digits(v: nat, base: nat, upper: bool): string
    requires GoodBase(base)
  {
    if v == 0 then ""
    else
      Divide(v, base);
      Digits(v / base, base, upper) + [DigitChar(v % base, upper)]
  }

  lemma Divide(v: nat, base: nat)
    requires base >= 2
    ensures 0 <= v / base && 0 <= v % base < base && v == v / base * base + v % base && 2 * (v / base) <= v
  {
  }

  // What console_print_uint emits.
  function UintText(v: nat, base: nat): string
    requires GoodBase(base)
  {
    if v == 0 then "0" else Digits(v, base, false)
  }

  // Negation in 32 bits.
  function Negate32(v: int): int { if v == -0x8000_0000 then v else -v }

  // What console_print_int emits.
  function IntText(v: int, base: nat): string
    requires GoodBase(base)
  {
    if v == 0 then "0"
    else
      var negative := v < 0 && base == 10;
      var m := if negative then Negate32(v) else v;
      (if negative then "-" else "") + (if m > 0 then Digits(m, base, true) else "")
  }

  function Pow2(k: nat): nat { if k == 0 then 1 else 2 * Pow2(k - 1) }

  lemma EightMore(k: nat)
    ensures Pow2(k + 8) == 256 * Pow2(k)
  {
    assert Pow2(k + 8) == 4 * Pow2(k + 6) && Pow2(k + 6) == 4 * Pow2(k + 4);
    assert Pow2(k + 4) == 4 * Pow2(k + 2) && Pow2(k + 2) == 4 * Pow2(k);
  }

  lemma Pow2Is()
    ensures Pow2(32) == 0x1_0000_0000
  {
    EightMore(0);
    EightMore(8);
    EightMore(16);
    EightMore(24);
  }

  // All digits but the last, and the last.
  lemma Split(v: nat, base: nat, upper: bool) returns (q: nat, d: nat)
    requires GoodBase(base) && v > 0
    ensures v == q * base + d && d < base && 2 * q <= v
    ensures Digits(v, base, upper) == Digits(q, base, upper) + [DigitChar(d, upper)]
  {
    Divide(v, base);
    q, d := v / base, v % base;
  }

  // No more digits than bits.
  lemma {:induction false} DigitCount(v: nat, base: nat, upper: bool, k: nat, digits: string)
    requires GoodBase(base) && v < Pow2(k) && digits == Digits(v, base, upper)
    ensures |digits| <= k
  {
    if v > 0 {
      var q, d := Split(v, base, upper);
      DigitCount(q, base, upper, k - 1, Digits(q, base, upper));
    }
  }

  lemma DigitOfChar(d: nat, upper: bool)
    requires d < 36
    ensures DigitOf(DigitChar(d, upper)) == d && (DigitChar(d, upper) == '0' <==> d == 0)
    ensures !IsSpace(DigitChar(d, upper)) && DigitChar(d, upper) != '-' && DigitChar(d, upper) != '+'
  {
  }

  ghost predicate IsDigitChar(c: char, base: nat, upper: bool) {
    exists d: nat :: d < base <= 36 && c == DigitChar(d, upper)
  }

  lemma {:induction false} AllDigits(v: nat, base: nat, upper: bool, digits: string)
    requires GoodBase(base) && digits == Digits(v, base, upper)
    ensures forall i :: 0 <= i < |digits| ==> IsDigitChar(digits[i], base, upper)
    ensures v > 0 ==> digits != "" && digits[0] != '0'
    decreases v
  {
    if v > 0 {
      var q, d := Split(v, base, upper);
      AllDigits(q, base, upper, Digits(q, base, upper));
      DigitOfChar(d, upper);
      assert IsDigitChar(DigitChar(d, upper), base, upper);
      if q == 0 { NoTimes(base); }
    }
  }

  // What is printed: digits of the base only, in lower case for unsigned and upper case for signed numbers, the
  // first one zero for 0 alone. With the round trips this leaves one text for each number.
  lemma TextIs(v: nat, base: nat)
    requires 2 <= base <= |LOWER| == |UPPER|
    ensures Spelled(UintText(v, base), v, LOWER[..base]) && Spelled(IntText(v, base), v, UPPER[..base])
  {
    if v == 0 {
      AlphabetAt(0);
      assert LOWER[..base][0] == '0' && UPPER[..base][0] == '0';
    } else {
      DigitsIn(v, base, false, LOWER[..base]);
      DigitsIn(v, base, true, UPPER[..base]);
      assert "" + Digits(v, base, true) == Digits(v, base, true);
    }
  }

  ghost predicate Spelled(t: string, v: nat, digits: string) {
    t != "" && (t[0] == '0' <==> v == 0) && forall i :: 0 <= i < |t| ==> t[i] in digits
  }

  lemma DigitsIn(v: nat, base: nat, upper: bool, digits: string)
    requires 2 <= base <= |LOWER| == |UPPER| && v > 0 && digits == (if upper then UPPER else LOWER)[..base]
    ensures Spelled(Digits(v, base, upper), v, digits)
  {
    AlphabetAt(0);
    var t := Digits(v, base, upper);
    AllDigits(v, base, upper, t);
    forall i | 0 <= i < |t| ensures t[i] in digits {
      var d: nat :| d < base && t[i] == DigitChar(d, upper);
      AlphabetAt(d);
      assert digits[d] == DigitChar(d, upper);
    }
  }

  lemma NoTimes(base: nat)
    ensures 0 * base == 0
  {
  }

  // The digits of v, wherever they stand, have the value v.
  lemma {:induction false} ValueOfDigits(s: string, i: nat, j: nat, v: nat, base: nat, upper: bool, digits: string)
    requires GoodBase(base) && i <= j <= |s| && digits == Digits(v, base, upper) && s[i..j] == digits
    ensures Value(s, i, j, base) == v
    decreases v
  {
    if v > 0 {
      var q, d := Split(v, base, upper);
      var front := Digits(q, base, upper);
      assert s[j - 1] == s[i..j][j - 1 - i] && s[i..j - 1] == s[i..j][..j - 1 - i] == front;
      DigitOfChar(d, upper);
      ValueOfDigits(s, i, j - 1, q, base, upper, front);
    }
  }

  lemma RunOfDigits(s: string, i: nat, base: nat)
    requires i <= |s| && forall k :: i <= k < |s| ==> DigitOf(s[k]) < base
    ensures RunEnd(s, i, base) == |s|
    decreases |s| - i
  {
  }

  // Digits to the end of the string are read as the number they denote.
  lemma ReadDigits(s: string, i: nat, v: nat, base: nat, upper: bool, digits: string)
    requires GoodBase(base) && i <= |s| && digits == Digits(v, base, upper) && s[i..] == digits
    ensures RunEnd(s, i, base) == |s| && Value(s, i, |s|, base) == v
    ensures v > 0 ==> i < |s| && s[i] != '0' && !IsSpace(s[i]) && s[i] != '-' && s[i] != '+'
  {
    assert s[i..|s|] == s[i..];
    ValueOfDigits(s, i, |s|, v, base, upper, digits);
    AllDigits(v, base, upper, digits);
    forall k | i <= k < |s| ensures DigitOf(s[k]) < base && !IsSpace(s[k]) && s[k] != '-' && s[k] != '+' {
      assert s[k] == s[i..][k - i];
      CharDigit(s[k], base, upper);
    }
    if v > 0 { assert s[i] == s[i..][0]; }
    RunOfDigits(s, i, base);
  }

  lemma CharDigit(c: char, base: nat, upper: bool)
    requires IsDigitChar(c, base, upper)
    ensures DigitOf(c) < base && !IsSpace(c) && c != '-' && c != '+'
  {
  }

  // strtoul reads back every number that console_print_uint prints, to its last character.
  lemma UintRoundTrip(v: nat, base: nat)
    requires GoodBase(base)
    ensures Read(UintText(v, base), base) == (v, |UintText(v, base)|)
  {
    var s := UintText(v, base);
    if v == 0 {
      ReadZero(base);
    } else {
      assert s[0..] == s;
      ReadDigits(s, 0, v, base, false, s);
      assert StartOf(s, base) == Start(false, 0, base);
    }
  }

  lemma ReadZero(base: nat)
    requires GoodBase(base)
    ensures Read("0", base) == (0, 1) && !StartOf("0", base).negative
  {
  }

  // strtol reads back what console_print_int prints in base 10, except the least 32-bit number, of which only
  // the sign is printed.
  lemma IntRoundTrip(v: int)
    requires -0x8000_0000 <= v < 0x8000_0000
    ensures SignedRead(IntText(v, 10), 10) == v <==> v != -0x8000_0000
    ensures v != -0x8000_0000 ==> Read(IntText(v, 10), 10).1 == |IntText(v, 10)|
  {
    if v == 0 {
      ReadZero(10);
    } else if v > 0 {
      PositiveRoundTrip(v, 10, IntText(v, 10));
    } else if v > -0x8000_0000 {
      NegativeRoundTrip(-v, IntText(v, 10));
    } else {
      assert IntText(v, 10) == "-";
      assert StartOf("-", 10) == Start(true, 1, 10);
    }
  }

  lemma PositiveRoundTrip(v: nat, base: nat, s: string)
    requires GoodBase(base) && v > 0 && s == "" + Digits(v, base, true)
    ensures SignedRead(s, base) == v && Read(s, base).1 == |s|
  {
    assert s == Digits(v, base, true) && s[0..] == s;
    ReadDigits(s, 0, v, base, true, s);
    assert StartOf(s, base) == Start(false, 0, base);
  }

  lemma NegativeRoundTrip(v: nat, s: string)
    requires v > 0 && s == "-" + Digits(v, 10, true)
    ensures SignedRead(s, 10) == -(v as int) && Read(s, 10).1 == |s|
  {
    assert s[1..] == Digits(v, 10, true);
    ReadDigits(s, 1, v, 10, true, s[1..]);
    assert StartOf(s, 10) == Start(true, 1, 10);
  }

  // In any other base exactly the numbers that are not negative are read back: of a negative one nothing is
  // printed. (Both callers in the console ask for base 10.)
  lemma OtherBaseRoundTrip(v: int, base: nat)
    requires GoodBase(base) && base != 10
    ensures SignedRead(IntText(v, base), base) == v <==> v >= 0
  {
    if v == 0 {
      ReadZero(base);
    } else if v > 0 {
      PositiveRoundTrip(v, base, IntText(v, base));
    } else {
      assert IntText(v, base) == "";
      assert Read("", base) == (0, 0);
    }
  }
}
