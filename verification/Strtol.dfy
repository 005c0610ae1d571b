/** The integer parsers of libc/src/stdlib/atoi.c: the value of the longest run of digits, clamped, with no
    overflow on the way. */
module Strtol {
  import opened Characters

  // ----- Characters -----

  // The byte at i of a C string with characters s; its terminator is at |s|.
  function At(s: string, i: nat): char
    requires i <= |s|
  {
    if i < |s| then s[i] else '\0'
  }

  // The value of a digit or letter, 36 for anything else.
  function DigitOf(c: char): (d: nat)
    ensures d <= 36
  {
    if IsDigit(c) then c as int - '0' as int
    else if IsUpper(c) then c as int - 'A' as int + 10
    else if IsAlpha(c) then c as int - 'a' as int + 10
    else 36
  }

  // What the digits of s from i up to j denote.
  function Value(s: string, i: nat, j: nat, base: nat): nat
    requires i <= j <= |s|
    decreases j
  {
    if i == j then 0 else Value(s, i, j - 1, base) * base + DigitOf(s[j - 1])
  }

  // ----- What the parsers compute -----

  // End of the longest run of digits from i on.
  function RunEnd(s: string, i: nat, base: nat): (j: nat)
    requires i <= |s|
    ensures i <= j <= |s| && forall k :: i <= k < j ==> DigitOf(s[k]) < base
    ensures j < |s| ==> DigitOf(s[j]) >= base
    decreases |s| - i
  {
    if i == |s| || DigitOf(s[i]) >= base then i
    else RunEnd(s, i + 1, base)
  }

  function SkipSpace(s: string, i: nat): (j: nat)
    requires i <= |s|
    ensures i <= j <= |s| && !IsSpace(At(s, j)) && forall k :: i <= k < j ==> IsSpace(s[k])
    decreases |s| - i
  {
    if i < |s| && IsSpace(s[i]) then SkipSpace(s, i + 1) else i
  }

  datatype Start = Start(negative: bool, at: nat, base: int)

  predicate HexPrefix(s: string, i: nat)
    requires i <= |s|
  {
    i < |s| && s[i] == '0' && (At(s, i + 1) == 'x' || At(s, i + 1) == 'X')
  }

  // Where the digits start, after blanks, sign and prefix, and in what base.
  function StartOf(s: string, base: int): (r: Start)
    ensures r.at <= |s|
  {
    var i := SkipSpace(s, 0);
    var j := if At(s, i) == '-' || At(s, i) == '+' then i + 1 else i;
    var neg := At(s, i) == '-';
    if (base == 0 || base == 16) && HexPrefix(s, j) then Start(neg, j + 2, 16)
    else if base == 0 then Start(neg, j, if At(s, j) == '0' then 8 else 10)
    else Start(neg, j, base)
  }

  predicate GoodBase(base: int) { 2 <= base <= 36 }

  // The magnitude read and the end of the text read; nothing is read without a digit.
  function Read(s: string, base: int): (r: (nat, nat))
    ensures r.1 <= |s|
  {
    var start := StartOf(s, base);
    if !GoodBase(start.base) then (0, 0)
    else
      var j := RunEnd(s, start.at, start.base);
      (Value(s, start.at, j, start.base), if j == start.at then 0 else j)
  }

  function SignedRead(s: string, base: int): int {
    var v: int := Read(s, base).0;
    if StartOf(s, base).negative then -v else v
  }

  // ----- What is read, on the text itself -----

  const LOWER: string := "0123456789abcdefghijklmnopqrstuvwxyz"
  const UPPER: string := "0123456789ABCDEFGHIJKLMNOPQRSTUVWXYZ"

  lemma AlphabetAt(d: nat)
    requires d < 36
    ensures |LOWER| == 36 && LOWER[d] == if d < 10 then '0' + d as char else 'a' + (d - 10) as char
    ensures |UPPER| == 36 && UPPER[d] == if d < 10 then '0' + d as char else 'A' + (d - 10) as char
  {
  }

  // The digits of the bases up to 36, letters of either case.
  lemma DigitsAre(c: char, d: nat)
    requires d < |LOWER| == |UPPER|
    ensures DigitOf(c) == d <==> c == LOWER[d] || c == UPPER[d]
  {
    AlphabetAt(d);
    LetterOf(c, d, LOWER[d], UPPER[d]);
  }

  lemma LetterOf(c: char, d: nat, lower: char, upper: char)
    requires d < 36 && lower == (if d < 10 then '0' + d as char else 'a' + (d - 10) as char)
    requires upper == if d < 10 then '0' + d as char else 'A' + (d - 10) as char
    ensures DigitOf(c) == d <==> c == lower || c == upper
  {
  }

  // The blanks in front of a text are skipped.
  lemma {:induction false} SkipIs(blanks: string, rest: string, i: nat)
    requires i <= |blanks| && forall k :: 0 <= k < |blanks| ==> blanks[k] == ' ' || '\t' <= blanks[k] <= '\r'
    requires rest == "" || !(rest[0] == ' ' || '\t' <= rest[0] <= '\r')
    ensures SkipSpace(blanks + rest, i) == |blanks|
    decreases |blanks| - i
  {
    if i < |blanks| { SkipIs(blanks, rest, i + 1); }
  }

  // What a base means and which base prefix it allows: "0x" with 16 or 0, where without it a leading zero means
  // octal and anything else decimal.
  ghost predicate Notation(base: int, prefix: string, text: string, b: int) {
    if prefix == "" then
      && !((base == 0 || base == 16) && |text| >= 2 && (text[..2] == "0x" || text[..2] == "0X"))
      && b == if base != 0 then base else if text != "" && text[0] == '0' then 8 else 10
    else (base == 0 || base == 16) && (prefix == "0x" || prefix == "0X") && b == 16
  }

  // All the blanks and, after them, the sign if there is one.
  ghost predicate Leads(blanks: string, sign: string, text: string) {
    && (forall k :: 0 <= k < |blanks| ==> blanks[k] == ' ' || '\t' <= blanks[k] <= '\r')
    && (sign == "+" || sign == "-" ||
        (sign == "" && (text != "" ==>
           text[0] != '+' && text[0] != '-' && text[0] != ' ' && !('\t' <= text[0] <= '\r'))))
  }

  // Blanks, at most one sign and the prefix stand before the digits; the number is negative exactly with "-".
  lemma StartIs(blanks: string, sign: string, prefix: string, text: string, base: int, b: int)
    requires Leads(blanks, sign, prefix + text)
    requires Notation(base, prefix, text, b)
    ensures StartOf(blanks + (sign + (prefix + text)), base) == Start(sign == "-", |blanks| + |sign| + |prefix|, b)
  {
    SkipIs(blanks, sign + (prefix + text), 0);
    PrefixAt(blanks, sign, prefix, text);
  }

  // The characters after the blanks and after the sign.
  lemma PrefixAt(blanks: string, sign: string, prefix: string, text: string)
    requires |sign| <= 1
    ensures var s, i, j := blanks + (sign + (prefix + text)), |blanks|, |blanks| + |sign|;
      && At(s, i) == (if sign != "" then sign[0] else At(prefix + text, 0))
      && At(s, j) == At(prefix + text, 0) && (j < |s| ==> At(s, j + 1) == At(prefix + text, 1))
      && (j < |s| <==> prefix + text != "")
  {
  }

  // s has the digits at i.
  ghost predicate HasDigits(s: string, i: nat, digits: string) {
    i + |digits| <= |s| && forall k {:trigger digits[k]} :: 0 <= k < |digits| ==> s[i + k] == digits[k]
  }

  // The digits are the longest run, and their value is that of the number they spell alone.
  lemma {:induction false} RunIs(s: string, i: nat, digits: string, k: nat, b: nat)
    requires HasDigits(s, i, digits) && k <= |digits| && forall n :: 0 <= n < |digits| ==> DigitOf(digits[n]) < b
    requires i + |digits| == |s| || DigitOf(s[i + |digits|]) >= b
    ensures RunEnd(s, i + k, b) == i + |digits|
    decreases |digits| - k
  {
    if k < |digits| {
      assert s[i + k] == digits[k];
      RunIs(s, i, digits, k + 1, b);
    }
  }

  lemma {:induction false} ValueIs(s: string, i: nat, digits: string, k: nat, b: nat)
    requires HasDigits(s, i, digits) && k <= |digits|
    ensures Value(s, i, i + k, b) == Value(digits, 0, k, b)
  {
    if k > 0 {
      assert s[i + k - 1] == digits[k - 1];
      ValueIs(s, i, digits, k - 1, b);
    }
  }

  // The magnitude, where it ends, and the signed value.
  ghost predicate Reads(s: string, base: int, v: nat, end: nat, negative: bool) {
    Read(s, base) == (v, end) && SignedRead(s, base) == if negative then -(v as int) else v
  }

  // Blanks, sign, prefix, digits of the base b and a rest that starts with no digit.
  ghost predicate Splits(s: string, blanks: string, sign: string, prefix: string, digits: string, rest: string,
                         base: int, b: int) {
    && s == blanks + (sign + (prefix + (digits + rest))) && Leads(blanks, sign, prefix + (digits + rest))
    && Notation(base, prefix, digits + rest, b)
    && (forall k :: 0 <= k < |digits| ==> DigitOf(digits[k]) < b) && (rest == "" || DigitOf(rest[0]) >= b)
  }

  // Every text splits in this way: read is the number that the digits spell, up to the rest, and nothing at all
  // without a digit.
  lemma ReadIs(s: string, blanks: string, sign: string, prefix: string, digits: string, rest: string, base: int, b: nat)
    requires Splits(s, blanks, sign, prefix, digits, rest, base, b) && 2 <= b <= 36
    ensures Reads(s, base, Value(digits, 0, |digits|, b), if digits == "" then 0 else |s| - |rest|, sign == "-")
  {
    StartsAt(s, blanks, sign, prefix, digits, rest, base, b);
    ReadFrom(s, |s| - |rest| - |digits|, digits, base, b, sign == "-", |s| - |rest|);
  }

  // The digits stand from i to end.
  ghost predicate Found(s: string, i: int, digits: string, base: int, b: int, negative: bool, end: int) {
    && 0 <= i && end == i + |digits| <= |s| && StartOf(s, base) == Start(negative, i, b) && s[i..end] == digits
    && (forall k :: 0 <= k < |digits| ==> DigitOf(digits[k]) < b) && (end == |s| || DigitOf(s[end]) >= b)
  }

  lemma StartsAt(s: string, blanks: string, sign: string, prefix: string, digits: string, rest: string, base: int, b: int)
    requires Splits(s, blanks, sign, prefix, digits, rest, base, b)
    ensures Found(s, |s| - |rest| - |digits|, digits, base, b, sign == "-", |s| - |rest|)
  {
    StartIs(blanks, sign, prefix, digits + rest, base, b);
    DigitsAt(s, blanks, sign, prefix, digits, rest);
  }

  lemma DigitsAt(s: string, blanks: string, sign: string, prefix: string, digits: string, rest: string)
    requires s == blanks + (sign + (prefix + (digits + rest)))
    ensures var i, end := |blanks| + |sign| + |prefix|, |s| - |rest|;
      && i + |digits| == end && s[i..end] == digits && (rest != "" ==> s[end] == rest[0])
  {
    var front := blanks + sign + prefix;
    assert blanks + (sign + (prefix + (digits + rest))) == front + (digits + rest);
  }

  lemma ReadFrom(s: string, i: int, digits: string, base: int, b: int, negative: bool, end: int)
    requires Found(s, i, digits, base, b, negative, end) && 2 <= b <= 36
    ensures Reads(s, base, Value(digits, 0, |digits|, b), if digits == "" then 0 else end, negative)
  {
    forall k | 0 <= k < |digits| ensures s[i + k] == digits[k] {
      assert s[i..end][k] == digits[k];
    }
    RunIs(s, i, digits, 0, b);
    ValueIs(s, i, digits, |digits|, b);
  }

  // No other base reads anything.
  lemma BadBase(s: string, base: int)
    requires base != 0 && !(2 <= base <= 36)
    ensures Read(s, base) == (0, 0)
  {
  }

  // ----- Arithmetic of the cutoff -----

  // acc is over the cutoff, or at it with too large a digit, exactly when one more digit passes the limit.
  lemma Cutoff(acc: nat, d: nat, base: nat, limit: nat, cutoff: nat, cutlim: nat, more: nat)
    requires d < base && limit == cutoff * base + cutlim && cutlim < base && more == acc * base + d
    ensures acc > cutoff || (acc == cutoff && d > cutlim) <==> more > limit
    ensures acc > limit ==> more > limit
  {
    Scaled(acc, base);
    if acc > cutoff {
      Times(acc, cutoff + 1, base);
    } else if acc < cutoff {
      Times(cutoff, acc + 1, base);
    }
  }

  lemma Scaled(a: nat, base: nat)
    requires base > 0
    ensures a * base >= a
  {
  }

  lemma Times(a: nat, b: nat, base: nat)
    requires a >= b > 0
    ensures a * base >= b * base == (b - 1) * base + base
  {
  }

  lemma Divided(limit: nat, base: nat)
    requires base > 0
    ensures limit == limit / base * base + limit % base && limit % base < base
  {
  }

  lemma RunEndStep(s: string, i: nat, j: nat, base: nat)
    requires i <= j < |s| && DigitOf(s[j]) < base && RunEnd(s, i, base) == RunEnd(s, j, base)
    ensures RunEnd(s, i, base) == RunEnd(s, j + 1, base)
  {
  }

  // ----- The parsers -----

  // The part in common before the digits; next points just past c.
  method Prefix(s: string, base: int) returns (negative: bool, c: char, next: nat, b: int)
    ensures 1 <= next <= |s| + 1 && c == At(s, next - 1)
    ensures StartOf(s, base) == Start(negative, next - 1, b)
  {
    c, next, negative, b := At(s, 0), 1, false, base;
    while IsSpace(c)
      invariant 1 <= next <= |s| + 1 && c == At(s, next - 1) && SkipSpace(s, 0) == SkipSpace(s, next - 1)
      decreases |s| - next
    {
      c, next := At(s, next), next + 1;
    }
    if c == '-' {
      negative := true;
      c, next := At(s, next), next + 1;
    } else if c == '+' {
      c, next := At(s, next), next + 1;
    }
    if (base == 0 || base == 16) && c == '0' && (At(s, next) == 'x' || At(s, next) == 'X') {
      c := At(s, next + 1);
      next := next + 2;
      b := 16;
    } else if base == 0 {
      b := if c == '0' then 8 else 10;
    }
  }

  // The value of the character, 36 when it is neither digit nor letter.
  method CharValue(c: char) returns (d: nat)
    ensures d == DigitOf(c)
  {
    if IsDigit(c) {
      d := c as int - '0' as int;
    } else if IsAlpha(c) {
      d := c as int - (if IsUpper(c) then 'A' as int - 10 else 'a' as int - 10);
    } else {
      d := 36;
    }
  }

  // One digit more: v is the value before it, more that after it.
  method Accumulate(acc: nat, any: int, d: nat, base: nat, cutoff: nat, cutlim: nat, ghost limit: nat, ghost v: nat,
                    ghost more: nat) returns (acc': nat, any': int)
    requires d < base && limit == cutoff * base + cutlim && cutlim < base && more == v * base + d
    requires (any < 0 <==> v > limit) && (any >= 0 ==> acc == v)
    ensures any' != 0 && (any' < 0 <==> more > limit) && (any' >= 0 ==> acc' == more)
  {
    Cutoff(v, d, base, limit, cutoff, cutlim, more);
    if any < 0 || acc > cutoff || (acc == cutoff && d > cutlim) {
      acc', any' := acc, -1;
    } else {
      Scaled(acc, base);
      acc', any' := acc * base, 1;
      acc' := acc' + d;
    }
  }

  // The digit loop in common: any is 0 before the first digit, -1 from the first overflow on.
  method DigitLoop(s: string, c0: char, start: nat, base: nat, limit: nat) returns (acc: nat, any: int, next: nat)
    requires 1 <= start <= |s| + 1 && c0 == At(s, start - 1) && 2 <= base <= 36
    ensures next - 1 == RunEnd(s, start - 1, base)
    ensures any == 0 <==> next == start
    ensures any < 0 <==> Value(s, start - 1, next - 1, base) > limit
    ensures any >= 0 ==> acc == Value(s, start - 1, next - 1, base)
  {
    var c := c0;
    acc, any, next := 0, 0, start;
    Divided(limit, base);
    var cutoff: nat, cutlim: nat := limit / base, limit % base;
    ghost var i, v := start - 1, 0;
    while true
      invariant start <= next <= |s| + 1 && c == At(s, next - 1)
      invariant RunEnd(s, i, base) == RunEnd(s, next - 1, base)
      invariant v == Value(s, i, next - 1, base)
      invariant any == 0 <==> next == start
      invariant any < 0 <==> v > limit
      invariant any >= 0 ==> acc == v
      decreases |s| + 1 - next
    {
      var d := CharValue(c);
      if d >= base {
        break;
      }
      RunEndStep(s, i, next - 1, base);
      ghost var more := Value(s, i, next, base);
      acc, any := Accumulate(acc, any, d, base, cutoff, cutlim, limit, v, more);
      v := more;
      c, next := At(s, next), next + 1;
    }
  }

  // strtol and strtoll, with max the largest value of the type: long and long long wrap to 2 * (max + 1) values.
  method Signed(nptr: string, base: int, max: nat) returns (value: int, end: nat)
    ensures end == Read(nptr, base).1
    ensures var v := SignedRead(nptr, base);
      && (-(max as int) - 1 <= v <= max ==> value == v)
      && (v > max ==> value == max) && (v < -(max as int) - 1 ==> value == -(max as int) - 1)
  {
    var negative, c, next, b := Prefix(nptr, base);
    if b < 2 || b > 36 {
      return 0, 0;
    }
    var limit := if negative then max + 1 else max;
    var acc, any, last := DigitLoop(nptr, c, next, b, limit);
    if any < 0 {
      value := if negative then -(max as int) - 1 else max;
    } else if negative {
      value := ToSigned(Negated(acc, max), max);
    } else {
      value := ToSigned(acc, max);
    }
    end := if any != 0 then last - 1 else 0;
  }

  // The conversion of an unsigned value to the signed type of the same width.
  function ToSigned(u: int, max: nat): int { if u > max then u - 2 * (max + 1) else u }

  // Unsigned negation in a type of 2 * (max + 1) values.
  function Negated(u: nat, max: nat): int { if u == 0 then 0 else 2 * (max + 1) - u }

  // strtoul and strtoull: the sign is read and dropped.
  method Unsigned(nptr: string, base: int, max: nat) returns (value: nat, end: nat)
    ensures var (v, e) := Read(nptr, base); end == e && value == if v <= max then v else max
  {
    var _, c, next, b := Prefix(nptr, base);
    if b < 2 || b > 36 {
      return 0, 0;
    }
    var acc, any, last := DigitLoop(nptr, c, next, b, max);
    value := if any < 0 then max else acc;
    end := if any != 0 then last - 1 else 0;
  }

  // After "0x" something is read exactly when a hexadecimal digit follows: without one, not even the zero is.
  lemma BarePrefix(s: string, base: int, i: nat)
    requires (base == 0 || base == 16) && i + 2 <= |s| && HexPrefix(s, i) && StartOf(s, base).at == i + 2
    ensures Read(s, base).1 > 0 <==> DigitOf(At(s, i + 2)) < 16
    ensures Read(s, base).1 == 0 ==> Read(s, base).0 == 0
  {
  }
}
