/** Positional notation in bases 2 to 36. */
module Numerals {
  import opened Arithmetic

  /** Characters past the end of the text read as its terminator. */
  function CharAt(s: string, i: nat): char
  {
    if i < |s| then s[i] else '\0'
  }

  /** The characters before the terminator. */
  function CString(s: string): (r: string)
    ensures |r| <= |s|
  {
    if s == "" || s[0] == '\0' then "" else [s[0]] + CString(s[1..])
  }

  /** They are those before the first NUL, or all when there is none. */
  lemma {:induction false} CStringIs(t: string, rest: string)
    requires (forall i :: 0 <= i < |t| ==> t[i] != '\0') && (rest != "" ==> rest[0] == '\0')
    ensures CString(t + rest) == t
    decreases |t|
  {
    if t != "" {
      assert (t + rest)[1..] == t[1..] + rest;
      CStringIs(t[1..], rest);
    } else {
      assert t + rest == rest;
    }
  }

  /** The value of a digit, or -1 when c is not a digit of the base. */
  function DigitValue(c: char, base: int): (d: int)
    ensures d == -1 || 0 <= d < base
  {
    var d := if '0' <= c <= '9' then c as int - '0' as int
             else if 'a' <= c <= 'z' then 10 + (c as int - 'a' as int)
             else if 'A' <= c <= 'Z' then 10 + (c as int - 'A' as int)
             else -1;
    if d < 0 || d >= base then -1 else d
  }

  function DigitChar(d: nat, upper: bool): (c: char)
    requires d < 36
  {
    (if d < 10 then '0' as int + d else (if upper then 'A' else 'a') as int + d - 10) as char
  }

  /** The table of the formatter. */
  lemma DigitTable(d: nat)
    requires d < 16
    ensures DigitChar(d, false) == "0123456789abcdef"[d] && DigitChar(d, true) == "0123456789ABCDEF"[d]
  {
  }

  lemma DigitCharValue(d: nat, upper: bool, base: int)
    requires d < base <= 36
    ensures DigitValue(DigitChar(d, upper), base) == d && (DigitChar(d, upper) == '0' <==> d == 0)
  {
  }

  /** No other character is a digit. */
  lemma DigitsAreThese(c: char, base: int)
    requires DigitValue(c, base) >= 0 && base <= 36
    ensures c == DigitChar(DigitValue(c, base), false) || c == DigitChar(DigitValue(c, base), true)
  {
  }

  predicate AllDigits(s: string, base: int)
  {
    forall i :: 0 <= i < |s| ==> DigitValue(s[i], base) >= 0
  }

  /** The number a string of digits stands for. */
  function Value(s: string, base: nat): nat
    requires AllDigits(s, base)
  {
    if s == [] then 0 else Value(s[..|s| - 1], base) * base + DigitValue(s[|s| - 1], base)
  }

  /** The numeral of x: no leading zero except for 0 itself. */
  function Numeral(x: nat, base: nat, upper: bool): (s: string)
    requires 2 <= base <= 36
    ensures |s| > 0
  {
    SmallQuotient(x, base);
    if x < base then [DigitChar(x, upper)] else Numeral(Quot(x, base), base, upper) + [DigitChar(Rem(x, base), upper)]
  }

  function Repeated(c: char, n: int): (s: string)
    ensures |s| == if n < 0 then 0 else n
    ensures forall i :: 0 <= i < |s| ==> s[i] == c
  {
    seq(if n < 0 then 0 else n, i => c)
  }

  lemma AppendDigit(s: string, c: char, base: nat)
    requires AllDigits(s, base) && DigitValue(c, base) >= 0
    ensures AllDigits(s + [c], base) && Value(s + [c], base) == Value(s, base) * base + DigitValue(c, base)
  {
    assert (s + [c])[..|s|] == s;
  }

  lemma {:induction false} NumeralValue(x: nat, base: nat, upper: bool)
    requires 2 <= base <= 36
    ensures AllDigits(Numeral(x, base, upper), base) && Value(Numeral(x, base, upper), base) == x
    decreases x
  {
    hide Quot, Rem, DigitChar, DigitValue, AllDigits;
    SmallQuotient(x, base);
    EmptyValue(base);
    if x >= base {
      var q, d := Quot(x, base), Rem(x, base);
      NumeralValue(q, base, upper);
      DigitCharValue(d, upper, base);
      AppendDigit(Numeral(q, base, upper), DigitChar(d, upper), base);
    } else {
      DigitCharValue(x, upper, base);
      AppendDigit([], DigitChar(x, upper), base);
      assert [] + [DigitChar(x, upper)] == [DigitChar(x, upper)];
    }
  }

  lemma EmptyValue(base: nat)
    ensures AllDigits([], base) && Value([], base) == 0
  {
  }

  lemma {:induction false} ZerosValue(n: nat, s: string, base: nat)
    requires AllDigits(s, base) && base > 0
    ensures AllDigits(Repeated('0', n) + s, base) && Value(Repeated('0', n) + s, base) == Value(s, base)
    decreases n + |s|
  {
    var t := Repeated('0', n) + s;
    if s != [] {
      ZerosValue(n, s[..|s| - 1], base);
      assert t[..|t| - 1] == Repeated('0', n) + s[..|s| - 1];
    } else if n > 0 {
      ZerosValue(n - 1, s, base);
      assert t[..|t| - 1] == Repeated('0', n - 1) + s;
    }
  }

  // ----- digits by position, most significant first

  function Pow(b: nat, k: nat): (p: nat)
    requires b > 0
    ensures p > 0
  {
    if k == 0 then 1 else b * Pow(b, k - 1)
  }

  /** The lowest k digits of x. */
  function Padded(x: nat, base: nat, k: nat, upper: bool): (s: string)
    requires 2 <= base <= 36
    ensures |s| == k
  {
    if k == 0 then [] else [DigitChar(Rem(Quot(x, Pow(base, k - 1)), base), upper)] + Padded(x, base, k - 1, upper)
  }

  function Skip(s: string): (t: string)
    ensures |t| <= |s|
  {
    if s != [] && s[0] == '0' then Skip(s[1..]) else s
  }

  lemma Nested(x: nat, a: nat, b: nat, q: nat, i: nat, r: nat, j: nat)
    requires x == q * a + i && i < a && q == r * b + j && j < b
    ensures x == r * (a * b) + (j * a + i) && 0 <= j * a + i < a * b
  {
    assert q * a == (r * b) * a + j * a;
    assert (r * b) * a == r * (a * b);
    assert b * a == j * a + (b - j) * a;
    MulAtLeast(b - j, a);
    NonNegative(j, a);
  }

  lemma DivideTwice(x: nat, a: nat, b: nat)
    requires a > 0 && b > 0
    ensures a * b > 0 && Quot(x, a * b) == Quot(Quot(x, a), b)
  {
    var q, i := x / a, x % a;
    var r, j := q / b, q % b;
    MulAtLeast(b, a);
    Nested(x, a, b, q, i, r, j);
    ModUnique(x, a * b, r, j * a + i);
  }

  lemma {:induction false} PaddedLast(x: nat, base: nat, k: nat, upper: bool)
    requires 2 <= base <= 36 && k > 0
    ensures Rem(x, base) < base
    ensures Padded(x, base, k, upper) == Padded(Quot(x, base), base, k - 1, upper) + [DigitChar(Rem(x, base), upper)]
    decreases k
  {
    hide Quot, Rem, DigitChar;
    SmallQuotient(x, base);
    if k > 1 {
      DivideTwice(x, base, Pow(base, k - 2));
      PaddedLast(x, base, k - 1, upper);
    } else {
      DivideByOne(x);
    }
  }

  lemma DivideByOne(x: nat)
    ensures Quot(x, 1) == x
  {
  }

  lemma {:induction false} SkipAppend(s: string, c: char)
    ensures Skip(s + [c]) == if Skip(s) != [] then Skip(s) + [c] else Skip([c])
    decreases |s|
  {
    if s != [] && s[0] == '0' {
      SkipAppend(s[1..], c);
      assert (s + [c])[1..] == s[1..] + [c];
    } else if s == [] {
      assert s + [c] == [c];
    }
  }

  /** Enough digits without their leading zeros are the numeral. */
  lemma {:induction false} SkipPadded(x: nat, base: nat, k: nat, upper: bool)
    requires 2 <= base <= 36 && x < Pow(base, k)
    ensures Skip(Padded(x, base, k, upper)) == if x == 0 then [] else Numeral(x, base, upper)
    decreases k
  {
    hide Quot, Rem, DigitChar, DigitValue;
    if k > 0 {
      var q, d := Quot(x, base), Rem(x, base);
      SmallQuotient(x, base);
      QuotientBelow(x, base, Pow(base, k - 1));
      PaddedLast(x, base, k, upper);
      hide Padded, Pow;
      SkipPadded(q, base, k - 1, upper);
      SkipAppend(Padded(q, base, k - 1, upper), DigitChar(d, upper));
      DigitCharValue(d, upper, base);
    }
  }

  lemma SmallQuotient(x: nat, base: nat)
    requires base > 0
    ensures Quot(x, base) == 0 <==> x < base
    ensures x < base ==> Rem(x, base) == x
    ensures Quot(x, base) * base + Rem(x, base) == x
    ensures Rem(x, base) < base && (base > 1 && x > 0 ==> Quot(x, base) < x)
  {
    if base > 1 && x > 0 {
      MulMonotone(2, base, Quot(x, base));
    }
  }

  lemma MulMonotone(p: nat, q: nat, b: nat)
    ensures p <= q ==> p * b <= q * b
  {
    if p <= q {
      assert q * b == p * b + (q - p) * b;
      NonNegative(q - p, b);
    }
  }

  lemma QuotientBelow(x: nat, b: nat, p: nat)
    requires b > 0 && x < b * p
    ensures Quot(x, b) < p
  {
    MulMonotone(p, Quot(x, b), b);
  }
}
