/** Reading integers: the conversion behind the atoi and strtol families. */
module Strtol {
  import opened Arithmetic
  import opened Numerals

  predicate IsSpace(c: char)
  {
    c in {' ', '\n', '\r', '\t', 0xb as char, 0xc as char}
  }

  function DigitAt(s: string, i: nat, base: int): (d: int)
    ensures d == -1 || 0 <= d < base
    ensures d >= 0 ==> i < |s|
  {
    DigitValue(CharAt(s, i), base)
  }

  datatype Error = NoError | RangeError | InvalidBase

  datatype Conversion = Conversion(value: int, end: nat, error: Error)

  // ----- what a text denotes

  function SpaceEnd(s: string, p: nat): (e: nat)
    requires p <= |s|
    ensures p <= e <= |s|
    decreases |s| - p
  {
    if IsSpace(CharAt(s, p)) && p < |s| then SpaceEnd(s, p + 1) else p
  }

  function SignEnd(s: string, p: nat): (e: nat)
    requires p <= |s|
    ensures p <= e <= |s|
  {
    if CharAt(s, p) == '-' || CharAt(s, p) == '+' then p + 1 else p
  }

  function RunEnd(s: string, p: nat, base: int): (e: nat)
    requires p <= |s|
    ensures p <= e <= |s| && AllDigits(s[p..e], base) && DigitAt(s, e, base) < 0
    decreases |s| - p
  {
    if DigitAt(s, p, base) < 0 then p
    else
      var e := RunEnd(s, p + 1, base);
      assert s[p..e] == [s[p]] + s[p + 1..e];
      e
  }

  /** Where the digits begin and in which base, or where a text that holds no number ends. */
  datatype Start = NoNumber(end: nat) | Digits(at: nat, base: nat)

  function StartOf(s: string, p: nat, base: nat): (r: Start)
    requires p <= |s|
    ensures r.Digits? ==> p <= r.at <= |s| && r.base == if base != 0 then base else r.base
    ensures r.NoNumber? ==> r.end <= |s|
    ensures r.Digits? && (base == 0 || 2 <= base <= 36) ==> 2 <= r.base <= 36
  {
    var c, x := CharAt(s, p), CharAt(s, p + 1) == 'x' || CharAt(s, p + 1) == 'X';
    if c == '0' then
      if base == 16 then Digits(if x then p + 2 else p + 1, 16)
      else if base == 8 then Digits(p + 1, 8)
      else if base == 0 then
        if x then Digits(p + 2, 16) else if DigitAt(s, p + 1, 8) >= 0 then Digits(p + 1, 8) else NoNumber(p + 1)
      else Digits(p, base)
    else
      var b := if base == 0 then 10 else base;
      if c == '\0' || DigitAt(s, p, b) < 0 then NoNumber(0) else Digits(p, b)
  }

  function Signed(negative: bool, v: int): int { if negative then -v else v }

  /** The digits from p to q, as a number of the given sign. */
  function Part(s: string, p: nat, q: nat, base: nat, negative: bool): int
    requires p <= q <= |s| && AllDigits(s[p..q], base)
  {
    Signed(negative, Value(s[p..q], base))
  }

  function Clamp(v: int, min: int, max: int): int
  {
    if v < min then min else if v > max then max else v
  }

  /** The value of the digit run from at, clamped to [min, max], and the end of the run or, out of range, of
      the first digits that already are. */
  ghost predicate IsRun(s: string, at: nat, base: nat, negative: bool, min: int, max: int, r: Conversion)
    requires at <= |s|
  {
    var end := RunEnd(s, at, base);
    var v := Part(s, at, end, base, negative);
    if min <= v <= max then r == Conversion(v, end, NoError)
    else
      && r.value == Clamp(v, min, max) && r.error == RangeError
      && at < r.end <= end && AllDigits(s[at..r.end], base) && AllDigits(s[at..r.end - 1], base)
      && !(min <= Part(s, at, r.end, base, negative) <= max) && min <= Part(s, at, r.end - 1, base, negative) <= max
  }

  /** Spaces, a sign, a base prefix and digits; without digits the value is 0. */
  ghost predicate IsConversion(s: string, base: nat, min: int, max: int, r: Conversion)
  {
    if base != 0 && (base < 2 || base > 36) then r == Conversion(0, 0, InvalidBase)
    else
      var p := SignEnd(s, SpaceEnd(s, 0));
      var negative := CharAt(s, SpaceEnd(s, 0)) == '-';
      match StartOf(s, p, base)
      case NoNumber(end) => r == Conversion(0, end, NoError)
      case Digits(at, b) => IsRun(s, at, b, negative, min, max, r)
  }

  lemma PartStep(s: string, p: nat, q: nat, base: nat, negative: bool)
    requires p <= q < |s| && AllDigits(s[p..q], base) && DigitAt(s, q, base) >= 0
    ensures AllDigits(s[p..q + 1], base)
    ensures Part(s, p, q + 1, base, negative) ==
            Part(s, p, q, base, negative) * base + Signed(negative, DigitAt(s, q, base))
  {
    assert s[p..q + 1] == s[p..q] + [s[q]];
    AppendDigit(s[p..q], s[q], base);
    assert (0 - Value(s[p..q], base)) * base == 0 - Value(s[p..q], base) * base;
  }

  /** More digits only move a number away from zero. */
  lemma {:induction false} PartGrows(s: string, p: nat, q: nat, e: nat, base: nat, negative: bool)
    requires p <= q <= e <= |s| && AllDigits(s[p..e], base) && base > 0
    ensures AllDigits(s[p..q], base)
    ensures if negative then Part(s, p, e, base, true) <= Part(s, p, q, base, true) <= 0
            else 0 <= Part(s, p, q, base, false) <= Part(s, p, e, base, false)
    decreases e - q
  {
    hide DigitValue;
    assert s[p..q] == s[p..e][..q - p];
    if q < e {
      assert s[q] == s[p..e][q - p];
      PartStep(s, p, q, base, negative);
      PartGrows(s, p, q + 1, e, base, negative);
      GrowStep(Value(s[p..q], base), base, DigitAt(s, q, base));
    }
  }

  lemma GrowStep(v: nat, base: nat, d: nat)
    requires base > 0
    ensures v <= v * base + d && (0 - v) * base - d <= 0 - v
  {
    MulMonotone(1, base, v);
    assert (0 - v) * base == 0 - v * base;
  }

  /** No intermediate value leaves 128 bits. */
  lemma StepFits(x: int, base: nat, d: nat)
    requires -U64 <= x <= U64 && base <= 36 && d < 36
    ensures -0x8000_0000_0000_0000_0000_0000_0000_0000 <= x * base - d
    ensures x * base + d < 0x8000_0000_0000_0000_0000_0000_0000_0000
  {
    MulMonotone(base, 36, if x < 0 then -x else x);
    assert base * (-x) == -(x * base);
  }

  method AtoiConvert(s: string, base: nat, min: int, max: int) returns (r: Conversion)
    requires -U64 <= min <= 0 <= max <= U64
    ensures IsConversion(s, base, min, max, r)
    ensures min <= r.value <= max && r.end <= |s|
  {
    hide DigitValue, Value, RunEnd, Part, IsRun;
    if base != 0 && (base < 2 || base > 36) {
      return Conversion(0, 0, InvalidBase);
    }
    var nptr := 0;
    while IsSpace(CharAt(s, nptr))
      invariant nptr <= |s| && SpaceEnd(s, nptr) == SpaceEnd(s, 0)
      decreases |s| - nptr
    {
      nptr := nptr + 1;
    }
    var neg := false;
    if CharAt(s, nptr) == '-' {
      neg := true;
      nptr := nptr + 1;
    } else if CharAt(s, nptr) == '+' {
      nptr := nptr + 1;
    }
    ghost var sign := nptr;
    var b := base;
    if CharAt(s, nptr) == '0' {
      if base == 16 {
        nptr := nptr + 1;
        if CharAt(s, nptr) == 'x' || CharAt(s, nptr) == 'X' {
          nptr := nptr + 1;
        }
      } else if base == 8 {
        nptr := nptr + 1;
      } else if base == 0 {
        nptr := nptr + 1;
        if CharAt(s, nptr) == 'x' || CharAt(s, nptr) == 'X' {
          nptr := nptr + 1;
          b := 16;
        } else if DigitAt(s, nptr, 8) >= 0 {
          b := 8;
        } else {
          return Conversion(0, nptr, NoError);
        }
      }
    } else if CharAt(s, nptr) == '\0' {
      return Conversion(0, 0, NoError);
    } else {
      b := if base == 0 then 10 else base;
      if DigitAt(s, nptr, b) < 0 {
        return Conversion(0, 0, NoError);
      }
    }
    assert StartOf(s, sign, base) == Digits(nptr, b);
    r := ConvertDigits(s, nptr, b, neg, min, max);
  }

  /** The digit loop. */
  method ConvertDigits(s: string, at: nat, base: nat, neg: bool, min: int, max: int) returns (r: Conversion)
    requires at <= |s| && 2 <= base <= 36 && -U64 <= min <= 0 <= max <= U64
    ensures r.end <= |s|
    ensures IsRun(s, at, base, neg, min, max, r) && min <= r.value <= max
  {
    hide DigitValue, Value;
    EmptyValue(base);
    assert s[at..at] == [];
    var x, nptr := 0, at;
    var d := DigitAt(s, nptr, base);
    while d >= 0
      invariant at <= nptr <= |s| && d == DigitAt(s, nptr, base) && AllDigits(s[at..nptr], base)
      invariant x == Part(s, at, nptr, base, neg) && min <= x <= max
      invariant RunEnd(s, at, base) == RunEnd(s, nptr, base)
      decreases |s| - nptr
    {
      PartStep(s, at, nptr, base, neg);
      StepFits(x, base, d);
      nptr := nptr + 1;
      x := x * base;
      PartGrows(s, at, nptr, RunEnd(s, at, base), base, neg);
      if !neg {
        x := x + d;
        if x > max {
          return Conversion(max, nptr, RangeError);
        }
      } else {
        x := x - d;
        if x < min {
          return Conversion(min, nptr, RangeError);
        }
      }
      d := DigitAt(s, nptr, base);
    }
    return Conversion(x, nptr, NoError);
  }
}
