/** What texts convert to, by their characters. */
module StrtolTexts {
  import opened Arithmetic
  import opened Numerals
  import opened Strtol

  /** The white space of the C locale. */
  predicate AllSpaces(s: string)
  {
    forall i :: 0 <= i < |s| ==> s[i] in {' ', '\t', '\n', 0xb as char, 0xc as char, '\r'}
  }

  /** Digits of base b may follow the prefix pf in a conversion in this base. */
  predicate Announces(base: nat, b: nat, pf: string, digits: string)
  {
    && 2 <= b <= 36 && digits != "" && AllDigits(digits, b)
    && (|| (base == b && pf == "")
        || (base in {0, 16} && b == 16 && pf in {"0x", "0X"})
        || (base in {0, 8} && b == 8 && pf == "0")
        || (base == 0 && b == 10 && pf == "" && digits[0] != '0'))
  }

  /** The digits end where the tail begins. */
  predicate Ends(digits: string, tail: string, b: nat)
  {
    tail != "" ==> DigitValue(tail[0], b) < 0 && (digits == "0" ==> tail[0] != 'x' && tail[0] != 'X')
  }

  /** From position i on the text is t. */
  ghost predicate Follows(s: string, i: nat, t: string)
  {
    i <= |s| && s[i..] == t
  }

  // ----- spaces and sign

  lemma {:induction false} SpacesSkipped(s: string, p: nat, k: nat)
    requires p <= k <= |s| && !IsSpace(CharAt(s, k)) && forall i :: p <= i < k ==> IsSpace(s[i])
    ensures SpaceEnd(s, p) == k
    decreases k - p
  {
    if p < k {
      SpacesSkipped(s, p + 1, k);
    }
  }

  lemma TextParts(s: string, spaces: string, sign: string, t: string)
    requires s == spaces + sign + t
    ensures Follows(s, |spaces| + |sign|, t)
    ensures forall i :: 0 <= i < |spaces| ==> s[i] == spaces[i]
    ensures sign != "" ==> s[|spaces|] == sign[0]
    ensures sign == "" && t != "" ==> s[|spaces|] == t[0]
    ensures sign == "" && t == "" ==> |s| == |spaces|
  {
  }

  /** A text that goes on with neither a space nor a sign. */
  predicate Begins(t: string)
  {
    t != "" ==> t[0] !in {' ', '\t', '\n', 0xb as char, 0xc as char, '\r', '-', '+'}
  }

  lemma HeadSkipped(s: string, spaces: string, sign: string, t: string)
    requires s == spaces + sign + t && AllSpaces(spaces) && sign in {"", "-", "+"} && (sign == "" ==> Begins(t))
    ensures SpaceEnd(s, 0) == |spaces| && SignEnd(s, |spaces|) == |spaces| + |sign|
    ensures CharAt(s, |spaces|) == '-' <==> sign == "-"
    ensures Follows(s, |spaces| + |sign|, t)
  {
    TextParts(s, spaces, sign, t);
    forall i | 0 <= i < |spaces| ensures IsSpace(s[i]) {
    }
    hide SpaceEnd;
    SpacesSkipped(s, 0, |spaces|);
  }

  // ----- the digits

  lemma {:induction false} RunFound(s: string, p: nat, q: nat, base: nat)
    requires p <= q <= |s| && DigitAt(s, q, base) < 0 && forall i :: p <= i < q ==> DigitAt(s, i, base) >= 0
    ensures RunEnd(s, p, base) == q
    decreases q - p
  {
    if p < q {
      RunFound(s, p + 1, q, base);
    }
  }

  lemma DigitBegins(digits: string, tail: string, b: nat)
    requires digits != "" && AllDigits(digits, b)
    ensures Begins(digits + tail)
  {
  }

  lemma AnnouncedBegins(base: nat, b: nat, pf: string, digits: string, tail: string)
    requires Announces(base, b, pf, digits)
    ensures Begins(pf + digits + tail)
  {
    if pf == "" {
      DigitBegins(digits, tail, b);
      assert pf + digits + tail == digits + tail;
    } else {
      assert (pf + digits + tail)[0] == pf[0] == '0';
    }
  }

  /** Where the digits begin that stand after a prefix: a leading 0 may count as part of the prefix. */
  lemma StartFound(s: string, p: nat, base: nat, b: nat, pf: string, digits: string, tail: string)
    requires Announces(base, b, pf, digits) && Ends(digits, tail, b) && Follows(s, p, pf + digits + tail)
    ensures var r := StartOf(s, p, base);
            r == Digits(p + |pf|, b) || (r == Digits(p + |pf| + 1, b) && digits[0] == '0')
  {
    var t := s[p..];
    assert t[0] == s[p];
    assert |t| > 1 ==> t[1] == s[p + 1];
    assert t[|pf|] == digits[0];
    assert pf != "" ==> t[0] == pf[0];
    assert |pf| == 2 ==> t[1] == pf[1];
    if |t| > |pf| + 1 {
      assert t[|pf| + 1] == if |digits| > 1 then digits[1] else tail[0];
    }
    if digits[0] == '0' && |digits| == 1 {
      assert digits == "0";
    }
  }

  /** At position i stand the digits, and then the tail. */
  ghost predicate Stands(s: string, i: nat, digits: string, tail: string)
  {
    i + |digits| <= |s| && s[i..i + |digits|] == digits && s[i + |digits|..] == tail
  }

  lemma DigitsAfter(s: string, p: nat, pf: string, digits: string, tail: string)
    requires Follows(s, p, pf + digits + tail)
    ensures Stands(s, p + |pf|, digits, tail)
  {
    assert s[p..][|pf|..|pf| + |digits|] == digits;
    assert s[p..][|pf| + |digits|..] == tail;
  }

  lemma DigitsEnd(s: string, i: nat, at: nat, digits: string, tail: string, b: nat)
    requires Stands(s, i, digits, tail) && digits != "" && AllDigits(digits, b) && Ends(digits, tail, b)
    requires at == i || at == i + 1
    ensures RunEnd(s, at, b) == i + |digits|
  {
    hide DigitValue;
    var e := i + |digits|;
    forall j | i <= j < e ensures DigitAt(s, j, b) >= 0 {
      assert s[j] == s[i..e][j - i];
    }
    if e < |s| {
      assert s[e] == s[e..][0];
    } else {
      NulDigit(b);
    }
    RunFound(s, at, e, b);
  }

  lemma NulDigit(base: int)
    ensures DigitValue('\0', base) < 0
  {
  }

  /** The beginning of the digits up to k, with or without a leading 0, as the run sees it. */
  lemma DigitsPart(s: string, i: nat, at: nat, k: nat, digits: string, tail: string, b: nat)
    requires Stands(s, i, digits, tail) && AllDigits(digits, b) && b >= 2 && k <= |digits| && at <= i + k
    requires at == i || (at == i + 1 && digits != "" && digits[0] == '0')
    ensures AllDigits(digits[..k], b) && AllDigits(s[at..i + k], b)
    ensures Value(s[at..i + k], b) == Value(digits[..k], b)
  {
    hide DigitValue;
    assert s[i..i + k] == s[i..i + |digits|][..k];
    if at == i + 1 {
      assert digits[..k] == Repeated('0', 1) + s[at..i + k] by {
        assert s[at..i + k] == digits[1..k];
        assert digits[..k] == ['0'] + digits[1..k];
      }
      var rest := s[at..i + k];
      assert forall j :: 0 <= j < |rest| ==> rest[j] == digits[j + 1];
      ZerosValue(1, rest, b);
    }
  }

  /** v with the sign in front of it. */
  function WithSign(sign: string, v: int): int
  {
    if sign == "-" then -v else v
  }

  /** What a conversion makes of digits that follow a head of the given length: their value when it is in
      range, and otherwise the bound passed, with the end just behind the digit that passes it. */
  ghost predicate Converts(r: Conversion, head: nat, sign: string, digits: string, b: nat, min: int, max: int)
    requires b > 0 && AllDigits(digits, b)
  {
    var v := WithSign(sign, Value(digits, b));
    if min <= v <= max then r == Conversion(v, head + |digits|, NoError)
    else
      var k := r.end - head;
      && r.error == RangeError && r.value == (if v < min then min else max) && 0 < k <= |digits|
      && !InRange(digits, k, sign, b, min, max) && InRange(digits, k - 1, sign, b, min, max)
  }

  ghost predicate InRange(digits: string, k: nat, sign: string, b: nat, min: int, max: int)
    requires b > 0 && AllDigits(digits, b) && k <= |digits|
  {
    min <= WithSign(sign, Value(digits[..k], b)) <= max
  }

  /** Spaces, a sign, a prefix and digits convert to the number the digits stand for, in every base, with
      everything that can follow them. */
  lemma ReadsDigits(s: string, spaces: string, sign: string, pf: string, digits: string, tail: string, b: nat,
                    base: nat, min: int, max: int, r: Conversion)
    requires s == spaces + sign + (pf + digits + tail) && AllSpaces(spaces) && sign in {"", "-", "+"}
    requires Announces(base, b, pf, digits) && Ends(digits, tail, b)
    requires IsConversion(s, base, min, max, r)
    ensures Converts(r, |spaces| + |sign| + |pf|, sign, digits, b, min, max)
  {
    hide IsRun, StartOf, Converts, Ends;
    AnnouncedBegins(base, b, pf, digits, tail);
    HeadSkipped(s, spaces, sign, pf + digits + tail);
    var p := |spaces| + |sign|;
    StartFound(s, p, base, b, pf, digits, tail);
    DigitsAfter(s, p, pf, digits, tail);
    hide SpaceEnd, SignEnd, CharAt, Follows, AllSpaces, Begins, Stands;
    var at := StartOf(s, p, base).at;
    RunConverts(s, p + |pf|, at, sign, digits, tail, b, min, max, r);
  }

  lemma RunConverts(s: string, i: nat, at: nat, sign: string, digits: string, tail: string, b: nat, min: int,
                    max: int, r: Conversion)
    requires Stands(s, i, digits, tail) && digits != "" && AllDigits(digits, b) && Ends(digits, tail, b) && b >= 2
    requires at <= |s| && (at == i || (at == i + 1 && digits[0] == '0'))
    requires IsRun(s, at, b, sign == "-", min, max, r)
    ensures Converts(r, i, sign, digits, b, min, max)
  {
    hide DigitValue, AllDigits, Value, RunEnd, Ends, Stands;
    DigitsEnd(s, i, at, digits, tail, b);
    DigitsPart(s, i, at, |digits|, digits, tail, b);
    assert digits[..|digits|] == digits;
    if r.error == RangeError {
      DigitsPart(s, i, at, r.end - i, digits, tail, b);
      DigitsPart(s, i, at, r.end - i - 1, digits, tail, b);
    }
  }

  /** Base 0: a zero that neither x nor an octal digit follows is the whole number. */
  lemma ReadsZero(s: string, spaces: string, sign: string, tail: string, min: int, max: int, r: Conversion)
    requires s == spaces + sign + ("0" + tail) && AllSpaces(spaces) && sign in {"", "-", "+"}
    requires tail != "" ==> tail[0] !in {'x', 'X', '0', '1', '2', '3', '4', '5', '6', '7'}
    requires IsConversion(s, 0, min, max, r)
    ensures r == Conversion(0, |spaces| + |sign| + 1, NoError)
  {
    hide IsRun;
    HeadSkipped(s, spaces, sign, "0" + tail);
    var p := |spaces| + |sign|;
    assert s[p..][0] == s[p];
    assert |s| > p + 1 ==> s[p..][1] == s[p + 1];
  }

  /** A prefix 0x that no hexadecimal digit follows is read as 0, and reading stops behind the x. */
  lemma ReadsBarePrefix(s: string, spaces: string, sign: string, pf: string, tail: string, base: nat, min: int,
                        max: int, r: Conversion)
    requires s == spaces + sign + (pf + tail) && AllSpaces(spaces) && sign in {"", "-", "+"}
    requires base in {0, 16} && pf in {"0x", "0X"} && (tail != "" ==> DigitValue(tail[0], 16) < 0)
    requires min <= 0 <= max && IsConversion(s, base, min, max, r)
    ensures r == Conversion(0, |spaces| + |sign| + 2, NoError)
  {
    hide IsRun, StartOf, DigitValue, SpaceEnd, SignEnd, AllSpaces;
    HeadSkipped(s, spaces, sign, pf + tail);
    var p := |spaces| + |sign|;
    BareStart(s, p, pf, tail, base);
    NoDigits(s, p + 2, 16, sign == "-", min, max, r);
  }

  lemma BareStart(s: string, p: nat, pf: string, tail: string, base: nat)
    requires Follows(s, p, pf + tail) && base in {0, 16} && pf in {"0x", "0X"}
    requires tail != "" ==> DigitValue(tail[0], 16) < 0
    ensures StartOf(s, p, base) == Digits(p + 2, 16) && p + 2 <= |s| && DigitAt(s, p + 2, 16) < 0
  {
    assert s[p..][0] == s[p] && s[p..][1] == s[p + 1];
    assert |s| > p + 2 ==> s[p..][2] == s[p + 2];
  }

  lemma NoDigits(s: string, at: nat, b: nat, negative: bool, min: int, max: int, r: Conversion)
    requires at <= |s| && DigitAt(s, at, b) < 0 && min <= 0 <= max && IsRun(s, at, b, negative, min, max, r)
    ensures r == Conversion(0, at, NoError)
  {
    assert s[at..at] == [];
  }

  /** Without a digit nothing is read, not even the spaces. */
  lemma ReadsNothing(s: string, spaces: string, sign: string, tail: string, base: nat, min: int, max: int,
                     r: Conversion)
    requires s == spaces + sign + tail && AllSpaces(spaces) && sign in {"", "-", "+"} && (sign == "" ==> Begins(tail))
    requires base == 0 || 2 <= base <= 36
    requires tail != "" ==> DigitValue(tail[0], if base == 0 then 10 else base) < 0
    requires IsConversion(s, base, min, max, r)
    ensures r == Conversion(0, 0, NoError)
  {
    hide IsRun;
    HeadSkipped(s, spaces, sign, tail);
    var p := |spaces| + |sign|;
    assert |s| > p ==> s[p..][0] == s[p];
  }

  /** No other base is accepted. */
  lemma ReadsNoOtherBase(s: string, base: nat, min: int, max: int, r: Conversion)
    requires base == 1 || base > 36
    requires IsConversion(s, base, min, max, r)
    ensures r == Conversion(0, 0, InvalidBase)
  {
  }

  // ----- numerals

  /** Only the numeral of 0 begins with 0. */
  lemma {:induction false} NumeralBegins(x: nat, base: nat, upper: bool)
    requires 2 <= base <= 36
    ensures Numeral(x, base, upper)[0] == '0' <==> x == 0
    decreases x
  {
    hide Quot, Rem, DigitChar, DigitValue;
    SmallQuotient(x, base);
    if x < base {
      DigitCharValue(x, upper, base);
    } else {
      NumeralBegins(Quot(x, base), base, upper);
    }
  }

  /** In every base from 2 to 36, letters of either case for the digits from 10 on, the numeral of x behind any
      white space and sign is read as x. */
  lemma ReadsNumeral(spaces: string, sign: string, x: nat, b: nat, upper: bool, tail: string, min: int, max: int,
                     r: Conversion)
    requires 2 <= b <= 36 && AllSpaces(spaces) && sign in {"", "-", "+"} && Ends(Numeral(x, b, upper), tail, b)
    requires IsConversion(spaces + sign + (Numeral(x, b, upper) + tail), b, min, max, r)
    requires min <= (if sign == "-" then 0 - x else x) <= max
    ensures r == Conversion(if sign == "-" then 0 - x else x, |spaces| + |sign| + |Numeral(x, b, upper)|, NoError)
  {
    hide IsConversion, AllDigits, Value, Ends;
    var digits := Numeral(x, b, upper);
    NumeralValue(x, b, upper);
    assert "" + digits == digits;
    ReadsDigits(spaces + sign + (digits + tail), spaces, sign, "", digits, tail, b, b, min, max, r);
  }

  /** In base 0 a decimal numeral is read as in base 10. */
  lemma ReadsDecimal(spaces: string, sign: string, x: nat, tail: string, min: int, max: int, r: Conversion)
    requires x > 0 && AllSpaces(spaces) && sign in {"", "-", "+"} && Ends(Numeral(x, 10, false), tail, 10)
    requires IsConversion(spaces + sign + (Numeral(x, 10, false) + tail), 0, min, max, r)
    ensures IsConversion(spaces + sign + (Numeral(x, 10, false) + tail), 10, min, max, r)
    ensures min <= (if sign == "-" then 0 - x else x) <= max ==>
            r == Conversion(if sign == "-" then 0 - x else x, |spaces| + |sign| + |Numeral(x, 10, false)|, NoError)
  {
    hide AllDigits, Value, Ends, StartOf, IsRun;
    var digits := Numeral(x, 10, false);
    var s := spaces + sign + (digits + tail);
    NumeralValue(x, 10, false);
    NumeralBegins(x, 10, false);
    hide Numeral;
    assert "" + digits == digits;
    ReadsDigits(s, spaces, sign, "", digits, tail, 10, 0, min, max, r);
    DecimalStart(s, spaces, sign, digits, tail);
  }

  lemma DecimalStart(s: string, spaces: string, sign: string, digits: string, tail: string)
    requires s == spaces + sign + (digits + tail) && AllSpaces(spaces) && sign in {"", "-", "+"}
    requires digits != "" && AllDigits(digits, 10) && digits[0] != '0'
    ensures var p := SignEnd(s, SpaceEnd(s, 0)); StartOf(s, p, 0) == StartOf(s, p, 10)
  {
    DigitBegins(digits, tail, 10);
    HeadSkipped(s, spaces, sign, digits + tail);
    var p := |spaces| + |sign|;
    assert s[p..][0] == s[p];
  }
}
