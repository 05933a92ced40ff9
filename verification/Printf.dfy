/** Formatted output into a bounded buffer: numbers, format strings and the two passes of vasprintf. */
module Printf {
  import opened Arithmetic
  import opened Numerals

  datatype Flags = Flags(neg: bool, upper: bool, octal: bool, hex: bool, plus: bool, hash: bool, space: bool,
                         right: bool, zero: bool, precision: bool, is8: bool, is16: bool, is64: bool)

  // ----- the bounded buffer

  /** The buffer, if there is one, holds the beginning of the text that was put, and otherwise what it was. */
  ghost predicate Written(str: array?<char>, size: nat, text: string, was: string)
    reads str
  {
    str != null ==>
      && size <= str.Length == |was|
      && forall i :: 0 <= i < str.Length ==> str[i] == if i < size && i < |text| then text[i] else was[i]
  }

  /** What a buffer holds; nothing when there is none. */
  ghost function Contents(str: array?<char>): string
    reads str
  {
    if str == null then "" else str[..]
  }

  method PutChar(str: array?<char>, size: nat, idx: nat, c: char, ghost text: string, ghost was: string)
    returns (idx': nat)
    requires Written(str, size, text, was) && idx == |text|
    modifies str
    ensures Written(str, size, text + [c], was) && idx' == |text + [c]|
  {
    if str != null && idx < size {
      str[idx] := c;
    }
    idx' := idx + 1;
  }

  method PutRepeated(str: array?<char>, size: nat, idx: nat, c: char, n: int, ghost text: string, ghost was: string)
    returns (idx': nat)
    requires Written(str, size, text, was) && idx == |text|
    modifies str
    ensures Written(str, size, text + Repeated(c, n), was) && idx' == |text + Repeated(c, n)|
  {
    idx' := idx;
    var i := 0;
    assert text + Repeated(c, 0) == text;
    while i < n
      invariant 0 <= i && (i <= n || i == 0)
      invariant Written(str, size, text + Repeated(c, i), was) && idx' == |text + Repeated(c, i)|
    {
      assert text + Repeated(c, i) + [c] == text + Repeated(c, i + 1);
      idx' := PutChar(str, size, idx', c, text + Repeated(c, i), was);
      i := i + 1;
    }
    assert Repeated(c, i) == Repeated(c, n);
  }

  method PutString(str: array?<char>, size: nat, idx: nat, s: string, ghost text: string, ghost was: string)
    returns (idx': nat)
    requires Written(str, size, text, was) && idx == |text|
    modifies str
    ensures Written(str, size, text + s, was) && idx' == |text + s|
  {
    idx' := idx;
    assert text + s[..0] == text;
    for i := 0 to |s|
      invariant Written(str, size, text + s[..i], was) && idx' == |text + s[..i]|
    {
      assert text + s[..i] + [s[i]] == text + s[..i + 1];
      idx' := PutChar(str, size, idx', s[i], text + s[..i], was);
    }
    assert s[..|s|] == s;
  }

  // ----- numbers

  function Base(f: Flags): (b: nat)
    ensures b == 8 || b == 10 || b == 16
  {
    if f.hex then 16 else if f.octal then 8 else 10
  }

  function Sign(f: Flags): string
  {
    if f.hex || f.octal then
      if !f.hash then "" else if f.hex then (if f.upper then "0X" else "0x") else "0"
    else if f.neg then "-" else if f.plus then "+" else if f.space then " " else ""
  }

  function NumberOf(f: Flags, x: nat): (s: string)
    ensures |s| > 0
  {
    Numeral(x, Base(f), f.upper && (f.hex || f.octal))
  }

  /** Sign or prefix, zeros up to the precision, and the numeral. */
  function Core(f: Flags, width: nat, precision: nat, x: nat): string
  {
    var p := if f.zero && !f.precision then width else precision;
    Sign(f) + Repeated('0', p - |NumberOf(f, x)|) + NumberOf(f, x)
  }

  function Padding(f: Flags, width: nat, core: string): string
  {
    Repeated(' ', (if f.zero && !f.precision then 0 else width) - |core|)
  }

  /** A number as it is printed. */
  function NumberText(f: Flags, width: nat, precision: nat, x: nat): string
  {
    var core := Core(f, width, precision, x);
    if f.right then core + Padding(f, width, core) else Padding(f, width, core) + core
  }

  /** The numeral loops: what is in the digit buffer and the digits to come, without leading zeros. */
  ghost predicate Collected(digits: string, seen: bool, x: nat, base: nat, k: nat, k0: nat, upper: bool)
    requires 2 <= base <= 16
  {
    && (seen <==> digits != [])
    && Skip(Padded(x, base, k0, upper)) ==
      if seen then digits + Padded(x, base, k, upper) else Skip(Padded(x, base, k, upper))
  }

  lemma CollectDigit(digits: string, seen: bool, x: nat, base: nat, k: nat, k0: nat, upper: bool, c: char)
    requires 2 <= base <= 16 && 0 < k <= k0 && Collected(digits, seen, x, base, k, k0, upper)
    requires c == DigitChar(Rem(Quot(x, Pow(base, k - 1)), base), upper)
    ensures if !seen && c == '0' then Collected(digits, seen, x, base, k - 1, k0, upper)
            else Collected(digits + [c], true, x, base, k - 1, k0, upper)
  {
    var rest := Padded(x, base, k - 1, upper);
    assert Padded(x, base, k, upper) == [c] + rest;
    assert digits + ([c] + rest) == (digits + [c]) + rest;
    assert ([c] + rest)[1..] == rest && ([c] + rest)[0] == c;
    assert Skip([c] + rest) == if c == '0' then Skip(rest) else [c] + rest;
    assert !seen ==> digits + [c] + rest == [c] + rest;
  }

  lemma AllCollected(digits: string, seen: bool, x: nat, base: nat, k0: nat, upper: bool)
    requires 2 <= base <= 16 && x < Pow(base, k0) && Collected(digits, seen, x, base, 0, k0, upper)
    ensures (if seen then digits else "0") == Numeral(x, base, upper)
  {
    SkipPadded(x, base, k0, upper);
    assert digits + [] == digits;
    DigitCharValue(0, upper, base);
  }

  lemma TenPowers()
    ensures Pow(10, 19) == 10000000000000000000 && Pow(10, 20) == 100000000000000000000
  {
    assert Pow(10, 10) == 10000000000;
  }

  /** The leading digit of the lowest digits of x, and what it leaves. */
  lemma TopDigit(x: nat, b: nat, r: nat)
    requires b > 1 && r > 0
    ensures b * r > 0
    ensures Quot(Rem(x, b * r), r) == Rem(Quot(x, r), b) && Rem(Rem(x, b * r), r) == Rem(x, r)
  {
    hide Quot, Rem;
    MulAtLeast(b, r);
    var q, y := Quot(x, b * r), Rem(x, b * r);
    SmallQuotient(x, b * r);
    SmallQuotient(y, r);
    QuotientBelow(y, r, b);
    var d, z := Quot(y, r), Rem(y, r);
    Regroup(q, b, d, r, z);
    QuotUnique(x, r, q * b + d, z);
    QuotUnique(q * b + d, b, q, d);
  }

  lemma Regroup(q: nat, b: nat, d: nat, r: nat, z: nat)
    ensures q * b >= 0 && (q * b + d) * r + z == q * (b * r) + (d * r + z)
  {
    NonNegative(q, b);
    assert (q * b + d) * r == (q * b) * r + d * r;
    assert (q * b) * r == q * (b * r);
  }

  lemma DecimalDigitChar(d: nat)
    requires d < 10
    ensures DigitChar(d, false) == ('0' as int + d) as char
  {
  }

  lemma PowerDown(k: nat)
    requires k > 0
    ensures Quot(Pow(10, k - 1), 10) == if k == 1 then 0 else Pow(10, k - 2)
  {
    if k > 1 {
      ModUnique(Pow(10, k - 1), 10, Pow(10, k - 2), 0);
    }
  }

  /** Decimal digits, by division by falling powers of ten. */
  method DecimalDigits(buf: array<char>, num: nat) returns (i: nat)
    requires num < U64 && buf.Length == 32
    modifies buf
    ensures i <= 32 && buf[..i] == Numeral(num, 10, false)
  {
    hide Numeral, Padded, Pow, Quot, Rem, DigitChar, Collected;
    i := 0;
    var seen, x, r := false, num, 10000000000000000000;
    ghost var k: nat := 20;
    TenPowers();
    SmallQuotient(num, Pow(10, 20));
    CollectNone(num, 10, 20, false);
    assert buf[..0] == "";
    while r != 0
      invariant k <= 20 && r == (if k == 0 then 0 else Pow(10, k - 1))
      invariant i <= 20 - k
      invariant x == Rem(num, Pow(10, k)) && Collected(buf[..i], seen, num, 10, k, 20, false)
      decreases k
    {
      TopDigit(num, 10, r);
      PowUnfold(10, k);
      SmallQuotient(Quot(num, r), 10);
      DecimalDigitChar(Quot(x, r));
      PowerDown(k);
      var c := ('0' as int + Quot(x, r)) as char;
      CollectDigit(buf[..i], seen, num, 10, k, 20, false, c);
      x := Rem(x, r);
      r := Quot(r, 10);
      k := k - 1;
      if !seen && c == '0' {
        continue;
      }
      seen := true;
      ghost var before := buf[..i];
      buf[i] := c;
      assert buf[..i + 1] == before + [c];
      i := i + 1;
    }
    AllCollected(buf[..i], seen, num, 10, 20, false);
    if !seen {
      SeenNone(buf[..i], num, 10, 0, 20, false);
      buf[i] := '0';
      i := i + 1;
      assert buf[..i] == "0";
    }
  }

  lemma PowUnfold(b: nat, k: nat)
    requires b > 0
    ensures k > 0 ==> Pow(b, k) == b * Pow(b, k - 1)
  {
  }

  lemma CollectNone(x: nat, base: nat, k0: nat, upper: bool)
    requires 2 <= base <= 16
    ensures Collected("", false, x, base, k0, k0, upper)
  {
  }

  lemma SeenNone(digits: string, x: nat, base: nat, k: nat, k0: nat, upper: bool)
    requires 2 <= base <= 16 && Collected(digits, false, x, base, k, k0, upper)
    ensures digits == ""
  {
  }

  lemma {:induction false} PowerOfTwo(hex: bool, j: nat)
    ensures if hex then Pow2(4 * j) == Pow(16, j) else Pow2(3 * j) == Pow(8, j)
    decreases j
  {
    if j > 0 {
      PowerOfTwo(hex, j - 1);
      if hex {
        assert Pow2(4 * j - 2) == 4 * Pow2(4 * j - 4);
      } else {
        assert Pow2(3 * j - 1) == 4 * Pow2(3 * j - 3);
      }
    }
  }

  lemma WordPowers()
    ensures Pow(16, 16) == U64 && Pow(8, 22) == 0x4_0000_0000_0000_0000
  {
    assert Pow(16, 8) == U32 && Pow(8, 11) == 0x2_0000_0000;
  }

  /** Hexadecimal or octal digits, by shifting and masking. */
  method PowerDigits(buf: array<char>, num: nat, hex: bool, upper: bool) returns (i: nat)
    requires num < U64 && buf.Length == 32
    modifies buf
    ensures i <= 32 && buf[..i] == Numeral(num, if hex then 16 else 8, upper)
  {
    hide Numeral, Padded, Pow, Pow2, Quot, Rem, DigitChar, Collected;
    i := 0;
    var seen := false;
    var shift, dec, mask := if hex then 60 else 63, if hex then 4 else 3, if hex then 15 else 7;
    ghost var base := mask + 1;
    ghost var k0: nat := if hex then 16 else 22;
    ghost var k: int := k0;
    WordPowers();
    CollectNone(num, base, k0, upper);
    assert buf[..0] == "";
    while shift >= 0
      invariant 0 <= k <= k0 && 0 <= i <= 32 && shift == (if hex then 4 * k else 3 * k) - dec && i <= k0 - k
      invariant Collected(buf[..i], seen, num, base, k, k0, upper)
      decreases k
    {
      PowerOfTwo(hex, k - 1);
      SmallQuotient(Quot(num, Pow2(shift)), base);
      var c := DigitChar(Rem(Quot(num, Pow2(shift)), mask + 1), upper);
      CollectDigit(buf[..i], seen, num, base, k, k0, upper, c);
      shift := shift - dec;
      k := k - 1;
      if !seen && c == '0' {
        continue;
      }
      seen := true;
      ghost var before := buf[..i];
      buf[i] := c;
      assert buf[..i + 1] == before + [c];
      i := i + 1;
    }
    AllCollected(buf[..i], seen, num, base, k0, upper);
    if !seen {
      SeenNone(buf[..i], num, base, 0, k0, upper);
      buf[i] := '0';
      i := i + 1;
      assert buf[..i] == "0";
    }
  }

  /** The sign or prefix, at most two characters. */
  method PutSign(str: array?<char>, size: nat, idx: nat, prefix0: char, prefix1: char, ghost text: string,
                 ghost was: string) returns (idx': nat)
    requires Written(str, size, text, was) && idx == |text|
    modifies str
    ensures Written(str, size, text + SignOf(prefix0, prefix1), was) && idx' == |text + SignOf(prefix0, prefix1)|
  {
    idx' := idx;
    assert text + "" == text;
    if prefix0 != '\0' {
      idx' := PutChar(str, size, idx', prefix0, text, was);
      if prefix1 != '\0' {
        assert text + [prefix0] + [prefix1] == text + [prefix0, prefix1];
        idx' := PutChar(str, size, idx', prefix1, text + [prefix0], was);
      }
    }
  }

  function SignOf(prefix0: char, prefix1: char): string
  {
    if prefix0 == '\0' then "" else if prefix1 == '\0' then [prefix0] else [prefix0, prefix1]
  }

  method PutNum(str: array?<char>, size: nat, idx: nat, flags: Flags, width: nat, precision: nat, x: nat,
                ghost text: string, ghost was: string)
    returns (idx': nat)
    requires Written(str, size, text, was) && idx == |text| && x < U64
    modifies str
    ensures Written(str, size, text + NumberText(flags, width, precision, x), was) &&
            idx' == |text + NumberText(flags, width, precision, x)|
  {
    hide Numeral, Written, NumberText, Core, Padding, Repeated;
    var buf := new char[32];
    var len0;
    var prefix0, prefix1 := '\0', '\0';
    if flags.hex || flags.octal {
      if flags.hash {
        prefix0 := '0';
        if flags.hex {
          prefix1 := if flags.upper then 'X' else 'x';
        }
      }
      len0 := PowerDigits(buf, x, flags.hex, flags.upper);
    } else {
      prefix0 := if flags.neg then '-' else if flags.plus then '+' else if flags.space then ' ' else '\0';
      len0 := DecimalDigits(buf, x);
    }
    var digits := buf[..len0];
    var w: int, p: int := width, precision;
    if flags.zero && !flags.precision {
      w, p := 0, width;
    }
    var len1 := if len0 < p then p else len0;
    var len := len1 + (if prefix0 != '\0' then 1 + (if prefix1 != '\0' then 1 else 0) else 0);
    assert SignOf(prefix0, prefix1) == Sign(flags);
    NumberParts(flags, width, precision, x, prefix0, prefix1, digits, p - len0, w - len);
    hide SignOf, Sign;
    idx' := PutParts(str, size, idx, prefix0, prefix1, p - len0, digits, w - len, flags.right, text, was);
  }

  lemma NumberParts(flags: Flags, width: nat, precision: nat, x: nat, prefix0: char, prefix1: char, digits: string,
                    zeros: int, spaces: int)
    requires SignOf(prefix0, prefix1) == Sign(flags) && digits == NumberOf(flags, x)
    requires zeros == (if flags.zero && !flags.precision then width else precision) - |digits|
    requires spaces == (if flags.zero && !flags.precision then 0 else width) - |Sign(flags)|
                       - (if zeros > 0 then zeros else 0) - |digits|
    ensures var core := SignOf(prefix0, prefix1) + Repeated('0', zeros) + digits;
            NumberText(flags, width, precision, x) ==
              if flags.right then core + Repeated(' ', spaces) else Repeated(' ', spaces) + core
  {
    hide Sign, NumberOf;
  }

  method PutParts(str: array?<char>, size: nat, idx: nat, prefix0: char, prefix1: char, zeros: int, digits: string,
                  spaces: int, right: bool, ghost text: string, ghost was: string) returns (idx': nat)
    requires Written(str, size, text, was) && idx == |text|
    modifies str
    ensures var core := SignOf(prefix0, prefix1) + Repeated('0', zeros) + digits;
            var all := if right then core + Repeated(' ', spaces) else Repeated(' ', spaces) + core;
            Written(str, size, text + all, was) && idx' == |text + all|
  {
    hide Written, Repeated, SignOf;
    ghost var pad, sign, zs := Repeated(' ', spaces), SignOf(prefix0, prefix1), Repeated('0', zeros);
    ghost var t := text;
    idx' := idx;
    if !right {
      idx' := PutRepeated(str, size, idx', ' ', spaces, t, was);
      t := t + pad;
    }
    idx' := PutSign(str, size, idx', prefix0, prefix1, t, was);
    idx' := PutRepeated(str, size, idx', '0', zeros, t + sign, was);
    idx' := PutString(str, size, idx', digits, t + sign + zs, was);
    assert t + sign + zs + digits == t + (sign + zs + digits);
    t := t + (sign + zs + digits);
    if right {
      idx' := PutRepeated(str, size, idx', ' ', spaces, t, was);
      assert t + pad == text + (sign + zs + digits + pad);
    } else {
      assert t == text + (pad + (sign + zs + digits));
    }
  }
}
