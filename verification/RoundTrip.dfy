/** What is printed as a number is read back. */
module RoundTrip {
  import opened Arithmetic
  import opened Numerals
  import opened Strtol
  import opened StrtolTexts
  import opened Vsnprintf
  import opened Formats

  /** The zeros and digits of a printed number. */
  function Body(d: Spec, width: nat, precision: nat, x: int): string
  {
    Zeros(d, width, precision, x) + DigitsOf(d, x)
  }

  /** The bases in which a printed number is read: its own, and 0 when its beginning tells its own. */
  predicate Matches(d: Spec, width: nat, precision: nat, x: int, base: nat)
  {
    base == Radix(d.conv) ||
    (base == 0 && if Radix(d.conv) == 10 then x != 0 && Zeros(d, width, precision, x) == "" else Front(d, x) != "")
  }

  lemma BodyValue(d: Spec, width: nat, precision: nat, x: int)
    ensures var body := Body(d, width, precision, x);
            body != "" && AllDigits(body, Radix(d.conv)) && Value(body, Radix(d.conv)) == Absolute(x)
    ensures Zeros(d, width, precision, x) == "" && x != 0 ==> Body(d, width, precision, x)[0] != '0'
  {
    var b, zeros := Radix(d.conv), Zeros(d, width, precision, x);
    NumeralValue(Absolute(x), b, d.conv == 'X');
    NumeralBegins(Absolute(x), b, d.conv == 'X');
    AreZeros(d, width, precision, x);
    hide Zeros, AllDigits, Value, Numeral, Radix, Repeated;
    ZerosValue(|zeros|, DigitsOf(d, x), b);
  }

  lemma AreZeros(d: Spec, width: nat, precision: nat, x: int)
    ensures Zeros(d, width, precision, x) == Repeated('0', |Zeros(d, width, precision, x)|)
  {
  }

  // The parts of a printed number in the order in which they are read.

  function Lead(d: Spec, left: bool, width: nat, core: string): string
  {
    if left || (Has(d, '0') && d.precision.Absent?) then "" else Repeated(' ', width - |core|)
  }

  function Trail(d: Spec, left: bool, width: nat, core: string): string
  {
    if !left || (Has(d, '0') && d.precision.Absent?) then "" else Repeated(' ', width - |core|)
  }

  lemma TextSplit(d: Spec, left: bool, width: nat, precision: nat, x: int)
    ensures var core := Front(d, x) + Body(d, width, precision, x);
            IntegerText(d, left, width, precision, x) == Lead(d, left, width, core) + core + Trail(d, left, width, core)
  {
    hide Front, DigitsOf, Zeros, Has;
    assert Front(d, x) + Zeros(d, width, precision, x) + DigitsOf(d, x) ==
           Front(d, x) + (Zeros(d, width, precision, x) + DigitsOf(d, x));
  }

  /** The front as the reader sees it: a space, a sign and a prefix, of which two are empty. */
  lemma FrontSplit(d: Spec, x: int) returns (blank: string, sign: string, pf: string)
    requires IsInteger(d.conv) && (x < 0 ==> IsSigned(d.conv))
    ensures Front(d, x) == blank + sign + pf && blank in {"", " "} && sign in {"", "-", "+"}
    ensures sign == "-" <==> x < 0
    ensures Radix(d.conv) == 10 ==> pf == ""
    ensures Radix(d.conv) == 16 ==> pf in {"", "0x", "0X"} && blank == "" && sign == ""
    ensures Radix(d.conv) == 8 ==> pf in {"", "0"} && blank == "" && sign == ""
  {
    if Radix(d.conv) != 10 {
      blank, sign, pf := "", "", Front(d, x);
    } else if Front(d, x) == " " {
      blank, sign, pf := " ", "", "";
    } else {
      blank, sign, pf := "", Front(d, x), "";
    }
  }

  lemma Regroup(lead: string, blank: string, sign: string, pf: string, body: string, trail: string, rest: string)
    ensures lead + (blank + sign + pf + body) + trail + rest ==
            (lead + blank) + sign + (pf + body + (trail + rest))
  {
  }

  lemma PartsRead(d: Spec, left: bool, width: nat, core: string, blank: string, body: string, rest: string, b: nat)
    requires blank in {"", " "} && Ends(body, rest, b)
    ensures AllSpaces(Lead(d, left, width, core) + blank)
    ensures Ends(body, Trail(d, left, width, core) + rest, b)
  {
    var trail := Trail(d, left, width, core);
    if trail == "" {
      assert trail + rest == rest;
    } else {
      assert (trail + rest)[0] == ' ';
    }
  }

  /** Every integer printed with any flags, width and precision, and followed by anything that is not taken for
      one more digit, is read back unchanged, and reading stops at its last digit. */
  lemma PrintThenRead(d: Spec, left: bool, width: nat, precision: nat, x: int, rest: string, base: nat, min: int,
                      max: int, r: Conversion)
    requires IsInteger(d.conv) && (x < 0 ==> IsSigned(d.conv)) && min <= x <= max
    requires Matches(d, width, precision, x, base) && Ends(Body(d, width, precision, x), rest, Radix(d.conv))
    requires IsConversion(IntegerText(d, left, width, precision, x) + rest, base, min, max, r)
    ensures var core := Front(d, x) + Body(d, width, precision, x);
            r == Conversion(x, |Lead(d, left, width, core)| + |core|, NoError)
  {
    hide *;
    var body, b := Body(d, width, precision, x), Radix(d.conv);
    var core := Front(d, x) + body;
    var lead, trail := Lead(d, left, width, core), Trail(d, left, width, core);
    BodyValue(d, width, precision, x);
    TextSplit(d, left, width, precision, x);
    var blank, sign, pf := FrontSplit(d, x);
    BodyAnnounced(d, width, precision, x, base, pf, blank + sign);
    Regroup(lead, blank, sign, pf, body, trail, rest);
    PartsRead(d, left, width, core, blank, body, rest, b);
    var s := IntegerText(d, left, width, precision, x) + rest;
    ReadsDigits(s, lead + blank, sign, pf, body, trail + rest, b, base, min, max, r);
    ConvertsTo(r, |lead + blank| + |sign| + |pf|, sign, body, b, min, max, x);
  }

  lemma BodyAnnounced(d: Spec, width: nat, precision: nat, x: int, base: nat, pf: string, other: string)
    requires Matches(d, width, precision, x, base) && IsInteger(d.conv) && Front(d, x) == other + pf
    requires Radix(d.conv) == 10 ==> pf == ""
    requires Radix(d.conv) == 16 ==> pf in {"", "0x", "0X"} && other == ""
    requires Radix(d.conv) == 8 ==> pf in {"", "0"} && other == ""
    ensures Announces(base, Radix(d.conv), pf, Body(d, width, precision, x))
  {
    BodyValue(d, width, precision, x);
    hide Zeros, Body, Front, AllDigits;
  }

  lemma ConvertsTo(r: Conversion, head: nat, sign: string, digits: string, b: nat, min: int, max: int, x: int)
    requires b > 0 && AllDigits(digits, b) && Converts(r, head, sign, digits, b, min, max)
    requires Value(digits, b) == Absolute(x) && (sign == "-" <==> x < 0) && min <= x <= max
    ensures r == Conversion(x, head + |digits|, NoError)
  {
  }

  // ----- whole directives

  /** Every integer directive, of any flags, width, precision and length, and every argument: the value of its type
      is printed and read back, in the matching base and, where its beginning tells the base, in base 0. */
  lemma DirectiveReadBack(d: Spec, args: seq<Arg>, v: int, x: int, base: nat, min: int, max: int, r: Conversion)
    requires WellFormed(d) && IsInteger(d.conv) && StarsGiven(d, args, 0)
    requires Stars(d) < |args| && args[Stars(d)] == Int(v) && Passed(d.length, d.conv, v, x) && min <= x <= max
    requires Matches(d, Width(d, args, 0), Precision(d, args, 0), x, base)
    requires IsConversion(Formatted(Chars(d), 0, args, 0), base, min, max, r)
    ensures r.value == x && r.error == NoError
    ensures r.end == if ToLeft(d, args, 0) then |Front(d, x) + Body(d, Width(d, args, 0), Precision(d, args, 0), x)|
                     else |Formatted(Chars(d), 0, args, 0)|
  {
    hide *;
    var left, w, pr := ToLeft(d, args, 0), Width(d, args, 0), Precision(d, args, 0);
    AtWhole(Chars(d));
    IntegerDirective(Chars(d), 0, d, args, 0, v, x);
    NothingMore(Chars(d), args, Stars(d) + 1);
    PassedSigned(d, v, x);
    NoRest(Body(d, w, pr, x), Radix(d.conv));
    PrintThenRead(d, left, w, pr, x, "", base, min, max, r);
    TextSplit(d, left, w, pr, x);
    EndOfText(d, left, w, Front(d, x) + Body(d, w, pr, x));
  }

  lemma AtWhole(t: string)
    ensures At(t, 0, t)
  {
    assert t[0..|t|] == t;
  }

  lemma NothingMore(fmt: string, args: seq<Arg>, a: nat)
    ensures Formatted(fmt, |fmt|, args, a) == ""
  {
  }

  lemma PassedSigned(d: Spec, v: int, x: int)
    requires Passed(d.length, d.conv, v, x)
    ensures x < 0 ==> IsSigned(d.conv)
  {
  }

  lemma NoRest(body: string, b: nat)
    ensures Ends(body, "", b)
  {
  }

  lemma EndOfText(d: Spec, left: bool, width: nat, core: string)
    ensures left ==> Lead(d, left, width, core) == ""
    ensures !left ==> Trail(d, left, width, core) == ""
  {
  }

  /** Every signed 64-bit number through %ld and strtoll. */
  lemma LongReadBack(v: int, r: Conversion)
    requires -U64 / 2 <= v < U64 / 2
    requires IsConversion(Formatted("%ld", 0, [Int(v)], 0), 10, -U64 / 2, U64 / 2 - 1, r)
    ensures r == Conversion(v, |Formatted("%ld", 0, [Int(v)], 0)|, NoError)
  {
    hide *;
    var d := LongSpec(v);
    DirectiveReadBack(d, [Int(v)], v, v, 10, -U64 / 2, U64 / 2 - 1, r);
  }

  lemma LongSpec(v: int) returns (d: Spec)
    requires -U64 / 2 <= v < U64 / 2
    ensures Chars(d) == "%ld" && WellFormed(d) && IsInteger(d.conv) && StarsGiven(d, [Int(v)], 0) && Stars(d) == 0
    ensures Passed(d.length, d.conv, v, v) && !ToLeft(d, [Int(v)], 0)
    ensures forall w: nat, pr: nat :: Matches(d, w, pr, v, 10)
  {
    d := Spec("", Absent, Absent, L, 'd');
  }

  /** Every unsigned 64-bit number through %#lx and strtoull in base 0. */
  lemma HexReadBack(x: nat, r: Conversion)
    requires x < U64
    requires IsConversion(Formatted("%#lx", 0, [Int(x)], 0), 0, 0, U64 - 1, r)
    ensures r == Conversion(x, |Formatted("%#lx", 0, [Int(x)], 0)|, NoError)
  {
    hide *;
    var d := HexSpec(x);
    DirectiveReadBack(d, [Int(x)], x, x, 0, 0, U64 - 1, r);
  }

  lemma HexSpec(x: nat) returns (d: Spec)
    requires x < U64
    ensures Chars(d) == "%#lx" && WellFormed(d) && IsInteger(d.conv) && StarsGiven(d, [Int(x)], 0) && Stars(d) == 0
    ensures Passed(d.length, d.conv, x, x) && !ToLeft(d, [Int(x)], 0)
    ensures forall w: nat, pr: nat :: Matches(d, w, pr, x, 0)
  {
    d := Spec("#", Absent, Absent, L, 'x');
    assert d.flags[0] == '#';
    assert Front(d, x) == "0x";
  }
}
