/** What formats put, by their characters: literal text and directives of every kind. */
module Formats {
  import opened Arithmetic
  import opened Numerals
  import opened Printf
  import opened Vsnprintf

  /** A width or precision: none, digits, or * for an int argument. */
  datatype Size = Absent | Fixed(digits: string) | FromArg

  datatype Length = NoLength | HH | H | L | LL | Z | J | T

  datatype Spec = Spec(flags: string, width: Size, precision: Size, length: Length, conv: char)

  /** The characters that a directive may be made of; others would be read as another part of it. */
  predicate WellFormed(d: Spec)
  {
    && (forall i :: 0 <= i < |d.flags| ==> IsFlag(d.flags[i]))
    && (d.width.Fixed? ==> d.width.digits != "" && AllDigits(d.width.digits, 10) && d.width.digits[0] != '0')
    && (d.precision.Fixed? ==> AllDigits(d.precision.digits, 10))
    && PastSizes(d.conv) && d.conv !in {'h', 'l', 'z', 'j', 't'}
  }

  function WidthChars(s: Size): string
  {
    match s
    case Absent => ""
    case Fixed(digits) => digits
    case FromArg => "*"
  }

  function LengthChars(l: Length): string
  {
    match l
    case NoLength => ""
    case HH => "hh"
    case H => "h"
    case L => "l"
    case LL => "ll"
    case Z => "z"
    case J => "j"
    case T => "t"
  }

  function PrecisionChars(s: Size): string
  {
    if s.Absent? then "" else "." + WidthChars(s)
  }

  function Chars(d: Spec): string
  {
    "%" + d.flags + WidthChars(d.width) + PrecisionChars(d.precision) + LengthChars(d.length) + [d.conv]
  }

  predicate IsFlag(c: char)
  {
    c == ' ' || c == '+' || c == '-' || c == '#' || c == '0'
  }

  /** A character that no width begins with, nor goes on with. */
  predicate PastWidth(c: char)
  {
    c != '*' && DigitValue(c, 10) < 0
  }

  predicate PastSizes(c: char)
  {
    PastWidth(c) && c != '.' && !IsFlag(c)
  }

  predicate Has(d: Spec, flag: char)
  {
    flag in d.flags
  }

  /** From position p on the format goes on with these characters. */
  ghost predicate At(fmt: string, p: nat, chars: string)
  {
    p + |chars| <= |fmt| && fmt[p..p + |chars|] == chars
  }

  lemma AtEach(fmt: string, p: nat, chars: string)
    requires At(fmt, p, chars)
    ensures forall i :: 0 <= i < |chars| ==> CharAt(fmt, p + i) == chars[i]
  {
    forall i | 0 <= i < |chars| ensures CharAt(fmt, p + i) == chars[i] {
      assert fmt[p..p + |chars|][i] == fmt[p + i];
    }
  }

  lemma AtParts(fmt: string, p: nat, a: string, b: string)
    requires At(fmt, p, a + b)
    ensures At(fmt, p, a) && At(fmt, p + |a|, b)
  {
    var t := fmt[p..p + |a + b|];
    assert fmt[p..p + |a|] == t[..|a|];
    assert fmt[p + |a|..p + |a| + |b|] == t[|a|..];
  }

  // ----- the parts of a directive

  function FlagsOf(flags: string): Flags
  {
    NoFlags.(space := ' ' in flags, plus := '+' in flags, hash := '#' in flags, zero := '0' in flags,
             right := '-' in flags && '0' !in flags)
  }

  lemma OnlyFlags(d: Spec)
    ensures var f := FlagsOf(d.flags);
            && !f.precision && !f.is8 && !f.is16 && !f.is64 && !f.neg && !f.upper && !f.octal && !f.hex
            && (f.zero <==> Has(d, '0')) && (f.hash <==> Has(d, '#')) && (f.plus <==> Has(d, '+'))
            && (f.space <==> Has(d, ' '))
  {
  }

  lemma FlagAdded(fmt: string, p: nat, flags: string, c: char)
    requires CharAt(fmt, p) == c && p < |fmt| && IsFlag(c)
    ensures FlagsFrom(fmt, p, FlagsOf(flags)) == FlagsFrom(fmt, p + 1, FlagsOf(flags + [c]))
  {
    forall x ensures x in flags + [c] <==> x in flags || x == c {
    }
  }

  /** Every flag counts wherever it stands, except that 0 switches - off. */
  lemma {:induction false} FlagsRead(fmt: string, p: nat, flags: string, k: nat)
    requires At(fmt, p, flags) && k <= |flags|
    requires forall i :: 0 <= i < |flags| ==> IsFlag(flags[i])
    ensures p + |flags| <= |fmt|
    ensures FlagsFrom(fmt, p, NoFlags) == FlagsFrom(fmt, p + k, FlagsOf(flags[..k]))
    decreases k
  {
    if k == 0 {
      assert FlagsOf(flags[..0]) == NoFlags;
    } else {
      FlagsRead(fmt, p, flags, k - 1);
      AtEach(fmt, p, flags);
      hide FlagsFrom, FlagsOf;
      assert CharAt(fmt, p + (k - 1)) == flags[k - 1];
      assert flags[..k] == flags[..k - 1] + [flags[k - 1]];
      FlagAdded(fmt, p + (k - 1), flags[..k - 1], flags[k - 1]);
    }
  }

  lemma HeldSum(v: nat, d: nat)
    ensures Min(Min(v, INT32_MAX) * 10 + d, INT32_MAX) == Min(v * 10 + d, INT32_MAX)
  {
  }

  /** Digits are read as their number, held at the largest int. */
  lemma {:induction false} NumberRead(fmt: string, p: nat, digits: string, k: nat)
    requires At(fmt, p, digits) && AllDigits(digits, 10) && k <= |digits|
    ensures AllDigits(digits[..k], 10)
    ensures NumberFrom(fmt, p, 0) == NumberFrom(fmt, p + k, Min(Value(digits[..k], 10), INT32_MAX))
    decreases k
  {
    if k > 0 {
      NumberRead(fmt, p, digits, k - 1);
      AtEach(fmt, p, digits);
      var c := digits[k - 1];
      assert CharAt(fmt, p + (k - 1)) == c;
      assert digits[..k] == digits[..k - 1] + [c];
      AppendDigit(digits[..k - 1], c, 10);
      HeldSum(Value(digits[..k - 1], 10), DigitValue(c, 10));
    }
  }

  lemma WholeNumberRead(fmt: string, p: nat, digits: string)
    requires At(fmt, p, digits) && AllDigits(digits, 10) && DigitValue(CharAt(fmt, p + |digits|), 10) < 0
    ensures NumberFrom(fmt, p, 0) == (Min(Value(digits, 10), 2147483647), p + |digits|)
  {
    NumberRead(fmt, p, digits, |digits|);
    assert digits[..|digits|] == digits;
  }

  /** An int argument. */
  predicate IntGiven(args: seq<Arg>, a: nat)
  {
    a < |args| && args[a].Int? && -2147483648 <= args[a].value <= 2147483647
  }

  /** The arguments for the stars of a directive are there. */
  predicate StarsGiven(d: Spec, args: seq<Arg>, a: nat)
  {
    && (d.width.FromArg? ==> IntGiven(args, a))
    && (d.precision.FromArg? ==> IntGiven(args, if d.width.FromArg? then a + 1 else a))
  }

  function Stars(d: Spec): nat
  {
    (if d.width.FromArg? then 1 else 0) + (if d.precision.FromArg? then 1 else 0)
  }

  /** The width asked for; a negative argument asks for its absolute value, to the left. */
  function WidthArg(d: Spec, args: seq<Arg>, a: nat): (w: int)
    requires WellFormed(d) && StarsGiven(d, args, a)
    ensures !d.width.FromArg? ==> w >= 0
  {
    match d.width
    case Absent => 0
    case Fixed(digits) => Value(digits, 10)
    case FromArg => args[a].value
  }

  /** Widths are held at 32767. */
  function Width(d: Spec, args: seq<Arg>, a: nat): nat
    requires WellFormed(d) && StarsGiven(d, args, a)
  {
    var w := WidthArg(d, args, a);
    Min(if w < 0 then -w else w, 32767)
  }

  /** Whether the text goes to the left of its field. */
  predicate ToLeft(d: Spec, args: seq<Arg>, a: nat)
    requires WellFormed(d) && StarsGiven(d, args, a)
  {
    !Has(d, '0') && (Has(d, '-') || WidthArg(d, args, a) < 0)
  }

  /** Precisions are held at the largest int; a negative argument counts as 0. */
  function Precision(d: Spec, args: seq<Arg>, a: nat): nat
    requires WellFormed(d) && StarsGiven(d, args, a)
  {
    match d.precision
    case Absent => 0
    case Fixed(digits) => Min(Value(digits, 10), 2147483647)
    case FromArg => Max(args[if d.width.FromArg? then a + 1 else a].value, 0)
  }

  /** The lengths of 64-bit integers. */
  predicate Wide(length: Length)
  {
    length.L? || length.LL? || length.Z? || length.J? || length.T?
  }

  /** The flags of a directive once it is read. */
  function ReadFlags(d: Spec, args: seq<Arg>, a: nat): Flags
    requires WellFormed(d) && StarsGiven(d, args, a)
  {
    FlagsOf(d.flags).(right := ToLeft(d, args, a), precision := !d.precision.Absent?,
                      is8 := d.length.HH?, is16 := d.length.H?,
                      is64 := Wide(d.length))
  }

  lemma AsSignedInt(v: int)
    requires -2147483648 <= v <= 2147483647
    ensures AsSigned(v, 32) == v
  {
  }

  lemma WidthRead(fmt: string, p: nat, d: Spec, args: seq<Arg>, a: nat)
    requires WellFormed(d) && StarsGiven(d, args, a) && At(fmt, p, WidthChars(d.width))
    requires PastWidth(CharAt(fmt, p + |WidthChars(d.width)|))
    ensures WidthFrom(fmt, Directive(FlagsOf(d.flags), 0, 0, p, a), args) ==
            Directive(FlagsOf(d.flags).(right := ToLeft(d, args, a)), Width(d, args, a), 0,
                      p + |WidthChars(d.width)|, if d.width.FromArg? then a + 1 else a)
  {
    AtEach(fmt, p, WidthChars(d.width));
    match d.width
    case Absent =>
      assert NumberFrom(fmt, p, 0) == (0, p);
    case Fixed(digits) =>
      assert CharAt(fmt, p + 0) == digits[0];
      WholeNumberRead(fmt, p, digits);
    case FromArg =>
      AsSignedInt(args[a].value);
      assert CharAt(fmt, p + 0) == '*';
  }

  lemma PrecisionRead(fmt: string, p: nat, d: Spec, r: Directive, args: seq<Arg>, a: nat)
    requires WellFormed(d) && StarsGiven(d, args, a) && At(fmt, p, PrecisionChars(d.precision)) && p == r.next
    requires PastSizes(CharAt(fmt, p + |PrecisionChars(d.precision)|))
    requires r.arg == (if d.width.FromArg? then a + 1 else a) && r.precision == 0 && !r.flags.precision
    ensures PrecisionFrom(fmt, r, args) ==
            Directive(r.flags.(precision := !d.precision.Absent?), r.width, Precision(d, args, a),
                      p + |PrecisionChars(d.precision)|, a + Stars(d))
  {
    hide *;
    match d.precision
    case Absent => NoPrecisionRead(fmt, p, d, r, args, a);
    case Fixed(digits) => DigitsRead(fmt, p, d, r, args, a);
    case FromArg => StarRead(fmt, p, d, r, args, a);
  }

  lemma NoPrecisionRead(fmt: string, p: nat, d: Spec, r: Directive, args: seq<Arg>, a: nat)
    requires WellFormed(d) && StarsGiven(d, args, a) && d.precision.Absent? && p == r.next
    requires At(fmt, p, PrecisionChars(d.precision)) && PastSizes(CharAt(fmt, p + |PrecisionChars(d.precision)|))
    requires r.arg == (if d.width.FromArg? then a + 1 else a) && r.precision == 0 && !r.flags.precision
    ensures PrecisionFrom(fmt, r, args) ==
            Directive(r.flags.(precision := false), r.width, Precision(d, args, a),
                      p + |PrecisionChars(d.precision)|, a + Stars(d))
  {
  }

  lemma DigitsRead(fmt: string, p: nat, d: Spec, r: Directive, args: seq<Arg>, a: nat)
    requires WellFormed(d) && StarsGiven(d, args, a) && d.precision.Fixed? && p == r.next
    requires At(fmt, p, PrecisionChars(d.precision)) && PastSizes(CharAt(fmt, p + |PrecisionChars(d.precision)|))
    requires r.arg == if d.width.FromArg? then a + 1 else a
    ensures PrecisionFrom(fmt, r, args) ==
            Directive(r.flags.(precision := true), r.width, Precision(d, args, a),
                      p + |PrecisionChars(d.precision)|, a + Stars(d))
  {
    hide NumberFrom, WidthArg, AllDigits, Value, StarsGiven, At, PastSizes, CharAt, DigitValue;
    DotDigitsRead(fmt, p, d.precision.digits);
  }

  lemma DotDigitsRead(fmt: string, p: nat, digits: string)
    requires At(fmt, p, "." + digits) && AllDigits(digits, 10) && PastSizes(CharAt(fmt, p + 1 + |digits|))
    ensures CharAt(fmt, p) == '.' && CharAt(fmt, p + 1) != '*' && p + 1 <= |fmt|
    ensures NumberFrom(fmt, p + 1, 0) == (Min(Value(digits, 10), 2147483647), p + 1 + |digits|)
  {
    hide Value, NumberFrom;
    AtParts(fmt, p, ".", digits);
    AtEach(fmt, p, ".");
    assert CharAt(fmt, p + 0) == '.';
    WholeNumberRead(fmt, p + 1, digits);
    if digits != "" {
      AtEach(fmt, p + 1, digits);
      assert CharAt(fmt, p + 1 + 0) == digits[0];
    }
  }

  lemma StarRead(fmt: string, p: nat, d: Spec, r: Directive, args: seq<Arg>, a: nat)
    requires WellFormed(d) && StarsGiven(d, args, a) && d.precision.FromArg? && p == r.next
    requires At(fmt, p, PrecisionChars(d.precision))
    requires r.arg == if d.width.FromArg? then a + 1 else a
    ensures PrecisionFrom(fmt, r, args) ==
            Directive(r.flags.(precision := true), r.width, Precision(d, args, a),
                      p + |PrecisionChars(d.precision)|, a + Stars(d))
  {
    hide CharAt, At, AsSigned, IntAt, WidthArg, WellFormed;
    DotStar(fmt, p, PrecisionChars(d.precision));
    StarValue(args, r.arg);
  }

  lemma DotStar(fmt: string, p: nat, t: string)
    requires At(fmt, p, t) && t == ".*"
    ensures CharAt(fmt, p) == '.' && CharAt(fmt, p + 1) == '*' && p + 2 <= |fmt|
  {
    AtEach(fmt, p, t);
    assert CharAt(fmt, p + 0) == t[0];
    assert CharAt(fmt, p + 1) == t[1];
  }

  lemma StarValue(args: seq<Arg>, a: nat)
    requires IntGiven(args, a)
    ensures AsSigned(IntAt(args, a), 32) == args[a].value
  {
  }

  /** What the two characters after flags, width and precision mean. */
  lemma LengthMeaning(length: Length, conv: char, c: char, c': char)
    requires conv !in {'h', 'l', 'z', 'j', 't'}
    requires var t := LengthChars(length) + [conv]; c == t[0] && (!length.NoLength? ==> c' == t[1])
    ensures LengthSize(c, c') == |LengthChars(length)|
    ensures length.HH? <==> c == 'h' && c' == 'h'
    ensures length.H? <==> c == 'h' && c' != 'h'
    ensures Wide(length) <==> c in {'l', 'z', 'j', 't'}
  {
    var t := LengthChars(length) + [conv];
    match length
    case NoLength => assert t == [conv];
    case HH => assert t == ['h', 'h', conv];
    case H => assert t == ['h', conv];
    case L => assert t == ['l', conv];
    case LL => assert t == ['l', 'l', conv];
    case Z => assert t == ['z', conv];
    case J => assert t == ['j', conv];
    case T => assert t == ['t', conv];
  }

  lemma LengthRead(fmt: string, p: nat, d: Spec, r: Directive)
    requires WellFormed(d) && At(fmt, p, LengthChars(d.length) + [d.conv]) && p == r.next
    requires !r.flags.is8 && !r.flags.is16 && !r.flags.is64
    ensures LengthFrom(fmt, r) ==
            r.(next := p + |LengthChars(d.length)|,
               flags := r.flags.(is8 := d.length.HH?, is16 := d.length.H?,
                                 is64 := Wide(d.length)))
    ensures CharAt(fmt, p + |LengthChars(d.length)|) == d.conv
  {
    var t := LengthChars(d.length) + [d.conv];
    AtEach(fmt, p, t);
    assert CharAt(fmt, p + 0) == t[0];
    assert |t| > 1 ==> CharAt(fmt, p + 1) == t[1];
    assert CharAt(fmt, p + |LengthChars(d.length)|) == t[|LengthChars(d.length)|];
    LengthMeaning(d.length, d.conv, CharAt(fmt, p), CharAt(fmt, p + 1));
    hide CharAt, At, LengthSize;
  }

  lemma Joined(a: string, b: string, c: string, d: string, e: string, f: string)
    ensures a + b + c + d + e + f == a + (b + (c + (d + (e + f))))
  {
  }

  lemma CharsJoined(d: Spec)
    ensures Chars(d) ==
            "%" + (d.flags + (WidthChars(d.width) + (PrecisionChars(d.precision) + (LengthChars(d.length) + [d.conv]))))
  {
    hide WidthChars, PrecisionChars, LengthChars;
    Joined("%", d.flags, WidthChars(d.width), PrecisionChars(d.precision), LengthChars(d.length), [d.conv]);
  }

  lemma CharsParts(fmt: string, p: nat, d: Spec)
    requires At(fmt, p, Chars(d))
    ensures At(fmt, p, "%") && At(fmt, p + 1, d.flags)
    ensures var q := p + 1 + |d.flags|;
            && At(fmt, q, WidthChars(d.width)) && At(fmt, q + |WidthChars(d.width)|, PrecisionChars(d.precision))
            && At(fmt, q + |WidthChars(d.width)| + |PrecisionChars(d.precision)|, LengthChars(d.length) + [d.conv])
  {
    hide *;
    var w, pr, l := WidthChars(d.width), PrecisionChars(d.precision), LengthChars(d.length) + [d.conv];
    CharsJoined(d);
    AtParts(fmt, p, "%", d.flags + (w + (pr + l)));
    AtParts(fmt, p + 1, d.flags, w + (pr + l));
    AtParts(fmt, p + 1 + |d.flags|, w, pr + l);
    AtParts(fmt, p + 1 + |d.flags| + |w|, pr, l);
  }

  /** The first character of what follows in a directive; none is taken for a part it does not belong to. */
  lemma PartBegins(fmt: string, p: nat, d: Spec)
    requires WellFormed(d) && At(fmt, p, LengthChars(d.length) + [d.conv])
    ensures PastSizes(CharAt(fmt, p))
  {
    var t := LengthChars(d.length) + [d.conv];
    AtEach(fmt, p, t);
    assert CharAt(fmt, p + 0) == t[0];
    if !d.length.NoLength? {
      assert t[0] == LengthChars(d.length)[0];
    }
  }

  lemma PrecisionBegins(fmt: string, p: nat, d: Spec)
    requires WellFormed(d) && At(fmt, p, PrecisionChars(d.precision))
    requires At(fmt, p + |PrecisionChars(d.precision)|, LengthChars(d.length) + [d.conv])
    ensures PastWidth(CharAt(fmt, p)) && !IsFlag(CharAt(fmt, p))
  {
    if d.precision.Absent? {
      PartBegins(fmt, p, d);
    } else {
      AtEach(fmt, p, PrecisionChars(d.precision));
      assert CharAt(fmt, p + 0) == '.';
    }
  }

  lemma WidthBegins(fmt: string, p: nat, d: Spec)
    requires WellFormed(d) && At(fmt, p, WidthChars(d.width))
    requires var q := p + |WidthChars(d.width)|;
             && At(fmt, q, PrecisionChars(d.precision))
             && At(fmt, q + |PrecisionChars(d.precision)|, LengthChars(d.length) + [d.conv])
    ensures !IsFlag(CharAt(fmt, p))
  {
    match d.width
    case Absent => PrecisionBegins(fmt, p, d);
    case Fixed(digits) =>
      AtEach(fmt, p, digits);
      assert CharAt(fmt, p + 0) == digits[0];
    case FromArg =>
      AtEach(fmt, p, "*");
      assert CharAt(fmt, p + 0) == '*';
  }

  /** A directive is read as the parts it is made of. */
  lemma DirectiveRead(fmt: string, p: nat, d: Spec, args: seq<Arg>, a: nat)
    requires WellFormed(d) && StarsGiven(d, args, a) && At(fmt, p, Chars(d))
    ensures CharAt(fmt, p) == '%' && p < p + |Chars(d)| <= |fmt|
    ensures DirectiveFrom(fmt, p + 1, args, a) ==
            Directive(ReadFlags(d, args, a), Width(d, args, a), Precision(d, args, a), p + |Chars(d)| - 1, a + Stars(d))
    ensures CharAt(fmt, p + |Chars(d)| - 1) == d.conv
  {
    hide *;
    CharsParts(fmt, p, d);
    CharsLength(fmt, p, d);
    PartsRead(fmt, p + 1, d, args, a);
  }

  lemma CharsLength(fmt: string, p: nat, d: Spec)
    requires At(fmt, p, Chars(d)) && WellFormed(d)
    ensures CharAt(fmt, p) == '%' && p < p + |Chars(d)| <= |fmt|
    ensures |Chars(d)| ==
            2 + |d.flags| + |WidthChars(d.width)| + |PrecisionChars(d.precision)| + |LengthChars(d.length)|
  {
    AtEach(fmt, p, Chars(d));
    assert CharAt(fmt, p + 0) == Chars(d)[0];
  }

  lemma PartsRead(fmt: string, p: nat, d: Spec, args: seq<Arg>, a: nat)
    requires WellFormed(d) && StarsGiven(d, args, a) && At(fmt, p, d.flags)
    requires var q := p + |d.flags|;
             && At(fmt, q, WidthChars(d.width)) && At(fmt, q + |WidthChars(d.width)|, PrecisionChars(d.precision))
             && At(fmt, q + |WidthChars(d.width)| + |PrecisionChars(d.precision)|, LengthChars(d.length) + [d.conv])
    ensures var end := p + |d.flags| + |WidthChars(d.width)| + |PrecisionChars(d.precision)| + |LengthChars(d.length)|;
            && CharAt(fmt, end) == d.conv
            && p <= |fmt| && DirectiveFrom(fmt, p, args, a) ==
               Directive(ReadFlags(d, args, a), Width(d, args, a), Precision(d, args, a), end, a + Stars(d))
  {
    var q := p + |d.flags|;
    var q2 := q + |WidthChars(d.width)|;
    hide *;
    AllFlagsRead(fmt, p, d);
    PrecisionBegins(fmt, q2, d);
    OnlyFlags(d);
    var f := FlagsOf(d.flags);
    WidthRead(fmt, q, d, args, a);
    TailRead(fmt, q2, d, WidthFrom(fmt, Directive(f, 0, 0, q, a), args), args, a);
    SameDirective(fmt, p, f, q, d, args, a);
  }

  lemma TailRead(fmt: string, p: nat, d: Spec, r: Directive, args: seq<Arg>, a: nat)
    requires WellFormed(d) && StarsGiven(d, args, a) && At(fmt, p, PrecisionChars(d.precision)) && p == r.next
    requires At(fmt, p + |PrecisionChars(d.precision)|, LengthChars(d.length) + [d.conv])
    requires r.arg == (if d.width.FromArg? then a + 1 else a) && r.precision == 0 && !r.flags.precision
    requires !r.flags.is8 && !r.flags.is16 && !r.flags.is64
    ensures var end := p + |PrecisionChars(d.precision)| + |LengthChars(d.length)|;
            && CharAt(fmt, end) == d.conv
            && p <= |fmt| && LengthFrom(fmt, PrecisionFrom(fmt, r, args)) ==
               Directive(r.flags.(precision := !d.precision.Absent?).
                         (is8 := d.length.HH?, is16 := d.length.H?, is64 := Wide(d.length)),
                         r.width, Precision(d, args, a), end, a + Stars(d))
  {
    var q := p + |PrecisionChars(d.precision)|;
    PartBegins(fmt, q, d);
    PrecisionRead(fmt, p, d, r, args, a);
    hide *;
    LengthRead(fmt, q, d, PrecisionFrom(fmt, r, args));
  }

  /** The parts put together. */
  lemma SameDirective(fmt: string, p: nat, f: Flags, q: nat, d: Spec, args: seq<Arg>, a: nat)
    requires WellFormed(d) && StarsGiven(d, args, a) && p <= q <= |fmt| && f == FlagsOf(d.flags)
    requires FlagsFrom(fmt, p, NoFlags) == (f, q)
    ensures p <= |fmt| && DirectiveFrom(fmt, p, args, a) ==
            LengthFrom(fmt, PrecisionFrom(fmt, WidthFrom(fmt, Directive(f, 0, 0, q, a), args), args))
    ensures ReadFlags(d, args, a) ==
            f.(right := ToLeft(d, args, a)).(precision := !d.precision.Absent?).
            (is8 := d.length.HH?, is16 := d.length.H?, is64 := Wide(d.length))
  {
    hide FlagsFrom, LengthFrom, PrecisionFrom, WidthFrom, ToLeft, Wide;
  }

  lemma AllFlagsRead(fmt: string, p: nat, d: Spec)
    requires WellFormed(d) && At(fmt, p, d.flags)
    requires var q := p + |d.flags|;
             && At(fmt, q, WidthChars(d.width)) && At(fmt, q + |WidthChars(d.width)|, PrecisionChars(d.precision))
             && At(fmt, q + |WidthChars(d.width)| + |PrecisionChars(d.precision)|, LengthChars(d.length) + [d.conv])
    ensures FlagsFrom(fmt, p, NoFlags) == (FlagsOf(d.flags), p + |d.flags|)
  {
    hide *;
    WidthBegins(fmt, p + |d.flags|, d);
    OnlyFlagChars(d);
    FlagsRead(fmt, p, d.flags, |d.flags|);
    assert d.flags[..|d.flags|] == d.flags;
    FlagsStop(fmt, p + |d.flags|, FlagsOf(d.flags));
  }

  lemma OnlyFlagChars(d: Spec)
    requires WellFormed(d)
    ensures forall i :: 0 <= i < |d.flags| ==> IsFlag(d.flags[i])
  {
  }

  lemma FlagsStop(fmt: string, p: nat, f: Flags)
    requires p <= |fmt| && !IsFlag(CharAt(fmt, p))
    ensures FlagsFrom(fmt, p, f) == (f, p)
  {
  }

  // ----- integers

  /** The values of the integer type that the length and the conversion name. */
  predicate OfType(length: Length, conv: char, x: int)
  {
    if conv == 'p' then 0 <= x <= 18446744073709551615
    else if IsSigned(conv) then
      if length.HH? then -128 <= x <= 127
      else if length.H? then -32768 <= x <= 32767
      else if length.NoLength? then -2147483648 <= x <= 2147483647
      else -9223372036854775808 <= x <= 9223372036854775807
    else
      if length.HH? then 0 <= x <= 255
      else if length.H? then 0 <= x <= 65535
      else if length.NoLength? then 0 <= x <= 4294967295
      else 0 <= x <= 18446744073709551615
  }

  /** v passed for a value of that type is x in it. */
  predicate Passed(length: Length, conv: char, v: int, x: int)
  {
    OfType(length, conv, x) &&
    (v - x) % (if conv == 'p' then 18446744073709551616 else if length.HH? then 256
               else if length.H? then 65536 else if length.NoLength? then 4294967296
               else 18446744073709551616) == 0
  }

  predicate IsSigned(conv: char)
  {
    conv == 'd' || conv == 'i'
  }

  predicate IsInteger(conv: char)
  {
    IsSigned(conv) || conv == 'u' || conv == 'o' || conv == 'x' || conv == 'X' || conv == 'p'
  }

  function Radix(conv: char): (b: nat)
    ensures 2 <= b <= 16
  {
    if conv == 'o' then 8 else if conv == 'x' || conv == 'X' || conv == 'p' then 16 else 10
  }

  /** The sign or the prefix of a number. */
  function Front(d: Spec, x: int): string
  {
    match d.conv
    case 'p' => "0x"
    case 'x' => if Has(d, '#') then "0x" else ""
    case 'X' => if Has(d, '#') then "0X" else ""
    case 'o' => if Has(d, '#') then "0" else ""
    case _ => if x < 0 then "-" else if Has(d, '+') then "+" else if Has(d, ' ') then " " else ""
  }

  function Absolute(x: int): nat
  {
    if x < 0 then -x else x
  }

  function DigitsOf(d: Spec, x: int): (s: string)
    ensures |s| > 0
  {
    Numeral(Absolute(x), Radix(d.conv), d.conv == 'X')
  }

  /** The zeros in front of the digits: up to the precision, or without one up to the width for the flag 0. */
  function Zeros(d: Spec, width: nat, precision: nat, x: int): string
  {
    if !d.precision.Absent? then Repeated('0', precision - |DigitsOf(d, x)|)
    else if Has(d, '0') then Repeated('0', width - |DigitsOf(d, x)|)
    else ""
  }

  /** Sign or prefix, zeros and digits in a field of spaces; with the flag 0 and no precision there are none. */
  function IntegerText(d: Spec, left: bool, width: nat, precision: nat, x: int): string
  {
    var core := Front(d, x) + Zeros(d, width, precision, x) + DigitsOf(d, x);
    if Has(d, '0') && d.precision.Absent? then core
    else if left then core + Repeated(' ', width - |core|)
    else Repeated(' ', width - |core|) + core
  }

  lemma Residue(v: int, x: int, m: nat, low: int)
    requires m > 0 && (v - x) % m == 0 && low <= x < low + m
    ensures (v - low) % m + low == x
  {
    var q := (v - x) / m;
    assert v - low == q * m + (x - low);
    ModUnique(v - low, m, q, x - low);
  }

  /** An argument as the directive takes it. */
  function Cut(f: Flags, conv: char, v: int): int
  {
    var bits := if conv == 'p' then 64 else Bits(f);
    if IsSigned(conv) then AsSigned(v, bits) else AsUnsigned(v, bits)
  }

  lemma ArgumentValue(d: Spec, args: seq<Arg>, a: nat, v: int, x: int)
    requires WellFormed(d) && StarsGiven(d, args, a) && IsInteger(d.conv) && Passed(d.length, d.conv, v, x)
    ensures x == Cut(ReadFlags(d, args, a), d.conv, v)
  {
    hide ToLeft, FlagsOf, StarsGiven, WellFormed;
    var m, low := (if d.conv == 'p' then U64 else if d.length.HH? then 256
                   else if d.length.H? then U16 else if d.length.NoLength? then U32
                   else U64), if IsSigned(d.conv) then 1 else 0;
    Residue(v, x, m, if low == 1 then -(m / 2) else 0);
  }

  /** The flags under which a number is put. */
  function NumberFlags(f: Flags, conv: char, x: int): Flags
  {
    UnsignedFlags(f, conv).(neg := f.neg || (IsSigned(conv) && x < 0))
  }

  /** The fields of the flags of a directive. */
  ghost predicate FlagsAre(f: Flags, d: Spec, left: bool)
  {
    && (f.space <==> Has(d, ' ')) && (f.plus <==> Has(d, '+')) && (f.hash <==> Has(d, '#'))
    && (f.zero <==> Has(d, '0')) && (f.right <==> left) && (f.precision <==> !d.precision.Absent?)
    && !f.neg && !f.upper && !f.octal && !f.hex
  }

  lemma ReadFlagsAre(d: Spec, args: seq<Arg>, a: nat)
    requires WellFormed(d) && StarsGiven(d, args, a)
    ensures FlagsAre(ReadFlags(d, args, a), d, ToLeft(d, args, a))
  {
    OnlyFlags(d);
    hide FlagsOf, ToLeft, StarsGiven, WellFormed, Wide;
  }

  lemma NumberFlagsAre(f: Flags, conv: char, x: int)
    requires IsInteger(conv) && !f.neg && !f.upper && !f.octal && !f.hex
    ensures var g := NumberFlags(f, conv, x);
            && (g.hex <==> Radix(conv) == 16) && (g.octal <==> Radix(conv) == 8) && (g.upper <==> conv == 'X')
            && (g.neg <==> IsSigned(conv) && x < 0) && (g.hash <==> f.hash || conv == 'p')
            && (g.space <==> f.space) && (g.plus <==> f.plus) && (g.zero <==> f.zero) && (g.right <==> f.right)
            && (g.precision <==> f.precision)
  {
  }

  lemma FlagsMeaning(f: Flags, d: Spec, left: bool, x: int)
    requires FlagsAre(f, d, left) && IsInteger(d.conv) && (x < 0 ==> IsSigned(d.conv))
    ensures var g := NumberFlags(f, d.conv, x);
            && Base(g) == Radix(d.conv) && Sign(g) == Front(d, x) && (g.right <==> left)
            && (g.zero <==> Has(d, '0')) && (g.precision <==> !d.precision.Absent?)
            && NumberOf(g, Absolute(x)) == DigitsOf(d, x)
  {
    NumberFlagsAre(f, d.conv, x);
    hide NumberFlags, Numeral;
  }

  lemma NumberIsText(d: Spec, args: seq<Arg>, a: nat, x: int)
    requires WellFormed(d) && StarsGiven(d, args, a) && IsInteger(d.conv) && (x < 0 ==> IsSigned(d.conv))
    ensures NumberText(NumberFlags(ReadFlags(d, args, a), d.conv, x), Width(d, args, a), Precision(d, args, a),
                       Absolute(x)) ==
            IntegerText(d, ToLeft(d, args, a), Width(d, args, a), Precision(d, args, a), x)
  {
    hide *;
    var g, w, pr := NumberFlags(ReadFlags(d, args, a), d.conv, x), Width(d, args, a), Precision(d, args, a);
    ReadFlagsAre(d, args, a);
    FlagsMeaning(ReadFlags(d, args, a), d, ToLeft(d, args, a), x);
    NoPrecision(d, args, a);
    SameZeros(d, w, pr, x);
    TextOfParts(g, w, pr, Absolute(x));
    IntegerTextParts(d, ToLeft(d, args, a), w, pr, x);
  }

  lemma NoPrecision(d: Spec, args: seq<Arg>, a: nat)
    requires WellFormed(d) && StarsGiven(d, args, a)
    ensures d.precision.Absent? ==> Precision(d, args, a) == 0
  {
  }

  lemma IntegerTextParts(d: Spec, left: bool, w: nat, pr: nat, x: int)
    ensures var core := Front(d, x) + Zeros(d, w, pr, x) + DigitsOf(d, x);
            IntegerText(d, left, w, pr, x) ==
            if Has(d, '0') && d.precision.Absent? then core
            else if left then core + Repeated(' ', w - |core|)
            else Repeated(' ', w - |core|) + core
  {
    hide Front, Zeros, DigitsOf, Repeated;
  }

  lemma TextOfParts(g: Flags, w: nat, pr: nat, n: nat)
    ensures var zeros := Repeated('0', (if g.zero && !g.precision then w else pr) - |NumberOf(g, n)|);
            var core := Sign(g) + zeros + NumberOf(g, n);
            NumberText(g, w, pr, n) ==
            if g.zero && !g.precision then core
            else if g.right then core + Repeated(' ', w - |core|)
            else Repeated(' ', w - |core|) + core
  {
    hide Sign, NumberOf, Repeated;
    SameText(Core(g, w, pr, n));
  }

  lemma SameZeros(d: Spec, w: nat, pr: nat, x: int)
    requires d.precision.Absent? ==> pr == 0
    ensures Zeros(d, w, pr, x) ==
            Repeated('0', (if Has(d, '0') && d.precision.Absent? then w else pr) - |DigitsOf(d, x)|)
  {
  }

  lemma SameText(core: string)
    ensures Repeated(' ', 0 - |core|) + core == core && core + Repeated(' ', 0 - |core|) == core
  {
  }

  /** Every integer directive puts the text of the one value of its type that the argument stands for. */
  lemma IntegerDirective(fmt: string, p: nat, d: Spec, args: seq<Arg>, a: nat, v: int, x: int)
    requires WellFormed(d) && IsInteger(d.conv) && At(fmt, p, Chars(d)) && StarsGiven(d, args, a)
    requires a + Stars(d) < |args| && args[a + Stars(d)] == Int(v) && Passed(d.length, d.conv, v, x)
    ensures p + |Chars(d)| <= |fmt|
    ensures Formatted(fmt, p, args, a) ==
            IntegerText(d, ToLeft(d, args, a), Width(d, args, a), Precision(d, args, a), x) +
            Formatted(fmt, p + |Chars(d)|, args, a + Stars(d) + 1)
  {
    hide *;
    IntFound(d, args, a + Stars(d), v, x);
    DirectiveRead(fmt, p, d, args, a);
    ArgumentValue(d, args, a, v, x);
    NumberIsText(d, args, a, x);
    ConvertedInteger(DirectiveFrom(fmt, p + 1, args, a), d.conv, args, x);
    FormattedStep(fmt, p, args, a);
  }

  lemma IntFound(d: Spec, args: seq<Arg>, a: nat, v: int, x: int)
    requires a < |args| && args[a] == Int(v) && Passed(d.length, d.conv, v, x) && IsInteger(d.conv)
    ensures IntAt(args, a) == v && (x < 0 ==> IsSigned(d.conv)) && d.conv != '\0'
  {
  }

  lemma ConvertedInteger(r: Directive, conv: char, args: seq<Arg>, x: int)
    requires IsInteger(conv) && x == Cut(r.flags, conv, IntAt(args, r.arg))
    ensures Converted(r, conv, args) ==
            (NumberText(NumberFlags(r.flags, conv, x), r.width, r.precision, Absolute(x)), r.arg + 1)
  {
    hide NumberText, Bits, AsSigned, AsUnsigned;
  }

  /** One directive that is complete, and the rest. */
  lemma FormattedStep(fmt: string, p: nat, args: seq<Arg>, a: nat)
    requires p < |fmt| && CharAt(fmt, p) == '%'
    ensures var d := DirectiveFrom(fmt, p + 1, args, a);
            var c := CharAt(fmt, d.next);
            c != '\0' ==>
            Formatted(fmt, p, args, a) ==
            Converted(d, c, args).0 + Formatted(fmt, d.next + 1, args, Converted(d, c, args).1)
  {
    hide DirectiveFrom, Converted;
  }

  /** A field is as wide as asked, or as its text when that is longer; but the flag 0 makes the digits alone fill
      the width, and a sign or prefix comes on top. */
  lemma FieldWidth(d: Spec, left: bool, width: nat, precision: nat, x: int)
    ensures var core := Front(d, x) + Zeros(d, width, precision, x) + DigitsOf(d, x);
            |IntegerText(d, left, width, precision, x)| ==
            if Has(d, '0') && d.precision.Absent? then |Front(d, x)| + Max(width, |DigitsOf(d, x)|)
            else Max(width, |core|)
    ensures d.precision.Absent? ==>
              (|IntegerText(d, left, width, precision, x)| > Max(width, |Front(d, x)| + |DigitsOf(d, x)|) <==>
               Has(d, '0') && |DigitsOf(d, x)| < width && Front(d, x) != "")
  {
    hide Front, DigitsOf, Has;
  }

  // ----- strings, characters and the rest

  /** The characters up to the terminator are t; a null pointer counts as a text of its own. */
  predicate Shows(arg: Arg, t: string)
  {
    match arg
    case Text(chars) =>
      && t <= chars && (forall i :: 0 <= i < |t| ==> t[i] != '\0') && (|t| < |chars| ==> chars[|t|] == '\0')
    case Null => t == "(null)"
    case Int(_) => false
  }

  /** A string cut to the precision, in a field of spaces. */
  function StringField(d: Spec, left: bool, width: nat, precision: nat, t: string): string
  {
    var shown := if !d.precision.Absent? && precision < |t| then t[..precision] else t;
    if left then shown + Repeated(' ', width - |shown|) else Repeated(' ', width - |shown|) + shown
  }

  lemma StringShown(d: Spec, r: Vsnprintf.Directive, args: seq<Arg>, left: bool, t: string)
    requires r.arg < |args| && Shows(args[r.arg], t) && (r.flags.precision <==> !d.precision.Absent?)
    requires r.flags.right <==> left
    ensures StringText(r, Shown(r, args)) == StringField(d, left, r.width, r.precision, t)
  {
    ShownIs(r, args, t);
    hide Shows, Shown;
    assert t[..|t|] == t;
  }

  lemma ShownIs(r: Vsnprintf.Directive, args: seq<Arg>, t: string)
    requires r.arg < |args| && Shows(args[r.arg], t)
    ensures Shown(r, args) == if r.flags.precision && r.precision < |t| then t[..r.precision] else t
  {
    if args[r.arg].Text? {
      var chars := args[r.arg].chars;
      assert t + chars[|t|..] == chars;
      CStringIs(t, chars[|t|..]);
    }
  }

  lemma StringDirective(fmt: string, p: nat, d: Spec, args: seq<Arg>, a: nat, t: string)
    requires WellFormed(d) && d.conv == 's' && At(fmt, p, Chars(d)) && StarsGiven(d, args, a)
    requires a + Stars(d) < |args| && Shows(args[a + Stars(d)], t)
    ensures p + |Chars(d)| <= |fmt|
    ensures Formatted(fmt, p, args, a) ==
            StringField(d, ToLeft(d, args, a), Width(d, args, a), Precision(d, args, a), t) +
            Formatted(fmt, p + |Chars(d)|, args, a + Stars(d) + 1)
  {
    hide *;
    DirectiveRead(fmt, p, d, args, a);
    var r := DirectiveFrom(fmt, p + 1, args, a);
    RightAndPrecise(d, args, a);
    StringShown(d, r, args, ToLeft(d, args, a), t);
    ConvertedOther(r, d.conv, args);
    FormattedStep(fmt, p, args, a);
  }

  lemma RightAndPrecise(d: Spec, args: seq<Arg>, a: nat)
    requires WellFormed(d) && StarsGiven(d, args, a)
    ensures var f := ReadFlags(d, args, a);
            (f.right <==> ToLeft(d, args, a)) && (f.precision <==> !d.precision.Absent?)
  {
    hide FlagsOf, ToLeft;
  }

  lemma ConvertedOther(r: Vsnprintf.Directive, conv: char, args: seq<Arg>)
    ensures conv == 's' ==> Converted(r, conv, args) == (StringText(r, Shown(r, args)), r.arg + 1)
    ensures conv == 'c' ==> Converted(r, conv, args) == ([(IntAt(args, r.arg) % 256) as char], r.arg + 1)
    ensures !IsInteger(conv) && conv != 's' && conv != 'c' ==> Converted(r, conv, args) == ([conv], r.arg)
  {
    hide StringText, Shown, IntAt;
  }

  /** One character, the argument as an unsigned char, whatever the flags, width and precision. */
  lemma CharDirective(fmt: string, p: nat, d: Spec, args: seq<Arg>, a: nat, v: int)
    requires WellFormed(d) && d.conv == 'c' && At(fmt, p, Chars(d)) && StarsGiven(d, args, a)
    requires a + Stars(d) < |args| && args[a + Stars(d)] == Int(v)
    ensures p + |Chars(d)| <= |fmt|
    ensures Formatted(fmt, p, args, a) ==
            [(v % 256) as char] + Formatted(fmt, p + |Chars(d)|, args, a + Stars(d) + 1)
  {
    hide *;
    DirectiveRead(fmt, p, d, args, a);
    IntThere(args, a + Stars(d), v);
    ConvertedOther(DirectiveFrom(fmt, p + 1, args, a), d.conv, args);
    FormattedStep(fmt, p, args, a);
  }

  lemma IntThere(args: seq<Arg>, a: nat, v: int)
    requires a < |args| && args[a] == Int(v)
    ensures IntAt(args, a) == v
  {
  }

  /** Any other conversion character puts itself, as %% does. */
  lemma OtherDirective(fmt: string, p: nat, d: Spec, args: seq<Arg>, a: nat)
    requires WellFormed(d) && !IsInteger(d.conv) && d.conv != 's' && d.conv != 'c' && d.conv != '\0'
    requires At(fmt, p, Chars(d)) && StarsGiven(d, args, a)
    ensures p + |Chars(d)| <= |fmt|
    ensures Formatted(fmt, p, args, a) == [d.conv] + Formatted(fmt, p + |Chars(d)|, args, a + Stars(d))
  {
    hide *;
    DirectiveRead(fmt, p, d, args, a);
    ConvertedOther(DirectiveFrom(fmt, p + 1, args, a), d.conv, args);
    FormattedStep(fmt, p, args, a);
  }

  /** A directive that the end of the format cuts off before its conversion puts nothing. */
  lemma Unfinished(fmt: string, p: nat, d: Spec, args: seq<Arg>, a: nat)
    requires WellFormed(d) && d.conv == '\0' && At(fmt, p, Chars(d)) && StarsGiven(d, args, a)
    ensures p <= |fmt| && Formatted(fmt, p, args, a) == ""
  {
    hide *;
    DirectiveRead(fmt, p, d, args, a);
    NoConversion(fmt, p, args, a);
  }

  lemma NoConversion(fmt: string, p: nat, args: seq<Arg>, a: nat)
    requires p < |fmt| && CharAt(fmt, p) == '%' && CharAt(fmt, DirectiveFrom(fmt, p + 1, args, a).next) == '\0'
    ensures Formatted(fmt, p, args, a) == ""
  {
    hide DirectiveFrom, Converted;
  }

  /** Text without a percent sign is put as it is. */
  lemma {:induction false} LiteralText(fmt: string, p: nat, t: string, args: seq<Arg>, a: nat)
    requires At(fmt, p, t) && forall i :: 0 <= i < |t| ==> t[i] != '%' && t[i] != '\0'
    ensures p + |t| <= |fmt| && Formatted(fmt, p, args, a) == t + Formatted(fmt, p + |t|, args, a)
    decreases |t|
  {
    hide *;
    if t != "" {
      assert t == [t[0]] + t[1..];
      LiteralStep(fmt, p, t, args, a);
      AtParts(fmt, p, [t[0]], t[1..]);
      LiteralText(fmt, p + 1, t[1..], args, a);
      StepText([t[0]], t[1..], Formatted(fmt, p + |t|, args, a));
    } else {
      AtInside(fmt, p, t);
      assert t + Formatted(fmt, p, args, a) == Formatted(fmt, p, args, a);
    }
  }

  lemma AtInside(fmt: string, p: nat, t: string)
    requires At(fmt, p, t)
    ensures p + |t| <= |fmt|
  {
  }

  lemma LiteralStep(fmt: string, p: nat, t: string, args: seq<Arg>, a: nat)
    requires At(fmt, p, t) && t != "" && t[0] != '%' && t[0] != '\0'
    ensures p + |t| <= |fmt| && Formatted(fmt, p, args, a) == [t[0]] + Formatted(fmt, p + 1, args, a)
  {
    AtEach(fmt, p, t);
    assert CharAt(fmt, p + 0) == t[0];
  }

  // ----- whole formats

  datatype Piece = Plain(text: string) | Converting(spec: Spec)

  function PieceChars(piece: Piece): string
  {
    match piece
    case Plain(text) => text
    case Converting(d) => Chars(d)
  }

  function AllChars(pieces: seq<Piece>): string
  {
    if pieces == [] then "" else PieceChars(pieces[0]) + AllChars(pieces[1..])
  }

  /** A piece is well formed and its arguments are there, of the types it names. */
  ghost predicate Supplied(piece: Piece, args: seq<Arg>, a: nat)
  {
    match piece
    case Plain(text) => forall i :: 0 <= i < |text| ==> text[i] != '%' && text[i] != '\0'
    case Converting(d) =>
      && WellFormed(d) && StarsGiven(d, args, a) && d.conv != '\0'
      && var k := a + Stars(d);
         && (IsInteger(d.conv) ==> k < |args| && args[k].Int? && OfType(d.length, d.conv, args[k].value))
         && (d.conv == 'c' ==> k < |args| && args[k].Int?)
         && (d.conv == 's' ==> k < |args| && exists t :: Shows(args[k], t))
  }

  function ArgumentsOf(piece: Piece): nat
  {
    match piece
    case Plain(_) => 0
    case Converting(d) => Stars(d) + if IsInteger(d.conv) || d.conv == 'c' || d.conv == 's' then 1 else 0
  }

  ghost predicate AllSupplied(pieces: seq<Piece>, args: seq<Arg>, a: nat)
    decreases |pieces|
  {
    pieces == [] || (Supplied(pieces[0], args, a) && AllSupplied(pieces[1..], args, a + ArgumentsOf(pieces[0])))
  }

  /** What one piece puts. */
  ghost function PieceText(piece: Piece, args: seq<Arg>, a: nat): string
    requires Supplied(piece, args, a)
  {
    match piece
    case Plain(text) => text
    case Converting(d) =>
      var left, w, pr, k := ToLeft(d, args, a), Width(d, args, a), Precision(d, args, a), a + Stars(d);
      if IsInteger(d.conv) then IntegerText(d, left, w, pr, args[k].value)
      else if d.conv == 'c' then [(args[k].value % 256) as char]
      else if d.conv == 's' then var t :| Shows(args[k], t); StringField(d, left, w, pr, t)
      else [d.conv]
  }

  ghost function AllText(pieces: seq<Piece>, args: seq<Arg>, a: nat): string
    requires AllSupplied(pieces, args, a)
    decreases |pieces|
  {
    if pieces == [] then ""
    else PieceText(pieces[0], args, a) + AllText(pieces[1..], args, a + ArgumentsOf(pieces[0]))
  }

  lemma PiecePut(fmt: string, p: nat, piece: Piece, args: seq<Arg>, a: nat)
    requires Supplied(piece, args, a) && At(fmt, p, PieceChars(piece))
    ensures p + |PieceChars(piece)| <= |fmt|
    ensures Formatted(fmt, p, args, a) ==
            PieceText(piece, args, a) + Formatted(fmt, p + |PieceChars(piece)|, args, a + ArgumentsOf(piece))
  {
    hide Formatted, At, Chars, WellFormed, StarsGiven, IntegerText, StringField, ToLeft, Width, Precision, Shows;
    hide OfType;
    match piece
    case Plain(text) => LiteralText(fmt, p, text, args, a);
    case Converting(d) =>
      var k := a + Stars(d);
      if IsInteger(d.conv) {
        PassedItself(d.length, d.conv, args[k].value);
        IntegerDirective(fmt, p, d, args, a, args[k].value, args[k].value);
      } else if d.conv == 'c' {
        CharDirective(fmt, p, d, args, a, args[k].value);
      } else if d.conv == 's' {
        var t :| Shows(args[k], t) && PieceText(piece, args, a) ==
          StringField(d, ToLeft(d, args, a), Width(d, args, a), Precision(d, args, a), t);
        StringDirective(fmt, p, d, args, a, t);
      } else {
        OtherDirective(fmt, p, d, args, a);
      }
  }

  lemma PassedItself(length: Length, conv: char, x: int)
    requires OfType(length, conv, x)
    ensures Passed(length, conv, x, x)
  {
  }

  /** A whole format puts the texts of its pieces, one after the other. */
  lemma {:induction false} FormatMeaning(fmt: string, p: nat, pieces: seq<Piece>, args: seq<Arg>, a: nat)
    requires AllSupplied(pieces, args, a) && At(fmt, p, AllChars(pieces))
    requires CharAt(fmt, p + |AllChars(pieces)|) == '\0'
    ensures p <= |fmt| && Formatted(fmt, p, args, a) == AllText(pieces, args, a)
    decreases |pieces|
  {
    hide *;
    if pieces == [] {
      FormatEnds(fmt, p, args, a);
    } else {
      FirstPiece(pieces, args, a);
      AtParts(fmt, p, PieceChars(pieces[0]), AllChars(pieces[1..]));
      PiecePut(fmt, p, pieces[0], args, a);
      FormatMeaning(fmt, p + |PieceChars(pieces[0])|, pieces[1..], args, a + ArgumentsOf(pieces[0]));
    }
  }

  lemma FormatEnds(fmt: string, p: nat, args: seq<Arg>, a: nat)
    requires At(fmt, p, AllChars([])) && CharAt(fmt, p + |AllChars([])|) == '\0'
    ensures p <= |fmt| && Formatted(fmt, p, args, a) == AllText([], args, a)
  {
  }

  lemma FirstPiece(pieces: seq<Piece>, args: seq<Arg>, a: nat)
    requires pieces != [] && AllSupplied(pieces, args, a)
    ensures Supplied(pieces[0], args, a) && AllSupplied(pieces[1..], args, a + ArgumentsOf(pieces[0]))
    ensures AllChars(pieces) == PieceChars(pieces[0]) + AllChars(pieces[1..])
    ensures AllText(pieces, args, a) ==
            PieceText(pieces[0], args, a) + AllText(pieces[1..], args, a + ArgumentsOf(pieces[0]))
  {
  }
}
