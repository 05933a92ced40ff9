/** Format strings, and the two passes that size and fill an allocated result. */
module Vsnprintf {
  import opened Arithmetic
  import opened Numerals
  import opened Printf

  const INT16_MAX: nat := 0x7FFF
  const INT32_MAX: nat := 0x7FFF_FFFF

  /** An argument: an integer of any type, or a string, which may be null. */
  datatype Arg = Int(value: int) | Text(chars: string) | Null

  /** The argument list is read in order; reading past its end or with the wrong type, undefined in the
      program, gives 0 or null here. */
  function IntAt(args: seq<Arg>, a: nat): int
  {
    if a < |args| && args[a].Int? then args[a].value else 0
  }

  function AsUnsigned(v: int, bits: nat): (r: nat)
    ensures bits <= 64 ==> r < U64
  {
    var m := if bits == 8 then 0x100 else if bits == 16 then U16 else if bits == 32 then U32 else U64;
    v % m
  }

  function AsSigned(v: int, bits: nat): (r: int)
    ensures -U64 / 2 <= r < U64 / 2
  {
    var h := if bits == 8 then 0x80 else if bits == 16 then 0x8000 else if bits == 32 then U31 else U64 / 2;
    (v + h) % (2 * h) - h
  }

  // ----- what a format means

  predicate IsDigit(c: char) { '0' <= c <= '9' }

  const NoFlags := Flags(false, false, false, false, false, false, false, false, false, false, false, false, false)

  function FlagsFrom(fmt: string, p: nat, f: Flags): (r: (Flags, nat))
    requires p <= |fmt|
    ensures p <= r.1 <= |fmt|
    decreases |fmt| - p
  {
    match CharAt(fmt, p)
    case ' ' => FlagsFrom(fmt, p + 1, f.(space := true))
    case '+' => FlagsFrom(fmt, p + 1, f.(plus := true))
    case '-' => FlagsFrom(fmt, p + 1, if f.zero then f else f.(right := true))
    case '#' => FlagsFrom(fmt, p + 1, f.(hash := true))
    case '0' => FlagsFrom(fmt, p + 1, f.(right := false, zero := true))
    case _ => (f, p)
  }

  /** A decimal number held at the largest 32-bit value. */
  function NumberFrom(fmt: string, p: nat, n: nat): (r: (nat, nat))
    requires p <= |fmt|
    ensures p <= r.1 <= |fmt|
    decreases |fmt| - p
  {
    if IsDigit(CharAt(fmt, p)) then
      NumberFrom(fmt, p + 1, Min(n * 10 + (CharAt(fmt, p) as int - '0' as int), INT32_MAX))
    else (n, p)
  }

  /** Flags, width, precision, length; next is the conversion character, arg the next argument. */
  datatype Directive = Directive(flags: Flags, width: nat, precision: nat, next: nat, arg: nat)

  function WidthFrom(fmt: string, d: Directive, args: seq<Arg>): (r: Directive)
    requires d.next <= |fmt|
    ensures d.next <= r.next <= |fmt|
  {
    if CharAt(fmt, d.next) == '*' then
      var v := AsSigned(IntAt(args, d.arg), 32);
      var f := d.flags.(right := d.flags.right || (v < 0 && !d.flags.zero));
      d.(flags := f, width := Min(if v < 0 then -v else v, INT16_MAX), next := d.next + 1, arg := d.arg + 1)
    else
      var (n, p) := NumberFrom(fmt, d.next, 0);
      d.(width := Min(n, INT16_MAX), next := p)
  }

  function Precise(d: Directive, precision: nat, next: nat, arg: nat): Directive
  {
    d.(flags := d.flags.(precision := true), precision := precision, next := next, arg := arg)
  }

  function PrecisionFrom(fmt: string, d: Directive, args: seq<Arg>): (r: Directive)
    requires d.next <= |fmt|
    ensures d.next <= r.next <= |fmt|
  {
    if CharAt(fmt, d.next) != '.' then d
    else if CharAt(fmt, d.next + 1) == '*' then
      var v := AsSigned(IntAt(args, d.arg), 32);
      Precise(d, if v < 0 then 0 else v, d.next + 2, d.arg + 1)
    else
      var (n, p) := NumberFrom(fmt, d.next + 1, 0);
      Precise(d, n, p, d.arg)
  }

  /** The flag a length modifier sets, and the number of its characters. */
  function LengthFlags(c: char, c': char, f: Flags): Flags
  {
    f.(is64 := f.is64 || c == 'l' || c == 'z' || c == 'j' || c == 't',
       is8 := f.is8 || (c == 'h' && c' == 'h'),
       is16 := f.is16 || (c == 'h' && c' != 'h'))
  }

  function LengthSize(c: char, c': char): nat
  {
    if (c == 'l' && c' == 'l') || (c == 'h' && c' == 'h') then 2
    else if c == 'l' || c == 'h' || c == 'z' || c == 'j' || c == 't' then 1
    else 0
  }

  function LengthFrom(fmt: string, d: Directive): (r: Directive)
    requires d.next <= |fmt|
    ensures d.next <= r.next <= |fmt|
  {
    var c, c' := CharAt(fmt, d.next), CharAt(fmt, d.next + 1);
    d.(flags := LengthFlags(c, c', d.flags), next := d.next + LengthSize(c, c'))
  }

  function DirectiveFrom(fmt: string, p: nat, args: seq<Arg>, a: nat): (r: Directive)
    requires p <= |fmt|
    ensures p <= r.next <= |fmt|
  {
    var (f, q) := FlagsFrom(fmt, p, NoFlags);
    LengthFrom(fmt, PrecisionFrom(fmt, WidthFrom(fmt, Directive(f, 0, 0, q, a), args), args))
  }

  function Bits(f: Flags): (b: nat)
    ensures b <= 64
  {
    if f.is8 then 8 else if f.is16 then 16 else if f.is64 then 64 else 32
  }

  function SignedText(d: Directive, v: int): string
  {
    var x := AsSigned(v, Bits(d.flags));
    NumberText(d.flags.(neg := d.flags.neg || x < 0), d.width, d.precision, if x < 0 then -x else x)
  }

  /** The string a %s argument shows, cut to the precision. */
  function Shown(d: Directive, args: seq<Arg>): string
  {
    var s := if d.arg < |args| && args[d.arg].Text? then CString(args[d.arg].chars) else "(null)";
    if d.flags.precision && d.precision < |s| then s[..d.precision] else s
  }

  function StringText(d: Directive, s: string): string
  {
    var pad := Repeated(' ', d.width - |s|);
    if d.flags.right then s + pad else pad + s
  }

  function UnsignedFlags(f: Flags, c: char): Flags
  {
    f.(octal := f.octal || c == 'o', upper := f.upper || c == 'X', hex := f.hex || c == 'x' || c == 'X' || c == 'p',
       hash := f.hash || c == 'p')
  }

  /** What a directive prints and the argument after those it used. */
  function Converted(d: Directive, c: char, args: seq<Arg>): (string, nat)
  {
    if c == 'c' then ([AsUnsigned(IntAt(args, d.arg), 8) as char], d.arg + 1)
    else if c == 'd' || c == 'i' then (SignedText(d, IntAt(args, d.arg)), d.arg + 1)
    else if c in {'o', 'x', 'X', 'u', 'p'} then
      var bits := if c == 'p' then 64 else Bits(d.flags);
      (NumberText(UnsignedFlags(d.flags, c), d.width, d.precision, AsUnsigned(IntAt(args, d.arg), bits)), d.arg + 1)
    else if c == 's' then (StringText(d, Shown(d, args)), d.arg + 1)
    else ([c], d.arg)
  }

  /** The ideal output of a format from a position on. */
  function Formatted(fmt: string, p: nat, args: seq<Arg>, a: nat): string
    requires p <= |fmt|
    decreases |fmt| - p
  {
    var c := CharAt(fmt, p);
    if c == '\0' then ""
    else if c != '%' then [c] + Formatted(fmt, p + 1, args, a)
    else
      var d := DirectiveFrom(fmt, p + 1, args, a);
      var conv := CharAt(fmt, d.next);
      if conv == '\0' then ""
      else
        var (s, a') := Converted(d, conv, args);
        s + Formatted(fmt, d.next + 1, args, a')
  }

  // ----- the formatter

  method ReadFlags(fmt: string, start: nat) returns (flags: Flags, p: nat)
    requires start <= |fmt|
    ensures p <= |fmt| && (flags, p) == FlagsFrom(fmt, start, NoFlags)
  {
    flags, p := NoFlags, start;
    while CharAt(fmt, p) in {' ', '+', '-', '#', '0'}
      invariant start <= p <= |fmt| && FlagsFrom(fmt, start, NoFlags) == FlagsFrom(fmt, p, flags)
      decreases |fmt| - p
    {
      match CharAt(fmt, p) {
        case ' ' => flags := flags.(space := true);
        case '+' => flags := flags.(plus := true);
        case '-' => flags := if flags.zero then flags else flags.(right := true);
        case '#' => flags := flags.(hash := true);
        case _ => flags := flags.(right := false, zero := true);
      }
      p := p + 1;
    }
  }

  method ReadNumber(fmt: string, start: nat) returns (n: nat, p: nat)
    requires start <= |fmt|
    ensures p <= |fmt| && (n, p) == NumberFrom(fmt, start, 0)
  {
    n, p := 0, start;
    while IsDigit(CharAt(fmt, p))
      invariant start <= p <= |fmt| && NumberFrom(fmt, start, 0) == NumberFrom(fmt, p, n)
      decreases |fmt| - p
    {
      n := n * 10;
      n := n + (CharAt(fmt, p) as int - '0' as int);
      n := if n > INT32_MAX then INT32_MAX else n;
      p := p + 1;
    }
  }

  method ReadWidth(fmt: string, d: Directive, args: seq<Arg>) returns (r: Directive)
    requires d.next <= |fmt|
    ensures r == WidthFrom(fmt, d, args)
  {
    if CharAt(fmt, d.next) == '*' {
      var tmp := AsSigned(IntAt(args, d.arg), 32);
      var flags, width := d.flags, tmp;
      if tmp < 0 {
        if !flags.zero {
          flags := flags.(right := true);
        }
        width := -tmp;
      }
      width := if width > INT16_MAX then INT16_MAX else width;
      r := d.(flags := flags, width := width, next := d.next + 1, arg := d.arg + 1);
    } else {
      var width, p := ReadNumber(fmt, d.next);
      width := if width > INT16_MAX then INT16_MAX else width;
      r := d.(width := width, next := p);
    }
  }

  method ReadPrecision(fmt: string, d: Directive, args: seq<Arg>) returns (r: Directive)
    requires d.next <= |fmt|
    ensures r == PrecisionFrom(fmt, d, args)
  {
    r := d;
    if CharAt(fmt, d.next) == '.' {
      var flags := d.flags.(precision := true);
      if CharAt(fmt, d.next + 1) == '*' {
        var tmp := AsSigned(IntAt(args, d.arg), 32);
        r := d.(flags := flags, precision := if tmp < 0 then 0 else tmp, next := d.next + 2, arg := d.arg + 1);
      } else {
        var precision, p := ReadNumber(fmt, d.next + 1);
        r := d.(flags := flags, precision := precision, next := p);
      }
    }
  }

  method ReadLength(fmt: string, d: Directive) returns (r: Directive)
    requires d.next <= |fmt|
    ensures r == LengthFrom(fmt, d)
  {
    var flags, p := d.flags, d.next;
    var c := CharAt(fmt, p);
    if c == 'l' {
      flags := flags.(is64 := true);
      p := p + 1;
      if CharAt(fmt, p) == 'l' {
        p := p + 1;
      }
    } else if c == 'h' {
      p := p + 1;
      if CharAt(fmt, p) == 'h' {
        p := p + 1;
        flags := flags.(is8 := true);
      } else {
        flags := flags.(is16 := true);
      }
    } else if c == 'z' || c == 'j' || c == 't' {
      p := p + 1;
      flags := flags.(is64 := true);
    }
    r := d.(flags := flags, next := p);
  }

  method ReadDirective(fmt: string, start: nat, args: seq<Arg>, a: nat) returns (d: Directive)
    requires start <= |fmt|
    ensures d == DirectiveFrom(fmt, start, args, a) && start <= d.next <= |fmt|
  {
    var flags, p := ReadFlags(fmt, start);
    d := ReadWidth(fmt, Directive(flags, 0, 0, p, a), args);
    d := ReadPrecision(fmt, d, args);
    d := ReadLength(fmt, d);
  }

  method PutStringArg(str: array?<char>, size: nat, idx: nat, d: Directive, args: seq<Arg>, ghost text: string,
                      ghost was: string) returns (idx': nat)
    requires Written(str, size, text, was) && idx == |text|
    modifies str
    ensures Written(str, size, text + StringText(d, Shown(d, args)), was) &&
            idx' == |text + StringText(d, Shown(d, args))|
  {
    hide Written;
    var s := Shown(d, args);
    ghost var pad := Repeated(' ', d.width - |s|);
    idx' := idx;
    if d.flags.right {
      idx' := PutString(str, size, idx', s, text, was);
      idx' := PutRepeated(str, size, idx', ' ', d.width - |s|, text + s, was);
      assert text + s + pad == text + (s + pad);
    } else {
      idx' := PutRepeated(str, size, idx', ' ', d.width - |s|, text, was);
      idx' := PutString(str, size, idx', s, text + pad, was);
      assert text + pad + s == text + (pad + s);
    }
  }

  method PutConversion(str: array?<char>, size: nat, idx: nat, d: Directive, c: char, args: seq<Arg>,
                       ghost text: string, ghost was: string) returns (idx': nat, a: nat)
    requires Written(str, size, text, was) && idx == |text|
    modifies str
    ensures var (s, a') := Converted(d, c, args); Written(str, size, text + s, was) && idx' == |text + s| && a == a'
  {
    hide Written, NumberText, StringText, Shown;
    a := d.arg + 1;
    match c
    case 'c' =>
      idx' := PutChar(str, size, idx, AsUnsigned(IntAt(args, d.arg), 8) as char, text, was);
    case 'd' =>
      idx' := PutSigned(str, size, idx, d, args, text, was);
    case 'i' =>
      idx' := PutSigned(str, size, idx, d, args, text, was);
    case 's' =>
      idx' := PutStringArg(str, size, idx, d, args, text, was);
    case _ =>
      if c in {'o', 'x', 'X', 'u', 'p'} {
        var bits := if c == 'p' then 64 else Bits(d.flags);
        idx' := PutNum(str, size, idx, UnsignedFlags(d.flags, c), d.width, d.precision,
          AsUnsigned(IntAt(args, d.arg), bits), text, was);
      } else {
        a := d.arg;
        idx' := PutChar(str, size, idx, c, text, was);
      }
  }

  method PutSigned(str: array?<char>, size: nat, idx: nat, d: Directive, args: seq<Arg>, ghost text: string,
                   ghost was: string) returns (idx': nat)
    requires Written(str, size, text, was) && idx == |text|
    modifies str
    ensures Written(str, size, text + SignedText(d, IntAt(args, d.arg)), was) &&
            idx' == |text + SignedText(d, IntAt(args, d.arg))|
  {
    hide Written, NumberText;
    var x := AsSigned(IntAt(args, d.arg), Bits(d.flags));
    var flags := d.flags;
    if x < 0 {
      flags := flags.(neg := true);
      x := -x;
    }
    idx' := PutNum(str, size, idx, flags, d.width, d.precision, x, text, was);
  }

  /** The count is that of the ideal output whatever the buffer; the buffer gets exactly the beginning of the
      output and its terminator, and keeps everything else. */
  method Vsnprintf(str: array?<char>, size: nat, fmt: string, args: seq<Arg>) returns (result: int)
    requires str != null ==> size <= str.Length
    modifies str
    ensures var text := Formatted(fmt, 0, args, 0);
            Written(str, size, text + "\0", old(Contents(str))) && result == if |text| > INT32_MAX then -1 else |text|
  {
    hide Converted, DirectiveFrom;
    ghost var was := Contents(str);
    var idx, p, a := 0, 0, 0;
    ghost var all, text := Formatted(fmt, 0, args, 0), "";
    assert Written(str, size, text, was);
    while CharAt(fmt, p) != '\0'
      invariant p <= |fmt| && Written(str, size, text, was) && idx == |text|
      invariant all == text + Formatted(fmt, p, args, a)
      decreases |fmt| - p
    {
      hide Written;
      if CharAt(fmt, p) != '%' {
        idx := PutChar(str, size, idx, CharAt(fmt, p), text, was);
        StepText(text, [CharAt(fmt, p)], Formatted(fmt, p + 1, args, a));
        text := text + [CharAt(fmt, p)];
        p := p + 1;
        continue;
      }
      var d := ReadDirective(fmt, p + 1, args, a);
      var c := CharAt(fmt, d.next);
      if c == '\0' {
        assert all == text;
        break;
      }
      ghost var (s, a') := Converted(d, c, args);
      idx, a := PutConversion(str, size, idx, d, c, args, text, was);
      StepText(text, s, Formatted(fmt, d.next + 1, args, a'));
      text := text + s;
      p := d.next + 1;
    }
    assert all == text;
    var _ := PutChar(str, size, idx, '\0', text, was);
    assert text + ['\0'] == text + "\0";
    if idx > INT32_MAX {
      return -1;
    }
    return idx;
  }

  lemma StepText(t: string, s: string, rest: string)
    ensures t + (s + rest) == t + s + rest
  {
  }

  lemma WrittenWhole(str: array<char>, text: string, was: string)
    requires Written(str, str.Length, text, was) && str.Length == |text|
    ensures str[..] == text
  {
  }

  /** The size_t that vasprintf asks malloc for: result + 1 in int arithmetic, which overflows at the largest
      count, converted. */
  function AllocSize(result: nat): nat
  {
    AsUnsigned(AsSigned(result + 1, 32), 64)
  }

  /** Overflow asks for more than half the address space, which no allocation meets. */
  lemma AllocSizeFits(result: nat)
    requires result <= INT32_MAX
    ensures AllocSize(result) == result + 1 <==> result < INT32_MAX
    ensures AllocSize(result) < U64 / 2 <==> result < INT32_MAX
  {
  }

  /** Two passes: the first only counts, and the buffer allocated for that count holds the whole output
      and its terminator.  fits says whether an allocation of less than half the address space succeeds. */
  method Vasprintf(fmt: string, args: seq<Arg>, fits: bool) returns (result: int, str: array?<char>)
    ensures var text := Formatted(fmt, 0, args, 0);
            if |text| >= INT32_MAX || !fits then result == -1 && str == null
            else result == |text| && str != null && str[..] == text + "\0"
  {
    hide Formatted;
    ghost var text := Formatted(fmt, 0, args, 0);
    str := null;
    result := Vsnprintf(null, 0xFFFF_FFFF_FFFF_FFFF, fmt, args);
    if result >= 0 {
      AllocSizeFits(result);
      var size := AllocSize(result);
      if size >= U64 / 2 || !fits {
        return -1, null;
      }
      str := new char[size];
      hide Written;
      ghost var was := Contents(str);
      result := Vsnprintf(str, size, fmt, args);
      WrittenWhole(str, text + "\0", was);
    }
  }
}
