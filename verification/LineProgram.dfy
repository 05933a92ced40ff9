/** The DWARF line-number program (sections 6.2.2 and 6.2.5 of DWARF 5): decoding, the state machine,
    and the rewriting of special opcodes into standard ones. */
module LineProgram {
  import opened Arithmetic
  import opened Leb128

  // ----- the header and the operations

  /** lens[i] is the operand count of standard opcode i; past the opcode base it is whatever follows
      the table in the section. */
  datatype Header = Header(minLength: nat, maxOps: nat, defaultIsStmt: nat, lineBase: int, lineRange: nat,
                           opcodeBase: nat, lens: Bytes, addressSize: nat, dirs: nat, strOffset: nat)
  {
    ghost predicate Valid()
    {
      && minLength < 256 && 1 <= maxOps < 256 && defaultIsStmt < 256 && -128 <= lineBase < 128
      && lineRange < 256 && 1 <= opcodeBase < 256 && |lens| == 256
      && (addressSize == 4 || addressSize == 8)
    }
  }

  datatype Op =
    | Special(adj: nat)
    | EndSequence
    | SetAddress(addr: nat)
    | DefineFile(path: Bytes, dir: nat, mtime: nat, size: nat)
    | SetDiscriminator(value: nat)
    | InlinedCall(context: nat, name: nat)
    | SetFunctionName(name: nat)
    | Copy
    | AdvancePc(value: nat)
    | AdvanceLine(delta: int)
    | SetFile(value: nat)
    | SetColumn(value: nat)
    | NegateStmt
    | SetBasicBlock
    | ConstAddPc
    | FixedAdvancePc(value: nat)
    | SetPrologueEnd
    | SetEpilogueBegin
    | SetIsa(value: nat)
    | Ignored

  datatype Decoded = Bad | Got(op: Op, next: nat)

  /** The next unsigned operand truncated to 32 bits, if any byte is left. */
  function Operand(s: Bytes, p: nat): (r: Decoded)
    requires p <= |s|
    ensures r.Got? ==> r.op.SetFile? && p < r.next <= |s|
  {
    if p >= |s| then Bad
    else var r := ReadU(s, p); Got(SetFile(r.value % U32), r.next)
  }

  function LittleEndian(s: Bytes, p: nat, n: nat): nat
    requires p + n <= |s|
    decreases n
  {
    if n == 0 then 0 else s[p] + 256 * LittleEndian(s, p + 1, n - 1)
  }

  /** The first zero byte at or after p, or the length when there is none. */
  function ZeroAt(s: Bytes, p: nat): (z: nat)
    requires p <= |s|
    ensures p <= z <= |s|
    decreases |s| - p
  {
    if p == |s| || s[p] == 0 then p else ZeroAt(s, p + 1)
  }

  function SkipOperands(s: Bytes, p: nat, n: nat): (r: Decoded)
    requires p <= |s|
    ensures r.Got? ==> r.op.Ignored? && p <= r.next <= |s|
    decreases n
  {
    if n == 0 then Got(Ignored, p)
    else var o := Operand(s, p); if o.Bad? then Bad else SkipOperands(s, o.next, n - 1)
  }

  function DecodeFile(h: Header, s: Bytes, p: nat): (r: Decoded)
    requires p <= |s|
    ensures r.Got? ==> p < r.next <= |s| && r.op.DefineFile?
  {
    var z := ZeroAt(s, p);
    if z == |s| then Bad else
    var dir := Operand(s, z + 1);
    if dir.Bad? || dir.op.value >= h.dirs || dir.next >= |s| then Bad else
    var mtime := ReadU(s, dir.next);
    if mtime.next >= |s| then Bad else
    var size := ReadU(s, mtime.next);
    Got(DefineFile(s[p..z], dir.op.value, mtime.value, size.value), size.next)
  }

  function DecodeExtended(h: Header, s: Bytes): (r: Decoded)
    requires h.Valid() && |s| > 0
    ensures r.Got? ==> 0 < r.next <= |s| && !r.op.Special?
  {
    if |s| - 1 < 2 then Bad else
    var len := s[1];
    if |s| - 2 < len then Bad else
    match s[2]
    case 1 => Got(EndSequence, 3)
    case 2 =>
      if |s| - 3 < h.addressSize then Bad
      else Got(SetAddress(LittleEndian(s, 3, h.addressSize)), 3 + h.addressSize)
    case 3 => DecodeFile(h, s, 3)
    case 4 =>
      if h.lens[4] != 1 then Bad else
      var v := Operand(s, 3);
      if v.Bad? then Bad else Got(SetDiscriminator(v.op.value), v.next)
    case 144 =>
      var c := Operand(s, 3);
      if c.Bad? then Bad else
      var f := Operand(s, c.next);
      if f.Bad? then Bad else Got(InlinedCall(c.op.value, f.op.value), f.next)
    case 145 =>
      var f := Operand(s, 3);
      if f.Bad? then Bad else Got(SetFunctionName(f.op.value), f.next)
    case _ =>
      if |s| - 2 < len then Bad else Got(Ignored, 2 + len)
  }

  function DecodeStandard(h: Header, s: Bytes): (r: Decoded)
    requires h.Valid() && |s| > 0 && 1 <= s[0] <= 12
    ensures r.Got? ==> 0 < r.next <= |s| && !r.op.Special?
  {
    var count := h.lens[s[0]];
    if s[0] == 9 then
      if count != 1 || |s| - 1 < 2 then Bad else Got(FixedAdvancePc(LittleEndian(s, 1, 2)), 3)
    else if s[0] in {2, 3, 4, 5, 12} then
      if count != 1 || |s| == 1 then Bad
      else if s[0] == 3 then
        var d := ReadS(s, 1); Got(AdvanceLine(Int32(d.value)), d.next)
      else
        var v := Operand(s, 1);
        if v.Bad? then Bad
        else Got(match s[0] case 2 => AdvancePc(v.op.value) case 4 => SetFile(v.op.value)
                            case 5 => SetColumn(v.op.value) case _ => SetIsa(v.op.value), v.next)
    else if count != 0 || (s[0] == 8 && h.lineRange == 0) then Bad
    else Got(match s[0] case 1 => Copy case 6 => NegateStmt case 7 => SetBasicBlock case 8 => ConstAddPc
                        case 10 => SetPrologueEnd case _ => SetEpilogueBegin, 1)
  }

  /** One operation; every success consumes input. */
  function Decode(h: Header, s: Bytes): (r: Decoded)
    requires h.Valid() && |s| > 0
    ensures r.Got? ==> 0 < r.next <= |s|
    ensures r.Got? && r.op.Special? ==> r.next == 1 && r.op.adj == s[0] - h.opcodeBase && h.lineRange > 0
    ensures r.Got? && r.op.ConstAddPc? ==> h.lineRange > 0
  {
    if s[0] >= h.opcodeBase then if h.lineRange == 0 then Bad else Got(Special(s[0] - h.opcodeBase), 1)
    else if s[0] == 0 then DecodeExtended(h, s)
    else if s[0] <= 12 then DecodeStandard(h, s)
    else SkipOperands(s, 1, h.lens[s[0]])
  }

  // ----- the state machine

  /** The registers of section 6.2.2. */
  datatype Regs = Regs(addr: nat, opIndex: nat, file: nat, line: int, column: nat, isStmt: nat, basicBlock: bool,
                       prologueEnd: bool, epilogueBegin: bool, isa: nat, discriminator: nat, context: nat,
                       functionName: nat)

  datatype Row = Row(regs: Regs, endSequence: bool)

  function Initial(h: Header): Regs
  {
    Regs(0, 0, 1, 1, 0, h.defaultIsStmt, false, false, false, 0, 0, 0, 0)
  }

  /** The operation advance, in 32-bit arithmetic except for the address. */
  function Advance(h: Header, r: Regs, a: nat): (r': Regs)
    requires h.Valid()
    ensures r'.opIndex < h.maxOps
  {
    var t := (r.opIndex + a) % U32;
    r.(addr := (r.addr + (h.minLength * (t / h.maxOps)) % U32) % U64, opIndex := t % h.maxOps)
  }

  /** A row must fit the bit fields of the stored line record; the discriminator is cut off instead. */
  predicate Fits(r: Regs)
  {
    && r.opIndex < 256 && r.file < U32 && -U31 <= r.line < U31 && r.column < U16 && r.isStmt < 2 && r.isa < 256
  }

  function Emit(r: Regs, end: bool): Row
  {
    Row(r.(discriminator := r.discriminator % U24), end)
  }

  function AfterRow(r: Regs): Regs
  {
    r.(basicBlock := false, prologueEnd := false, epilogueBegin := false, discriminator := 0)
  }

  /** The registers before a row may be emitted, whether one is, and the registers afterwards. */
  datatype Effect = Quiet(regs: Regs) | Emits(row: Regs, end: bool, regs: Regs)

  /** The address advance of special opcode 255. */
  function ConstAdvance(h: Header): nat
    requires h.Valid() && h.lineRange > 0
  {
    (255 - h.opcodeBase) / h.lineRange
  }

  /** The line and operation advances of a special opcode (section 6.2.5.1). */
  function LineDelta(h: Header, adj: nat): int
    requires h.lineRange > 0
  {
    h.lineBase + adj % h.lineRange
  }

  function AddressDelta(h: Header, adj: nat): nat
    requires h.lineRange > 0
  {
    adj / h.lineRange
  }

  function StringOffset(h: Header, f: nat): nat
  {
    (f + h.strOffset) % U32
  }

  /** 1 - v in eight bits. */
  function Negated(v: nat): nat
  {
    (1 - v) % 256
  }

  function Raised(addr: nat, v: nat): nat
  {
    (addr + v) % U64
  }

  function Exec(h: Header, r: Regs, op: Op): Effect
    requires h.Valid()
  {
    match op
    case Special(adj) =>
      if h.lineRange == 0 then Quiet(r) else
      var r' := Advance(h, r.(line := r.line + LineDelta(h, adj)), AddressDelta(h, adj));
      Emits(r', false, AfterRow(r'))
    case EndSequence => Emits(r, true, Initial(h))
    case Copy => Emits(r, false, AfterRow(r))
    case _ => Quiet(Set(h, r, op))
  }

  /** The operations that emit no row. */
  function Set(h: Header, r: Regs, op: Op): Regs
    requires h.Valid() && !op.Special? && !op.EndSequence? && !op.Copy?
  {
    match op
    case SetAddress(a) => r.(opIndex := 0, addr := a)
    case SetDiscriminator(v) => r.(discriminator := v)
    case InlinedCall(c, f) => r.(context := c, functionName := StringOffset(h, f))
    case SetFunctionName(f) => r.(functionName := StringOffset(h, f))
    case AdvancePc(v) => Advance(h, r, v)
    case AdvanceLine(d) => r.(line := r.line + d)
    case SetFile(v) => r.(file := v)
    case SetColumn(v) => r.(column := v)
    case NegateStmt => r.(isStmt := Negated(r.isStmt))
    case SetBasicBlock => r.(basicBlock := true)
    case ConstAddPc => if h.lineRange == 0 then r else Advance(h, r, ConstAdvance(h))
    case FixedAdvancePc(v) => r.(addr := Raised(r.addr, v), opIndex := 0)
    case SetPrologueEnd => r.(prologueEnd := true)
    case SetEpilogueBegin => r.(epilogueBegin := true)
    case SetIsa(v) => r.(isa := v)
    case _ => r
  }

  datatype Outcome = Invalid | Done(rows: seq<Row>, regs: Regs)

  /** A whole program: the rows in order of emission and the final registers. */
  function Run(h: Header, r: Regs, s: Bytes): Outcome
    requires h.Valid()
    decreases |s|
  {
    if s == [] then Done([], r)
    else match Decode(h, s)
      case Bad => Invalid
      case Got(op, n) =>
        Continue(Exec(h, r, op), Run(h, Exec(h, r, op).regs, s[n..]))
  }

  /** An operation's effect, then the rest of the program. */
  function Continue(e: Effect, rest: Outcome): Outcome
  {
    match e
    case Quiet(_) => rest
    case Emits(row, end, _) => if !Fits(row) then Invalid else Prepend(Emit(row, end), rest)
  }

  function Prepend(row: Row, o: Outcome): Outcome
  {
    if o.Invalid? then Invalid else Done([row] + o.rows, o.regs)
  }

  /** One operation keeps op_index below max_ops. */
  lemma ExecKeepsOpIndex(h: Header, r: Regs, op: Op)
    requires h.Valid() && r.opIndex < h.maxOps
    ensures Exec(h, r, op).regs.opIndex < h.maxOps
    ensures Exec(h, r, op).Emits? ==> Exec(h, r, op).row.opIndex < h.maxOps
  {
  }

  /** In a whole program op_index stays below max_ops: in every row and at the end, so storing it in eight bits
      never fails. */
  lemma {:induction false} RunKeepsOpIndex(h: Header, r: Regs, s: Bytes)
    requires h.Valid() && r.opIndex < h.maxOps && Run(h, r, s).Done?
    ensures Run(h, r, s).regs.opIndex < h.maxOps
    ensures forall row :: row in Run(h, r, s).rows ==> row.regs.opIndex < h.maxOps
    decreases |s|
  {
    if s != [] {
      var d := Decode(h, s);
      ExecKeepsOpIndex(h, r, d.op);
      RunKeepsOpIndex(h, Exec(h, r, d.op).regs, s[d.next..]);
      hide Exec, Decode;
    }
  }

  /** While the operation counter does not wrap, two advances compose to one exactly when their two
      address increments do not add up to 2^32; they never do while the whole increment fits 32 bits. */
  lemma AdvancesCompose(h: Header, r: Regs, a: nat, b: nat)
    requires h.Valid() && r.opIndex < h.maxOps && r.opIndex + a + b < U32
    ensures Advance(h, Advance(h, r, a), b) == Advance(h, r, a + b) <==> IncrementsFit(h, r, a, b)
    ensures h.minLength * (r.opIndex + a + b) < U32 ==> IncrementsFit(h, r, a, b)
  {
    hide Quot, Rem, Advance, Moved;
    var m, k := h.maxOps, h.minLength;
    var x := r.opIndex + a;
    QuotRemSum(x, b, m);
    AdvanceUnwrapped(h, r, a);
    AdvanceUnwrapped(h, Advance(h, r, a), b);
    AdvanceUnwrapped(h, r, a + b);
    AddressSum(r.addr, k, Quot(x, m), Quot(Rem(x, m) + b, m), x + b);
  }

  /** The increments of the address by an advance of a and a following one of b, in 32 bits. */
  predicate IncrementsFit(h: Header, r: Regs, a: nat, b: nat)
    requires h.Valid()
  {
    var x := r.opIndex + a;
    Increment(h.minLength, Quot(x, h.maxOps)) + Increment(h.minLength, Quot(Rem(x, h.maxOps) + b, h.maxOps)) < U32
  }

  function Increment(k: nat, q: nat): nat
  {
    NonNegative(k, q);
    (k * q) % U32
  }

  function Moved(addr: nat, k: nat, q: nat): nat
  {
    (addr + Increment(k, q)) % U64
  }

  lemma AdvanceUnwrapped(h: Header, r: Regs, a: nat)
    requires h.Valid() && r.opIndex + a < U32
    ensures var t := r.opIndex + a;
            Advance(h, r, a) == r.(addr := Moved(r.addr, h.minLength, Quot(t, h.maxOps)), opIndex := Rem(t, h.maxOps))
  {
    SmallWord(r.opIndex + a);
  }

  lemma AddressSum(addr: nat, k: nat, q: nat, q2: nat, n: nat)
    requires 0 <= q + q2 <= n
    ensures Moved(Moved(addr, k, q), k, q2) == Moved(addr, k, q + q2) <==> Increment(k, q) + Increment(k, q2) < U32
    ensures k * n < U32 ==> Increment(k, q) + Increment(k, q2) < U32
  {
    NonNegative(k, q);
    NonNegative(k, q2);
    var u, v := k * q, k * q2;
    assert k * (q + q2) == u + v;
    if k * n < U32 {
      SmallProduct(k, q + q2, n);
      SmallWord(u);
      SmallWord(v);
    }
    WrapTwice(addr, u, v);
  }

  lemma WrapTwice(addr: nat, u: nat, v: nat)
    ensures ((addr + u % U32) % U64 + v % U32) % U64 == (addr + (u + v) % U32) % U64 <==> u % U32 + v % U32 < U32
  {
    WordSum(u, v);
    DivideSum(addr + u % U32, v % U32, U64);
    if u % U32 + v % U32 >= U32 {
      ShiftedWord(addr + u % U32 + v % U32 - U32);
    }
  }

  lemma WordSum(u: nat, v: nat)
    ensures (u + v) % U32 == if u % U32 + v % U32 < U32 then u % U32 + v % U32 else u % U32 + v % U32 - U32
  {
  }

  lemma ShiftedWord(w: nat)
    ensures (w + U32) % U64 != w % U64
  {
  }

  lemma SmallWord(u: nat)
    requires u < U32
    ensures u % U32 == u
  {
  }

  lemma SmallProduct(k: nat, q: nat, n: nat)
    requires q <= n && k * n < U32
    ensures 0 <= k * q < U32
  {
    assert k * n == k * q + k * (n - q);
  }

  // ----- special opcodes are abbreviations

  /** The header gives copy, advance_pc and advance_line their standard meaning. */
  predicate HasBasics(h: Header)
    requires |h.lens| == 256
  {
    h.opcodeBase > 3 && h.lineRange > 0 && h.lens[1] == 0 && h.lens[2] == 1 && h.lens[3] == 1
  }

  /** A number below 2^14 as a two-byte LEB128. */
  function TwoBytes(v: int): (s: Bytes)
    requires -0x2000 <= v < 0x4000
    ensures |s| == 2
  {
    [128 + v % 128, (v / 128) % 128]
  }

  /** advance_pc, advance_line and copy in place of one special opcode. */
  function Expand(h: Header, adj: nat): Bytes
    requires h.Valid() && HasBasics(h) && adj < 256
  {
    [2] + TwoBytes(AddressDelta(h, adj)) + [3] + TwoBytes(LineDelta(h, adj)) + [1]
  }

  // ----- decoding looks only at what it consumes

  lemma OperandLocal(s: Bytes, t: Bytes, n: nat, p: nat)
    requires Extends(s, t, n) && p <= |s| && Operand(s, p).Got? && Operand(s, p).next <= n
    ensures Operand(t, p) == Operand(s, p)
  {
    ReadULocal(s, t, n, p);
  }

  lemma {:induction false} SkipLocal(s: Bytes, t: Bytes, n: nat, p: nat, k: nat)
    requires Extends(s, t, n) && p <= |s| && SkipOperands(s, p, k).Got? && SkipOperands(s, p, k).next <= n
    ensures SkipOperands(t, p, k) == SkipOperands(s, p, k)
    decreases k
  {
    if k > 0 {
      OperandLocal(s, t, n, p);
      SkipLocal(s, t, n, Operand(s, p).next, k - 1);
    }
  }

  lemma {:induction false} LittleEndianLocal(s: Bytes, t: Bytes, p: nat, k: nat)
    requires p + k <= |s| && p + k <= |t| && forall i :: p <= i < p + k ==> t[i] == s[i]
    ensures LittleEndian(t, p, k) == LittleEndian(s, p, k)
    decreases k
  {
    if k > 0 {
      LittleEndianLocal(s, t, p + 1, k - 1);
    }
  }

  lemma {:induction false} ZeroAtLocal(s: Bytes, t: Bytes, p: nat)
    requires p <= |s| <= |t| && ZeroAt(s, p) < |s| && forall i :: p <= i <= ZeroAt(s, p) ==> t[i] == s[i]
    ensures ZeroAt(t, p) == ZeroAt(s, p)
    decreases |s| - p
  {
    if s[p] != 0 {
      ZeroAtLocal(s, t, p + 1);
    }
  }

  lemma DecodeFileLocal(h: Header, s: Bytes, t: Bytes, n: nat, p: nat)
    requires Extends(s, t, n) && p <= |s| && DecodeFile(h, s, p).Got? && DecodeFile(h, s, p).next <= n
    ensures DecodeFile(h, t, p) == DecodeFile(h, s, p)
  {
    var z := ZeroAt(s, p);
    var dir := Operand(s, z + 1);
    var mtime := ReadU(s, dir.next);
    ZeroAtLocal(s, t, p);
    OperandLocal(s, t, n, z + 1);
    ReadULocal(s, t, n, dir.next);
    ReadULocal(s, t, n, mtime.next);
    assert t[p..z] == s[p..z];
  }

  lemma DecodeExtendedLocal(h: Header, s: Bytes, t: Bytes, n: nat)
    requires h.Valid() && |s| > 0 && Extends(s, t, n) && DecodeExtended(h, s).Got? && DecodeExtended(h, s).next == n
    requires t[2] == s[2]
    ensures DecodeExtended(h, t) == DecodeExtended(h, s)
  {
    match s[2]
    case 2 => LittleEndianLocal(s, t, 3, h.addressSize);
    case 3 => DecodeFileLocal(h, s, t, n, 3);
    case 4 => OperandLocal(s, t, n, 3);
    case 144 =>
      OperandLocal(s, t, n, 3);
      OperandLocal(s, t, n, Operand(s, 3).next);
    case 145 => OperandLocal(s, t, n, 3);
    case _ =>
  }

  lemma DecodeLocal(h: Header, s: Bytes, t: Bytes, n: nat)
    requires h.Valid() && |s| > 0 && Extends(s, t, n) && Decode(h, s).Got? && Decode(h, s).next == n
    requires s[0] == 0 && |s| > 2 ==> t[2] == s[2]
    ensures Decode(h, t) == Decode(h, s)
  {
    if s[0] >= h.opcodeBase {
    } else if s[0] == 0 {
      DecodeExtendedLocal(h, s, t, n);
    } else if s[0] == 9 {
      LittleEndianLocal(s, t, 1, 2);
    } else if s[0] == 3 {
      ReadSLocal(s, t, n, 1);
    } else if s[0] in {2, 4, 5, 12} {
      OperandLocal(s, t, n, 1);
    } else if s[0] > 12 {
      SkipLocal(s, t, n, 1, h.lens[s[0]]);
    }
  }

  // ----- the rewriting, on operations and on bytes

  /** The operations of a program, and whether it decodes to its end. */
  datatype Listing = Listing(ops: seq<Op>, ok: bool)

  function List(h: Header, s: Bytes): Listing
    requires h.Valid()
    decreases |s|
  {
    if s == [] then Listing([], true)
    else match Decode(h, s)
      case Bad => Listing([], false)
      case Got(op, n) => var l := List(h, s[n..]); Listing([op] + l.ops, l.ok)
  }

  function RunOps(h: Header, r: Regs, ops: seq<Op>, ok: bool): Outcome
    requires h.Valid()
    decreases |ops|
  {
    if ops == [] then if ok then Done([], r) else Invalid
    else Continue(Exec(h, r, ops[0]), RunOps(h, Exec(h, r, ops[0]).regs, ops[1..], ok))
  }

  lemma {:induction false} RunIsRunOps(h: Header, r: Regs, s: Bytes)
    requires h.Valid()
    ensures Run(h, r, s) == RunOps(h, r, List(h, s).ops, List(h, s).ok)
    decreases |s|
  {
    if s != [] && Decode(h, s).Got? {
      var n := Decode(h, s).next;
      assert List(h, s).ops[1..] == List(h, s[n..]).ops;
      RunIsRunOps(h, Exec(h, r, Decode(h, s).op).regs, s[n..]);
    }
  }

  function ExpandOp(h: Header, op: Op): seq<Op>
    requires h.Valid() && HasBasics(h)
  {
    if op.Special? then [AdvancePc(AddressDelta(h, op.adj)), AdvanceLine(LineDelta(h, op.adj)), Copy] else [op]
  }

  function ExpandOps(h: Header, ops: seq<Op>): seq<Op>
    requires h.Valid() && HasBasics(h)
  {
    if ops == [] then [] else ExpandOp(h, ops[0]) + ExpandOps(h, ops[1..])
  }

  /** A special opcode does what its three standard opcodes do (section 6.2.5.1). */
  lemma {:induction false} ExpansionRuns(h: Header, r: Regs, ops: seq<Op>, ok: bool)
    requires h.Valid() && HasBasics(h)
    ensures RunOps(h, r, ExpandOps(h, ops), ok) == RunOps(h, r, ops, ok)
    decreases |ops|
  {
    if ops != [] {
      var op, rest := ops[0], ExpandOps(h, ops[1..]);
      hide Exec, Continue;
      ExpansionRuns(h, Exec(h, r, op).regs, ops[1..], ok);
      if op.Special? {
        SpecialRuns(h, r, op.adj, rest, ok);
      } else {
        RunOne(h, r, op, rest, ok);
      }
    }
  }

  lemma SpecialRuns(h: Header, r: Regs, adj: nat, rest: seq<Op>, ok: bool)
    requires h.Valid() && HasBasics(h)
    ensures var e := Exec(h, r, Special(adj));
            RunOps(h, r, ExpandOp(h, Special(adj)) + rest, ok) == Continue(e, RunOps(h, e.regs, rest, ok))
  {
    hide Exec, Continue;
    var a, l := AdvancePc(AddressDelta(h, adj)), AdvanceLine(LineDelta(h, adj));
    var r1 := Exec(h, r, a).regs;
    assert ExpandOp(h, Special(adj)) + rest == [a] + ([l] + ([Copy] + rest));
    SpecialIsThreeSteps(h, r, adj);
    hide RunOps;
    RunOne(h, r, a, [l] + ([Copy] + rest), ok);
    RunOne(h, r1, l, [Copy] + rest, ok);
    RunOne(h, Exec(h, r1, l).regs, Copy, rest, ok);
  }

  lemma SpecialIsThreeSteps(h: Header, r: Regs, adj: nat)
    requires h.Valid() && HasBasics(h)
    ensures var r1 := Exec(h, r, AdvancePc(AddressDelta(h, adj))).regs;
            var r2 := Exec(h, r1, AdvanceLine(LineDelta(h, adj))).regs;
            Exec(h, r, Special(adj)) == Exec(h, r2, Copy)
  {
  }

  lemma RunOne(h: Header, r: Regs, op: Op, rest: seq<Op>, ok: bool)
    requires h.Valid()
    ensures RunOps(h, r, [op] + rest, ok) == Continue(Exec(h, r, op), RunOps(h, Exec(h, r, op).regs, rest, ok))
    ensures op.AdvancePc? || op.AdvanceLine? ==>
            RunOps(h, r, [op] + rest, ok) == RunOps(h, Exec(h, r, op).regs, rest, ok)
  {
    assert ([op] + rest)[1..] == rest;
  }

  /** Replaces every special opcode; from an undecodable place on nothing is changed. */
  function Desugar(h: Header, s: Bytes): Bytes
    requires h.Valid() && HasBasics(h)
    decreases |s|
  {
    if s == [] then []
    else match Decode(h, s)
      case Bad => s
      case Got(op, n) =>
        (if op.Special? then Expand(h, op.adj) else s[..n]) + Desugar(h, s[n..])
  }

  /** An unknown extended opcode of length zero: its sub-opcode byte is read again as the next opcode. */
  predicate EmptyExtension(h: Header, s: Bytes)
    requires h.Valid() && |s| > 0
  {
    s[0] == 0 && Decode(h, s).Got? && Decode(h, s).next == 2
  }

  /** No special opcode doubles as the sub-opcode of an empty extension. */
  predicate Plain(h: Header, s: Bytes)
    requires h.Valid()
    decreases |s|
  {
    s != [] && Decode(h, s).Got? ==>
      !(EmptyExtension(h, s) && s[2] >= h.opcodeBase) && Plain(h, s[Decode(h, s).next..])
  }

  lemma TwoBytesUnsigned(s: Bytes, v: nat)
    requires |s| >= 3 && v < 0x4000 && s[1..3] == TwoBytes(v)
    ensures ReadU(s, 1) == ReadResult(v, 3)
  {
    var t := s[1..3];
    assert s[1] == t[0] && s[2] == t[1];
    assert Groups(s, 2, Min(11, |s|), false) == (Closed(v / 128), 3);
  }

  lemma TwoBytesSigned(s: Bytes, v: int)
    requires |s| >= 3 && -0x2000 <= v < 0x2000 && s[1..3] == TwoBytes(v)
    ensures ReadS(s, 1) == ReadResult(v, 3)
  {
    var t := s[1..3];
    assert s[1] == t[0] && s[2] == t[1];
    assert Groups(s, 2, Min(10, |s|), true) == (Closed(v / 128), 3);
  }

  lemma OperandsSmall(h: Header, adj: nat)
    requires h.Valid() && HasBasics(h) && adj < 256
    ensures AddressDelta(h, adj) < 256 && -128 <= LineDelta(h, adj) < 512
  {
    QuotientSmall(adj, h.lineRange);
  }

  lemma DecodeAdvancePc(h: Header, v: nat, rest: Bytes)
    requires h.Valid() && HasBasics(h) && v < 256
    ensures Decode(h, [2] + TwoBytes(v) + rest) == Got(AdvancePc(v), 3)
  {
    var s: Bytes := [2] + TwoBytes(v) + rest;
    assert s[1..3] == TwoBytes(v);
    TwoBytesUnsigned(s, v);
  }

  lemma DecodeAdvanceLine(h: Header, v: int, rest: Bytes)
    requires h.Valid() && HasBasics(h) && -128 <= v < 512
    ensures Decode(h, [3] + TwoBytes(v) + rest) == Got(AdvanceLine(v), 3)
  {
    var s: Bytes := [3] + TwoBytes(v) + rest;
    assert s[1..3] == TwoBytes(v);
    TwoBytesSigned(s, v);
  }

  lemma DecodeCopy(h: Header, rest: Bytes)
    requires h.Valid() && HasBasics(h)
    ensures Decode(h, [1] + rest) == Got(Copy, 1)
  {
  }

  lemma ListHere(h: Header, s: Bytes, op: Op, n: nat)
    requires h.Valid() && s != [] && Decode(h, s) == Got(op, n)
    ensures var l := List(h, s[n..]); List(h, s) == Listing([op] + l.ops, l.ok)
  {
  }

  lemma ListStep(h: Header, code: Bytes, rest: Bytes, op: Op)
    requires h.Valid() && |code| > 0 && Decode(h, code + rest) == Got(op, |code|)
    ensures var l := List(h, rest); List(h, code + rest) == Listing([op] + l.ops, l.ok)
  {
    assert (code + rest)[|code|..] == rest;
  }

  lemma ExpandParts(h: Header, adj: nat, rest: Bytes)
    requires h.Valid() && HasBasics(h) && adj < 256
    ensures var c1: Bytes, c2: Bytes := [2] + TwoBytes(AddressDelta(h, adj)), [3] + TwoBytes(LineDelta(h, adj));
            Expand(h, adj) + rest == c1 + (c2 + ([1] + rest))
  {
    hide TwoBytes;
    OperandsSmall(h, adj);
  }

  lemma ListExpanded(h: Header, adj: nat, rest: Bytes)
    requires h.Valid() && HasBasics(h) && adj < 256
    ensures var l := List(h, rest); List(h, Expand(h, adj) + rest) == Listing(ExpandOp(h, Special(adj)) + l.ops, l.ok)
  {
    hide Decode, List, TwoBytes, Expand;
    OperandsSmall(h, adj);
    ExpandParts(h, adj, rest);
    ListParts(h, AddressDelta(h, adj), LineDelta(h, adj), rest);
  }

  lemma ListParts(h: Header, a: nat, d: int, rest: Bytes)
    requires h.Valid() && HasBasics(h) && a < 256 && -128 <= d < 512
    ensures var c1: Bytes, c2: Bytes, l := [2] + TwoBytes(a), [3] + TwoBytes(d), List(h, rest);
            List(h, c1 + (c2 + ([1] + rest))) == Listing([AdvancePc(a), AdvanceLine(d), Copy] + l.ops, l.ok)
  {
    var c1: Bytes, c2: Bytes, c3: Bytes := [2] + TwoBytes(a), [3] + TwoBytes(d), [1];
    hide Decode, List, TwoBytes, HasBasics, Header.Valid;
    var s3 := c3 + rest;
    var s2 := c2 + s3;
    DecodeAdvancePc(h, a, s2);
    DecodeAdvanceLine(h, d, s3);
    DecodeCopy(h, rest);
    DropPrefix(c1, s2);
    DropPrefix(c2, s3);
    DropPrefix(c3, rest);
    ListThree(h, c1 + s2, s2, s3, rest, AdvancePc(a), AdvanceLine(d), Copy);
  }

  lemma DropPrefix(a: Bytes, b: Bytes)
    ensures (a + b)[|a|..] == b
  {
  }

  lemma ListThree(h: Header, s1: Bytes, s2: Bytes, s3: Bytes, s4: Bytes, o1: Op, o2: Op, o3: Op)
    requires h.Valid() && |s1| >= 3 && |s2| >= 3 && |s3| >= 1
    requires Decode(h, s1) == Got(o1, 3) && s1[3..] == s2
    requires Decode(h, s2) == Got(o2, 3) && s2[3..] == s3
    requires Decode(h, s3) == Got(o3, 1) && s3[1..] == s4
    ensures var l := List(h, s4); List(h, s1) == Listing([o1, o2, o3] + l.ops, l.ok)
  {
    hide Decode, List, Header.Valid;
    ListHere(h, s1, o1, 3);
    ListHere(h, s2, o2, 3);
    ListHere(h, s3, o3, 1);
  }

  lemma {:induction false} DesugarShape(h: Header, s: Bytes)
    requires h.Valid() && HasBasics(h)
    ensures |Desugar(h, s)| >= |s|
    ensures s != [] ==> Desugar(h, s)[0] == if s[0] >= h.opcodeBase then 2 else s[0]
    decreases |s|
  {
    if s != [] && Decode(h, s).Got? {
      DesugarShape(h, s[Decode(h, s).next..]);
    }
  }

  /** A non-special operation is decoded as before once what follows it is rewritten, unless it is an
      empty extension with a special sub-opcode. */
  lemma DesugarKeepsOp(h: Header, s: Bytes)
    requires h.Valid() && HasBasics(h) && s != [] && Decode(h, s).Got? && s[0] < h.opcodeBase
    ensures var n := Decode(h, s).next;
            var d := Decode(h, s[..n] + Desugar(h, s[n..]));
            if EmptyExtension(h, s) && s[2] >= h.opcodeBase then !(d.Got? && d.op == Decode(h, s).op)
            else d == Decode(h, s)
  {
    var n := Decode(h, s).next;
    var t := s[..n] + Desugar(h, s[n..]);
    DesugarShape(h, s[n..]);
    if EmptyExtension(h, s) && s[2] >= h.opcodeBase {
      assert t[2] == 2;
    } else {
      DecodeLocal(h, s, t, n);
    }
  }

  /** The rewritten program decodes to the operations of the original, each special one replaced by its
      three, exactly when the original is plain. */
  lemma {:induction false} DesugarLists(h: Header, s: Bytes)
    requires h.Valid() && HasBasics(h)
    ensures List(h, Desugar(h, s)) == Listing(ExpandOps(h, List(h, s).ops), List(h, s).ok) <==> Plain(h, s)
    decreases |s|
  {
    if s != [] && Decode(h, s).Got? {
      hide Decode, ExpandOp;
      var n, op := Decode(h, s).next, Decode(h, s).op;
      var l, l' := List(h, s[n..]), List(h, Desugar(h, s[n..]));
      DesugarLists(h, s[n..]);
      assert ExpandOps(h, List(h, s).ops) == ExpandOp(h, op) + ExpandOps(h, l.ops) by {
        assert List(h, s).ops[1..] == l.ops;
      }
      hide Desugar, List;
      DesugarListsStep(h, s);
      SameTail(ExpandOp(h, op), l'.ops, ExpandOps(h, l.ops));
    }
  }

  /** Decoding the rewritten program gives the rewritten first operation and then the rest, unless the
      first operation is an empty extension with a special sub-opcode. */
  lemma DesugarListsStep(h: Header, s: Bytes)
    requires h.Valid() && HasBasics(h) && s != [] && Decode(h, s).Got?
    ensures var op := Decode(h, s).op;
            var l, l' := List(h, Desugar(h, s)), List(h, Desugar(h, s[Decode(h, s).next..]));
            if EmptyExtension(h, s) && s[2] >= h.opcodeBase then
              |ExpandOp(h, op)| > 0 && (l.ops == [] || l.ops[0] != ExpandOp(h, op)[0])
            else l == Listing(ExpandOp(h, op) + l'.ops, l'.ok)
  {
    hide List, Decode;
    var n, op := Decode(h, s).next, Decode(h, s).op;
    var rest := Desugar(h, s[n..]);
    DecodedSpecial(h, s);
    if op.Special? {
      hide Desugar;
      ListExpanded(h, op.adj, rest);
    } else {
      hide Desugar;
      DesugarKeepsOp(h, s);
      if EmptyExtension(h, s) && s[2] >= h.opcodeBase {
        ListHead(h, s[..n] + rest, op);
      } else {
        ListStep(h, s[..n], rest, op);
      }
    }
  }

  lemma DecodedSpecial(h: Header, s: Bytes)
    requires h.Valid() && HasBasics(h) && s != [] && Decode(h, s).Got?
    ensures Decode(h, s).op.Special? <==> s[0] >= h.opcodeBase
    ensures EmptyExtension(h, s) ==> |s| > 2
    ensures Decode(h, s).op.Special? ==> Decode(h, s).next == 1 && Decode(h, s).op.adj < 256
    ensures var n := Decode(h, s).next;
            var code := if Decode(h, s).op.Special? then Expand(h, Decode(h, s).op.adj) else s[..n];
            Desugar(h, s) == code + Desugar(h, s[n..])
  {
    hide DecodeStandard;
  }

  lemma ListHead(h: Header, s: Bytes, op: Op)
    requires h.Valid() && s != [] && !(Decode(h, s).Got? && Decode(h, s).op == op)
    ensures List(h, s).ops == [] || List(h, s).ops[0] != op
  {
  }

  lemma SameTail<T>(p: seq<T>, a: seq<T>, b: seq<T>)
    ensures p + a == p + b <==> a == b
  {
    assert (p + a)[|p|..] == a && (p + b)[|p|..] == b;
  }

  /** Replacing every special opcode by advance_pc, advance_line and copy keeps every row and the final
      registers, from every state. */
  lemma DesugarRuns(h: Header, r: Regs, s: Bytes)
    requires h.Valid() && HasBasics(h) && Plain(h, s)
    ensures Run(h, r, Desugar(h, s)) == Run(h, r, s)
  {
    DesugarLists(h, s);
    RunIsRunOps(h, r, s);
    RunIsRunOps(h, r, Desugar(h, s));
    ExpansionRuns(h, r, List(h, s).ops, List(h, s).ok);
  }

  /** Without that condition the rewriting is wrong: in 0, 0, 200 the opcode 200 is also the sub-opcode of
      an unknown extended operation of length zero, and its replacement reads as set_address. */
  lemma DesugarFails(h: Header)
    requires h.Valid() && HasBasics(h) && h.opcodeBase <= 200 && h.addressSize == 8 && h.defaultIsStmt < 2
    ensures Run(h, Initial(h), [0, 0, 200]).Done?
    ensures Run(h, Initial(h), Desugar(h, [0, 0, 200])) == Invalid
  {
    var s: Bytes := [0, 0, 200];
    OperandsSmall(h, 200 - h.opcodeBase);
    var tail: Bytes := [200];
    assert s[2..] == tail && tail[1..] == [];
    assert Decode(h, s) == Got(Ignored, 2);
    assert Decode(h, tail) == Got(Special(200 - h.opcodeBase), 1);
    assert Run(h, Initial(h), s) == Run(h, Initial(h), tail);
    assert Desugar(h, tail) == Expand(h, 200 - h.opcodeBase);
    var t := Desugar(h, s);
    assert t == s[..2] + Expand(h, 200 - h.opcodeBase);
    assert Decode(h, t) == Bad;
  }
}
