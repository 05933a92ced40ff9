/** Line-number programs by their bytes: how every operation is written (sections 6.2.5.1 to 6.2.5.3 of DWARF 5),
    what reading it back gives, and which row it leads to. */
module LineEncoding {
  import opened Arithmetic
  import opened Leb128
  import opened LineProgram

  /** The n low bytes of v, least significant first. */
  function LittleBytes(v: nat, n: nat): (s: Bytes)
    ensures |s| == n
  {
    if n == 0 then [] else [v % 256] + LittleBytes(v / 256, n - 1)
  }

  /** An extended operation: its length, which counts the sub-opcode, as a LEB128, the sub-opcode and operands. */
  function Extended(sub: Byte, operands: Bytes): Bytes
  {
    [0] + EncodeU(1 + |operands|) + [sub] + operands
  }

  function FileBytes(path: Bytes, dir: nat, mtime: nat, size: nat): Bytes
  {
    path + [0] + EncodeU(dir) + EncodeU(mtime) + EncodeU(size)
  }

  function Encode(h: Header, op: Op): Bytes
    requires op.Special? ==> h.opcodeBase + op.adj < 256
  {
    match op
    case Special(adj) => [h.opcodeBase + adj]
    case Copy => [1]
    case AdvancePc(v) => [2] + EncodeU(v)
    case AdvanceLine(d) => [3] + EncodeS(d)
    case SetFile(v) => [4] + EncodeU(v)
    case SetColumn(v) => [5] + EncodeU(v)
    case NegateStmt => [6]
    case SetBasicBlock => [7]
    case ConstAddPc => [8]
    case FixedAdvancePc(v) => [9] + LittleBytes(v, 2)
    case SetPrologueEnd => [10]
    case SetEpilogueBegin => [11]
    case SetIsa(v) => [12] + EncodeU(v)
    case EndSequence => Extended(1, [])
    case SetAddress(a) => Extended(2, LittleBytes(a, h.addressSize))
    case DefineFile(path, dir, mtime, size) => Extended(3, FileBytes(path, dir, mtime, size))
    case SetDiscriminator(v) => Extended(4, EncodeU(v))
    case InlinedCall(c, f) => Extended(144, EncodeU(c) + EncodeU(f))
    case SetFunctionName(f) => Extended(145, EncodeU(f))
    case Ignored => []
  }

  /** The opcode of a standard operation and the number of its operands. */
  function Opcode(op: Op): nat
  {
    match op
    case Copy => 1
    case AdvancePc(_) => 2
    case AdvanceLine(_) => 3
    case SetFile(_) => 4
    case SetColumn(_) => 5
    case NegateStmt => 6
    case SetBasicBlock => 7
    case ConstAddPc => 8
    case FixedAdvancePc(_) => 9
    case SetPrologueEnd => 10
    case SetEpilogueBegin => 11
    case SetIsa(_) => 12
    case _ => 0
  }

  predicate OneOperand(opcode: nat)
  {
    opcode in {2, 3, 4, 5, 9, 12}
  }

  /** The header gives the opcode its standard number of operands. */
  predicate Declared(h: Header, opcode: nat)
    requires |h.lens| == 256
  {
    0 < opcode < h.opcodeBase && opcode < 256 && h.lens[opcode] == if OneOperand(opcode) then 1 else 0
  }

  /** The operations that a program can be made of, with operands of up to 64 bits. */
  ghost predicate Writable(h: Header, op: Op)
    requires h.Valid()
  {
    match op
    case Special(adj) => h.opcodeBase + adj < 256 && h.lineRange > 0
    case EndSequence => true
    case SetAddress(a) => a < if h.addressSize == 4 then 4294967296 else 18446744073709551616
    case DefineFile(path, dir, mtime, size) =>
      (forall i :: 0 <= i < |path| ==> path[i] != 0) && dir < U64 && mtime < U64 && size < U64
    case SetDiscriminator(v) => v < U64 && h.lens[4] == 1
    case InlinedCall(c, f) => c < U64 && f < U64
    case SetFunctionName(f) => f < U64
    case AdvancePc(v) => v < U64 && Declared(h, 2)
    case AdvanceLine(d) => -U64 / 2 <= d < U64 / 2 && Declared(h, 3)
    case SetFile(v) => v < U64 && Declared(h, 4)
    case SetColumn(v) => v < U64 && Declared(h, 5)
    case ConstAddPc => Declared(h, 8) && h.lineRange > 0
    case FixedAdvancePc(v) => v < 65536 && Declared(h, 9)
    case SetIsa(v) => v < U64 && Declared(h, 12)
    case Ignored => false
    case _ => Declared(h, Opcode(op))
  }

  /** The registers are 32 bits wide except for the address; wider operands are cut. */
  function Kept(op: Op): Op
  {
    match op
    case AdvancePc(v) => AdvancePc(v % 4294967296)
    case AdvanceLine(d) => AdvanceLine((d + 2147483648) % 4294967296 - 2147483648)
    case SetFile(v) => SetFile(v % 4294967296)
    case SetColumn(v) => SetColumn(v % 4294967296)
    case SetIsa(v) => SetIsa(v % 4294967296)
    case SetDiscriminator(v) => SetDiscriminator(v % 4294967296)
    case InlinedCall(c, f) => InlinedCall(c % 4294967296, f % 4294967296)
    case SetFunctionName(f) => SetFunctionName(f % 4294967296)
    case DefineFile(path, dir, mtime, size) => DefineFile(path, dir % 4294967296, mtime, size)
    case _ => op
  }

  lemma OperandRead(s: Bytes, p: nat, v: nat)
    requires At(s, p, EncodeU(v)) && v < U64
    ensures Operand(s, p) == Got(SetFile(v % 4294967296), p + |EncodeU(v)|)
  {
    ReadsBackU(s, p, v);
  }

  lemma {:induction false} LittleRead(s: Bytes, p: nat, v: nat, n: nat)
    requires At(s, p, LittleBytes(v, n)) && v < Pow256(n)
    ensures LittleEndian(s, p, n) == v
    decreases n
  {
    if n > 0 {
      AtTail(s, p, LittleBytes(v, n));
      assert LittleBytes(v, n)[1..] == LittleBytes(v / 256, n - 1);
      LittleRead(s, p + 1, v / 256, n - 1);
    }
  }

  function Pow256(n: nat): nat
  {
    if n == 0 then 1 else 256 * Pow256(n - 1)
  }

  lemma AddressSizes()
    ensures Pow256(2) == 65536 && Pow256(4) == 4294967296 && Pow256(8) == 18446744073709551616
  {
    assert Pow256(6) == 0x1_0000_0000_0000;
  }

  // ----- standard and special operations

  lemma StandardRead(h: Header, op: Op, s: Bytes)
    requires h.Valid() && Writable(h, op) && 0 < Opcode(op) && At(s, 0, Encode(h, op))
    ensures Decode(h, s) == Got(Kept(op), |Encode(h, op)|)
  {
    hide EncodeU, EncodeS, ReadU, ReadS, LittleBytes;
    AtTail(s, 0, Encode(h, op));
    match op
    case AdvancePc(v) => OneOperandRead(s, 2, v);
    case AdvanceLine(d) =>
      AtSplit(s, 0, [3], EncodeS(d));
      ReadsBackS(s, 1, d);
    case SetFile(v) => OneOperandRead(s, 4, v);
    case SetColumn(v) => OneOperandRead(s, 5, v);
    case SetIsa(v) => OneOperandRead(s, 12, v);
    case FixedAdvancePc(v) =>
      AtSplit(s, 0, [9], LittleBytes(v, 2));
      AddressSizes();
      LittleRead(s, 1, v, 2);
    case _ =>
  }

  lemma OneOperandRead(s: Bytes, opcode: Byte, v: nat)
    requires At(s, 0, [opcode] + EncodeU(v)) && v < U64
    ensures s != [] && s[0] == opcode && Operand(s, 1) == Got(SetFile(v % 4294967296), 1 + |EncodeU(v)|)
  {
    AtTail(s, 0, [opcode] + EncodeU(v));
    AtSplit(s, 0, [opcode], EncodeU(v));
    OperandRead(s, 1, v);
  }

  // ----- extended operations

  /** A length below 128 is one byte. */
  lemma ExtendedParts(s: Bytes, sub: Byte, operands: Bytes)
    requires At(s, 0, Extended(sub, operands)) && 1 + |operands| < 128
    ensures |s| >= 3 + |operands| && s[0] == 0 && s[1] == 1 + |operands| && s[2] == sub && At(s, 3, operands)
    ensures |Extended(sub, operands)| == 3 + |operands|
  {
    var t := Extended(sub, operands);
    assert t == [0, 1 + |operands|, sub] + operands;
    AtSplit(s, 0, [0, 1 + |operands|, sub], operands);
    assert s[0..|t|][0] == s[0] && s[0..|t|][1] == s[1] && s[0..|t|][2] == s[2];
  }

  lemma {:induction false} ShortOperand(v: nat)
    requires v < U64
    ensures |EncodeU(v)| <= 10
  {
    PowersOf128();
    LengthU(v, 10);
  }

  /** The operands of an extended operation. */
  function OperandBytes(h: Header, op: Op): Bytes
  {
    match op
    case SetAddress(a) => LittleBytes(a, h.addressSize)
    case DefineFile(path, dir, mtime, size) => FileBytes(path, dir, mtime, size)
    case SetDiscriminator(v) => EncodeU(v)
    case InlinedCall(c, f) => EncodeU(c) + EncodeU(f)
    case SetFunctionName(f) => EncodeU(f)
    case _ => []
  }

  lemma ShortOperands(h: Header, op: Op)
    requires h.Valid() && Writable(h, op) && !op.DefineFile?
    ensures 1 + |OperandBytes(h, op)| < 128
  {
    hide EncodeU;
    match op
    case SetDiscriminator(v) => ShortOperand(v);
    case InlinedCall(c, f) => ShortOperand(c); ShortOperand(f);
    case SetFunctionName(f) => ShortOperand(f);
    case _ =>
  }

  /** A file in a directory that the header does not list. */
  predicate NoSuchDirectory(h: Header, op: Op)
  {
    op.DefineFile? && op.dir % 4294967296 >= h.dirs
  }

  lemma ExtendedRead(h: Header, op: Op, s: Bytes)
    requires h.Valid() && Writable(h, op) && At(s, 0, Encode(h, op)) && 1 + |OperandBytes(h, op)| < 128
    requires op.EndSequence? || op.SetAddress? || op.DefineFile? || op.SetDiscriminator? || op.InlinedCall?
             || op.SetFunctionName?
    ensures Decode(h, s) == if NoSuchDirectory(h, op) then Bad else Got(Kept(op), |Encode(h, op)|)
  {
    hide EncodeU, ReadU, LittleBytes, FileBytes, Extended, DecodeFile, Operand;
    var operands := OperandBytes(h, op);
    match op
    case EndSequence => ExtendedParts(s, 1, operands);
    case SetAddress(a) =>
      ExtendedParts(s, 2, operands);
      AddressSizes();
      LittleRead(s, 3, a, h.addressSize);
    case DefineFile(path, dir, mtime, size) =>
      ExtendedParts(s, 3, operands);
      FileRead(h, s, 3, path, dir, mtime, size);
    case SetDiscriminator(v) =>
      ExtendedParts(s, 4, operands);
      OperandRead(s, 3, v);
    case InlinedCall(c, f) =>
      ExtendedParts(s, 144, operands);
      AtSplit(s, 3, EncodeU(c), EncodeU(f));
      OperandRead(s, 3, c);
      OperandRead(s, 3 + |EncodeU(c)|, f);
    case SetFunctionName(f) =>
      ExtendedParts(s, 145, operands);
      OperandRead(s, 3, f);
  }

  lemma {:induction false} ZeroFound(s: Bytes, p: nat, path: Bytes)
    requires At(s, p, path + [0]) && forall i :: 0 <= i < |path| ==> path[i] != 0
    ensures ZeroAt(s, p) == p + |path| < |s| && s[p..p + |path|] == path
    decreases |path|
  {
    AtSplit(s, p, path, [0]);
    AtTail(s, p + |path|, [0]);
    if path != [] {
      AtTail(s, p, path);
      assert (path + [0])[1..] == path[1..] + [0];
      AtTail(s, p, path + [0]);
      ZeroFound(s, p + 1, path[1..]);
    }
  }

  lemma FileRead(h: Header, s: Bytes, p: nat, path: Bytes, dir: nat, mtime: nat, size: nat)
    requires At(s, p, FileBytes(path, dir, mtime, size)) && forall i :: 0 <= i < |path| ==> path[i] != 0
    requires dir < U64 && mtime < U64 && size < U64
    ensures p <= |s| && DecodeFile(h, s, p) ==
            if dir % 4294967296 >= h.dirs then Bad
            else Got(DefineFile(path, dir % 4294967296, mtime, size), p + |FileBytes(path, dir, mtime, size)|)
  {
    hide EncodeU, ReadU, ZeroAt, At;
    FileParts(s, p, path, dir, mtime, size);
    ZeroFound(s, p, path);
    var q := p + |path| + 1;
    OperandRead(s, q, dir);
    var q1 := q + |EncodeU(dir)|;
    Begun(s, q1, EncodeU(mtime));
    ReadsBackU(s, q1, mtime);
    var q2 := q1 + |EncodeU(mtime)|;
    Begun(s, q2, EncodeU(size));
    ReadsBackU(s, q2, size);
  }

  lemma Begun(s: Bytes, p: nat, code: Bytes)
    requires At(s, p, code) && code != []
    ensures p < |s|
  {
  }

  lemma FileParts(s: Bytes, p: nat, path: Bytes, dir: nat, mtime: nat, size: nat)
    requires At(s, p, FileBytes(path, dir, mtime, size))
    ensures p <= |s| && At(s, p, path + [0]) && At(s, p + |path| + 1, EncodeU(dir))
    ensures var q := p + |path| + 1 + |EncodeU(dir)|;
            At(s, q, EncodeU(mtime)) && At(s, q + |EncodeU(mtime)|, EncodeU(size))
  {
    hide *;
    var d, m, z := EncodeU(dir), EncodeU(mtime), EncodeU(size);
    FileJoined(path, dir, mtime, size);
    AtSplit(s, p, path + [0], d + (m + z));
    AtSplit(s, p + |path| + 1, d, m + z);
    AtSplit(s, p + |path| + 1 + |d|, m, z);
    AtInside(s, p, path + [0]);
  }

  lemma FileJoined(path: Bytes, dir: nat, mtime: nat, size: nat)
    ensures FileBytes(path, dir, mtime, size) == (path + [0]) + (EncodeU(dir) + (EncodeU(mtime) + EncodeU(size)))
  {
    hide EncodeU;
  }

  lemma AtInside(s: Bytes, p: nat, code: Bytes)
    requires At(s, p, code)
    ensures p + |code| <= |s|
  {
  }

  // ----- every operation

  lemma FirstBytes(v: nat)
    requires v >= 128
    ensures EncodeU(v) == [128 + v % 128] + EncodeU(v / 128) && EncodeU(v)[1] == EncodeU(v / 128)[0]
    ensures EncodeU(v / 128)[0] == 3 ==> |EncodeU(v)| == 2
  {
    assert EncodeU(v)[1..] == EncodeU(v / 128);
    assert EncodeU(v)[1] == EncodeU(v)[1..][0];
  }

  /** The reader takes the length for one byte: a longer one makes it take the length's second byte for the
      sub-opcode, and it never reads the operation that was written. */
  lemma LongFile(h: Header, op: Op, s: Bytes)
    requires h.Valid() && Writable(h, op) && op.DefineFile? && At(s, 0, Encode(h, op))
    requires 1 + |OperandBytes(h, op)| >= 128
    ensures !(Decode(h, s).Got? && Decode(h, s).op == Kept(op))
  {
    hide *;
    FileIsExtended(h, op);
    LongBytes(s, 3, FileBytes(op.path, op.dir, op.mtime, op.size));
    FileDecoded(h, s);
    if Decode(h, s).Got? && Decode(h, s).op.DefineFile? {
      OtherPath(s, op.path, op.dir, op.mtime, op.size);
    }
  }

  lemma FileIsExtended(h: Header, op: Op)
    requires op.DefineFile?
    ensures OperandBytes(h, op) == FileBytes(op.path, op.dir, op.mtime, op.size)
    ensures Kept(op).DefineFile? && Kept(op).path == op.path
    ensures Encode(h, op) == Extended(3, FileBytes(op.path, op.dir, op.mtime, op.size))
  {
  }

  /** The first bytes of an extended operation of 128 bytes or more. */
  lemma LongBytes(s: Bytes, sub: Byte, operands: Bytes)
    requires At(s, 0, Extended(sub, operands)) && 1 + |operands| >= 128
    ensures |s| > 3 && s[0] == 0 && (s[2] == 3 ==> s[3] == sub && At(s, 4, operands))
  {
    var n := 1 + |operands|;
    var t := EncodeU(n);
    FirstBytes(n);
    hide EncodeU;
    assert Extended(sub, operands) == [0] + (t + ([sub] + operands));
    AtSplit(s, 0, [0], t + ([sub] + operands));
    AtSplit(s, 1, t, [sub] + operands);
    AtSplit(s, 1 + |t|, [sub], operands);
    hide Extended;
    AtTail(s, 0, [0]);
    AtTail(s, 1, t);
    AtTail(s, 2, t[1..]);
    AtTail(s, 1 + |t|, [sub]);
  }

  lemma FileDecoded(h: Header, s: Bytes)
    requires h.Valid() && |s| > 3 && s[0] == 0
    ensures Decode(h, s).Got? && Decode(h, s).op.DefineFile? ==>
              s[2] == 3 && Decode(h, s).op.path == s[3..ZeroAt(s, 3)]
  {
    hide ReadU, ReadS, LittleEndian, ZeroAt;
  }

  /** A path that begins one byte before the one written is another path. */
  lemma OtherPath(s: Bytes, path: Bytes, dir: nat, mtime: nat, size: nat)
    requires |s| > 3 && s[3] == 3 && At(s, 4, FileBytes(path, dir, mtime, size))
    ensures s[3..ZeroAt(s, 3)] != path
  {
    var z := ZeroAt(s, 3);
    ZeroAtIs(s, 3);
    AtPath(s, 4, path, dir, mtime, size);
    assert path != [] ==> s[4..4 + |path|][|path| - 1] == s[3 + |path|];
    assert s[3..z] == path && path != [] ==> s[3..z][|path| - 1] == s[2 + |path|];
  }

  lemma {:induction false} ZeroAtIs(s: Bytes, p: nat)
    requires p <= |s|
    ensures ZeroAt(s, p) < |s| ==> s[ZeroAt(s, p)] == 0
    ensures forall i :: p <= i < ZeroAt(s, p) ==> s[i] != 0
    decreases |s| - p
  {
    if p < |s| && s[p] != 0 {
      ZeroAtIs(s, p + 1);
    }
  }

  lemma AtPath(s: Bytes, p: nat, path: Bytes, dir: nat, mtime: nat, size: nat)
    requires At(s, p, FileBytes(path, dir, mtime, size))
    ensures p + |path| < |s| && s[p..p + |path|] == path
  {
    hide *;
    FileParts(s, p, path, dir, mtime, size);
    PathIsThere(s, p, path);
  }

  lemma PathIsThere(s: Bytes, p: nat, path: Bytes)
    requires At(s, p, path + [0])
    ensures p + |path| < |s| && s[p..p + |path|] == path
  {
    AtSplit(s, p, path, [0]);
  }

  lemma AtStart(code: Bytes, rest: Bytes)
    ensures At(code + rest, 0, code)
  {
  }

  /** Every operation is read back from its bytes, whatever follows, with its operands cut to 32 bits, except a
      file definition of 128 bytes or more, or in a directory that there is not. */
  lemma EncodedIsDecoded(h: Header, op: Op, rest: Bytes)
    requires h.Valid() && Writable(h, op)
    ensures Decode(h, Encode(h, op) + rest) == Got(Kept(op), |Encode(h, op)|) <==>
            !(op.DefineFile? &&
              (1 + |FileBytes(op.path, op.dir, op.mtime, op.size)| >= 128 || op.dir % 4294967296 >= h.dirs))
  {
    var s := Encode(h, op) + rest;
    AtStart(Encode(h, op), rest);
    hide At, FileBytes;
    if op.Special? {
    } else if Opcode(op) > 0 {
      hide Encode, Decode, Writable;
      StandardRead(h, op, s);
    } else {
      if !op.DefineFile? {
        ShortOperands(h, op);
      }
      hide Encode, Decode;
      if 1 + |OperandBytes(h, op)| < 128 {
        hide Writable;
        ExtendedRead(h, op, s);
      } else {
        LongFile(h, op, s);
      }
    }
  }

  // ----- operations the reader does not know, and what it rejects

  /** The operands of an unknown standard opcode, as many as the header declares. */
  function AllEncoded(operands: seq<nat>): Bytes
  {
    if operands == [] then [] else EncodeU(operands[0]) + AllEncoded(operands[1..])
  }

  lemma {:induction false} OperandsSkipped(s: Bytes, p: nat, operands: seq<nat>)
    requires At(s, p, AllEncoded(operands)) && forall i :: 0 <= i < |operands| ==> operands[i] < U64
    ensures p <= |s| && SkipOperands(s, p, |operands|) == Got(Ignored, p + |AllEncoded(operands)|)
    decreases |operands|
  {
    hide EncodeU, ReadU;
    if operands != [] {
      AtSplit(s, p, EncodeU(operands[0]), AllEncoded(operands[1..]));
      OperandRead(s, p, operands[0]);
      OperandsSkipped(s, p + |EncodeU(operands[0])|, operands[1..]);
    }
  }

  /** An unknown standard opcode is skipped with its operands. */
  lemma UnknownStandard(h: Header, opcode: Byte, operands: seq<nat>, rest: Bytes)
    requires h.Valid() && 12 < opcode < h.opcodeBase && h.lens[opcode] == |operands|
    requires forall i :: 0 <= i < |operands| ==> operands[i] < U64
    ensures Decode(h, [opcode] + AllEncoded(operands) + rest) == Got(Ignored, 1 + |AllEncoded(operands)|)
  {
    var code := [opcode] + AllEncoded(operands);
    AtStart(code, rest);
    AtSplit(code + rest, 0, [opcode], AllEncoded(operands));
    OperandsSkipped(code + rest, 1, operands);
  }

  /** An unknown extended operation is skipped by the length that one byte gives, even 0. */
  lemma UnknownExtended(h: Header, s: Bytes)
    requires h.Valid() && |s| > 2 && s[0] == 0 && s[2] !in {1, 2, 3, 4, 144, 145}
    ensures var length: nat := s[1]; Decode(h, s) == if |s| < 2 + length then Bad else Got(Ignored, 2 + length)
  {
  }

  /** Rejected: a standard opcode declared with another number of operands, a missing operand, an extended
      operation that does not fit, and line arithmetic with a range of 0. */
  lemma Rejected(h: Header, s: Bytes)
    requires h.Valid() && s != []
    ensures s[0] < h.opcodeBase && 1 <= s[0] <= 12 && !Declared(h, s[0]) ==> Decode(h, s).Bad?
    ensures s[0] < h.opcodeBase && 1 <= s[0] <= 12 && OneOperand(s[0]) && |s| == 1 ==> Decode(h, s).Bad?
    ensures s[0] == 0 && (|s| < 3 || |s| - 2 < s[1]) ==> Decode(h, s).Bad?
    ensures s[0] == 0 && |s| > 2 && s[2] == 4 && h.lens[4] != 1 ==> Decode(h, s).Bad?
    ensures (s[0] >= h.opcodeBase || s[0] == 8) && h.lineRange == 0 ==> Decode(h, s).Bad?
  {
    hide DecodeFile, ReadU, ReadS, LittleEndian;
  }

  // ----- the rows

  /** What the fields of a stored row can hold. */
  predicate Storable(q: Regs)
  {
    && q.opIndex < 256 && q.file < 4294967296 && -2147483648 <= q.line < 2147483648 && q.column < 65536
    && q.isStmt < 2 && q.isa < 256
  }

  /** A program that emits one row, that of q, and then ends. */
  ghost predicate EmitsRow(o: Outcome, q: Regs)
  {
    o == if Storable(q) then
           Done([Row(q.(discriminator := q.discriminator % 16777216), false)],
                q.(basicBlock := false, prologueEnd := false, epilogueBegin := false, discriminator := 0))
         else Invalid
  }

  /** The program that ends with these bytes and a copy emits the row of q. */
  ghost predicate Leads(h: Header, r: Regs, code: Bytes, q: Regs)
    requires h.Valid()
  {
    EmitsRow(Run(h, r, code + [1]), q)
  }

  /** The address and op_index a units further (section 6.2.5.1), in the widths of the registers. */
  function Onward(h: Header, r: Regs, a: nat): Regs
    requires h.Valid()
  {
    var ops := (r.opIndex + a) % 4294967296;
    r.(addr := (r.addr + (h.minLength * (ops / h.maxOps)) % 4294967296) % 18446744073709551616,
       opIndex := ops % h.maxOps)
  }

  lemma RunCopy(h: Header, r: Regs)
    requires h.Valid() && Declared(h, 1)
    ensures EmitsRow(Run(h, r, [1]), r)
  {
    assert Decode(h, [1]) == Got(Copy, 1);
    var rest: Bytes := [];
    assert [1][1..] == rest;
    assert Run(h, AfterRow(r), rest) == Done([], AfterRow(r));
  }

  lemma RunQuiet(h: Header, r: Regs, code: Bytes, op: Op)
    requires h.Valid() && Declared(h, 1) && code != [] && Decode(h, code + [1]) == Got(op, |code|)
    requires !op.Special? && !op.Copy? && !op.EndSequence?
    ensures Leads(h, r, code, Set(h, r, op))
  {
    hide EmitsRow, Set, Decode;
    assert (code + [1])[|code|..] == [1];
    RunCopy(h, Set(h, r, op));
    assert Exec(h, r, op) == Quiet(Set(h, r, op));
  }

  lemma NotLong(h: Header, op: Op)
    requires h.Valid() && Writable(h, op) && !op.DefineFile?
    ensures Decode(h, Encode(h, op) + [1]) == Got(Kept(op), |Encode(h, op)|)
  {
    hide *;
    EncodedIsDecoded(h, op, [1]);
  }

  lemma EncodeSome(h: Header, op: Op)
    requires h.Valid() && Writable(h, op)
    ensures Encode(h, op) != []
  {
    hide EncodeU, EncodeS, LittleBytes;
  }

  lemma RunEncoded(h: Header, r: Regs, op: Op)
    requires h.Valid() && Declared(h, 1) && Writable(h, op) && !op.DefineFile?
    requires !op.Special? && !op.Copy? && !op.EndSequence?
    ensures Leads(h, r, Encode(h, op), Set(h, r, Kept(op)))
  {
    hide Leads, Writable, Declared, Set, Encode, Decode;
    EncodeSome(h, op);
    NotLong(h, op);
    RunQuiet(h, r, Encode(h, op), Kept(op));
  }

  /** The row that a copy emits after one operation that sets a register. */
  lemma RegisterRows(h: Header, r: Regs, op: Op)
    requires h.Valid() && Declared(h, 1) && Writable(h, op)
    ensures op.AdvanceLine? ==>
              Leads(h, r, Encode(h, op),
                    r.(line := r.line + (op.delta + 2147483648) % 4294967296 - 2147483648))
    ensures op.SetFile? ==> Leads(h, r, Encode(h, op), r.(file := op.value % 4294967296))
    ensures op.SetColumn? ==> Leads(h, r, Encode(h, op), r.(column := op.value % 4294967296))
    ensures op.SetIsa? ==> Leads(h, r, Encode(h, op), r.(isa := op.value % 4294967296))
    ensures op.SetDiscriminator? ==> Leads(h, r, Encode(h, op), r.(discriminator := op.value % 4294967296))
    ensures op.NegateStmt? ==> Leads(h, r, Encode(h, op), r.(isStmt := (257 - r.isStmt % 256) % 256))
    ensures op.SetBasicBlock? ==> Leads(h, r, Encode(h, op), r.(basicBlock := true))
    ensures op.SetPrologueEnd? ==> Leads(h, r, Encode(h, op), r.(prologueEnd := true))
    ensures op.SetEpilogueBegin? ==> Leads(h, r, Encode(h, op), r.(epilogueBegin := true))
  {
    hide *;
    if !op.DefineFile? && !op.Special? && !op.Copy? && !op.EndSequence? {
      RunEncoded(h, r, op);
      RegisterSet(h, r, op);
    }
  }

  lemma RegisterSet(h: Header, r: Regs, op: Op)
    requires h.Valid() && !op.DefineFile? && !op.Special? && !op.Copy? && !op.EndSequence?
    ensures var q := Set(h, r, Kept(op));
            && (op.AdvanceLine? ==> q == r.(line := r.line + (op.delta + 2147483648) % 4294967296 - 2147483648))
            && (op.SetFile? ==> q == r.(file := op.value % 4294967296))
            && (op.SetColumn? ==> q == r.(column := op.value % 4294967296))
            && (op.SetIsa? ==> q == r.(isa := op.value % 4294967296))
            && (op.SetDiscriminator? ==> q == r.(discriminator := op.value % 4294967296))
    ensures var q := Set(h, r, Kept(op));
            && (op.NegateStmt? ==> q == r.(isStmt := (257 - r.isStmt % 256) % 256))
            && (op.SetBasicBlock? ==> q == r.(basicBlock := true))
            && (op.SetPrologueEnd? ==> q == r.(prologueEnd := true))
            && (op.SetEpilogueBegin? ==> q == r.(epilogueBegin := true))
  {
  }

  /** The row that a copy emits after one operation that moves the address or names a function. */
  lemma AddressRows(h: Header, r: Regs, op: Op)
    requires h.Valid() && Declared(h, 1) && Writable(h, op)
    ensures op.AdvancePc? ==> Leads(h, r, Encode(h, op), Onward(h, r, op.value % 4294967296))
    ensures op.ConstAddPc? && h.lineRange > 0 ==>
              Leads(h, r, Encode(h, op), Onward(h, r, (255 - h.opcodeBase) / h.lineRange))
    ensures op.FixedAdvancePc? ==>
              Leads(h, r, Encode(h, op), r.(addr := (r.addr + op.value) % 18446744073709551616, opIndex := 0))
    ensures op.SetAddress? ==> Leads(h, r, Encode(h, op), r.(addr := op.addr, opIndex := 0))
    ensures op.SetFunctionName? ==>
              Leads(h, r, Encode(h, op), r.(functionName := (op.name % 4294967296 + h.strOffset) % 4294967296))
    ensures op.InlinedCall? ==>
              Leads(h, r, Encode(h, op), r.(context := op.context % 4294967296,
                                            functionName := (op.name % 4294967296 + h.strOffset) % 4294967296))
  {
    hide *;
    if op.AdvancePc? || op.ConstAddPc? || op.FixedAdvancePc? || op.SetAddress? || op.SetFunctionName? ||
       op.InlinedCall? {
      RunEncoded(h, r, op);
      AddressSet(h, r, op);
    }
  }

  lemma AddressSet(h: Header, r: Regs, op: Op)
    requires h.Valid() && Writable(h, op) && !op.DefineFile? && !op.Special? && !op.Copy? && !op.EndSequence?
    ensures var q := Set(h, r, Kept(op));
            && (op.AdvancePc? ==> q == Onward(h, r, op.value % 4294967296))
            && (op.ConstAddPc? ==> h.lineRange > 0 && q == Onward(h, r, (255 - h.opcodeBase) / h.lineRange))
            && (op.FixedAdvancePc? ==> q == r.(addr := (r.addr + op.value) % 18446744073709551616, opIndex := 0))
            && (op.SetAddress? ==> q == r.(addr := op.addr, opIndex := 0))
    ensures var q := Set(h, r, Kept(op));
            && (op.SetFunctionName? ==>
                  q == r.(functionName := (op.name % 4294967296 + h.strOffset) % 4294967296))
            && (op.InlinedCall? ==>
                  q == r.(context := op.context % 4294967296,
                          functionName := (op.name % 4294967296 + h.strOffset) % 4294967296))
  {
  }

  /** A special opcode emits a row by itself: line and address move by its two parts. */
  lemma SpecialRow(h: Header, r: Regs, opcode: Byte)
    requires h.Valid() && h.opcodeBase <= opcode && h.lineRange > 0
    ensures var adj := opcode - h.opcodeBase;
            EmitsRow(Run(h, r, [opcode]),
                     Onward(h, r.(line := r.line + h.lineBase + adj % h.lineRange), adj / h.lineRange))
  {
    hide *;
    var adj := opcode - h.opcodeBase;
    var q := Onward(h, r.(line := r.line + h.lineBase + adj % h.lineRange), adj / h.lineRange);
    SpecialEffect(h, r, opcode);
    RunEmits(h, r, [opcode], Special(adj), q);
  }

  lemma SpecialEffect(h: Header, r: Regs, opcode: Byte)
    requires h.Valid() && h.opcodeBase <= opcode && h.lineRange > 0
    ensures var adj := opcode - h.opcodeBase;
            var q := Onward(h, r.(line := r.line + h.lineBase + adj % h.lineRange), adj / h.lineRange);
            Decode(h, [opcode]) == Got(Special(adj), 1) && Exec(h, r, Special(adj)) == Emits(q, false, AfterRow(q))
  {
    assert r.line + h.lineBase + (opcode - h.opcodeBase) % h.lineRange ==
           r.line + LineDelta(h, opcode - h.opcodeBase);
  }

  lemma RunEmits(h: Header, r: Regs, code: Bytes, op: Op, q: Regs)
    requires h.Valid() && code != [] && Decode(h, code) == Got(op, |code|)
    requires Exec(h, r, op) == Emits(q, false, AfterRow(q))
    ensures EmitsRow(Run(h, r, code), q)
  {
    hide Decode, Exec;
    assert code[|code|..] == [];
    RunNothing(h, AfterRow(q));
  }

  lemma RunNothing(h: Header, r: Regs)
    requires h.Valid()
    ensures Run(h, r, []) == Done([], r)
  {
  }

  /** The end of a sequence emits a row marked as such and sets the registers to their initial values. */
  lemma EndRow(h: Header, r: Regs)
    requires h.Valid()
    ensures Run(h, r, Encode(h, EndSequence)) ==
            if Storable(r) then
              Done([Row(r.(discriminator := r.discriminator % 16777216), true)],
                   Regs(0, 0, 1, 1, 0, h.defaultIsStmt, false, false, false, 0, 0, 0, 0))
            else Invalid
  {
    var s: Bytes := [0, 1, 1];
    assert Encode(h, EndSequence) == s;
    assert Decode(h, s) == Got(EndSequence, 3);
    var rest: Bytes := [];
    assert s[3..] == rest;
    RunNothing(h, Initial(h));
  }
}
