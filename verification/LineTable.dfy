/** The line state machine as the reader runs it, the ordering of its rows, and the in-place build of the table. */
module LineTable {
  import opened Arithmetic
  import opened Leb128
  import opened LineProgram

  /** A row with its position in the order of emission. */
  datatype Entry = Entry(row: Row, sequence: nat)

  // ----- the order of the finished table

  function EndFlag(e: Entry): int
  {
    if e.row.endSequence then 1 else 0
  }

  function Compare(a: Entry, b: Entry): int
  {
    if a.row.regs.addr != b.row.regs.addr then (if a.row.regs.addr < b.row.regs.addr then -1 else 1)
    else if a.row.endSequence != b.row.endSequence then EndFlag(b) - EndFlag(a)
    else if a.sequence < b.sequence then -1 else if a.sequence > b.sequence then 1 else 0
  }

  /** A strict total order: antisymmetric, transitive, and two entries of one program never compare equal. */
  lemma CompareIsOrder(a: Entry, b: Entry, c: Entry)
    ensures Compare(a, b) == -Compare(b, a)
    ensures Compare(a, b) <= 0 && Compare(b, c) <= 0 ==> Compare(a, c) <= 0
    ensures Compare(a, b) < 0 && Compare(b, c) <= 0 ==> Compare(a, c) < 0
    ensures Compare(a, b) == 0 ==> a.sequence == b.sequence
  {
  }

  ghost predicate Sorted(s: seq<Entry>)
  {
    forall i, j :: 0 <= i < j < |s| ==> Compare(s[i], s[j]) <= 0
  }

  /** A sequence number names one entry. */
  ghost predicate Numbered(s: seq<Entry>)
  {
    forall x, y :: x in s && y in s && x.sequence == y.sequence ==> x == y
  }

  lemma SameMembers(a: seq<Entry>, b: seq<Entry>, x: Entry)
    requires multiset(a) == multiset(b)
    ensures x in a <==> x in b
  {
    assert x in a <==> x in multiset(a);
  }

  /** Any two correct sorts agree. */
  lemma {:induction false} SortUnique(a: seq<Entry>, b: seq<Entry>)
    requires multiset(a) == multiset(b) && Sorted(a) && Sorted(b) && Numbered(a)
    ensures a == b
    decreases |a|
  {
    assert |a| == |multiset(a)| && |b| == |multiset(b)|;
    if a != [] {
      SameFirst(a, b);
      TailMultiset(a);
      TailMultiset(b);
      hide Sorted;
      SortedTail(a);
      SortedTail(b);
      SortUnique(a[1..], b[1..]);
      assert a == [a[0]] + a[1..];
    }
  }

  lemma SortedTail(a: seq<Entry>)
    requires a != [] && Sorted(a)
    ensures Sorted(a[1..])
  {
  }

  lemma TailMultiset<T>(a: seq<T>)
    requires a != []
    ensures multiset(a[1..]) == multiset(a) - multiset{a[0]}
  {
    assert a == [a[0]] + a[1..];
  }

  lemma SameFirst(a: seq<Entry>, b: seq<Entry>)
    requires multiset(a) == multiset(b) && Sorted(a) && Sorted(b) && Numbered(a) && a != [] && b != []
    ensures a[0] == b[0]
  {
    SameMembers(a, b, a[0]);
    SameMembers(a, b, b[0]);
    FirstLeast(a, b[0]);
    FirstLeast(b, a[0]);
    CompareIsOrder(a[0], b[0], b[0]);
  }

  lemma FirstLeast(a: seq<Entry>, x: Entry)
    requires Sorted(a) && x in a
    ensures Compare(a[0], x) <= 0
  {
    CompareIsOrder(x, x, x);
    var i :| 0 <= i < |a| && a[i] == x;
  }

  function Insert(x: Entry, s: seq<Entry>): (r: seq<Entry>)
  {
    if s == [] || Compare(x, s[0]) <= 0 then [x] + s else [s[0]] + Insert(x, s[1..])
  }

  /** One correct sort, to stand for whichever the library uses. */
  function Sort(s: seq<Entry>): (r: seq<Entry>)
  {
    if s == [] then [] else Insert(s[0], Sort(s[1..]))
  }

  lemma {:induction false} InsertSorts(x: Entry, s: seq<Entry>)
    requires Sorted(s)
    ensures Sorted(Insert(x, s)) && multiset(Insert(x, s)) == multiset(s) + multiset{x}
  {
    if s != [] {
      hide Compare, Sorted;
      SortedTail(s);
      FirstBefore(s);
      assert s == [s[0]] + s[1..];
      CompareIsOrder(x, s[0], s[0]);
      if Compare(x, s[0]) > 0 {
        InsertSorts(x, s[1..]);
        BeforeJoined(s[0], x, s[1..], Insert(x, s[1..]));
        SortedCons(s[0], Insert(x, s[1..]));
      } else {
        BeforeAll(x, s);
        SortedCons(x, s);
      }
    }
  }

  lemma FirstBefore(s: seq<Entry>)
    requires s != [] && Sorted(s)
    ensures forall e :: e in s[1..] ==> Compare(s[0], e) <= 0
  {
  }

  lemma BeforeJoined(y: Entry, x: Entry, t: seq<Entry>, r: seq<Entry>)
    requires multiset(r) == multiset(t) + multiset{x} && Compare(y, x) <= 0 && forall e :: e in t ==> Compare(y, e) <= 0
    ensures forall e :: e in r ==> Compare(y, e) <= 0
  {
    hide Compare;
    forall e | e in r ensures Compare(y, e) <= 0 {
      assert e in multiset(r);
    }
  }

  lemma BeforeAll(x: Entry, s: seq<Entry>)
    requires s != [] && Sorted(s) && Compare(x, s[0]) <= 0
    ensures forall e :: e in s ==> Compare(x, e) <= 0
  {
    hide Compare, Sorted;
    forall e | e in s ensures Compare(x, e) <= 0 {
      FirstLeast(s, e);
      CompareIsOrder(x, s[0], e);
    }
  }

  lemma SortedCons(x: Entry, s: seq<Entry>)
    requires Sorted(s) && forall e :: e in s ==> Compare(x, e) <= 0
    ensures Sorted([x] + s)
  {
  }

  lemma {:induction false} SortSorts(s: seq<Entry>)
    ensures Sorted(Sort(s)) && multiset(Sort(s)) == multiset(s)
  {
    if s != [] {
      SortSorts(s[1..]);
      InsertSorts(s[0], Sort(s[1..]));
      assert s == [s[0]] + s[1..];
    }
  }

  /** Whatever permutation of the entries the library leaves, if sorted, is Sort's. */
  lemma AnySortIsSort(s: seq<Entry>, t: seq<Entry>)
    requires Numbered(s) && multiset(t) == multiset(s) && Sorted(t)
    ensures t == Sort(s)
  {
    SortSorts(s);
    forall x, y | x in t && y in t && x.sequence == y.sequence ensures x == y {
      SameMembers(t, s, x);
      SameMembers(t, s, y);
    }
    SortUnique(t, Sort(s));
  }

  // ----- the table that is built

  /** The rows of a program numbered from k on. */
  function Number(rows: seq<Row>, k: nat): (r: seq<Entry>)
    ensures |r| == |rows| && forall i :: 0 <= i < |r| ==> r[i] == Entry(rows[i], k + i)
  {
    seq(|rows|, i requires 0 <= i < |rows| => Entry(rows[i], k + i))
  }

  function RowsOf(s: seq<Entry>): (r: seq<Row>)
    ensures |r| == |s| && forall i :: 0 <= i < |r| ==> r[i] == s[i].row
  {
    seq(|s|, i requires 0 <= i < |s| => s[i].row)
  }

  /** The highest row is marked as the end of a sequence. */
  function CloseLast(rows: seq<Row>): (r: seq<Row>)
    ensures |r| == |rows|
  {
    if rows == [] then [] else rows[|rows| - 1 := rows[|rows| - 1].(endSequence := true)]
  }

  /** The line table of a program that emits these rows. */
  function TableOf(rows: seq<Row>): (t: seq<Row>)
  {
    CloseLast(RowsOf(Sort(Number(rows, 0))))
  }

  lemma NumberIsNumbered(rows: seq<Row>, k: nat)
    ensures Numbered(Number(rows, k))
  {
  }

  /** The finished table: there is one arrangement of the emitted entries, ascending by address, ends of
      sequences first and otherwise in the order of emission, and the table is its rows with the last
      one closed. */
  lemma TableIsTheOrdering(rows: seq<Row>, t: seq<Entry>)
    requires multiset(t) == multiset(Number(rows, 0)) && Sorted(t)
    ensures TableOf(rows) == CloseLast(RowsOf(t))
  {
    NumberIsNumbered(rows, 0);
    AnySortIsSort(Number(rows, 0), t);
  }

  lemma RowsOfCons(x: Entry, s: seq<Entry>)
    ensures RowsOf([x] + s) == [x.row] + RowsOf(s)
  {
  }

  lemma {:induction false} InsertRows(x: Entry, s: seq<Entry>)
    ensures multiset(RowsOf(Insert(x, s))) == multiset(RowsOf(s)) + multiset{x.row}
  {
    hide Compare, RowsOf;
    RowsOfCons(x, s);
    if s != [] && Compare(x, s[0]) > 0 {
      InsertRows(x, s[1..]);
      RowsOfCons(s[0], Insert(x, s[1..]));
      RowsOfCons(s[0], s[1..]);
      assert s == [s[0]] + s[1..];
    }
  }

  /** Sorting loses no row and adds none. */
  lemma {:induction false} SortRows(s: seq<Entry>)
    ensures multiset(RowsOf(Sort(s))) == multiset(RowsOf(s))
  {
    hide Insert;
    if s != [] {
      SortRows(s[1..]);
      InsertRows(s[0], Sort(s[1..]));
      RowsOfCons(s[0], s[1..]);
      assert s == [s[0]] + s[1..];
    }
  }

  /** The table's addresses ascend; its rows are those emitted, except that the last is closed. */
  lemma TableAscends(rows: seq<Row>)
    ensures |TableOf(rows)| == |rows|
    ensures forall i, j :: 0 <= i < j < |rows| ==> TableOf(rows)[i].regs.addr <= TableOf(rows)[j].regs.addr
    ensures rows != [] ==> TableOf(rows)[|rows| - 1].endSequence
    ensures rows != [] ==> exists last: Row ::
              && multiset(TableOf(rows)[..|rows| - 1]) + multiset{last} == multiset(rows)
              && TableOf(rows)[|rows| - 1] == last.(endSequence := true)
  {
    var s := Number(rows, 0);
    SortSorts(s);
    assert |multiset(s)| == |s| && |multiset(Sort(s))| == |Sort(s)|;
    forall i, j | 0 <= i < j < |rows| ensures TableOf(rows)[i].regs.addr <= TableOf(rows)[j].regs.addr {
      assert Compare(Sort(s)[i], Sort(s)[j]) <= 0;
    }
    if rows != [] {
      LastRow(rows);
    }
  }

  /** a comes before b in the table: at a lower address, or at the same one as the end of a sequence before a row
      that is none, or, both alike, emitted earlier. */
  predicate Precedes(a: Row, i: nat, b: Row, j: nat)
  {
    || a.regs.addr < b.regs.addr
    || (a.regs.addr == b.regs.addr &&
        ((a.endSequence && !b.endSequence) || (a.endSequence == b.endSequence && i < j)))
  }

  /** The table row by row: order[k] is the row emitted that stands at k. */
  lemma TableOrder(rows: seq<Row>) returns (order: seq<nat>)
    ensures |order| == |rows| == |TableOf(rows)|
    ensures forall k :: 0 <= k < |order| ==> order[k] < |rows|
    ensures forall i, j :: 0 <= i < j < |order| ==> Precedes(rows[order[i]], order[i], rows[order[j]], order[j])
    ensures forall k :: 0 <= k < |order| - 1 ==> TableOf(rows)[k] == rows[order[k]]
    ensures rows != [] ==> TableOf(rows)[|rows| - 1] == rows[order[|rows| - 1]].(endSequence := true)
  {
    var t := Sort(Number(rows, 0));
    SortedEntries(rows);
    order := seq(|t|, k requires 0 <= k < |t| => t[k].sequence);
    hide Sort, Precedes;
  }

  lemma SortedEntries(rows: seq<Row>)
    ensures var t := Sort(Number(rows, 0));
            && |t| == |rows|
            && (forall k :: 0 <= k < |t| ==> t[k].sequence < |rows| && t[k].row == rows[t[k].sequence])
            && (forall i, j :: 0 <= i < j < |t| ==> Precedes(t[i].row, t[i].sequence, t[j].row, t[j].sequence))
  {
    hide Compare, Sort, Precedes, Sorted;
    var s := Number(rows, 0);
    var t := Sort(s);
    SortSorts(s);
    assert |multiset(s)| == |s| && |multiset(t)| == |t|;
    forall k | 0 <= k < |t| ensures t[k].sequence < |rows| && t[k].row == rows[t[k].sequence] {
      SameMembers(s, t, t[k]);
    }
    forall i, j | 0 <= i < j < |t| ensures Precedes(t[i].row, t[i].sequence, t[j].row, t[j].sequence) {
      NoRepeats(s, t, i, j);
      SortedPair(t, i, j);
    }
  }

  lemma SortedPair(t: seq<Entry>, i: nat, j: nat)
    requires Sorted(t) && i < j < |t| && (t[i].sequence == t[j].sequence ==> t[i] == t[j]) && t[i] != t[j]
    ensures Precedes(t[i].row, t[i].sequence, t[j].row, t[j].sequence)
  {
  }

  lemma {:induction false} Once<T>(s: seq<T>, x: T)
    requires forall i, j :: 0 <= i < j < |s| ==> s[i] != s[j]
    ensures multiset(s)[x] <= 1
    decreases |s|
  {
    if s != [] {
      var n := |s| - 1;
      assert s == s[..n] + [s[n]];
      Once(s[..n], x);
      if s[n] == x {
        assert x !in s[..n];
        assert x !in multiset(s[..n]);
      }
    }
  }

  lemma NoRepeats<T>(s: seq<T>, t: seq<T>, i: nat, j: nat)
    requires multiset(s) == multiset(t) && i < j < |t| && forall k, l :: 0 <= k < l < |s| ==> s[k] != s[l]
    ensures t[i] != t[j]
  {
    Once(s, t[i]);
    assert t == t[..i] + [t[i]] + t[i + 1..j] + [t[j]] + t[j + 1..];
  }

  lemma LastRow(rows: seq<Row>)
    requires rows != [] && |Sort(Number(rows, 0))| == |rows|
    ensures var sorted, n := RowsOf(Sort(Number(rows, 0))), |rows| - 1;
            && multiset(TableOf(rows)[..n]) + multiset{sorted[n]} == multiset(rows)
            && TableOf(rows)[n] == sorted[n].(endSequence := true)
  {
    var s := Number(rows, 0);
    var sorted, n := RowsOf(Sort(s)), |rows| - 1;
    SortRows(s);
    assert RowsOf(s) == rows;
    assert sorted == sorted[..n] + [sorted[n]];
    assert TableOf(rows)[..n] == sorted[..n];
  }

  // ----- running the program

  function NewestFirst(rows: seq<Row>): (r: seq<Entry>)
    ensures |r| == |rows| && forall i :: 0 <= i < |r| ==> r[i] == Entry(rows[|rows| - 1 - i], |rows| - 1 - i)
  {
    seq(|rows|, i requires 0 <= i < |rows| => Entry(rows[|rows| - 1 - i], |rows| - 1 - i))
  }

  function OldestFirst(list: seq<Entry>): (r: seq<Row>)
    ensures |r| == |list| && forall i :: 0 <= i < |r| ==> r[i] == list[|list| - 1 - i].row
  {
    seq(|list|, i requires 0 <= i < |list| => list[|list| - 1 - i].row)
  }

  lemma PushRow(list: seq<Entry>, row: Row)
    requires list == NewestFirst(OldestFirst(list))
    ensures var l := [Entry(row, |list|)] + list;
            OldestFirst(l) == OldestFirst(list) + [row] && l == NewestFirst(OldestFirst(l))
  {
  }

  /** Rows already emitted in front of what a program still emits. */
  function Resume(rows: seq<Row>, o: Outcome): Outcome
  {
    if o.Invalid? then Invalid else Done(rows + o.rows, o.regs)
  }

  lemma RunEnds(h: Header, r: Regs, s: Bytes)
    requires h.Valid()
    ensures s == [] ==> Run(h, r, s) == Done([], r)
    ensures s != [] && Decode(h, s).Bad? ==> Run(h, r, s) == Invalid
  {
  }

  lemma ResumeStep(h: Header, r: Regs, s: Bytes, rows: seq<Row>)
    requires h.Valid() && s != [] && Decode(h, s).Got?
    ensures var d := Decode(h, s);
            var e, rest := Exec(h, r, d.op), Run(h, Exec(h, r, d.op).regs, s[d.next..]);
            Resume(rows, Run(h, r, s)) ==
            if e.Quiet? then Resume(rows, rest)
            else if Fits(e.row) then Resume(rows + [Emit(e.row, e.end)], rest)
            else Invalid
  {
    var d := Decode(h, s);
    var e, rest := Exec(h, r, d.op), Run(h, Exec(h, r, d.op).regs, s[d.next..]);
    if e.Emits? && rest.Done? {
      assert rows + [Emit(e.row, e.end)] + rest.rows == rows + ([Emit(e.row, e.end)] + rest.rows);
    }
  }

  /** The registers and the rows so far, newest first as in the linked list. */
  class LineState {
    var addr: nat
    var opIndex: nat
    var file: nat
    var line: int
    var column: nat
    var isStmt: nat
    var basicBlock: bool
    var prologueEnd: bool
    var epilogueBegin: bool
    var isa: nat
    var discriminator: nat
    var context: nat
    var functionName: nat
    var linelist: seq<Entry>
    var nlinelist: nat

    function Registers(): Regs
      reads this
    {
      Regs(addr, opIndex, file, line, column, isStmt, basicBlock, prologueEnd, epilogueBegin, isa, discriminator,
        context, functionName)
    }

    ghost predicate Valid()
      reads this
    {
      nlinelist == |linelist| && linelist == NewestFirst(Rows())
    }

    /** The rows in the order of emission. */
    ghost function Rows(): seq<Row>
      reads this
    {
      OldestFirst(linelist)
    }

    constructor (h: Header)
      ensures Valid() && Rows() == [] && Registers() == Initial(h)
    {
      addr, opIndex, file, line, column, isStmt := 0, 0, 1, 1, 0, h.defaultIsStmt;
      basicBlock, prologueEnd, epilogueBegin := false, false, false;
      isa, discriminator, context, functionName := 0, 0, 0, 0;
      linelist, nlinelist := [], 0;
    }

    method AdvancePc(h: Header, advance: nat)
      requires h.Valid()
      modifies this`addr, this`opIndex
      ensures Registers() == Advance(h, old(Registers()), advance)
    {
      addr := (addr + (h.minLength * (((opIndex + advance) % U32) / h.maxOps)) % U32) % U64;
      opIndex := ((opIndex + advance) % U32) % h.maxOps;
    }

    method AddNewLine(end: bool) returns (bad: bool)
      requires Valid()
      modifies this`linelist, this`nlinelist
      ensures Valid() && bad == !Fits(Registers())
      ensures Rows() == old(Rows()) + [Emit(Registers(), end)]
    {
      PushRow(linelist, Emit(Registers(), end));
      hide NewestFirst, OldestFirst;
      linelist := [Entry(Emit(Registers(), end), nlinelist)] + linelist;
      nlinelist := nlinelist + 1;
      bad := !(opIndex < 256 && file < U32 && -U31 <= line < U31 && column < U16 && isStmt < 2 && isa < 256);
    }

    method ResetFlags()
      modifies this`basicBlock, this`prologueEnd, this`epilogueBegin, this`discriminator
      ensures Registers() == AfterRow(old(Registers()))
    {
      basicBlock, prologueEnd, epilogueBegin, discriminator := false, false, false, 0;
    }

    method ResetPosition(h: Header)
      modifies this`addr, this`opIndex, this`file, this`line, this`column, this`isStmt
      ensures addr == 0 && opIndex == 0 && file == 1 && line == 1 && column == 0 && isStmt == h.defaultIsStmt
    {
      addr, opIndex, file, line, column, isStmt := 0, 0, 1, 1, 0, h.defaultIsStmt;
    }

    method Reset(h: Header)
      modifies this`addr, this`opIndex, this`file, this`line, this`column, this`isStmt
      modifies this`basicBlock, this`prologueEnd, this`epilogueBegin
      modifies this`isa, this`discriminator, this`context, this`functionName
      ensures Registers() == Initial(h)
    {
      ResetPosition(h);
      basicBlock, prologueEnd, epilogueBegin := false, false, false;
      isa, discriminator, context, functionName := 0, 0, 0, 0;
    }

    method EndOfSequence(h: Header) returns (bad: bool)
      requires Valid()
      modifies this
      ensures Valid() && bad == !Fits(old(Registers())) && Registers() == Initial(h)
      ensures Rows() == old(Rows()) + [Emit(old(Registers()), true)]
    {
      hide Fits, Emit, OldestFirst, NewestFirst, Initial;
      bad := AddNewLine(true);
      Reset(h);
    }

    method SpecialOpcode(h: Header, adj: nat) returns (bad: bool)
      requires Valid() && h.Valid() && h.lineRange > 0
      modifies this
      ensures Valid()
      ensures var e := Exec(h, old(Registers()), Special(adj));
              bad == !Fits(e.row) && Registers() == e.regs && Rows() == old(Rows()) + [Emit(e.row, e.end)]
    {
      hide LineDelta, AddressDelta, Advance, AfterRow, Fits, Emit, OldestFirst, NewestFirst;
      line := line + LineDelta(h, adj);
      assert Registers() == old(Registers()).(line := line);
      AdvancePc(h, AddressDelta(h, adj));
      bad := AddNewLine(false);
      ResetFlags();
    }

    /** The operations that only move the address. */
    method SetAddressRegisters(h: Header, op: Op)
      requires h.Valid() && (op.SetAddress? || op.AdvancePc? || op.ConstAddPc? || op.FixedAdvancePc?)
      requires op.ConstAddPc? ==> h.lineRange > 0
      modifies this`addr, this`opIndex
      ensures Registers() == Set(h, old(Registers()), op)
    {
      hide Advance, ConstAdvance, Raised;
      match op
      case SetAddress(a) => opIndex := 0; addr := a;
      case AdvancePc(v) => AdvancePc(h, v);
      case ConstAddPc => AdvancePc(h, ConstAdvance(h));
      case FixedAdvancePc(v) => addr := Raised(addr, v); opIndex := 0;
    }

    /** The operations that only set a flag. */
    method SetFlags(h: Header, op: Op)
      requires h.Valid() && (op.NegateStmt? || op.SetBasicBlock? || op.SetPrologueEnd? || op.SetEpilogueBegin?)
      modifies this`isStmt, this`basicBlock, this`prologueEnd, this`epilogueBegin
      ensures Registers() == Set(h, old(Registers()), op)
    {
      hide Negated;
      match op
      case NegateStmt => isStmt := Negated(isStmt);
      case SetBasicBlock => basicBlock := true;
      case SetPrologueEnd => prologueEnd := true;
      case SetEpilogueBegin => epilogueBegin := true;
    }

    /** The operations that only store a number. */
    method SetNumbers(h: Header, op: Op)
      requires h.Valid() && !op.Special? && !op.EndSequence? && !op.Copy?
      requires !op.SetAddress? && !op.AdvancePc? && !op.ConstAddPc? && !op.FixedAdvancePc?
      requires !op.NegateStmt? && !op.SetBasicBlock? && !op.SetPrologueEnd? && !op.SetEpilogueBegin?
      modifies this`file, this`line, this`column, this`isa, this`discriminator, this`context, this`functionName
      ensures Registers() == Set(h, old(Registers()), op)
    {
      hide StringOffset;
      match op
      case SetDiscriminator(v) => discriminator := v;
      case InlinedCall(c, f) => context := c; functionName := StringOffset(h, f);
      case SetFunctionName(f) => functionName := StringOffset(h, f);
      case AdvanceLine(d) => line := line + d;
      case SetFile(v) => file := v;
      case SetColumn(v) => column := v;
      case SetIsa(v) => isa := v;
      case _ =>
    }

    /** The operations that only set registers. */
    method SetRegisters(h: Header, op: Op)
      requires h.Valid() && !op.Special? && !op.EndSequence? && !op.Copy? && (op.ConstAddPc? ==> h.lineRange > 0)
      modifies this
      ensures Registers() == Set(h, old(Registers()), op) && linelist == old(linelist) && nlinelist == old(nlinelist)
    {
      hide Set;
      if op.SetAddress? || op.AdvancePc? || op.ConstAddPc? || op.FixedAdvancePc? {
        SetAddressRegisters(h, op);
      } else if op.NegateStmt? || op.SetBasicBlock? || op.SetPrologueEnd? || op.SetEpilogueBegin? {
        SetFlags(h, op);
      } else {
        SetNumbers(h, op);
      }
    }

    /** Carries out one decoded operation. */
    method Execute(h: Header, op: Op) returns (bad: bool)
      requires Valid() && h.Valid() && (op.Special? || op.ConstAddPc? ==> h.lineRange > 0)
      modifies this
      ensures Valid() && Registers() == Exec(h, old(Registers()), op).regs
      ensures Exec(h, old(Registers()), op).Quiet? ==> !bad && Rows() == old(Rows())
      ensures Exec(h, old(Registers()), op).Emits? ==>
                var e := Exec(h, old(Registers()), op);
                bad == !Fits(e.row) && Rows() == old(Rows()) + [Emit(e.row, e.end)]
    {
      hide Fits, Emit, OldestFirst, NewestFirst;
      hide Set, Advance, AfterRow, Initial;
      bad := false;
      match op
      case Special(adj) => bad := SpecialOpcode(h, adj);
      case EndSequence => bad := EndOfSequence(h);
      case Copy => bad := AddNewLine(false); ResetFlags();
      case _ => SetRegisters(h, op);
    }

    /** The statement-program loop. */
    method Process(h: Header, s: Bytes) returns (ok: bool)
      requires Valid() && h.Valid()
      modifies this
      ensures Valid()
      ensures Resume(old(Rows()), Run(h, old(Registers()), s)) == if ok then Done(Rows(), Registers()) else Invalid
    {
      hide Fits, Emit, Exec, Decode, Run, OldestFirst, NewestFirst, Header.Valid;
      var linep := 0;
      while linep < |s|
        invariant linep <= |s| && Valid()
        invariant Resume(old(Rows()), Run(h, old(Registers()), s)) == Resume(Rows(), Run(h, Registers(), s[linep..]))
      {
        var d := Decode(h, s[linep..]);
        if d.Bad? {
          RunEnds(h, Registers(), s[linep..]);
          return false;
        }
        ResumeStep(h, Registers(), s[linep..], Rows());
        assert s[linep..][d.next..] == s[linep + d.next..];
        var bad := Execute(h, d.op);
        if bad {
          return false;
        }
        linep := linep + d.next;
      }
      RunEnds(h, Registers(), s[linep..]);
      assert Rows() + [] == Rows();
      return true;
    }
  }

  // ----- the table is built in the buffer that holds the sorted pointers

  /** One byte of the buffer: byte k of a pointer to an entry, or byte k of a line record. */
  datatype Cell = Unused | PointerByte(to: Entry, k: nat) | LineByte(row: Row, k: nat)

  /** headSize bytes of table header, then count records of lineSize bytes; pointers are no longer than records. */
  datatype Layout = Layout(headSize: nat, lineSize: nat, pointerSize: nat, count: nat)
  {
    ghost predicate Valid()
    {
      0 < pointerSize <= lineSize
    }

    function Size(): nat { NonNegative(lineSize, count); headSize + lineSize * count }

    function LineAt(i: nat): nat { NonNegative(lineSize, i); headSize + lineSize * i }

    /** The pointers occupy the end of the buffer. */
    function PointerAt(i: nat): int { Size() - pointerSize * count + pointerSize * i }
  }

  function PointerCells(l: Layout, e: Entry): (c: seq<Cell>)
    ensures |c| == l.pointerSize
  {
    seq(l.pointerSize, k requires 0 <= k < l.pointerSize => PointerByte(e, k))
  }

  function LineCells(l: Layout, row: Row): (c: seq<Cell>)
    ensures |c| == l.lineSize
  {
    seq(l.lineSize, k requires 0 <= k < l.lineSize => LineByte(row, k))
  }

  ghost predicate Holds(b: seq<Cell>, at: int, cells: seq<Cell>)
  {
    0 <= at <= at + |cells| <= |b| && b[at..at + |cells|] == cells
  }

  ghost predicate Pointers(l: Layout, b: seq<Cell>, s: seq<Entry>, from: nat)
  {
    forall i :: from <= i < |s| ==> Holds(b, l.PointerAt(i), PointerCells(l, s[i]))
  }

  ghost predicate Lines(l: Layout, b: seq<Cell>, rows: seq<Row>, to: nat)
  {
    forall i :: 0 <= i < to <= |rows| ==> Holds(b, l.LineAt(i), LineCells(l, rows[i]))
  }

  /** Cells laid over a buffer. */
  function Overlay(b: seq<Cell>, at: nat, cells: seq<Cell>): (r: seq<Cell>)
    requires at + |cells| <= |b|
    ensures |r| == |b|
  {
    b[..at] + cells + b[at + |cells|..]
  }

  lemma OverlayHolds(b: seq<Cell>, at: nat, cells: seq<Cell>, at': int, cells': seq<Cell>)
    requires at + |cells| <= |b|
    ensures Holds(Overlay(b, at, cells), at, cells)
    ensures (at' + |cells'| <= at || at + |cells| <= at') && Holds(b, at', cells') ==>
            Holds(Overlay(b, at, cells), at', cells')
  {
    var r := Overlay(b, at, cells);
    assert r[at..at + |cells|] == cells;
    if (at' + |cells'| <= at || at + |cells| <= at') && Holds(b, at', cells') {
      assert r[at'..at' + |cells'|] == b[at'..at' + |cells'|];
    }
  }

  method WriteCells(buf: array<Cell>, at: nat, cells: seq<Cell>)
    requires at + |cells| <= buf.Length
    modifies buf
    ensures buf[..] == Overlay(old(buf[..]), at, cells)
  {
    for k := 0 to |cells|
      invariant forall j :: 0 <= j < k ==> buf[at + j] == cells[j]
      invariant forall j :: 0 <= j < buf.Length && !(at <= j < at + k) ==> buf[j] == old(buf[j])
    {
      buf[at + k] := cells[k];
    }
    var r := Overlay(old(buf[..]), at, cells);
    forall j | 0 <= j < buf.Length ensures buf[j] == r[j] {
      if at <= j < at + |cells| {
        assert buf[at + (j - at)] == cells[j - at];
      }
    }
  }

  lemma Slots(size: nat, i: nat, j: nat)
    requires i < j
    ensures size * i + size <= size * j
  {
    assert size * j == size * i + size * (j - i);
    MulAtLeast(j - i, size);
  }

  /** Record i ends before pointer i + 1 begins: the copy never overwrites a pointer it has yet to read. */
  lemma RecordBeforePointers(l: Layout, i: nat, j: nat)
    requires l.Valid() && i < j < l.count
    ensures l.LineAt(i) + l.lineSize <= l.PointerAt(j)
  {
    var spare := l.lineSize - l.pointerSize;
    assert l.PointerAt(j) == l.headSize + spare * l.count + l.pointerSize * j;
    assert l.LineAt(i) == l.headSize + spare * i + l.pointerSize * i;
    Slots(spare, i, l.count);
    Slots(l.pointerSize, i, j);
  }

  lemma Inside(l: Layout, i: nat)
    requires l.Valid() && i < l.count
    ensures 0 <= l.PointerAt(i) <= l.PointerAt(i) + l.pointerSize <= l.Size() && l.LineAt(i) + l.lineSize <= l.Size()
  {
    Slots(l.pointerSize, i, l.count);
    Slots(l.lineSize, i, l.count);
    assert l.lineSize * l.count == l.pointerSize * l.count + (l.lineSize - l.pointerSize) * l.count;
  }

  function Backwards(list: seq<Entry>): (r: seq<Entry>)
    ensures |r| == |list| && forall i :: 0 <= i < |r| ==> r[i] == list[|list| - 1 - i]
  {
    seq(|list|, i requires 0 <= i < |list| => list[|list| - 1 - i])
  }

  lemma PutPointer(l: Layout, b: seq<Cell>, s: seq<Entry>, i: nat, e: Entry, from: nat)
    requires l.Valid() && i < l.count == |s| && |b| == l.Size()
    requires forall j :: from <= j < |s| && j != i ==> Holds(b, l.PointerAt(j), PointerCells(l, s[j]))
    requires e == s[i]
    ensures 0 <= l.PointerAt(i) && l.PointerAt(i) + l.pointerSize <= |b|
    ensures Pointers(l, Overlay(b, l.PointerAt(i), PointerCells(l, e)), s, from)
  {
    Inside(l, i);
    var b' := Overlay(b, l.PointerAt(i), PointerCells(l, e));
    forall j | from <= j < |s| ensures Holds(b', l.PointerAt(j), PointerCells(l, s[j])) {
      OverlayHolds(b, l.PointerAt(i), PointerCells(l, e), l.PointerAt(j), PointerCells(l, s[j]));
      if i < j {
        Slots(l.pointerSize, i, j);
      } else if j < i {
        Slots(l.pointerSize, j, i);
      }
    }
  }

  /** The list is newest first, so the pointers are filled in from the end of the buffer. */
  method FillFromBack(l: Layout, buf: array<Cell>, list: seq<Entry>)
    requires l.Valid() && l.count == |list| && buf.Length == l.Size()
    modifies buf
    ensures Pointers(l, buf[..], Backwards(list), 0)
  {
    var i, rest := |list|, list;
    while i > 0
      invariant 0 <= i <= |list| && rest == list[|list| - i..] && Pointers(l, buf[..], Backwards(list), i)
    {
      i := i - 1;
      Inside(l, i);
      PutPointer(l, buf[..], Backwards(list), i, rest[0], i);
      WriteCells(buf, l.PointerAt(i), PointerCells(l, rest[0]));
      rest := rest[1..];
    }
  }

  lemma PointerRead(l: Layout, b: seq<Cell>, s: seq<Entry>, i: nat)
    requires l.Valid() && i < |s| && Holds(b, l.PointerAt(i), PointerCells(l, s[i]))
    ensures 0 <= l.PointerAt(i) < |b| && b[l.PointerAt(i)] == PointerByte(s[i], 0)
  {
    assert b[l.PointerAt(i)..l.PointerAt(i) + l.pointerSize][0] == PointerCells(l, s[i])[0];
  }

  /** The library's sort. */
  method SortPointers(l: Layout, buf: array<Cell>, ghost s: seq<Entry>)
    requires l.Valid() && l.count == |s| && buf.Length == l.Size() && Pointers(l, buf[..], s, 0)
    modifies buf
    ensures |Sort(s)| == |s| && Pointers(l, buf[..], Sort(s), 0)
  {
    var read := [];
    for i := 0 to l.count
      invariant read == s[..i] && Pointers(l, buf[..], s, 0)
    {
      PointerRead(l, buf[..], s, i);
      read := read + [buf[l.PointerAt(i)].to];
    }
    assert read == s;
    var sorted := Sort(read);
    SortSorts(s);
    assert |multiset(s)| == |s| && |multiset(sorted)| == |sorted|;
    var i := l.count;
    while i > 0
      invariant 0 <= i <= l.count && Pointers(l, buf[..], sorted, i)
    {
      i := i - 1;
      Inside(l, i);
      PutPointer(l, buf[..], sorted, i, sorted[i], i);
      WriteCells(buf, l.PointerAt(i), PointerCells(l, sorted[i]));
    }
  }

  /** From the front, each pointer's record goes to the front of the same buffer. */
  method CopyLines(l: Layout, buf: array<Cell>, ghost s: seq<Entry>)
    requires l.Valid() && l.count == |s| && buf.Length == l.Size() && Pointers(l, buf[..], s, 0)
    modifies buf
    ensures Lines(l, buf[..], RowsOf(s), |s|)
  {
    for i := 0 to l.count
      invariant Pointers(l, buf[..], s, i) && Lines(l, buf[..], RowsOf(s), i)
    {
      Inside(l, i);
      ghost var b := buf[..];
      PointerRead(l, b, s, i);
      var pointer := buf[l.PointerAt(i)];
      var cells := LineCells(l, pointer.to.row);
      WriteCells(buf, l.LineAt(i), cells);
      LinePut(l, b, s, i);
    }
  }

  /** One step of the copy keeps the pointers still to be read and the records already written. */
  lemma LinePut(l: Layout, b: seq<Cell>, s: seq<Entry>, i: nat)
    requires l.Valid() && i < l.count == |s| && |b| == l.Size() && Pointers(l, b, s, i) && Lines(l, b, RowsOf(s), i)
    ensures l.LineAt(i) + l.lineSize <= |b|
    ensures var b' := Overlay(b, l.LineAt(i), LineCells(l, s[i].row));
            Pointers(l, b', s, i + 1) && Lines(l, b', RowsOf(s), i + 1)
  {
    Inside(l, i);
    var cells := LineCells(l, s[i].row);
    var b' := Overlay(b, l.LineAt(i), cells);
    forall j | i < j < |s| ensures Holds(b', l.PointerAt(j), PointerCells(l, s[j])) {
      OverlayHolds(b, l.LineAt(i), cells, l.PointerAt(j), PointerCells(l, s[j]));
      RecordBeforePointers(l, i, j);
    }
    forall j | 0 <= j <= i ensures Holds(b', l.LineAt(j), LineCells(l, RowsOf(s)[j])) {
      OverlayHolds(b, l.LineAt(i), cells, l.LineAt(j), LineCells(l, RowsOf(s)[j]));
      if j < i {
        Slots(l.lineSize, j, i);
      }
    }
  }

  /** The last record is marked as the end of a sequence. */
  method CloseTable(l: Layout, buf: array<Cell>, ghost rows: seq<Row>)
    requires l.Valid() && l.count == |rows| && buf.Length == l.Size() && Lines(l, buf[..], rows, |rows|)
    modifies buf
    ensures Lines(l, buf[..], CloseLast(rows), |rows|)
  {
    if l.count > 0 {
      var last := l.count - 1;
      Inside(l, last);
      LineRead(l, buf[..], rows, last);
      LineReplaced(l, buf[..], rows, last, rows[last].(endSequence := true));
      WriteCells(buf, l.LineAt(last), LineCells(l, buf[l.LineAt(last)].row.(endSequence := true)));
    }
  }

  lemma LineRead(l: Layout, b: seq<Cell>, rows: seq<Row>, i: nat)
    requires l.Valid() && i < |rows| && Holds(b, l.LineAt(i), LineCells(l, rows[i]))
    ensures l.LineAt(i) < |b| && b[l.LineAt(i)] == LineByte(rows[i], 0)
  {
    assert b[l.LineAt(i)..l.LineAt(i) + l.lineSize][0] == LineCells(l, rows[i])[0];
  }

  lemma LineReplaced(l: Layout, b: seq<Cell>, rows: seq<Row>, i: nat, row: Row)
    requires l.Valid() && i < l.count == |rows| && |b| == l.Size() && Lines(l, b, rows, |rows|)
    ensures l.LineAt(i) + l.lineSize <= |b|
    ensures Lines(l, Overlay(b, l.LineAt(i), LineCells(l, row)), rows[i := row], |rows|)
  {
    Inside(l, i);
    var cells := LineCells(l, row);
    var b' := Overlay(b, l.LineAt(i), cells);
    forall j | 0 <= j < |rows| ensures Holds(b', l.LineAt(j), LineCells(l, rows[i := row][j])) {
      OverlayHolds(b, l.LineAt(i), cells, l.LineAt(j), LineCells(l, rows[i := row][j]));
      if j < i {
        Slots(l.lineSize, j, i);
      } else if i < j {
        Slots(l.lineSize, i, j);
      }
    }
  }

  /** The whole build: the buffer ends up holding the line table of the rows emitted. */
  method BuildTable(l: Layout, buf: array<Cell>, state: LineState)
    requires l.Valid() && state.Valid() && l.count == state.nlinelist && buf.Length == l.Size()
    modifies buf
    ensures |TableOf(state.Rows())| == l.count && Lines(l, buf[..], TableOf(state.Rows()), l.count)
  {
    ghost var rows := state.Rows();
    ghost var s := Number(rows, 0);
    TableAscends(rows);
    assert Backwards(state.linelist) == s;
    FillFromBack(l, buf, state.linelist);
    SortPointers(l, buf, s);
    CopyLines(l, buf, Sort(s));
    CloseTable(l, buf, RowsOf(Sort(s)));
  }

  /** From the statement program to the finished table, or no table when the program is invalid. */
  method ReadTable(h: Header, s: Bytes, headSize: nat, lineSize: nat, pointerSize: nat)
    returns (ok: bool, l: Layout, buf: array<Cell>)
    requires h.Valid() && 0 < pointerSize <= lineSize
    ensures ok <==> Run(h, Initial(h), s).Done?
    ensures ok ==> var rows := Run(h, Initial(h), s).rows;
                   l == Layout(headSize, lineSize, pointerSize, |rows|) && |TableOf(rows)| == |rows| &&
                     Lines(l, buf[..], TableOf(rows), |rows|)
  {
    hide Run, Lines, TableOf, Header.Valid;
    var state := new LineState(h);
    ok := state.Process(h, s);
    l := Layout(headSize, lineSize, pointerSize, state.nlinelist);
    buf := new Cell[l.Size()](_ => Unused);
    if ok {
      ghost var rows := Run(h, Initial(h), s).rows;
      assert [] + rows == rows;
      BuildTable(l, buf, state);
    }
  }

  /** Rewriting the special opcodes of a plain program leaves its line table as it was. */
  lemma DesugarKeepsTable(h: Header, s: Bytes)
    requires h.Valid() && HasBasics(h) && Plain(h, s) && Run(h, Initial(h), s).Done?
    ensures Run(h, Initial(h), Desugar(h, s)).Done?
    ensures TableOf(Run(h, Initial(h), Desugar(h, s)).rows) == TableOf(Run(h, Initial(h), s).rows)
  {
    DesugarRuns(h, Initial(h), s);
  }
}
