/** Buffered output: the write side of FILE. */
module Stream {
  import opened Arithmetic
  import opened Numerals

  const BUFSIZ: nat := 8192
  const EOF: int := -1
  const NULL: int := -1

  /** The end-of-line character of a line-buffered stream. */
  datatype Eol = NoEol | Eol(c: char)

  predicate IsEol(e: Eol, c: char)
  {
    e.Eol? && e.c == c
  }

  predicate NoLineEnd(e: Eol, s: string)
  {
    forall i :: 0 <= i < |s| ==> !IsEol(e, s[i])
  }

  /** An output stream. The system's answers to write, negative for an error and otherwise one less than a
      number of bytes accepted, and to malloc are arbitrary functions of the number of the call. */
  class File {
    const answers: nat -> int
    const memory: nat -> bool
    const writable: bool
    const eol: Eol
    const unbuffered: bool
    var writes: nat
    var mallocs: nat
    var error: bool
    var inited: bool
    var writing: bool
    var writePtr: int
    var writeEnd: int
    var buf: array?<char>
    /** What the descriptor has received, and what calls have taken from their callers. */
    ghost var delivered: string
    ghost var accepted: string

    ghost predicate Shape()
      reads this
    {
      && (buf == null ==> writePtr == NULL && writeEnd == NULL)
      && (buf != null ==> inited && !unbuffered && buf.Length == BUFSIZ)
      && (inited && !unbuffered ==> buf != null)
      && (writePtr == NULL ==> writeEnd == NULL)
      && (writePtr != NULL ==> buf != null && 0 <= writePtr <= writeEnd == BUFSIZ)
    }

    ghost function Pending(): string
      reads this, buf
      requires Shape()
    {
      if writePtr == NULL then "" else buf[..writePtr]
    }

    /** Conservation: delivered and pending bytes together are the accepted ones, in order; after an error
        what was delivered is still a prefix of what was accepted. */
    ghost predicate Conserved()
      reads this, buf
      requires Shape()
    {
      (error ==> delivered <= accepted) &&
        (!error ==> delivered + Pending() == accepted && (!writing ==> Pending() == ""))
    }

    /** Between calls no line end is pending on a line-buffered stream. */
    ghost predicate Valid()
      reads this, buf
    {
      Shape() && Conserved() && (!error ==> NoLineEnd(eol, Pending()))
    }

    /** Why a call may fail: an error, a read-only stream, or no memory for the buffer. */
    predicate Failing()
      reads this
    {
      error || !writable || (mallocs > 0 && !memory(mallocs - 1))
    }

    constructor (writable: bool, eol: Eol, unbuffered: bool, answers: nat -> int, memory: nat -> bool)
      ensures Valid() && delivered == "" && accepted == "" && !error && buf == null
    {
      this.answers, this.memory, this.writable, this.eol, this.unbuffered := answers, memory, writable, eol, unbuffered;
      writes, mallocs, error, inited, writing := 0, 0, false, false, false;
      writePtr, writeEnd, buf := NULL, NULL, null;
      delivered, accepted := "", "";
    }

    /** Writes everything, however short the single writes are, unless one fails. */
    method WriteAll(s: string) returns (ok: bool)
      modifies this`writes, this`error, this`delivered
      ensures old(delivered) <= delivered <= old(delivered) + s
      ensures ok ==> delivered == old(delivered) + s && error == old(error)
      ensures !ok ==> error
    {
      var start := 0;
      assert delivered + s[..0] == delivered;
      while start < |s|
        invariant 0 <= start <= |s| && delivered == old(delivered) + s[..start] && error == old(error)
      {
        var answer := answers(writes);
        writes := writes + 1;
        if answer < 0 {
          error := true;
          return false;
        }
        var size := if answer + 1 <= |s| - start then answer + 1 else |s| - start;
        assert s[..start] + s[start..start + size] == s[..start + size];
        delivered := delivered + s[start..start + size];
        start := start + size;
      }
      return true;
    }

    /** Gives the buffer its bounds, or empties it. */
    method Write() returns (ok: bool)
      requires Shape() && !error && delivered + Pending() == accepted
      modifies this`writes, this`error, this`delivered, this`writePtr, this`writeEnd
      ensures Shape() && ok == !error
      ensures ok ==> Pending() == "" && delivered == accepted && (buf != null ==> writePtr == 0)
      ensures !ok ==> delivered <= accepted
    {
      if buf == null {
        return true;
      }
      if writePtr == NULL {
        writePtr, writeEnd := 0, buf.Length;
        return true;
      }
      ok := WriteAll(buf[..writePtr]);
      if ok {
        writePtr := 0;
      }
    }

    method BufInit() returns (ok: bool)
      requires Shape() && !inited
      modifies this`inited, this`buf, this`mallocs
      ensures Shape() && writePtr == old(writePtr) && ok == inited
      ensures ok && !unbuffered ==> buf != null && fresh(buf)
      ensures !ok || unbuffered ==> buf == old(buf)
      ensures !ok ==> Failing()
    {
      if !unbuffered {
        mallocs := mallocs + 1;
        if !memory(mallocs - 1) {
          return false;
        }
        buf := new char[BUFSIZ](_ => ' ');
      }
      inited := true;
      return true;
    }

    /** Before any output: on success there is room for a byte, or the stream is unbuffered. */
    method WriteInit() returns (ok: bool)
      requires Valid()
      modifies this, buf
      ensures Valid() && accepted == old(accepted) && (old(error) ==> error && delivered == old(delivered))
      ensures buf == old(buf) || fresh(buf)
      ensures !ok ==> Failing()
      ensures ok ==>
              !error && writing && inited && writable &&
                if unbuffered then writePtr == NULL else 0 <= writePtr < writeEnd
    {
      if !writable || error {
        return false;
      }
      writing := true;
      if !inited {
        var initialised := BufInit();
        if !initialised {
          return false;
        }
      }
      ok := true;
      if writePtr >= writeEnd {
        ok := Write();
      }
    }

    method Fflush() returns (r: int)
      requires Valid()
      modifies this, buf
      ensures Valid() && accepted == old(accepted) && (r == 0 || r == -1) && buf == old(buf)
      ensures r == 0 ==> !error && Pending() == "" && delivered == accepted
      ensures r == -1 ==> error
    {
      if error {
        return EOF;
      }
      if writing {
        var ok := Write();
        if !ok {
          return EOF;
        }
      }
      writing := false;
      return 0;
    }

    /** One byte into the buffer; the line end may be pending for now. */
    method Store(c: char)
      requires Shape() && !error && writing && 0 <= writePtr < writeEnd && delivered + Pending() == accepted
      modifies this`writePtr, this`accepted, buf
      ensures Shape() && writePtr == old(writePtr) + 1 && Pending() == old(Pending()) + [c]
      ensures delivered + Pending() == accepted && accepted == old(accepted) + [c]
    {
      ghost var before := Pending();
      buf[writePtr] := c;
      writePtr := writePtr + 1;
      accepted := accepted + [c];
      assert Pending() == before + [c];
    }

    /** Straight to the descriptor of an unbuffered stream. */
    method WriteThrough(s: string) returns (ok: bool)
      requires Valid() && !error && writing && writePtr == NULL
      modifies this`writes, this`error, this`delivered, this`accepted
      ensures Valid() && ok == !error && accepted == old(accepted) + s
    {
      accepted := accepted + s;
      ok := WriteAll(s);
    }

    /** The result is the byte as a signed char, so that the byte 255 also gives -1; otherwise -1 is failure. */
    method Fputc(c: int) returns (r: int)
      requires Valid()
      modifies this, buf
      ensures Valid() && (buf == old(buf) || fresh(buf))
      ensures var d := c % 256;
              if !error && accepted == old(accepted) + [d as char] then r == if d >= 128 then d - 256 else d
              else (r == -1 && Failing() &&
                    (accepted == old(accepted) || (error && accepted == old(accepted) + [d as char])))
    {
      var ok := WriteInit();
      if !ok {
        return EOF;
      }
      var d := (c % 256) as char;
      if writePtr == NULL {
        ok := WriteThrough([d]);
      } else {
        ghost var pending := Pending();
        Store(d);
        if IsEol(eol, d) {
          ok := Write();
        }
      }
      return if !ok then EOF else if c % 256 >= 128 then c % 256 - 256 else c % 256;
    }

    /** The loop of fputs and fwrite. */
    method PutBuffered(s: string) returns (ok: bool)
      requires Valid() && !error && writing && 0 <= writePtr < writeEnd
      modifies this, buf
      ensures Valid() && ok == !error && buf == old(buf)
      ensures ok ==> accepted == old(accepted) + s
      ensures old(accepted) <= accepted <= old(accepted) + s
    {
      var flush := false;
      assert s[..0] == "";
      assert s[..|s|] == s;
      for i := 0 to |s|
        invariant Shape() && !error && writing && 0 <= writePtr < writeEnd && buf == old(buf)
        invariant delivered + Pending() == accepted && accepted == old(accepted) + s[..i]
        invariant flush || NoLineEnd(eol, Pending())
      {
        assert s[..i + 1] == s[..i] + [s[i]];
        assert s[..i + 1] <= s;
        Store(s[i]);
        if writePtr >= writeEnd {
          ok := Write();
          if !ok {
            return false;
          }
          flush := false;
        } else if IsEol(eol, s[i]) {
          flush := true;
        }
      }
      ok := true;
      if flush {
        ok := Write();
      }
    }

    /** A string up to its terminator: 0 when all of it was accepted. */
    method Fputs(chars: string) returns (r: int)
      requires Valid()
      modifies this, buf
      ensures Valid() && (buf == old(buf) || fresh(buf)) && (r == 0 || r == -1)
      ensures r == 0 ==> !error && accepted == old(accepted) + CString(chars)
      ensures r == -1 ==> Failing()
      ensures old(accepted) <= accepted <= old(accepted) + CString(chars)
    {
      var ok := WriteInit();
      if !ok {
        return EOF;
      }
      if writePtr == NULL {
        ok := WriteThrough(CString(chars));
      } else {
        ok := PutBuffered(CString(chars));
      }
      return if ok then 0 else EOF;
    }

    /** nmemb items of the given size: the number of items when all bytes were accepted, else 0.  The number of
        bytes is a size_t product. */
    method Fwrite(data: string, size: nat, nmemb: nat) returns (r: nat)
      requires Valid() && ByteCount(size, nmemb) <= |data|
      modifies this, buf
      ensures Valid() && (buf == old(buf) || fresh(buf)) && (r == 0 || r == nmemb)
      ensures r > 0 ==> !error && accepted == old(accepted) + data[..ByteCount(size, nmemb)]
      ensures r == 0 ==> Failing() || (ByteCount(size, nmemb) == 0 && accepted == old(accepted))
      ensures old(accepted) <= accepted <= old(accepted) + data[..ByteCount(size, nmemb)]
    {
      NoItems(size, nmemb);
      hide ByteCount;
      var ok := WriteInit();
      var total := ByteCount(size, nmemb);
      if !ok || total == 0 {
        return 0;
      }
      if writePtr == NULL {
        ok := WriteThrough(data[..total]);
      } else {
        ok := PutBuffered(data[..total]);
      }
      return if ok then nmemb else 0;
    }
  }

  function ByteCount(size: nat, nmemb: nat): nat
  {
    NonNegative(size, nmemb);
    (size * nmemb) % U64
  }

  /** No items have no bytes. */
  lemma NoItems(size: nat, nmemb: nat)
    ensures nmemb == 0 ==> ByteCount(size, nmemb) == 0
  {
  }

  // ----- whole runs

  datatype Call = Putc(c: int) | Puts(chars: string) | PutItems(data: string, size: nat, nmemb: nat) | Flush

  /** fwrite is given at least the bytes it reads. */
  predicate Sane(c: Call)
  {
    c.PutItems? ==> ByteCount(c.size, c.nmemb) <= |c.data|
  }

  /** A product that fits a size_t is the number of bytes. */
  lemma CountFits(size: nat, nmemb: nat)
    requires 0 <= size * nmemb <= 18446744073709551615
    ensures ByteCount(size, nmemb) == size * nmemb
  {
  }

  /** The bytes a call offers. */
  function Offered(c: Call): string
  {
    match c
    case Putc(x) => [(x % 256) as char]
    case Puts(chars) => CString(chars)
    case PutItems(data, size, nmemb) => data[..Min(ByteCount(size, nmemb), |data|)]
    case Flush => ""
  }

  /** Written out: fputs offers the characters before the first NUL, fwrite the bytes of its items while their number
      fits a size_t, fputc the low byte of its argument. */
  lemma OfferedIs(chars: string, rest: string, data: string, size: nat, nmemb: nat, c: int)
    requires (forall i :: 0 <= i < |chars| ==> chars[i] != '\0') && (rest != "" ==> rest[0] == '\0')
    requires 0 <= size * nmemb <= |data| && |data| <= 18446744073709551615
    ensures Offered(Puts(chars + rest)) == chars
    ensures Offered(PutItems(data, size, nmemb)) == data[..size * nmemb]
    ensures 0 <= c < 256 ==> Offered(Putc(c)) == [c as char]
  {
    CStringIs(chars, rest);
    CountFits(size, nmemb);
  }

  function AllOffered(calls: seq<Call>): string
  {
    if calls == [] then "" else AllOffered(calls[..|calls| - 1]) + Offered(calls[|calls| - 1])
  }

  /** One call: either it takes all it is offered, or the stream is failing. */
  method Issue(f: File, call: Call) returns (ghost ok: bool)
    requires f.Valid() && !f.error && Sane(call)
    modifies f, f.buf
    ensures f.Valid() && (f.buf == old(f.buf) || fresh(f.buf))
    ensures ok ==> !f.error && f.accepted == old(f.accepted) + Offered(call)
    ensures ok && call.Flush? ==> f.Pending() == ""
    ensures !ok ==> f.Failing()
  {
    hide ByteCount, File.Valid;
    match call {
      case Putc(c) =>
        var r := f.Fputc(c);
      case Puts(chars) =>
        var r := f.Fputs(chars);
      case PutItems(data, size, nmemb) =>
        var r := f.Fwrite(data, size, nmemb);
      case Flush =>
        var r := f.Fflush();
    }
    ok := !f.error && f.accepted == old(f.accepted) + Offered(call);
  }

  /** Any run of calls on a fresh stream, with any short writes, goes to its end unless the stream is failing:
      then the descriptor has received, and the buffer still holds, exactly the bytes offered, in order, and
      no line end is pending; after a final flush the descriptor has all of them. */
  method RunCalls(f: File, calls: seq<Call>) returns (ok: bool)
    requires f.Valid() && f.accepted == "" && !f.error && forall c :: c in calls ==> Sane(c)
    modifies f, f.buf
    ensures f.Valid()
    ensures ok ==> !f.error && f.delivered + f.Pending() == AllOffered(calls) && NoLineEnd(f.eol, f.Pending())
    ensures ok && calls != [] && calls[|calls| - 1].Flush? ==> f.delivered == AllOffered(calls)
    ensures f.error ==> f.delivered <= f.accepted
    ensures !ok ==> f.Failing()
  {
    for i := 0 to |calls|
      invariant f.Valid() && !f.error && f.accepted == AllOffered(calls[..i]) && (f.buf == old(f.buf) || fresh(f.buf))
      invariant i > 0 && calls[i - 1].Flush? ==> f.Pending() == ""
    {
      assert calls[..i + 1][..i] == calls[..i];
      ghost var taken := Issue(f, calls[i]);
      if f.Failing() {
        return false;
      }
    }
    assert calls[..|calls|] == calls;
    return true;
  }
}
