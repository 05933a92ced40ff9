/** Abbreviation tables by their bytes (section 7.5.3 of DWARF 5). */
module AbbrevEncoding {
  import opened Arithmetic
  import opened Leb128
  import opened AbbrevCache

  /** The name and form of an attribute, and the constant that follows form 0x21. */
  datatype Attribute = Attribute(name: nat, form: nat, constant: int)

  datatype Declaration = Declaration(code: nat, tag: nat, children: Byte, attributes: seq<Attribute>)

  function AttributeBytes(a: Attribute): Bytes
  {
    EncodeU(a.name) + EncodeU(a.form) + if a.form % 4294967296 == 0x21 then EncodeS(a.constant) else []
  }

  /** The attributes and the pair of zeros that ends them. */
  function ListBytes(attributes: seq<Attribute>): Bytes
  {
    if attributes == [] then [0, 0] else AttributeBytes(attributes[0]) + ListBytes(attributes[1..])
  }

  function DeclarationBytes(d: Declaration): Bytes
  {
    EncodeU(d.code) + (EncodeU(d.tag) + ([d.children] + ListBytes(d.attributes)))
  }

  /** A table ends with the code 0. */
  function TableBytes(table: seq<Declaration>): Bytes
  {
    if table == [] then [0] else DeclarationBytes(table[0]) + TableBytes(table[1..])
  }

  /** Numbers of up to 64 bits, of which the low 32 count; they are not those of the end of the list. */
  predicate Proper(a: Attribute)
  {
    && a.name < 18446744073709551616 && a.form < 18446744073709551616
    && (a.name % 4294967296 != 0 || a.form % 4294967296 != 0)
    && -9223372036854775808 <= a.constant <= 9223372036854775807
  }

  predicate WellFormed(d: Declaration)
  {
    && 0 < d.code < 18446744073709551616 && d.tag < 18446744073709551616
    && forall i :: 0 <= i < |d.attributes| ==> Proper(d.attributes[i])
  }

  lemma NumberRead(s: Bytes, p: nat, v: nat)
    requires At(s, p, EncodeU(v)) && v < 18446744073709551616
    ensures p < |s| && ReadU(s, p) == ReadResult(v, p + |EncodeU(v)|)
  {
    ReadsBackU(s, p, v);
  }

  lemma ListSome(attributes: seq<Attribute>)
    ensures |ListBytes(attributes)| >= 2
  {
    hide EncodeU, EncodeS;
  }

  /** The list ends behind its two zeros, wherever they stand. */
  lemma {:induction false} ListRead(s: Bytes, p: nat, attributes: seq<Attribute>)
    requires At(s, p, ListBytes(attributes)) && forall i :: 0 <= i < |attributes| ==> Proper(attributes[i])
    ensures p <= |s| && AttrsEnd(s, p) == Some(p + |ListBytes(attributes)|)
    decreases |attributes|
  {
    hide EncodeU, EncodeS, ReadU, ReadS;
    if attributes == [] {
      ZerosRead(s, p);
    } else {
      var a, rest := attributes[0], ListBytes(attributes[1..]);
      ListSome(attributes[1..]);
      AtSplit(s, p, AttributeBytes(a), rest);
      ListRead(s, p + |AttributeBytes(a)|, attributes[1..]);
      AttributeRead(s, p, a);
    }
  }

  /** Any pair of numbers whose low 32 bits are zero ends a list. */
  lemma PairEnds(s: Bytes, p: nat, name: nat, form: nat)
    requires At(s, p, EncodeU(name) + EncodeU(form))
    requires name < 18446744073709551616 && name % 4294967296 == 0
    requires form < 18446744073709551616 && form % 4294967296 == 0
    ensures p <= |s| && AttrsEnd(s, p) == Some(p + |EncodeU(name)| + |EncodeU(form)|)
  {
    hide EncodeU, ReadU, ReadS, At;
    AtSplit(s, p, EncodeU(name), EncodeU(form));
    NumberRead(s, p, name);
    NumberRead(s, p + |EncodeU(name)|, form);
  }

  lemma ZerosRead(s: Bytes, p: nat)
    requires At(s, p, [0, 0])
    ensures p + 2 <= |s| && AttrsEnd(s, p) == Some(p + 2)
  {
    hide AttrsEnd;
    assert EncodeU(0) + EncodeU(0) == [0, 0];
    PairEnds(s, p, 0, 0);
  }

  lemma AttributeRead(s: Bytes, p: nat, a: Attribute)
    requires At(s, p, AttributeBytes(a)) && Proper(a) && p + |AttributeBytes(a)| < |s|
    ensures AttrsEnd(s, p) == AttrsEnd(s, p + |AttributeBytes(a)|)
  {
    hide EncodeU, EncodeS, ReadU, ReadS, At;
    var n, f := EncodeU(a.name), EncodeU(a.form);
    if a.form % 4294967296 == 0x21 {
      assert AttributeBytes(a) == n + (f + EncodeS(a.constant));
      AtSplit(s, p, n, f + EncodeS(a.constant));
      AtSplit(s, p + |n|, f, EncodeS(a.constant));
      ReadsBackS(s, p + |n| + |f|, a.constant);
    } else {
      assert AttributeBytes(a) == n + f;
      AtSplit(s, p, n, f);
    }
    NumberRead(s, p, a.name);
    NumberRead(s, p + |n|, a.form);
  }

  /** What is kept of a declaration that stands at an offset. */
  function Stored(d: Declaration, offset: nat): Abbrev
  {
    Abbrev(d.code % 2147483648, d.tag % 4294967296, d.children == 1,
      offset + |EncodeU(d.code)| + |EncodeU(d.tag)| + 1, offset)
  }

  lemma FirstByte(v: nat)
    requires v > 0
    ensures EncodeU(v)[0] != 0
  {
  }

  /** A declaration is read back from its bytes: code, tag, children flag, where its attributes begin, and where it
      ends. */
  lemma DeclarationRead(s: Bytes, p: nat, d: Declaration)
    requires At(s, p, DeclarationBytes(d)) && WellFormed(d)
    ensures Parse(s, p) == Entry(d.code % 4294967296, Stored(d, p), p + |DeclarationBytes(d)|)
  {
    hide *;
    var c, t, l := EncodeU(d.code), EncodeU(d.tag), ListBytes(d.attributes);
    DeclarationParts(s, p, d);
    NumberRead(s, p, d.code);
    NumberRead(s, p + |c|, d.tag);
    ListRead(s, p + |c| + |t| + 1, d.attributes);
    ParseFrom(s, p, d.code, p + |c|, d.tag, p + |c| + |t|, p + |c| + |t| + 1 + |l|);
    StoredFields(d, p);
  }

  lemma DeclarationParts(s: Bytes, p: nat, d: Declaration)
    requires At(s, p, DeclarationBytes(d)) && WellFormed(d)
    ensures var c, t, l := EncodeU(d.code), EncodeU(d.tag), ListBytes(d.attributes);
            && p < |s| && s[p] != 0 && p + |c| + |t| + 1 < |s| && s[p + |c| + |t|] == d.children
            && At(s, p, c) && At(s, p + |c|, t) && At(s, p + |c| + |t| + 1, l)
            && |DeclarationBytes(d)| == |c| + |t| + 1 + |l|
    ensures d.code < 18446744073709551616 && d.tag < 18446744073709551616
    ensures forall i :: 0 <= i < |d.attributes| ==> Proper(d.attributes[i])
  {
    hide EncodeU, ListBytes, At, Proper;
    var c, t, k, l := EncodeU(d.code), EncodeU(d.tag), [d.children], ListBytes(d.attributes);
    ListSome(d.attributes);
    AtSplit(s, p, c, t + (k + l));
    AtSplit(s, p + |c|, t, k + l);
    AtSplit(s, p + |c| + |t|, k, l);
    AtTail(s, p, c);
    FirstByte(d.code);
    AtTail(s, p + |c| + |t|, k);
  }

  lemma ParseFrom(s: Bytes, p: nat, code: nat, q: nat, tag: nat, t: nat, end: nat)
    requires p < |s| && s[p] != 0 && ReadU(s, p) == ReadResult(code, q)
    requires q < |s| && ReadU(s, q) == ReadResult(tag, t) && t + 1 < |s| && AttrsEnd(s, t + 1) == Some(end)
    ensures Parse(s, p) ==
            Entry(code % 4294967296,
                  Abbrev(code % 4294967296 % 2147483648, tag % 4294967296, s[t] == 1, t + 1, p), end)
  {
    hide ReadU, AttrsEnd;
  }

  lemma StoredFields(d: Declaration, p: nat)
    ensures Stored(d, p) ==
            Abbrev(d.code % 4294967296 % 2147483648, d.tag % 4294967296, d.children == 1,
              p + |EncodeU(d.code)| + |EncodeU(d.tag)| + 1, p)
  {
    hide EncodeU;
  }

  // ----- whole tables

  /** The declaration listed under a code, and where it stands. */
  function Listed(table: seq<Declaration>, p: nat, code: nat): Option<Abbrev>
  {
    if table == [] then None
    else if table[0].code == code then Some(Stored(table[0], p))
    else Listed(table[1..], p + |DeclarationBytes(table[0])|, code)
  }

  /** Codes are different and below 2^31. */
  predicate CodesDistinct(table: seq<Declaration>)
  {
    && (forall i :: 0 <= i < |table| ==> WellFormed(table[i]) && table[i].code < 2147483648)
    && (forall i, j :: 0 <= i < j < |table| ==> table[i].code != table[j].code)
  }

  lemma TableEnds(s: Bytes, p: nat)
    requires At(s, p, [0])
    ensures Parse(s, p) == End
  {
    AtTail(s, p, [0]);
  }

  lemma {:induction false} TableRead(s: Bytes, p: nat, table: seq<Declaration>, seen: set<nat>, code: nat)
    requires At(s, p, TableBytes(table)) && CodesDistinct(table) && code !in seen
    requires forall i :: 0 <= i < |table| ==> table[i].code !in seen
    ensures Fresh(s, p, seen, code) == Listed(table, p, code)
    decreases |table|
  {
    hide DeclarationBytes, Parse, At, Stored;
    if table == [] {
      TableEnds(s, p);
    } else {
      var d := table[0];
      AtSplit(s, p, DeclarationBytes(d), TableBytes(table[1..]));
      DeclarationRead(s, p, d);
      StoredCode(d, p);
      if d.code != code {
        TableRead(s, p + |DeclarationBytes(d)|, table[1..], seen + {d.code}, code);
      }
    }
  }

  lemma StoredCode(d: Declaration, p: nat)
    requires d.code < 2147483648
    ensures Stored(d, p).code == d.code
  {
  }

  /** In a table of distinct codes that is written at its start, a lookup finds exactly the declaration listed
      under the code, whatever was looked up before. */
  method LookupInTable(t: AbbrevTable, table: seq<Declaration>, code: nat) returns (r: Option<Abbrev>)
    requires t.Valid() && At(t.data, t.start, TableBytes(table)) && CodesDistinct(table) && 0 < code < 4294967296
    modifies t
    ensures t.Valid() && r == Listed(table, t.start, code)
  {
    hide *;
    t.ValidIsSane();
    TableReadFromStart(t.data, t.start, table, code);
    r := t.FindAbbrev(code);
  }

  lemma TableReadFromStart(s: Bytes, p: nat, table: seq<Declaration>, code: nat)
    requires At(s, p, TableBytes(table)) && CodesDistinct(table)
    ensures Fresh(s, p, {}, code) == Listed(table, p, code)
  {
    TableRead(s, p, table, {}, code);
  }
}
