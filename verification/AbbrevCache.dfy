/** Abbreviation lookup (section 7.5.3 of DWARF 5): a table scanned lazily into a cache. */
module AbbrevCache {
  import opened Arithmetic
  import opened Leb128

  const IMPLICIT_CONST: int := 0x21

  /** One declaration; code is kept in 31 bits. */
  datatype Abbrev = Abbrev(code: nat, tag: nat, hasChildren: bool, attrp: nat, offset: nat)

  datatype Option<T> = None | Some(value: T)

  // ----- one declaration

  /** Where the attribute list that starts at p ends. */
  function AttrsEnd(s: Bytes, p: nat): (r: Option<nat>)
    requires p <= |s|
    ensures r.Some? ==> p < r.value <= |s|
    decreases |s| - p
  {
    if p >= |s| then None else
    var name := ReadU(s, p);
    if name.next >= |s| then None else
    var form := ReadU(s, name.next);
    if form.value % U32 == IMPLICIT_CONST && form.next >= |s| then None else
    var next := if form.value % U32 == IMPLICIT_CONST then ReadS(s, form.next).next else form.next;
    if name.value % U32 == 0 && form.value % U32 == 0 then Some(next) else AttrsEnd(s, next)
  }

  datatype Parsed = End | Bad | Entry(code: nat, abb: Abbrev, next: nat)

  /** The declaration at an offset, with its full 32-bit code. */
  function Parse(s: Bytes, offset: nat): (r: Parsed)
    ensures r.Entry? ==> offset < r.next <= |s| && r.abb.offset == offset && r.abb.code == r.code % U31 && r.code < U32
  {
    if offset >= |s| then Bad
    else if s[offset] == 0 then End
    else
      var code := ReadU(s, offset);
      if code.next >= |s| then Bad else
      var tag := ReadU(s, code.next);
      if tag.next + 1 >= |s| then Bad else
      var end := AttrsEnd(s, tag.next + 1);
      if end.None? then Bad
      else Entry(code.value % U32,
        Abbrev(code.value % U32 % U31, tag.value % U32, s[tag.next] == 1, tag.next + 1, offset), end.value)
  }

  // ----- the scans a lookup is compared with

  /** The first declaration with this code from an offset on. */
  function First(s: Bytes, offset: nat, code: nat): Option<Abbrev>
    decreases |s| - offset
  {
    match Parse(s, offset)
    case Entry(c, abb, next) => if c == code then Some(abb) else First(s, next, code)
    case _ => None
  }

  /** What a lookup that starts with an empty cache finds from an offset on, when seen holds the codes
      already passed: a repeated code ends the scan, and so does one that is cut to 0. */
  function Fresh(s: Bytes, offset: nat, seen: set<nat>, code: nat): Option<Abbrev>
    decreases |s| - offset
  {
    match Parse(s, offset)
    case Entry(_, abb, next) =>
      if abb.code == 0 || abb.code in seen then None
      else if abb.code == code then Some(abb)
      else Fresh(s, next, seen + {abb.code}, code)
    case _ => None
  }

  lemma {:induction false} FreshOffset(s: Bytes, offset: nat, seen: set<nat>, code: nat)
    requires Fresh(s, offset, seen, code).Some?
    ensures var a := Fresh(s, offset, seen, code).value;
            offset <= a.offset < |s| && a.code == code != 0 && code !in seen && Parse(s, a.offset).Entry? &&
              Parse(s, a.offset).abb == a
    decreases |s| - offset
  {
    var p := Parse(s, offset);
    if p.abb.code != code {
      FreshOffset(s, p.next, seen + {p.abb.code}, code);
    }
  }

  /** Every declaration from an offset on has a code in seen, or 0, which is never looked up. */
  predicate NothingNew(s: Bytes, offset: nat, seen: set<nat>)
    decreases |s| - offset
  {
    match Parse(s, offset)
    case Entry(c, _, next) => (c == 0 || c in seen) && NothingNew(s, next, seen)
    case _ => true
  }

  /** Codes fit 31 bits and, once one is 0 or repeated, no new one follows. */
  predicate Clean(s: Bytes, offset: nat, seen: set<nat>)
    decreases |s| - offset
  {
    match Parse(s, offset)
    case Entry(c, _, next) =>
      if c == 0 || c in seen then NothingNew(s, next, seen)
      else c < U31 && Clean(s, next, seen + {c})
    case _ => true
  }

  /** All codes are different and positive and fit 31 bits. */
  predicate Distinct(s: Bytes, offset: nat, seen: set<nat>)
    decreases |s| - offset
  {
    match Parse(s, offset)
    case Entry(c, _, next) => 0 < c < U31 && c !in seen && Distinct(s, next, seen + {c})
    case _ => true
  }

  lemma {:induction false} DistinctIsClean(s: Bytes, offset: nat, seen: set<nat>)
    requires Distinct(s, offset, seen)
    ensures Clean(s, offset, seen)
    decreases |s| - offset
  {
    var p := Parse(s, offset);
    if p.Entry? {
      DistinctIsClean(s, p.next, seen + {p.code});
    }
  }

  /** The codes a plain scan can still find are those not seen. */
  ghost predicate Agree(s: Bytes, offset: nat, seen: set<nat>)
  {
    forall c :: 0 < c < U32 && c !in seen ==> Fresh(s, offset, seen, c) == First(s, offset, c)
  }

  lemma {:induction false} NothingNewIff(s: Bytes, offset: nat, seen: set<nat>)
    ensures NothingNew(s, offset, seen) <==> forall c :: 0 < c < U32 && c !in seen ==> First(s, offset, c) == None
    decreases |s| - offset
  {
    var p := Parse(s, offset);
    if p.Entry? {
      NothingNewIff(s, p.next, seen);
      if p.code == 0 || p.code in seen {
        forall c | 0 < c < U32 && c !in seen ensures First(s, offset, c) == First(s, p.next, c) {
        }
      } else {
        assert First(s, offset, p.code) == Some(p.abb);
      }
    }
  }

  /** Lookups agree with a plain scan for every code exactly when the table is clean. */
  lemma {:induction false} CleanIff(s: Bytes, offset: nat, seen: set<nat>)
    requires forall c :: c in seen ==> c < U31
    ensures Agree(s, offset, seen) <==> Clean(s, offset, seen)
    decreases |s| - offset
  {
    hide Parse, Fresh, First, NothingNew;
    var p := Parse(s, offset);
    if p.Entry? {
      if p.code == 0 || p.code in seen {
        AgreeRepeated(s, offset, seen);
      } else if p.code < U31 {
        CleanIff(s, p.next, seen + {p.code});
        AgreeNew(s, offset, seen);
      } else {
        AgreeLarge(s, offset, seen);
      }
    } else {
      AgreeAtEnd(s, offset, seen);
    }
  }

  lemma AgreeAtEnd(s: Bytes, offset: nat, seen: set<nat>)
    requires !Parse(s, offset).Entry?
    ensures Agree(s, offset, seen)
  {
  }

  lemma AgreeRepeated(s: Bytes, offset: nat, seen: set<nat>)
    requires Parse(s, offset).Entry? && Parse(s, offset).code < U31
    requires Parse(s, offset).code == 0 || Parse(s, offset).code in seen
    ensures Agree(s, offset, seen) <==> NothingNew(s, Parse(s, offset).next, seen)
  {
    hide Parse;
    var p := Parse(s, offset);
    ParseCode(s, offset);
    NothingNewIff(s, p.next, seen);
    forall d | 0 < d < U32 && d !in seen
      ensures Fresh(s, offset, seen, d) == None && First(s, offset, d) == First(s, p.next, d)
    {
    }
  }

  lemma ParseCode(s: Bytes, offset: nat)
    requires Parse(s, offset).Entry?
    ensures Parse(s, offset).abb.code == Parse(s, offset).code % U31
    ensures Parse(s, offset).code < U31 ==> Parse(s, offset).abb.code == Parse(s, offset).code
  {
  }

  lemma AgreeNew(s: Bytes, offset: nat, seen: set<nat>)
    requires Parse(s, offset).Entry? && Parse(s, offset).code !in seen && 0 < Parse(s, offset).code < U31
    ensures var p := Parse(s, offset); Agree(s, offset, seen) <==> Agree(s, p.next, seen + {p.code})
  {
    hide Parse;
    var p := Parse(s, offset);
    ParseCode(s, offset);
    forall d | 0 < d < U32 && d !in seen && d != p.code
      ensures Fresh(s, offset, seen, d) == Fresh(s, p.next, seen + {p.code}, d) &&
              First(s, offset, d) == First(s, p.next, d)
    {
    }
    assert Fresh(s, offset, seen, p.code) == First(s, offset, p.code);
  }

  lemma AgreeLarge(s: Bytes, offset: nat, seen: set<nat>)
    requires Parse(s, offset).Entry? && Parse(s, offset).code !in seen && Parse(s, offset).code >= U31
    ensures !Agree(s, offset, seen)
  {
    var c := Parse(s, offset).code;
    LargeCode(s, offset, seen, c);
    assert First(s, offset, c).Some?;
  }

  /** A code that does not fit 31 bits is never found. */
  lemma {:induction false} LargeCode(s: Bytes, offset: nat, seen: set<nat>, code: nat)
    requires code >= U31
    ensures Fresh(s, offset, seen, code) == None
    decreases |s| - offset
  {
    var p := Parse(s, offset);
    if p.Entry? {
      LargeCode(s, p.next, seen + {p.abb.code}, code);
    }
  }

  // ----- the cache

  const NOWHERE: nat := U64 - 1

  type Cache = map<nat, Abbrev>

  /** No declaration, the zero byte that ends the table, or a declaration and its length. */
  datatype Lookup = Null | EndMark | Found(abb: Abbrev, length: nat)

  /** Parsing at an offset: the result and the cache afterwards. The hash table takes no entry for 0, the
      mark of its empty slots, and a declaration whose code is cut to 0 is not found again. */
  function Get(s: Bytes, cache: Cache, offset: nat): (Lookup, Cache)
  {
    match Parse(s, offset)
    case End => (EndMark, cache)
    case Bad => (Null, cache)
    case Entry(code, abb, next) =>
      if code in cache then
        if cache[code].offset != offset then (Null, cache) else (Found(abb, next - offset), cache[code := abb])
      else if abb.code == 0 || abb.code in cache then (Null, cache)
      else (Found(abb, next - offset), cache[abb.code := abb])
  }

  /** The scan has passed the codes in seen and stands at last, or has ended; every lookup, answered from
      the cache or from there, gives what a lookup from the start of the table with an empty cache gives. */
  ghost predicate Consistent(s: Bytes, start: nat, last: nat, seen: set<nat>, cache: Cache)
  {
    && (forall c :: c in cache ==> 0 < c < U31 && Fresh(s, start, {}, c) == Some(cache[c]))
    && (last == NOWHERE ==> forall c :: c !in cache ==> Fresh(s, start, {}, c) == None)
    && (last != NOWHERE ==>
          && (forall c :: c in seen ==> c in cache && cache[c].offset < last)
          && (forall c :: c in cache && c !in seen ==>
            Parse(s, cache[c].offset).Entry? && Parse(s, cache[c].offset).code < U31)
          && (forall c :: c !in seen ==> Fresh(s, start, {}, c) == Fresh(s, last, seen, c)))
  }

  lemma ScanEnds(s: Bytes, start: nat, last: nat, seen: set<nat>, cache: Cache)
    requires Consistent(s, start, last, seen, cache) && last != NOWHERE && !Get(s, cache, last).0.Found?
    ensures Consistent(s, start, NOWHERE, seen, cache)
  {
    hide Parse;
    var p := Parse(s, last);
    if p.Entry? {
      ParseCode(s, last);
      ParseOffset(s, last);
      if p.abb.code != 0 && p.abb.code !in seen {
        FreshHere(s, last, seen);
        assert false;
      }
    }
  }

  lemma FreshHere(s: Bytes, offset: nat, seen: set<nat>)
    requires Parse(s, offset).Entry? && Parse(s, offset).abb.code != 0 && Parse(s, offset).abb.code !in seen
    ensures Fresh(s, offset, seen, Parse(s, offset).abb.code) == Some(Parse(s, offset).abb)
  {
  }

  lemma CacheCodes(s: Bytes, start: nat, last: nat, seen: set<nat>, cache: Cache)
    requires Consistent(s, start, last, seen, cache)
    ensures forall c :: c in cache ==> 0 < c < U31 && Fresh(s, start, {}, c) == Some(cache[c])
    ensures last == NOWHERE ==> forall c :: c !in cache ==> Fresh(s, start, {}, c) == None
  {
  }

  lemma ParseOffset(s: Bytes, offset: nat)
    requires Parse(s, offset).Entry?
    ensures Parse(s, offset).abb.offset == offset < Parse(s, offset).next <= |s|
  {
  }

  lemma ScanMoves(s: Bytes, start: nat, last: nat, seen: set<nat>, cache: Cache)
    requires Consistent(s, start, last, seen, cache) && last != NOWHERE && |s| < NOWHERE
    requires Get(s, cache, last).0.Found?
    ensures var p := Parse(s, last);
            && p.Entry? && last < p.next <= |s| && Get(s, cache, last).0 == Found(p.abb, p.next - last)
            && p.abb.code !in seen && Get(s, cache, last).1 == cache[p.abb.code := p.abb]
            && Consistent(s, start, p.next, seen + {p.abb.code}, cache[p.abb.code := p.abb])
  {
    hide Parse;
    var p := Parse(s, last);
    ParseCode(s, last);
    ParseOffset(s, last);
    var key := p.abb.code;
    assert key !in seen;
    assert Fresh(s, start, {}, key) == Some(p.abb);
    var seen', cache' := seen + {key}, cache[key := p.abb];
    forall c | c !in seen' ensures Fresh(s, start, {}, c) == Fresh(s, p.next, seen', c) {
      assert Fresh(s, last, seen, c) == Fresh(s, p.next, seen', c);
    }
  }

  lemma PreloadKeeps(s: Bytes, start: nat, last: nat, seen: set<nat>, cache: Cache, offset: nat)
    requires Consistent(s, start, last, seen, cache)
    requires var p := Parse(s, offset); p.Entry? ==> p.code < U31 && Fresh(s, start, {}, p.code) == Some(p.abb)
    ensures Consistent(s, start, last, seen, Get(s, cache, offset).1)
    ensures Get(s, cache, offset).0 == var p := Parse(s, offset);
            if p.Entry? then Found(p.abb, p.next - offset) else if p.End? then EndMark else Null
  {
    hide Parse, Fresh;
    var p := Parse(s, offset);
    if p.Entry? {
      FreshOffset(s, start, {}, p.code);
      ParseCode(s, offset);
      ParseOffset(s, offset);
    }
  }

  // ----- what the next lookup would give

  /** A lookup from a state: from the cache, or by scanning on. */
  function Answer(s: Bytes, last: nat, cache: Cache, code: nat): Option<Abbrev>
    decreases |s| - last
  {
    if code in cache then Some(cache[code])
    else if last == NOWHERE then None
    else
      var (r, after) := Get(s, cache, last);
      if !r.Found? then None
      else if r.abb.code == code then Some(r.abb)
      else Answer(s, last + r.length, after, code)
  }

  lemma {:induction false} AnswerIsFresh(s: Bytes, start: nat, last: nat, seen: set<nat>, cache: Cache, code: nat)
    requires Consistent(s, start, last, seen, cache) && |s| < NOWHERE
    ensures Answer(s, last, cache, code) == Fresh(s, start, {}, code)
    decreases |s| - last
  {
    hide Parse, Fresh, Consistent, Get;
    CacheCodes(s, start, last, seen, cache);
    if code !in cache && last != NOWHERE {
      var (r, after) := Get(s, cache, last);
      if r.Found? {
        ScanMoves(s, start, last, seen, cache);
        CacheCodes(s, start, last + r.length, seen + {r.abb.code}, after);
        AnswerIsFresh(s, start, last + r.length, seen + {r.abb.code}, after, code);
      } else {
        ScanEnds(s, start, last, seen, cache);
        CacheCodes(s, start, NOWHERE, seen, cache);
      }
    }
  }

  /** A declaration with this code, first in the table, stands ahead of the scan. */
  lemma StillAhead(s: Bytes, start: nat, last: nat, seen: set<nat>, cache: Cache, k: nat)
    requires Consistent(s, start, last, seen, cache) && k !in cache && Fresh(s, start, {}, k).Some?
    ensures last != NOWHERE && k !in seen && Fresh(s, last, seen, k) == Fresh(s, start, {}, k)
    ensures Parse(s, last).Entry? && Parse(s, last).abb.code !in seen && last <= Fresh(s, start, {}, k).value.offset
    ensures Parse(s, last).abb.code == k <==> last == Fresh(s, start, {}, k).value.offset
  {
    FreshOffset(s, last, seen, k);
    ParseOffset(s, last);
    if Parse(s, last).abb.code != k {
      FreshOffset(s, Parse(s, last).next, seen + {Parse(s, last).abb.code}, k);
    }
  }

  /** The entry at the scan's position is entered with or without an unrelated entry for k. */
  lemma GetBeside(s: Bytes, start: nat, last: nat, seen: set<nat>, cache: Cache, k: nat, abb: Abbrev)
    requires Consistent(s, start, last, seen, cache) && |s| < NOWHERE && k !in cache
    requires Fresh(s, start, {}, k) == Some(abb) && abb.offset != last
    ensures last != NOWHERE && Get(s, cache, last).0.Found? && Get(s, cache, last).0.abb.code != k
    ensures Get(s, cache[k := abb], last).0 == Get(s, cache, last).0
    ensures Get(s, cache[k := abb], last).1 == Get(s, cache, last).1[k := abb]
  {
    hide Parse, Fresh, Get;
    StillAhead(s, start, last, seen, cache, k);
    if !Get(s, cache, last).0.Found? {
      ScanEnds(s, start, last, seen, cache);
    } else {
      ScanMoves(s, start, last, seen, cache);
      ParseCode(s, last);
      FreshOffset(s, start, {}, k);
      ParseCode(s, abb.offset);
      hide Consistent;
      GetWithOther(s, cache, last, k, abb);
    }
  }

  lemma GetWithOther(s: Bytes, cache: Cache, offset: nat, k: nat, abb: Abbrev)
    requires k !in cache && k < U31 && Get(s, cache, offset).0.Found? && Get(s, cache, offset).0.abb.code != k
    ensures Get(s, cache[k := abb], offset).0 == Get(s, cache, offset).0
    ensures Get(s, cache[k := abb], offset).1 == Get(s, cache, offset).1[k := abb]
  {
    ParseCode(s, offset);
    hide Parse;
    var p := Parse(s, offset);
    assert p.code != k;
    if p.code in cache {
      assert cache[k := abb][p.code := p.abb] == cache[p.code := p.abb][k := abb];
    } else {
      assert cache[k := abb][p.abb.code := p.abb] == cache[p.abb.code := p.abb][k := abb];
    }
  }

  /** An entry ahead of the scan whose code does not fit 31 bits stops the scan when it is reached. */
  lemma {:induction false} CutShort(s: Bytes, start: nat, last: nat, seen: set<nat>, cache: Cache, k: nat, abb: Abbrev,
                                    d: nat)
    requires Consistent(s, start, last, seen, cache) && |s| < NOWHERE && k !in cache && d !in cache && d != k
    requires Fresh(s, start, {}, k) == Some(abb) && Parse(s, abb.offset).Entry? && Parse(s, abb.offset).code >= U31
    ensures var f := Fresh(s, start, {}, d);
            Answer(s, last, cache[k := abb], d) == if f.Some? && f.value.offset < abb.offset then f else None
    decreases |s| - last
  {
    hide Parse, Fresh, Consistent, Get;
    StillAhead(s, start, last, seen, cache, k);
    if last == abb.offset {
      StopsAt(s, start, last, seen, cache, k, abb, d);
    } else {
      GetBeside(s, start, last, seen, cache, k, abb);
      ScanMoves(s, start, last, seen, cache);
      var (r, after) := Get(s, cache, last);
      var seen' := seen + {r.abb.code};
      CacheCodes(s, start, last + r.length, seen', after);
      if r.abb.code == d {
        FoundAt(s, last);
      } else {
        CutShort(s, start, last + r.length, seen', after, k, abb, d);
      }
    }
  }

  lemma FoundAt(s: Bytes, last: nat)
    requires Parse(s, last).Entry?
    ensures Parse(s, last).abb.offset == last
  {
  }

  lemma StopsAt(s: Bytes, start: nat, last: nat, seen: set<nat>, cache: Cache, k: nat, abb: Abbrev, d: nat)
    requires Consistent(s, start, last, seen, cache) && k !in cache && d !in cache && d != k && last == abb.offset
    requires Fresh(s, start, {}, k) == Some(abb) && Parse(s, last).Entry? && Parse(s, last).code >= U31
    ensures Answer(s, last, cache[k := abb], d) == None
    ensures Fresh(s, start, {}, d).Some? ==> Fresh(s, start, {}, d).value.offset >= last
  {
    StillAhead(s, start, last, seen, cache, k);
    assert d !in seen;
    if Fresh(s, start, {}, d).Some? {
      FreshOffset(s, last, seen, d);
    }
  }

  ghost predicate SameAnswers(s: Bytes, last: nat, cache: Cache, other: Cache)
  {
    forall d :: Answer(s, last, cache, d) == Answer(s, last, other, d)
  }

  /** Parsing the declaration at any offset leaves all lookups as they are: it is known or refused, or it is
      the one that lookups give, and its code fits 31 bits or no lookup goes further than it. */
  ghost predicate Harmless(s: Bytes, start: nat, cache: Cache, offset: nat)
  {
    var p := Parse(s, offset);
    p.Entry? && p.code !in cache && p.abb.code !in cache && p.abb.code != 0 ==>
      && Fresh(s, start, {}, p.abb.code) == Some(p.abb)
      && (p.code < U31 || NothingBeyond(s, start, cache, p.abb.code, offset))
  }

  ghost predicate NothingBeyond(s: Bytes, start: nat, cache: Cache, k: nat, offset: nat)
  {
    forall d :: Behind(s, start, cache, k, offset, d)
  }

  ghost predicate Behind(s: Bytes, start: nat, cache: Cache, k: nat, offset: nat, d: nat)
  {
    d !in cache && d != k && Fresh(s, start, {}, d).Some? ==> Fresh(s, start, {}, d).value.offset < offset
  }

  lemma PreloadOne(s: Bytes, start: nat, last: nat, seen: set<nat>, cache: Cache, offset: nat, d: nat)
    requires Consistent(s, start, last, seen, cache) && |s| < NOWHERE && Parse(s, offset).Entry?
    requires Parse(s, offset).abb.code !in cache && Parse(s, offset).code >= U31
    requires Fresh(s, start, {}, Parse(s, offset).abb.code) == Some(Parse(s, offset).abb)
    ensures var p := Parse(s, offset);
            Answer(s, last, cache[p.abb.code := p.abb], d) == Answer(s, last, cache, d) <==>
            Behind(s, start, cache, p.abb.code, offset, d)
  {
    hide Parse, Fresh, Answer, Consistent;
    var p := Parse(s, offset);
    FoundAt(s, offset);
    AnswerIsFresh(s, start, last, seen, cache, d);
    if d in cache || d == p.abb.code {
      CacheCodes(s, start, last, seen, cache);
      AnswerCached(s, last, cache[p.abb.code := p.abb], d);
    } else {
      CutShort(s, start, last, seen, cache, p.abb.code, p.abb, d);
    }
  }

  lemma PreloadIff(s: Bytes, start: nat, last: nat, seen: set<nat>, cache: Cache, offset: nat)
    requires Consistent(s, start, last, seen, cache) && |s| < NOWHERE
    ensures var after := Get(s, cache, offset).1;
            SameAnswers(s, last, after, cache) <==> Harmless(s, start, cache, offset)
  {
    hide Parse, Fresh, Answer, Behind;
    var p := Parse(s, offset);
    var after := Get(s, cache, offset).1;
    if p.Entry? && p.code !in cache && p.abb.code !in cache && p.abb.code != 0 {
      ParseCode(s, offset);
      ParseOffset(s, offset);
      var k := p.abb.code;
      assert after == cache[k := p.abb];
      hide Get, Consistent;
      if Fresh(s, start, {}, k) != Some(p.abb) {
        AnswerIsFresh(s, start, last, seen, cache, k);
        AnswerCached(s, last, after, k);
      } else if p.code < U31 {
        PreloadKeeps(s, start, last, seen, cache, offset);
        forall d ensures Answer(s, last, after, d) == Answer(s, last, cache, d) {
          AnswerIsFresh(s, start, last, seen, cache, d);
          AnswerIsFresh(s, start, last, seen, after, d);
        }
      } else if d :| !Behind(s, start, cache, k, offset, d) {
        PreloadOne(s, start, last, seen, cache, offset, d);
      } else {
        forall d ensures Answer(s, last, after, d) == Answer(s, last, cache, d) {
          PreloadOne(s, start, last, seen, cache, offset, d);
        }
      }
    } else {
      CachedAgain(s, start, last, seen, cache, offset);
    }
  }

  lemma AnswerCached(s: Bytes, last: nat, cache: Cache, d: nat)
    requires d in cache
    ensures Answer(s, last, cache, d) == Some(cache[d])
  {
  }

  /** A declaration whose code is in the cache, or is cut to 0, leaves the cache as it is. */
  lemma CachedAgain(s: Bytes, start: nat, last: nat, seen: set<nat>, cache: Cache, offset: nat)
    requires Consistent(s, start, last, seen, cache)
    requires var p := Parse(s, offset); !(p.Entry? && p.code !in cache && p.abb.code !in cache && p.abb.code != 0)
    ensures Get(s, cache, offset).1 == cache
  {
    hide Parse, Fresh;
    var p := Parse(s, offset);
    if p.Entry? && p.code in cache {
      FreshOffset(s, start, {}, p.code);
    }
  }

  lemma GetKeeps(s: Bytes, cache: Cache, offset: nat)
    requires forall c :: c in cache ==> 0 < c < U31
    ensures forall c :: c in Get(s, cache, offset).1 ==> 0 < c < U31
    ensures !Get(s, cache, offset).0.Found? ==> Get(s, cache, offset).1 == cache
    ensures Get(s, cache, offset).0.Found? ==> offset < offset + Get(s, cache, offset).0.length <= |s|
  {
  }

  lemma GetAdds(s: Bytes, cache: Cache, offset: nat, code: nat)
    ensures var (r, after) := Get(s, cache, offset);
            code !in cache && r.Found? && r.abb.code != code ==> code !in after
  {
  }

  lemma FreshBegins(s: Bytes, start: nat)
    ensures start != NOWHERE || |s| <= NOWHERE ==> Consistent(s, start, start, {}, map[])
  {
  }

  method SkipAttributes(s: Bytes, start: nat) returns (end: Option<nat>)
    requires start <= |s|
    ensures end == AttrsEnd(s, start)
  {
    var p := start;
    var more := true;
    while more
      invariant start <= p <= |s| && (more || p > start)
      invariant AttrsEnd(s, start) == if more then AttrsEnd(s, p) else Some(p)
      decreases |s| - p, more
    {
      if p >= |s| {
        return None;
      }
      var name := ReadU(s, p);
      p := name.next;
      if p >= |s| {
        return None;
      }
      var form := ReadU(s, p);
      p := form.next;
      if form.value % U32 == IMPLICIT_CONST {
        if p >= |s| {
          return None;
        }
        p := ReadS(s, p).next;
      }
      more := name.value % U32 != 0 || form.value % U32 != 0;
    }
    return Some(p);
  }

  ghost predicate Ascending(q: seq<nat>)
  {
    forall i, j :: 0 <= i < j < |q| ==> q[i] < q[j]
  }

  /** The abbreviation table of one unit. */
  class AbbrevTable {
    const data: Bytes
    const start: nat
    var last: nat
    var cache: Cache
    ghost var seen: set<nat>
    ghost var scans: seq<nat>

    /** scans lists the offsets parsed by lookups; no declaration is parsed by them twice. */
    ghost predicate Valid()
      reads this
    {
      && |data| < NOWHERE
      && Consistent(data, start, last, seen, cache)
      && Ascending(scans) && (last != NOWHERE ==> forall i :: 0 <= i < |scans| ==> scans[i] < last)
    }

    constructor (data: Bytes, start: nat)
      requires |data| < NOWHERE
      ensures Valid() && this.data == data && this.start == start && scans == []
    {
      this.data, this.start, last := data, start, start;
      cache, seen, scans := map[], {}, [];
      new;
      FreshBegins(data, start);
    }

    /** Parses the declaration at an offset and enters it. */
    method GetAbbrev(offset: nat) returns (r: Lookup)
      requires forall c :: c in cache ==> 0 < c < U31
      modifies this`cache
      ensures (r, cache) == Get(data, old(cache), offset)
    {
      hide AttrsEnd, ReadU, ReadS;
      if offset >= |data| {
        return Null;
      }
      if data[offset] == 0 {
        return EndMark;
      }
      var code := ReadU(data, offset);
      var key := code.value % U32;
      var foundit := key in cache;
      if foundit && cache[key].offset != offset {
        return Null;
      }
      var p := code.next;
      if p >= |data| {
        return Null;
      }
      var tag := ReadU(data, p);
      p := tag.next;
      if p + 1 >= |data| {
        return Null;
      }
      var abb := Abbrev(key % U31, tag.value % U32, data[p] == 1, p + 1, offset);
      var end := SkipAttributes(data, p + 1);
      if end.None? {
        return Null;
      }
      assert Parse(data, offset) == Entry(key, abb, end.value);
      hide Parse;
      if foundit {
        cache := cache[key := abb];
      } else if abb.code == 0 || abb.code in cache {
        return Null;
      } else {
        cache := cache[abb.code := abb];
      }
      return Found(abb, end.value - offset);
    }

    /** What parsing declarations keeps in any case. */
    ghost predicate Sane()
      reads this
    {
      |data| < NOWHERE && forall c :: c in cache ==> 0 < c < U31
    }

    lemma ValidIsSane()
      requires Valid()
      ensures Sane()
    {
      CacheCodes(data, start, last, seen, cache);
    }

    /** One turn of the lookup loop: the next declaration is entered, or the scan ends for good. */
    method ScanNext() returns (r: Lookup)
      requires Sane() && last != NOWHERE
      modifies this
      ensures Sane() && (r, cache) == Get(data, old(cache), old(last))
      ensures r.Found? ==> old(last) < last <= |data| && last == old(last) + r.length
      ensures !r.Found? ==> last == NOWHERE && cache == old(cache)
      ensures old(Valid()) ==> Valid() && scans == old(scans) + [old(last)]
    {
      hide Parse, Fresh, Consistent, Get;
      ghost var before, valid := cache, Valid();
      r := GetAbbrev(last);
      GetKeeps(data, before, last);
      if valid {
        scans := scans + [last];
        if r.Found? {
          ScanMoves(data, start, last, seen, before);
          seen := seen + {r.abb.code};
        } else {
          ScanEnds(data, start, last, seen, before);
        }
      }
      if r.Found? {
        last := last + r.length;
      } else {
        last := NOWHERE;
      }
    }

    /** A lookup.  In a valid state the result depends on the table and the code alone, not on the lookups
        before; code 0 is never looked up. */
    method FindAbbrev(code: nat) returns (r: Option<Abbrev>)
      requires Sane()
      modifies this
      ensures Sane() && r == if code == 0 then None else Answer(data, old(last), old(cache), code)
      ensures old(Valid()) ==> Valid() && old(scans) <= scans
      ensures old(Valid()) ==> r == if code == 0 then None else Fresh(data, start, {}, code)
    {
      hide Parse, Fresh, Consistent, Get;
      if Valid() {
        AnswerIsFresh(data, start, last, seen, cache, code);
      }
      if code == 0 {
        return None;
      }
      if code in cache {
        return Some(cache[code]);
      }
      while last != NOWHERE
        invariant Sane() && code !in cache
        invariant Answer(data, last, cache, code) == Answer(data, old(last), old(cache), code)
        invariant old(Valid()) ==> Valid() && old(scans) <= scans
        decreases if last == NOWHERE then 0 else 1, |data| - last
      {
        GetAdds(data, cache, last, code);
        var found := ScanNext();
        if !found.Found? {
          return None;
        }
        if found.abb.code == code {
          return Some(found.abb);
        }
      }
      return None;
    }

    /** Any sequence of lookups: each gives what it would alone, on a clean table what a plain scan gives,
        and no declaration is parsed twice on the way. */
    method FindAll(codes: seq<nat>) returns (r: seq<Option<Abbrev>>)
      requires Valid() && forall i :: 0 <= i < |codes| ==> 0 < codes[i] < U32
      modifies this
      ensures Valid() && old(scans) <= scans && |r| == |codes|
      ensures forall i :: 0 <= i < |codes| ==> r[i] == Fresh(data, start, {}, codes[i])
      ensures Clean(data, start, {}) ==> forall i :: 0 <= i < |codes| ==> r[i] == First(data, start, codes[i])
    {
      hide Consistent, Fresh, First, Parse, Ascending;
      r := [];
      for i := 0 to |codes|
        invariant Valid() && old(scans) <= scans && |r| == i
        invariant forall j :: 0 <= j < i ==> r[j] == Fresh(data, start, {}, codes[j])
      {
        ValidIsSane();
        var abb := FindAbbrev(codes[i]);
        r := r + [abb];
      }
      CleanIff(data, start, {});
    }

    /** Parsing a declaration at any offset, ahead of the scan or not, changes no lookup exactly when it is
        harmless; when its code fits 31 bits and it is the one that lookups give, all that lookups promise
        holds on. */
    method Preload(offset: nat) returns (r: Lookup)
      requires Valid()
      modifies this`cache
      ensures Sane() && (r, cache) == Get(data, old(cache), offset)
      ensures SameAnswers(data, last, cache, old(cache)) <==> Harmless(data, start, old(cache), offset)
      ensures var p := Parse(data, offset);
              (p.Entry? ==> p.code < U31 && Fresh(data, start, {}, p.code) == Some(p.abb)) ==>
              Valid() &&
              r == if p.Entry? then Found(p.abb, p.next - offset) else if p.End? then EndMark else Null
    {
      hide Parse, Fresh, Consistent, Harmless, Get, SameAnswers;
      ValidIsSane();
      PreloadIff(data, start, last, seen, cache, offset);
      GetKeeps(data, cache, offset);
      var p := Parse(data, offset);
      if p.Entry? ==> p.code < U31 && Fresh(data, start, {}, p.code) == Some(p.abb) {
        PreloadKeeps(data, start, last, seen, cache, offset);
      }
      ghost var before := cache;
      r := GetAbbrev(offset);
      assert cache == Get(data, before, offset).1;
    }
  }
}
