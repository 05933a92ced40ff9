/** Variable-length integers (section 7.6 of DWARF 5). */
module Leb128 {
  import opened Arithmetic

  type Byte = b: int | 0 <= b < 256

  type Bytes = seq<Byte>

  /** Two's-complement truncation to 32 bits. */
  function Int32(v: int): int
  {
    (v + U31) % U32 - U31
  }

  datatype Number = Open | Closed(value: int)

  datatype ReadResult = ReadResult(value: int, next: nat)

  /** The 7-bit groups of s[p..max], least significant first, up to a byte without continuation bit.
      signed says whether bit 6 of the last byte extends the sign. */
  function Groups(s: Bytes, p: nat, max: nat, signed: bool): (r: (Number, nat))
    requires p <= max <= |s|
    ensures p <= r.1 <= max && (r.0.Closed? ==> p < r.1) && (r.0.Open? ==> r.1 == max)
    decreases max - p
  {
    if p == max then (Open, p)
    else
      var b: int := s[p];
      if b < 128 then (Closed(if signed && b >= 64 then b - 128 else b), p + 1)
      else
        var (v, n) := Groups(s, p + 1, max, signed);
        (if v.Open? then Open else Closed(b - 128 + 128 * v.value), n)
  }

  /** The value of the 7-bit groups of s[p..max], continuation bits ignored. */
  function LowBits(s: Bytes, p: nat, max: nat): int
    requires p <= max <= |s|
    decreases max - p
  {
    if p == max then 0 else s[p] % 128 + 128 * LowBits(s, p + 1, max)
  }

  /** Unsigned: at most ten bytes; an unterminated number reads as the largest 64-bit value. */
  function ReadU(s: Bytes, p: nat): (r: ReadResult)
    requires p < |s|
    ensures p < r.next <= |s| && 0 <= r.value < U64
  {
    var max := Min(p + 10, |s|);
    var (v, n) := Groups(s, p, max, false);
    ReadResult(if v.Open? then U64 - 1 else v.value % U64, n)
  }

  /** Signed: nine bytes and possibly one extra byte that holds the sign. */
  function ReadS(s: Bytes, p: nat): (r: ReadResult)
    requires p < |s|
    ensures p < r.next <= |s|
  {
    var max := Min(p + 9, |s|);
    var (v, n) := Groups(s, p, max, true);
    if v.Closed? then ReadResult(v.value, n)
    else if max == |s| then ReadResult(U64 / 2 - 1, n)
    else if s[max] < 128 then
      ReadResult((LowBits(s, p, max) + s[max] * (U64 / 2) + U64 / 2) % U64 - U64 / 2, max + 1)
    else ReadResult(U64 / 2 - 1, max + 1)
  }

  // ----- what is read, whatever its encoding

  /** The bytes from p to q ask for more, and the one at q does not. */
  predicate EndsAt(s: Bytes, p: nat, q: nat)
  {
    p <= q < |s| && s[q] < 128 && forall i :: p <= i < q ==> s[i] >= 128
  }

  lemma {:induction false} GroupsClosed(s: Bytes, p: nat, q: nat, max: nat, signed: bool)
    requires EndsAt(s, p, q) && q < max <= |s|
    ensures Groups(s, p, max, signed) ==
            (Closed(LowBits(s, p, q + 1) - if signed && s[q] >= 64 then Pow128(q + 1 - p) else 0), q + 1)
    decreases q - p
  {
    if p < q {
      GroupsClosed(s, p + 1, q, max, signed);
    } else {
      assert Pow128(1) == 128;
      assert LowBits(s, q + 1, q + 1) == 0;
    }
  }

  lemma {:induction false} GroupsOpen(s: Bytes, p: nat, max: nat, signed: bool)
    requires p <= max <= |s| && forall i :: p <= i < max ==> s[i] >= 128
    ensures Groups(s, p, max, signed) == (Open, max)
    decreases max - p
  {
    if p < max {
      GroupsOpen(s, p + 1, max, signed);
    }
  }

  /** An unsigned number of up to ten bytes is the sum of its groups modulo 2^64, shortest or not; one that does not
      end within ten bytes or before the end of the section reads as the largest value. */
  lemma ReadsAnyU(s: Bytes, p: nat, q: nat)
    requires p < |s|
    ensures EndsAt(s, p, q) && q < p + 10 ==>
              ReadU(s, p) == ReadResult(LowBits(s, p, q + 1) % 18446744073709551616, q + 1)
    ensures (forall i :: p <= i < p + 10 && i < |s| ==> s[i] >= 128) ==>
              ReadU(s, p) == ReadResult(18446744073709551615, if p + 10 <= |s| then p + 10 else |s|)
  {
    if EndsAt(s, p, q) && q < p + 10 {
      GroupsClosed(s, p, q, Min(p + 10, |s|), false);
    }
    if forall i :: p <= i < p + 10 && i < |s| ==> s[i] >= 128 {
      GroupsOpen(s, p, Min(p + 10, |s|), false);
    }
  }

  /** A signed number of up to nine bytes is the sum of its groups, less the next power when bit 6 of the last byte
      is set; one that does not end in ten bytes or before the end of the section reads as the largest value. */
  lemma ReadsAnyS(s: Bytes, p: nat, q: nat)
    requires p < |s|
    ensures EndsAt(s, p, q) && q < p + 9 ==>
              ReadS(s, p) ==
              ReadResult(LowBits(s, p, q + 1) - if s[q] >= 64 then Pow128(q + 1 - p) else 0, q + 1)
    ensures (forall i :: p <= i < p + 10 && i < |s| ==> s[i] >= 128) ==>
              ReadS(s, p) == ReadResult(9223372036854775807, if p + 10 <= |s| then p + 10 else |s|)
  {
    if EndsAt(s, p, q) && q < p + 9 {
      GroupsClosed(s, p, q, Min(p + 9, |s|), true);
    }
    if forall i :: p <= i < p + 10 && i < |s| ==> s[i] >= 128 {
      GroupsOpen(s, p, Min(p + 9, |s|), true);
    }
  }

  // ----- reading looks only at what it consumes

  /** t starts with the first n bytes of s, is at least as long, and ends there if s does. */
  ghost predicate Extends(s: Bytes, t: Bytes, n: nat)
  {
    n <= |s| <= |t| && (forall i :: 0 <= i < n ==> t[i] == s[i]) && (|s| == n ==> |t| == n)
  }

  lemma {:induction false} GroupsLocal(s: Bytes, t: Bytes, p: nat, max: nat, max': nat, signed: bool)
    requires p <= max <= |s| && max <= max' <= |t|
    requires var (v, n) := Groups(s, p, max, signed);
             (forall i :: p <= i < n ==> t[i] == s[i]) && (v.Open? ==> max == max')
    ensures Groups(t, p, max', signed) == Groups(s, p, max, signed)
    decreases max - p
  {
    if p < max && s[p] >= 128 {
      GroupsLocal(s, t, p + 1, max, max', signed);
    }
  }

  lemma {:induction false} LowBitsLocal(s: Bytes, t: Bytes, p: nat, max: nat)
    requires p <= max <= |s| && max <= |t| && forall i :: p <= i < max ==> t[i] == s[i]
    ensures LowBits(t, p, max) == LowBits(s, p, max)
    decreases max - p
  {
    if p < max {
      LowBitsLocal(s, t, p + 1, max);
    }
  }

  lemma ReadULocal(s: Bytes, t: Bytes, n: nat, p: nat)
    requires Extends(s, t, n) && p < |s| && ReadU(s, p).next <= n
    ensures ReadU(t, p) == ReadU(s, p)
  {
    GroupsLocal(s, t, p, Min(p + 10, |s|), Min(p + 10, |t|), false);
  }

  lemma ReadSLocal(s: Bytes, t: Bytes, n: nat, p: nat)
    requires Extends(s, t, n) && p < |s| && ReadS(s, p).next <= n
    ensures ReadS(t, p) == ReadS(s, p)
  {
    GroupsLocal(s, t, p, Min(p + 9, |s|), Min(p + 9, |t|), true);
    if Groups(s, p, Min(p + 9, |s|), true).0.Open? {
      LowBitsLocal(s, t, p, Min(p + 9, |s|));
    }
  }

  // ----- every 64-bit number is read back

  function EncodeU(v: nat): (s: Bytes)
    ensures |s| > 0
  {
    if v < 128 then [v] else [128 + v % 128] + EncodeU(v / 128)
  }

  function Magnitude(v: int): nat { if v < 0 then -v else v }

  function EncodeS(v: int): (s: Bytes)
    ensures |s| > 0
    decreases Magnitude(v)
  {
    if -64 <= v < 64 then [v % 128] else [128 + v % 128] + EncodeS(v / 128)
  }

  ghost predicate At(s: Bytes, p: nat, code: Bytes)
  {
    p + |code| <= |s| && s[p..p + |code|] == code
  }

  lemma AtTail(s: Bytes, p: nat, code: Bytes)
    requires At(s, p, code) && code != []
    ensures s[p] == code[0] && At(s, p + 1, code[1..])
  {
    var t := s[p..p + |code|];
    assert t[0] == s[p];
    assert s[p + 1..p + |code|] == t[1..];
  }

  lemma AtSplit(s: Bytes, p: nat, a: Bytes, b: Bytes)
    requires At(s, p, a + b)
    ensures At(s, p, a) && At(s, p + |a|, b) && p + |a| + |b| <= |s|
  {
    var t := s[p..p + |a + b|];
    assert s[p..p + |a|] == t[..|a|];
    assert s[p + |a|..p + |a| + |b|] == t[|a|..];
  }

  function Pow128(k: nat): (r: nat)
    ensures r > 0
  {
    if k == 0 then 1 else 128 * Pow128(k - 1)
  }

  lemma {:induction false} LengthU(v: nat, k: nat)
    requires k > 0 && v < Pow128(k)
    ensures |EncodeU(v)| <= k
    decreases k
  {
    if v >= 128 {
      LengthU(v / 128, k - 1);
    }
  }

  lemma {:induction false} GroupsU(s: Bytes, p: nat, max: nat, v: nat)
    requires At(s, p, EncodeU(v)) && p + |EncodeU(v)| <= max <= |s|
    ensures Groups(s, p, max, false) == (Closed(v), p + |EncodeU(v)|)
    decreases v
  {
    AtTail(s, p, EncodeU(v));
    if v >= 128 {
      assert EncodeU(v)[1..] == EncodeU(v / 128);
      GroupsU(s, p + 1, max, v / 128);
    }
  }

  lemma ReadsBackU(s: Bytes, p: nat, v: nat)
    requires v < U64 && At(s, p, EncodeU(v))
    ensures ReadU(s, p) == ReadResult(v, p + |EncodeU(v)|)
  {
    PowersOf128();
    LengthU(v, 10);
    GroupsU(s, p, Min(p + 10, |s|), v);
  }

  function Shift(v: int, k: nat): int
    decreases k
  {
    if k == 0 then v else Shift(v / 128, k - 1)
  }

  lemma {:induction false} ShiftSmall(v: int, k: nat)
    requires k > 0 && -64 * Pow128(k - 1) <= v < 64 * Pow128(k - 1)
    ensures -64 <= Shift(v, k - 1) < 64 && |EncodeS(v)| <= k
    decreases k
  {
    if k > 1 {
      ShiftSmall(v / 128, k - 1);
    }
  }

  lemma {:induction false} GroupsS(s: Bytes, p: nat, max: nat, v: int)
    requires At(s, p, EncodeS(v)) && p + |EncodeS(v)| <= max <= |s|
    ensures Groups(s, p, max, true) == (Closed(v), p + |EncodeS(v)|)
    decreases Magnitude(v)
  {
    AtTail(s, p, EncodeS(v));
    if !(-64 <= v < 64) {
      assert EncodeS(v)[1..] == EncodeS(v / 128);
      GroupsS(s, p + 1, max, v / 128);
    }
  }

  lemma CutStep(v: int, rest: int, power: int, shifted: int)
    requires rest + power * shifted == v / 128
    ensures v % 128 + 128 * rest + 128 * power * shifted == v
  {
    assert 128 * power * shifted == 128 * (power * shifted);
  }

  /** The first k bytes of a longer encoding carry the low 7k bits; what follows encodes the rest. */
  lemma {:induction false} GroupsCut(s: Bytes, p: nat, k: nat, v: int)
    requires At(s, p, EncodeS(v)) && k < |EncodeS(v)|
    ensures Groups(s, p, p + k, true) == (Open, p + k)
    ensures At(s, p + k, EncodeS(Shift(v, k))) && |EncodeS(Shift(v, k))| == |EncodeS(v)| - k
    decreases k
  {
    if k > 0 {
      AtTail(s, p, EncodeS(v));
      assert EncodeS(v)[1..] == EncodeS(v / 128);
      GroupsCut(s, p + 1, k - 1, v / 128);
    }
  }

  lemma {:induction false} LowBitsCut(s: Bytes, p: nat, k: nat, v: int)
    requires At(s, p, EncodeS(v)) && k < |EncodeS(v)|
    ensures LowBits(s, p, p + k) + Pow128(k) * Shift(v, k) == v
    decreases k
  {
    if k > 0 {
      AtTail(s, p, EncodeS(v));
      assert EncodeS(v)[1..] == EncodeS(v / 128);
      LowBitsCut(s, p + 1, k - 1, v / 128);
      hide At;
      CutStep(v, LowBits(s, p + 1, p + k), Pow128(k - 1), Shift(v / 128, k - 1));
    }
  }

  lemma {:induction false} LowBitsSmall(s: Bytes, p: nat, k: nat)
    requires p + k <= |s|
    ensures 0 <= LowBits(s, p, p + k) < Pow128(k)
    decreases k
  {
    if k > 0 {
      LowBitsSmall(s, p + 1, k - 1);
    }
  }

  lemma PowersOf128()
    ensures Pow128(9) == U64 / 2
  {
    assert Pow128(4) == 0x1000_0000;
  }

  /** In the tenth byte only the lowest bit counts, as the sign. */
  lemma SignByte(v: int, low: int, w: int)
    requires v == low + U64 / 2 * w && 0 <= low < U64 / 2 && -U64 / 2 <= v < U64 / 2
    ensures (low + w % 128 * (U64 / 2) + U64 / 2) % U64 - U64 / 2 == v && (w == 0 || w == -1)
  {
    assert w == 0 || w == -1;
  }

  lemma ReadsBackS(s: Bytes, p: nat, v: int)
    requires -U64 / 2 <= v < U64 / 2 && At(s, p, EncodeS(v))
    ensures ReadS(s, p) == ReadResult(v, p + |EncodeS(v)|)
  {
    hide Groups, LowBits, EncodeS, Shift, Pow128;
    PowersOf128();
    ShiftBound(v);
    if |EncodeS(v)| <= 9 {
      GroupsS(s, p, Min(p + 9, |s|), v);
    } else {
      GroupsCut(s, p, 9, v);
      LowBitsCut(s, p, 9, v);
      LowBitsSmall(s, p, 9);
      SignByte(v, LowBits(s, p, p + 9), Shift(v, 9));
      LastByte(s, p + 9, Shift(v, 9));
    }
  }

  lemma ShiftBound(v: int)
    requires -U64 / 2 <= v < U64 / 2
    ensures |EncodeS(v)| <= 10
  {
    PowersOf128();
    ShiftSmall(v, 10);
  }

  lemma LastByte(s: Bytes, p: nat, w: int)
    requires (w == 0 || w == -1) && At(s, p, EncodeS(w))
    ensures |EncodeS(w)| == 1 && p < |s| && s[p] == w % 128
  {
    AtTail(s, p, EncodeS(w));
  }
}
