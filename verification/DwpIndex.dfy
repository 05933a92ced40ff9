/** The double-hashed signature table of a DWARF package index (section 7.3.5.3 of DWARF 5). */
module DwpIndex {
  import opened Arithmetic

  /** Bitwise and of two numbers. */
  function And(a: nat, b: nat): (r: nat)
    ensures r <= b
  {
    if a == 0 || b == 0 then 0 else 2 * And(a / 2, b / 2) + (a % 2) * (b % 2)
  }

  lemma {:induction false} AndMask(a: nat, k: nat)
    ensures And(a, Pow2(k) - 1) == Rem(a, Pow2(k))
    decreases k
  {
    hide And, Rem;
    if k == 0 {
      AndNothing(a);
    } else {
      AndMask(a / 2, k - 1);
      AndMaskStep(a, Pow2(k - 1), Pow2(k));
    }
  }

  lemma AndNothing(a: nat)
    ensures And(a, 0) == 0 == Rem(a, 1)
  {
  }

  lemma AndMaskStep(a: nat, m: nat, c: nat)
    requires m > 0 && c == 2 * m && And(a / 2, m - 1) == Rem(a / 2, m)
    ensures And(a, c - 1) == Rem(a, c)
  {
    hide And, Rem;
    AndOdd(a, m - 1, c - 1);
    RemSplit(a, m, c);
  }

  lemma AndOdd(a: nat, c: nat, d: nat)
    requires d == 2 * c + 1
    ensures And(a, d) == 2 * And(a / 2, c) + a % 2
  {
    assert d / 2 == c && d % 2 == 1;
  }

  lemma RemSplit(a: nat, m: nat, c: nat)
    requires m > 0 && c == 2 * m
    ensures Rem(a, c) == 2 * Rem(a / 2, m) + a % 2
  {
    var q, r := (a / 2) / m, (a / 2) % m;
    assert a / 2 == q * m + r;
    assert a == q * c + (2 * r + a % 2) by {
      assert a == 2 * (a / 2) + a % 2;
      assert 2 * (q * m) == q * (2 * m);
    }
    ModUnique(a, c, q, 2 * r + a % 2);
  }

  lemma {:induction false} AndIdempotent(a: nat, b: nat)
    ensures And(And(a, b), b) == And(a, b)
  {
    if a != 0 && b != 0 {
      AndIdempotent(a / 2, b / 2);
      var h, e := And(a / 2, b / 2), (a % 2) * (b % 2);
      assert And(a, b) == 2 * h + e && (e == 1 ==> b % 2 == 1);
      AndStep(h, e, b);
    }
  }

  lemma AndStep(h: nat, e: nat, b: nat)
    requires e <= 1 && (e == 1 ==> b % 2 == 1) && b > 0
    ensures And(2 * h + e, b) == 2 * And(h, b / 2) + e
  {
    assert (2 * h + e) / 2 == h && (2 * h + e) % 2 == e;
  }

  // ----- the probe sequence

  ghost predicate IsPow2(m: nat)
  {
    exists k: nat :: m == Pow2(k)
  }

  /** The slot examined in round j: a 32-bit hash stepped by an odd 32-bit increment, then masked. */
  function Probe(id: nat, j: nat, slots: nat): (s: nat)
    requires slots > 0
    ensures s < slots
  {
    And((Start(id) + j * Step(id)) % U32, slots - 1)
  }

  /** h with its lowest bit set. */
  function Odd(h: nat): nat
  {
    if h % 2 == 0 then h + 1 else h
  }

  function Start(id: nat): nat { id % U32 }

  function Step(id: nat): (s: nat)
    ensures s % 2 == 1
  {
    Odd((id / U32) % U32)
  }

  lemma {:induction false} PowDivides(k: nat, n: nat)
    requires k <= n
    ensures exists q: nat :: Pow2(n) == q * Pow2(k)
    decreases n
  {
    if k == n {
      assert Pow2(n) == 1 * Pow2(k);
    } else {
      PowDivides(k, n - 1);
      var q: nat :| Pow2(n - 1) == q * Pow2(k);
      assert Pow2(n) == (2 * q) * Pow2(k);
    }
  }

  lemma ModMod(x: nat, q: nat, m: nat)
    requires m > 0 && q > 0
    ensures (x % (q * m)) % m == x % m
  {
    var n := q * m;
    var a, r := x / n, x % n;
    var b, s := r / m, r % m;
    assert x == a * n + r && r == b * m + s;
    assert x == (a * q + b) * m + s by {
      assert a * n == (a * q) * m;
      assert (a * q) * m + b * m == (a * q + b) * m;
    }
    ModUnique(x, m, a * q + b, s);
  }

  lemma WordIsPow2()
    ensures Pow2(32) == U32
  {
    assert Pow2(8) == 256 && Pow2(16) == 65536;
    Pow2Sum(16, 16);
  }

  lemma MaskedWord(x: nat, k: nat)
    requires k <= 32
    ensures And(x % U32, Pow2(k) - 1) == x % Pow2(k)
  {
    hide And;
    AndMask(x % U32, k);
    PowDivides(k, 32);
    WordIsPow2();
    var q: nat :| Pow2(32) == q * Pow2(k);
    hide Pow2;
    assert q == 0 ==> q * Pow2(k) == 0;
    ModMod(x, q, Pow2(k));
  }

  /** For a power of two up to 2^32, neither the masking nor the 32-bit wrap-around matters. */
  lemma ProbeIsLinear(id: nat, j: nat, k: nat)
    requires k <= 32
    ensures Probe(id, j, Pow2(k)) == (Start(id) + j * Step(id)) % Pow2(k)
  {
    hide And, Step, Start, Pow2;
    MaskedWord(Start(id) + j * Step(id), k);
  }

  lemma OddProduct(d: nat, s: nat)
    requires d % 2 == 1 && s % 2 == 1
    ensures (d * s) % 2 == 1
  {
    var a, b := d / 2, s / 2;
    assert d == 2 * a + 1 && s == 2 * b + 1;
    assert (2 * a + 1) * (2 * b + 1) == 2 * (2 * (a * b) + a + b) + 1;
  }

  /** An odd factor is invertible modulo a power of two. */
  lemma {:induction false} OddFactor(d: nat, s: nat, k: nat, q: nat)
    requires s % 2 == 1 && d * s == q * Pow2(k)
    ensures d % Pow2(k) == 0
    decreases k
  {
    if k > 0 {
      var m := Pow2(k - 1);
      assert q * Pow2(k) == 2 * (q * m);
      if d % 2 == 1 {
        OddProduct(d, s);
      }
      var e := d / 2;
      assert d == 2 * e;
      assert d * s == 2 * (e * s);
      OddFactor(e, s, k - 1, q);
      DoubleMultiple(e, m);
    }
  }

  lemma DoubleMultiple(e: nat, m: nat)
    requires m > 0 && e % m == 0
    ensures (2 * e) % (2 * m) == 0
  {
    var f := e / m;
    assert e == f * m;
    assert 2 * e == f * (2 * m) + 0;
    ModUnique(2 * e, 2 * m, f, 0);
  }

  lemma SameRemainder(a: nat, b: nat, m: nat) returns (q: nat)
    requires m > 0 && a <= b && a % m == b % m
    ensures b - a == q * m
  {
    var x, y := a / m, b / m;
    assert b - a == y * m - x * m == (y - x) * m;
    assert (x - y) * m == x * m - y * m;
    if y < x {
      MulAtLeast(x - y, m);
    }
    q := y - x;
  }

  /** In one round of probes no slot is examined twice. */
  lemma ProbesDistinct(id: nat, i: nat, j: nat, k: nat)
    requires k <= 32 && i < j < Pow2(k)
    ensures Probe(id, i, Pow2(k)) != Probe(id, j, Pow2(k))
  {
    hide Probe, Start, Pow2;
    var m, s, x := Pow2(k), Step(id), Start(id);
    ProbeIsLinear(id, i, k);
    ProbeIsLinear(id, j, k);
    var d := j - i;
    assert (x + j * s) - (x + i * s) == d * s;
    if (x + i * s) % m == (x + j * s) % m {
      assert i * s <= j * s;
      var q := SameRemainder(x + i * s, x + j * s, m);
      OddFactor(d, s, k, q);
      ModUnique(d, m, 0, d);
    }
  }

  function ProbeSet(id: nat, n: nat, slots: nat): set<nat>
    requires slots > 0
  {
    set j: nat | 0 <= j < n :: Probe(id, j, slots)
  }

  lemma {:induction false} ProbeSetSize(id: nat, n: nat, k: nat)
    requires k <= 32 && n <= Pow2(k)
    ensures |ProbeSet(id, n, Pow2(k))| == n
    decreases n
  {
    hide Probe, Pow2;
    var m := Pow2(k);
    if n > 0 {
      ProbeSetSize(id, n - 1, k);
      var x := Probe(id, n - 1, m);
      assert ProbeSet(id, n, m) == ProbeSet(id, n - 1, m) + {x};
      forall i: nat | i < n - 1 ensures Probe(id, i, m) != x {
        ProbesDistinct(id, i, n - 1, k);
      }
      assert x !in ProbeSet(id, n - 1, m);
    } else {
      assert ProbeSet(id, 0, m) == {};
    }
  }

  function Range(n: nat): (s: set<nat>)
    ensures |s| == n && forall i: nat :: i in s <==> i < n
  {
    if n == 0 then {} else Range(n - 1) + {n - 1}
  }

  lemma FullSubset(a: set<nat>, b: set<nat>)
    requires a <= b && |a| == |b|
    ensures a == b
  {
    var rest := b - a;
    assert b == a + rest;
  }

  /** With a power-of-two table every slot is examined, hence by distinctness exactly once. */
  lemma ProbesReachAll(id: nat, k: nat, slot: nat)
    requires k <= 32 && slot < Pow2(k)
    ensures exists j: nat :: j < Pow2(k) && Probe(id, j, Pow2(k)) == slot
  {
    hide Probe, Pow2;
    var m := Pow2(k);
    ProbeSetSize(id, m, k);
    assert ProbeSet(id, m, m) <= Range(m) by {
      forall x | x in ProbeSet(id, m, m) ensures x in Range(m) {
        var j: nat :| j < m && Probe(id, j, m) == x;
        ProbeInRange(id, j, m);
      }
    }
    FullSubset(ProbeSet(id, m, m), Range(m));
    assert slot in ProbeSet(id, m, m);
  }

  lemma ProbeInRange(id: nat, j: nat, m: nat)
    requires m > 0
    ensures Probe(id, j, m) < m
  {
  }

  /** A slot that no hash value reaches when the table size is not a power of two. */
  function Missed(b: nat): (v: nat)
    requires !AllOnes(b)
    ensures v <= b && And(v, b) != v
  {
    if b % 2 == 0 then 1 else 2 * Missed(b / 2)
  }

  predicate AllOnes(b: nat)
  {
    b == 0 || (b % 2 == 1 && AllOnes(b / 2))
  }

  lemma {:induction false} AllOnesIsPow2(b: nat)
    ensures AllOnes(b) <==> IsPow2(b + 1)
  {
    if b == 0 {
      assert b + 1 == Pow2(0);
    } else {
      AllOnesIsPow2(b / 2);
      if AllOnes(b) {
        var k: nat :| b / 2 + 1 == Pow2(k);
        assert b + 1 == Pow2(k + 1);
      }
      if IsPow2(b + 1) {
        var k: nat :| b + 1 == Pow2(k);
        assert k > 0;
        assert b / 2 + 1 == Pow2(k - 1);
      }
    }
  }

  ghost predicate Reached(id: nat, slot: nat, slots: nat)
    requires slots > 0
  {
    exists j: nat :: j < slots && Probe(id, j, slots) == slot
  }

  /** The probe loop examines every slot exactly when the table size is a power of two, which
      the reader of the index does not check. */
  lemma ProbesCoverTable(slots: nat)
    requires 0 < slots < U32
    ensures IsPow2(slots) <==> forall id: nat, slot: nat :: slot < slots ==> Reached(id, slot, slots)
  {
    AllOnesIsPow2(slots - 1);
    if IsPow2(slots) {
      var k: nat :| slots == Pow2(k);
      assert k <= 32 by {
        if k > 32 {
          WordIsPow2();
          Pow2Sum(32, k - 32);
          MulAtLeast(Pow2(k - 32), U32);
        }
      }
      forall id: nat, slot: nat | slot < slots ensures Reached(id, slot, slots) {
        ProbesReachAll(id, k, slot);
      }
    } else {
      var v := Missed(slots - 1);
      forall j: nat | j < slots ensures Probe(0, j, slots) != v {
        AndIdempotent((Start(0) + j * Step(0)) % U32, slots - 1);
      }
      assert !Reached(0, v, slots);
    }
  }

  // ----- the table

  datatype Slot = Slot(sig: nat, row: nat)
  {
    predicate Used() { sig != 0 || row != 0 }
  }

  type Table = seq<Slot>

  /** The row lookup finds from round j on; 0 when there is none. */
  function Search(t: Table, id: nat, j: nat): nat
    requires |t| > 0
    decreases |t| - j
  {
    if j >= |t| then 0
    else
      var s := t[Probe(id, j, |t|)];
      if s.sig == id then s.row
      else if !s.Used() then 0
      else Search(t, id, j + 1)
  }

  datatype Result = Row(row: nat) | Invalid

  /** The lookup loop; an empty table has no slot to read. */
  method UnitRow(t: Table, unitCount: nat, id: nat) returns (r: Result)
    requires |t| < U32
    ensures var row := if |t| == 0 then 0 else Search(t, id, 0);
            r == if row > unitCount then Invalid else Row(row)
  {
    hide And, Step, Odd, Pow2;
    var hash := id % U32;
    var step := Step(id);
    var n := |t|;
    while n > 0
      invariant n <= |t|
      invariant hash == (Start(id) + (|t| - n) * step) % U32
      invariant |t| > 0 ==> Search(t, id, 0) == Search(t, id, |t| - n)
    {
      n := n - 1;
      var slot := And(hash, |t| - 1);
      var s := t[slot];
      if s.sig == id {
        return if s.row > unitCount then Invalid else Row(s.row);
      } else if !s.Used() {
        break;
      }
      NextHash(Start(id), |t| - n - 1, step);
      hash := (hash + step) % U32;
    }
    r := Row(0);
  }

  lemma NextHash(x: nat, j: nat, s: nat)
    ensures ((x + j * s) % U32 + s) % U32 == (x + (j + 1) * s) % U32
  {
    assert (j + 1) * s == j * s + s;
  }

  // ----- the producer's side: section 7.3.5.3 of DWARF 5

  /** The secondary hash: the masked upper half of the signature, made odd. */
  function StandardStep(id: nat, k: nat): nat
  {
    Odd(And(id / U32, Pow2(k) - 1))
  }

  /** The slot tried in round j of a table of 2^k slots: the masked signature, then steps modulo the size. */
  function StandardProbe(id: nat, j: nat, k: nat): (s: nat)
    ensures s < Pow2(k)
  {
    if j == 0 then And(id, Pow2(k) - 1) else (StandardProbe(id, j - 1, k) + StandardStep(id, k)) % Pow2(k)
  }

  /** Making a number odd commutes with a remainder by an even number. */
  lemma OddRemainder(h: nat, m: nat)
    requires m > 0 && m % 2 == 0
    ensures Rem(h, m) % 2 == h % 2 && Rem(h, m) < m
    ensures h % 2 == 0 ==> Rem(h + 1, m) == Rem(h, m) + 1 < m
  {
    var q, r := Quot(h, m), Rem(h, m);
    QuotRem(h, m);
    SameParity(h, q, m / 2, r);
    if h % 2 == 0 {
      QuotUnique(h + 1, m, q, r + 1);
    }
  }

  lemma QuotRem(h: nat, m: nat)
    requires m > 0
    ensures h == Quot(h, m) * m + Rem(h, m) && Rem(h, m) < m
  {
  }

  lemma SameParity(h: nat, q: nat, half: nat, r: nat)
    requires h == q * (2 * half) + r && r < 2 * half
    ensures h % 2 == r % 2 && (h % 2 == 0 ==> r + 1 < 2 * half)
  {
    assert q * (2 * half) == 2 * (q * half);
  }

  lemma RemSmall(r: nat, m: nat)
    requires r < m
    ensures Rem(r, m) == r
  {
    ModUnique(r, m, 0, r);
  }

  lemma OddSame(h: nat, k: nat)
    ensures Rem(Odd(h), Pow2(k)) == Rem(Odd(Rem(h, Pow2(k))), Pow2(k))
  {
    var m := Pow2(k);
    if k > 0 {
      assert m == 2 * Pow2(k - 1);
      hide Pow2, Rem;
      OddRemainder(h, m);
      RemSmall(Rem(h, m), m);
      if h % 2 == 0 {
        RemSmall(Rem(h, m) + 1, m);
      }
    }
  }

  lemma SameStep(id: nat, k: nat)
    requires k <= 32
    ensures Rem(Step(id), Pow2(k)) == Rem(StandardStep(id, k), Pow2(k))
  {
    hide And, Rem;
    var x := id / U32;
    AndMask(x, k);
    MaskedHigh(x, k);
    hide Pow2;
    OddSame(x % U32, k);
    assert Step(id) == Odd(x % U32) && StandardStep(id, k) == Odd(Rem(x, Pow2(k)));
  }

  lemma MaskedHigh(x: nat, k: nat)
    requires k <= 32
    ensures Rem(x % U32, Pow2(k)) == Rem(x, Pow2(k))
  {
    hide And, Pow2;
    MaskedWord(x, k);
    AndMask(x % U32, k);
  }

  /** The standard's rule and the reader's 32-bit arithmetic try the same slots in the same order. */
  lemma {:induction false} StandardIsProbe(id: nat, j: nat, k: nat)
    requires k <= 32
    ensures StandardProbe(id, j, k) == Probe(id, j, Pow2(k))
    decreases j
  {
    hide Probe, And, Step, StandardStep, Pow2;
    var m := Pow2(k);
    ProbeIsLinear(id, j, k);
    if j == 0 {
      StartProbe(id, k);
    } else {
      StandardIsProbe(id, j - 1, k);
      ProbeIsLinear(id, j - 1, k);
      SameStep(id, k);
      NextProbe(Start(id), j, Step(id), StandardStep(id, k), m);
    }
  }

  lemma StartProbe(id: nat, k: nat)
    requires k <= 32
    ensures And(id, Pow2(k) - 1) == Start(id) % Pow2(k) == (Start(id) + 0 * Step(id)) % Pow2(k)
  {
    hide And;
    AndMask(id, k);
    MaskedWord(id, k);
    AndMask(id % U32, k);
  }

  lemma NextProbe(x: nat, j: nat, s: nat, s': nat, m: nat)
    requires m > 0 && j > 0 && Rem(s, m) == Rem(s', m)
    ensures (j - 1) * s >= 0 && ((x + (j - 1) * s) % m + s') % m == (x + j * s) % m
  {
    NonNegative(j - 1, s);
    var y := x + (j - 1) * s;
    assert x + j * s == y + s;
    SameSum(y, s, s', m);
  }

  lemma SameSum(y: nat, s: nat, s': nat, m: nat)
    requires m > 0 && Rem(s, m) == Rem(s', m)
    ensures Rem(Rem(y, m) + s', m) == Rem(y + s, m)
  {
    hide Rem;
    QuotRemSum(y, s, m);
    QuotRemSum(s, Rem(y, m), m);
    QuotRemSum(s', Rem(y, m), m);
  }

  /** The first round at or after j that meets an unused slot. */
  function FreeRound(t: Table, k: nat, id: nat, j: nat): (r: nat)
    requires |t| == Pow2(k)
    ensures j <= |t| ==> j <= r <= |t|
    ensures forall i :: j <= i < r && i < |t| ==> t[StandardProbe(id, i, k)].Used()
    ensures r < |t| ==> !t[StandardProbe(id, r, k)].Used()
    decreases |t| - j
  {
    if j >= |t| || !t[StandardProbe(id, j, k)].Used() then j else FreeRound(t, k, id, j + 1)
  }

  /** The insertion rule: the first unused slot of the standard's sequence. */
  function Insert(t: Table, k: nat, id: nat, row: nat): (u: Table)
    requires |t| == Pow2(k)
    ensures |u| == |t|
  {
    var r := FreeRound(t, k, id, 0);
    if r < |t| then t[StandardProbe(id, r, k) := Slot(id, row)] else t
  }

  datatype Entry = Entry(id: nat, row: nat)

  function Build(entries: seq<Entry>, k: nat): (t: Table)
    ensures |t| == Pow2(k)
  {
    if entries == [] then seq(Pow2(k), _ => Slot(0, 0))
    else
      var e := entries[|entries| - 1];
      Insert(Build(entries[..|entries| - 1], k), k, e.id, e.row)
  }

  /** The reference: a linear search of the inserted entries. */
  function RowOf(entries: seq<Entry>, id: nat): nat
  {
    if entries == [] then 0 else if entries[0].id == id then entries[0].row else RowOf(entries[1..], id)
  }

  function Used(t: Table): (n: nat)
    ensures n <= |t|
  {
    if t == [] then 0 else (if t[0].Used() then 1 else 0) + Used(t[1..])
  }

  lemma {:induction false} UsedUpdate(t: Table, q: nat, s: Slot)
    requires q < |t| && !t[q].Used() && s.Used()
    ensures Used(t[q := s]) == Used(t) + 1
  {
    if q == 0 {
      assert t[q := s][1..] == t[1..];
    } else {
      assert t[q := s][1..] == t[1..][q - 1 := s];
      UsedUpdate(t[1..], q - 1, s);
    }
  }

  lemma {:induction false} SomeUnused(t: Table) returns (q: nat)
    requires Used(t) < |t|
    ensures q < |t| && !t[q].Used()
  {
    if !t[0].Used() {
      q := 0;
    } else {
      q := SomeUnused(t[1..]);
      q := q + 1;
    }
  }

  /** Slot q holds a signature all of whose earlier rounds meet used slots. */
  ghost predicate WellPlaced(t: Table, q: nat)
    requires q < |t|
  {
    exists j: nat :: j < |t| && Probe(t[q].sig, j, |t|) == q && EarlierUsed(t, t[q].sig, j)
  }

  ghost predicate EarlierUsed(t: Table, id: nat, j: nat)
    requires j <= |t|
  {
    forall i: nat :: i < j ==> t[Probe(id, i, |t|)].Used()
  }

  ghost predicate Present(t: Table, e: Entry)
  {
    exists q: nat :: q < |t| && t[q].Used() && t[q] == Slot(e.id, e.row)
  }

  ghost predicate Sound(t: Table, entries: seq<Entry>)
  {
    forall q: nat :: q < |t| && t[q].Used() ==> WellPlaced(t, q) && Entry(t[q].sig, t[q].row) in entries
  }

  ghost predicate Complete(t: Table, entries: seq<Entry>)
  {
    forall e :: e in entries ==> Present(t, e)
  }

  ghost predicate SigsDistinct(t: Table)
  {
    forall p: nat, q: nat :: p < q < |t| && t[p].Used() && t[q].Used() ==> t[p].sig != t[q].sig
  }

  /** The table holds exactly the given entries, each once and well placed. */
  ghost predicate Holds(t: Table, entries: seq<Entry>)
  {
    Sound(t, entries) && Complete(t, entries) && SigsDistinct(t)
  }

  ghost predicate Proper(entries: seq<Entry>)
  {
    && (forall i :: 0 <= i < |entries| ==> entries[i].row > 0)
    && (forall i, j :: 0 <= i < j < |entries| ==> entries[i].id != entries[j].id)
  }

  /** Where the insertion rule puts an entry. */
  lemma InsertPlace(t: Table, e: Entry, k: nat) returns (r: nat, p: nat)
    requires k <= 32 && |t| == Pow2(k) && Used(t) < |t|
    ensures r < |t| && p < |t| && Probe(e.id, r, |t|) == p && !t[p].Used() && EarlierUsed(t, e.id, r)
    ensures Insert(t, k, e.id, e.row) == t[p := Slot(e.id, e.row)]
  {
    hide Pow2, Used, Probe, StandardProbe;
    var q0 := SomeUnused(t);
    ProbesReachAll(e.id, k, q0);
    forall j: nat ensures StandardProbe(e.id, j, k) == Probe(e.id, j, |t|) {
      StandardIsProbe(e.id, j, k);
    }
    var j0: nat :| j0 < |t| && Probe(e.id, j0, |t|) == q0;
    r := FreeRound(t, k, e.id, 0);
    assert r <= j0;
    p := Probe(e.id, r, |t|);
  }

  lemma StaysPlaced(t: Table, p: nat, s: Slot, q: nat)
    requires p < |t| && !t[p].Used() && s.Used() && q < |t| && q != p && WellPlaced(t, q)
    ensures WellPlaced(t[p := s], q)
  {
    hide Probe;
    var u := t[p := s];
    var j: nat :| j < |t| && Probe(t[q].sig, j, |t|) == q && EarlierUsed(t, t[q].sig, j);
    assert EarlierUsed(u, u[q].sig, j);
  }

  lemma InsertSound(t: Table, entries: seq<Entry>, e: Entry, r: nat, p: nat)
    requires r < |t| && p < |t| && Probe(e.id, r, |t|) == p && !t[p].Used() && EarlierUsed(t, e.id, r)
    requires Sound(t, entries) && e.row > 0
    ensures Sound(t[p := Slot(e.id, e.row)], entries + [e])
  {
    hide Probe;
    var s := Slot(e.id, e.row);
    var u := t[p := s];
    assert WellPlaced(u, p) by {
      assert EarlierUsed(u, e.id, r) && Probe(u[p].sig, r, |u|) == p;
    }
    hide WellPlaced, EarlierUsed;
    forall q: nat | q < |u| && u[q].Used()
      ensures WellPlaced(u, q) && Entry(u[q].sig, u[q].row) in entries + [e]
    {
      if q != p {
        StaysPlaced(t, p, s, q);
      }
    }
  }

  lemma InsertComplete(t: Table, entries: seq<Entry>, e: Entry, p: nat)
    requires p < |t| && !t[p].Used() && Complete(t, entries) && e.row > 0
    ensures Complete(t[p := Slot(e.id, e.row)], entries + [e])
  {
    var u := t[p := Slot(e.id, e.row)];
    forall x | x in entries + [e] ensures Present(u, x) {
      if x == e {
        assert u[p] == Slot(x.id, x.row);
      } else {
        var q: nat :| q < |t| && t[q].Used() && t[q] == Slot(x.id, x.row);
        assert u[q] == t[q];
      }
    }
  }

  lemma InsertDistinct(t: Table, entries: seq<Entry>, e: Entry, p: nat)
    requires p < |t| && Sound(t, entries) && SigsDistinct(t)
    requires forall x :: x in entries ==> x.id != e.id
    ensures SigsDistinct(t[p := Slot(e.id, e.row)])
  {
    hide WellPlaced;
    var u := t[p := Slot(e.id, e.row)];
    forall a: nat, b: nat | a < b < |u| && u[a].Used() && u[b].Used() ensures u[a].sig != u[b].sig {
      assert a != p ==> Entry(t[a].sig, t[a].row) in entries;
      assert b != p ==> Entry(t[b].sig, t[b].row) in entries;
    }
  }

  lemma InsertHolds(t: Table, entries: seq<Entry>, e: Entry, k: nat)
    requires k <= 32 && |t| == Pow2(k) && Holds(t, entries) && Used(t) < |t|
    requires e.row > 0 && forall x :: x in entries ==> x.id != e.id
    ensures Holds(Insert(t, k, e.id, e.row), entries + [e])
    ensures Used(Insert(t, k, e.id, e.row)) == Used(t) + 1
  {
    hide Insert, Used, Pow2, Probe, WellPlaced, EarlierUsed, Present, Sound, Complete, SigsDistinct;
    var r, p := InsertPlace(t, e, k);
    UsedUpdate(t, p, Slot(e.id, e.row));
    InsertSound(t, entries, e, r, p);
    InsertComplete(t, entries, e, p);
    InsertDistinct(t, entries, e, p);
  }

  lemma {:induction false} BuildHolds(entries: seq<Entry>, k: nat)
    requires k <= 32 && Proper(entries) && |entries| <= Pow2(k)
    ensures Holds(Build(entries, k), entries) && Used(Build(entries, k)) == |entries|
    decreases |entries|
  {
    hide Insert, Probe, Pow2, Present, WellPlaced, Used;
    if entries == [] {
      NoneUsed(Build(entries, k));
    } else {
      var n := |entries| - 1;
      var init, e := entries[..n], entries[n];
      assert e.row > 0;
      hide Holds;
      BuildHolds(init, k);
      assert forall x :: x in init ==> x.id != e.id;
      InsertHolds(Build(init, k), init, e, k);
      assert init + [e] == entries;
    }
  }

  lemma {:induction false} NoneUsed(t: Table)
    requires forall q :: 0 <= q < |t| ==> !t[q].Used()
    ensures Used(t) == 0
  {
    if t != [] {
      NoneUsed(t[1..]);
    }
  }

  /** Rounds before j stop at nothing. */
  lemma {:induction false} SearchSkips(t: Table, id: nat, i: nat, j: nat)
    requires i <= j <= |t| && |t| > 0
    requires forall n: nat :: i <= n < j ==> t[Probe(id, n, |t|)].Used() && t[Probe(id, n, |t|)].sig != id
    ensures Search(t, id, i) == Search(t, id, j)
    decreases j - i
  {
    if i < j {
      SearchSkips(t, id, i + 1, j);
    }
  }

  lemma {:induction false} SearchFails(t: Table, id: nat, i: nat)
    requires |t| > 0 && forall q :: 0 <= q < |t| && t[q].Used() ==> t[q].sig != id
    ensures Search(t, id, i) == 0
    decreases |t| - i
  {
    if i < |t| {
      SearchFails(t, id, i + 1);
    }
  }

  lemma {:induction false} RowOfMember(entries: seq<Entry>, e: Entry)
    requires Proper(entries) && e in entries
    ensures RowOf(entries, e.id) == e.row
  {
    if entries[0].id != e.id {
      assert e in entries[1..];
      RowOfMember(entries[1..], e);
    } else {
      var i :| 0 <= i < |entries| && entries[i] == e;
    }
  }

  lemma {:induction false} RowOfStranger(entries: seq<Entry>, id: nat)
    requires forall e :: e in entries ==> e.id != id
    ensures RowOf(entries, id) == 0
  {
    if entries != [] {
      assert entries[0] in entries;
      RowOfStranger(entries[1..], id);
    }
  }

  /** On every table built by the insertion rule, double hashing finds for every signature the row a
      linear search of the inserted entries finds. */
  lemma LookupIsLinearSearch(entries: seq<Entry>, k: nat, id: nat)
    requires k <= 32 && Proper(entries) && |entries| <= Pow2(k)
    ensures Search(Build(entries, k), id, 0) == RowOf(entries, id)
  {
    var t := Build(entries, k);
    BuildHolds(entries, k);
    if e :| e in entries && e.id == id {
      RowOfMember(entries, e);
      assert Present(t, e);
      var q: nat :| q < |t| && t[q].Used() && t[q] == Slot(e.id, e.row);
      var j: nat :| j < |t| && Probe(t[q].sig, j, |t|) == q && EarlierUsed(t, t[q].sig, j);
      forall n: nat | n < j ensures t[Probe(id, n, |t|)].Used() && t[Probe(id, n, |t|)].sig != id {
        ProbesDistinct(id, n, j, k);
      }
      SearchSkips(t, id, 0, j);
    } else {
      RowOfStranger(entries, id);
      forall q | 0 <= q < |t| && t[q].Used() ensures t[q].sig != id {
        assert Entry(t[q].sig, t[q].row) in entries;
      }
      SearchFails(t, id, 0);
    }
  }

  // ----- finding a unit by its offset

  datatype Unit = Unit(offset: nat, size: nat)
  {
    predicate Has(off: nat) { offset <= off && off - offset < size }
  }

  /** The reference: the first row, counted from 1, whose unit contains off; 0 if there is none. */
  function FirstRow(units: seq<Unit>, off: nat): (r: nat)
    ensures r <= |units| && (r > 0 ==> units[r - 1].Has(off))
    ensures forall i :: 0 <= i < |units| && units[i].Has(off) ==> 0 < r <= i + 1
  {
    if units == [] then 0
    else if units[0].Has(off) then 1
    else var r := FirstRow(units[1..], off); if r == 0 then 0 else r + 1
  }

  ghost predicate Disjoint(units: seq<Unit>)
  {
    forall i, j, off: nat :: 0 <= i < j < |units| && units[i].Has(off) ==> !units[j].Has(off)
  }

  /** Each unit starts where the one before it ends. */
  predicate Adjoining(units: seq<Unit>)
  {
    forall i :: 0 < i < |units| ==> units[i].offset == units[i - 1].offset + units[i - 1].size
  }

  lemma {:induction false} OffsetsAscend(units: seq<Unit>, i: nat, j: nat)
    requires Adjoining(units) && i < j < |units|
    ensures units[i].offset + units[i].size <= units[j].offset
    decreases j
  {
    if i < j - 1 {
      OffsetsAscend(units, i, j - 1);
    }
  }

  /** On adjoining units the row is that of the one unit from whose offset to whose end off lies, and there is none
      exactly when off lies before the first unit or behind the last. */
  lemma AdjoiningRow(units: seq<Unit>, off: nat)
    requires Adjoining(units) && units != []
    ensures var row, last := FirstRow(units, off), units[|units| - 1];
            if off < units[0].offset || last.offset + last.size <= off then row == 0
            else 0 < row <= |units| && units[row - 1].offset <= off < units[row - 1].offset + units[row - 1].size
    ensures forall i :: 0 <= i < |units| && units[i].offset <= off < units[i].offset + units[i].size ==>
              FirstRow(units, off) == i + 1
    ensures Disjoint(units)
  {
    forall i, j | 0 <= i < j < |units| ensures units[i].offset + units[i].size <= units[j].offset {
      OffsetsAscend(units, i, j);
    }
    var last := units[|units| - 1];
    if units[0].offset <= off < last.offset + last.size {
      SomeUnit(units, off, |units| - 1);
    }
  }

  lemma {:induction false} SomeUnit(units: seq<Unit>, off: nat, n: nat)
    requires Adjoining(units) && n < |units| && units[0].offset <= off < units[n].offset + units[n].size
    ensures exists i :: 0 <= i <= n && units[i].Has(off)
    decreases n
  {
    if off >= units[n].offset {
      assert units[n].Has(off);
    } else {
      SomeUnit(units, off, n - 1);
    }
  }

  class UnitFinder {
    const units: seq<Unit>
    var lastFound: nat

    constructor (units: seq<Unit>)
      ensures this.units == units && lastFound == 0
    {
      this.units, lastFound := units, 0;
    }

    /** The row of the compilation unit at off: first the row after the last one found, then a scan.
        Once the guess fails it is never tried again. */
    method FindUnit(off: nat) returns (row: nat)
      modifies this`lastFound
      ensures lastFound == if old(lastFound) < |units| && units[old(lastFound)].Has(off) then old(lastFound) + 1
                           else if old(lastFound) < |units| then |units| else old(lastFound)
      ensures old(lastFound) < |units| && units[old(lastFound)].Has(off) ==> row == old(lastFound) + 1
      ensures row == FirstRow(units, off) <==>
              !(old(lastFound) < |units| && units[old(lastFound)].Has(off) &&
                exists i :: 0 <= i < old(lastFound) && units[i].Has(off))
    {
      if lastFound < |units| {
        if units[lastFound].Has(off) {
          lastFound := lastFound + 1;
          return lastFound;
        }
        lastFound := |units|;
      }
      for i := 0 to |units|
        invariant forall j :: 0 <= j < i ==> !units[j].Has(off)
      {
        if units[i].Has(off) {
          return i + 1;
        }
      }
      row := 0;
    }

    /** On disjoint units every sequence of lookups gives what plain scans would give. */
    method FindUnits(offs: seq<nat>) returns (rows: seq<nat>)
      requires Disjoint(units)
      modifies this`lastFound
      ensures |rows| == |offs| && forall i :: 0 <= i < |offs| ==> rows[i] == FirstRow(units, offs[i])
    {
      rows := [];
      for n := 0 to |offs|
        invariant |rows| == n && forall i :: 0 <= i < n ==> rows[i] == FirstRow(units, offs[i])
      {
        var row := FindUnit(offs[n]);
        rows := rows + [row];
      }
    }
  }
}
