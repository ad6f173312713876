/** The 32-bit offset format of attribute lists: a 28-bit mantissa under a 4-bit exponent (osd-util.c). */
module Offsets {
  import opened Bytes

  const MANTISSAS := 0x1000_0000        // 2^28
  const MAX_MANTISSA := 0x0FFF_FFFF
  const OFFSET_UNUSED: u32 := 0xFFFF_FFFF
  const TWO43 := 0x800_0000_0000

  // ---------- shifts ----------

  function Pow2(e: nat): (p: nat)
    ensures p > 0
  {
    if e == 0 then 1 else 2 * Pow2(e - 1)
  }

  /** v >> e. */
  function Shr(v: nat, e: nat): nat {
    if e == 0 then v else Shr(v, e - 1) / 2
  }

  /** m << e. */
  function Shl(m: nat, e: nat): nat { m * Pow2(e) }

  lemma {:induction false} ShrShl(v: nat, e: nat)
    ensures Shl(Shr(v, e), e) <= v < Shl(Shr(v, e), e) + Pow2(e)
  {
    if e > 0 {
      ShrShl(v, e - 1);
      var q, p := Shr(v, e - 1), Pow2(e - 1);
      HalfStep(q / 2, q % 2, p);
      assert q == 2 * (q / 2) + q % 2;
    }
  }

  lemma HalfStep(h: nat, b: nat, p: nat)
    requires b < 2
    ensures h * (2 * p) <= (2 * h + b) * p <= h * (2 * p) + p
  {
    assert (2 * h + b) * p == h * (2 * p) + b * p;
    MulLe(b, 1, p, p);
  }

  lemma {:induction false} ShrMono(v: nat, a: nat, b: nat)
    requires a <= b
    ensures Shr(v, b) <= Shr(v, a)
  {
    if a < b { ShrMono(v, a, b - 1); }
  }

  lemma MulLe(a: nat, b: nat, c: nat, d: nat)
    requires a <= b && c <= d
    ensures a * c <= b * d
  {
    assert a * c <= b * c <= b * d;
  }

  lemma {:induction false} Pow2Add(a: nat, b: nat)
    ensures Pow2(a + b) == Pow2(a) * Pow2(b)
  {
    if b > 0 {
      Pow2Add(a, b - 1);
      assert Pow2(a + b) == 2 * (Pow2(a) * Pow2(b - 1)) == Pow2(a) * (2 * Pow2(b - 1));
    }
  }

  lemma Pow2Mono(a: nat, b: nat)
    requires a <= b
    ensures Pow2(a) <= Pow2(b)
  {
    Pow2Add(a, b - a);
    MulLe(Pow2(a), Pow2(a), 1, Pow2(b - a));
  }

  lemma PowTable()
    ensures Pow2(3) == 8 && Pow2(7) == 128 && Pow2(15) == 32768 && Pow2(16) == 65536 && Pow2(23) == 8388608
  {
    assert Pow2(7) == 128;
    assert Pow2(15) == 32768;
    assert Pow2(23) == 8388608;
  }

  /** Shifts by a constant are divisions. */
  lemma ShrTable(v: nat)
    ensures Shr(v, 3) == v / 8 && Shr(v, 7) == v / 128 && Shr(v, 15) == v / 32768
  {
    Shr3(v);
    Shr4(v, 3);
    Shr4(v, 7);
    Shr4(v, 11);
  }

  lemma Shr3(v: nat)
    ensures Shr(v, 3) == v / 8
  {
    assert Shr(v, 3) == Shr(v, 2) / 2 == Shr(v, 1) / 2 / 2 == v / 2 / 2 / 2;
  }

  lemma Shr4(v: nat, e: nat)
    ensures Shr(v, e + 4) == Shr(v, e) / 16
  {
    assert Shr(v, e + 4) == Shr(v, e + 3) / 2 == Shr(v, e + 2) / 2 / 2 == Shr(v, e + 1) / 2 / 2 / 2 == Shr(v, e) / 2 / 2 / 2 / 2;
  }

  // ---------- the format ----------

  /** get_ntohoffset: the exponent nibble is sign extended, so nibbles 8 to 15 mean shifts 0 to 7. */
  function DecodeOffset(code: u32): nat {
    if code == OFFSET_UNUSED then TWO64 - 1
    else
      var nibble, mantissa := code / MANTISSAS, code % MANTISSAS;
      Shl(mantissa, if nibble < 8 then nibble + 8 else nibble - 8)
  }

  /** The least exponent from e on at which v has a 28-bit mantissa. */
  function Exponent(v: nat, e: nat): (r: nat)
    ensures r >= e && Shr(v, r) < MANTISSAS
    ensures forall d :: e <= d < r ==> Shr(v, d) >= MANTISSAS
    decreases Shr(v, e)
  {
    if Shr(v, e) < MANTISSAS then e else Exponent(v, e + 1)
  }

  /** exponent << 28 of a 32-bit exponent e - 8, as the exponent nibble. */
  function Nibble(e: nat): nat
    requires 3 <= e <= 23
  {
    if e < 8 then e + 8 else e - 8
  }

  /** What set_htonoffset stores: zero for exponents the nibble cannot hold. */
  function EncodeOffset(v: nat): u32 {
    var e := Exponent(v, 3);
    if e > 23 then 0 else Shr(v, e) + Nibble(e) * MANTISSAS
  }

  // ---------- encoding ----------

  /** set_htonoffset. */
  method SetOffset(val: u64) returns (code: u32)
    ensures code == EncodeOffset(val)
  {
    ShrTable(val);
    var exponent: int, v: nat := -5, val / 8;
    while v > MAX_MANTISSA
      invariant exponent >= -5 && v == Shr(val, exponent + 8)
      invariant Exponent(val, 3) == Exponent(val, exponent + 8)
      decreases v
    {
      exponent, v := exponent + 1, v / 2;
    }
    if exponent > 15 { return 0; }
    code := v + (if exponent < 0 then exponent + 16 else exponent) * MANTISSAS;
  }

  /** The one value below 2^43 whose code is the reserved one. */
  predicate Collides(v: nat) { Exponent(v, 3) == 7 && Shr(v, 7) == MAX_MANTISSA }

  lemma DecodeOf(m: nat, e: nat)
    requires m < MANTISSAS && 3 <= e <= 23
    ensures var code := m + Nibble(e) * MANTISSAS;
            && (code == OFFSET_UNUSED <==> m == MAX_MANTISSA && (e == 7 || e == 23))
            && (code != OFFSET_UNUSED ==> DecodeOffset(code) == Shl(m, if e <= 15 then e else e - 16))
  {
    hide Shl;
    Fields(m, Nibble(e));
  }

  /** A code is a mantissa of 28 bits under a signed exponent of 4, which shifts it to the left by 0 to 15. */
  lemma CodeMeans(nibble: nat, mantissa: nat)
    requires nibble < 16 && mantissa < 0x1000_0000
    ensures var code: u32 := nibble * 0x1000_0000 + mantissa;
            DecodeOffset(code) == if code == 0xFFFF_FFFF then TWO64 - 1
                                  else mantissa * Pow2(if nibble < 8 then nibble + 8 else nibble - 8)
  {
    hide Pow2;
    Fields(mantissa, nibble);
  }

  /** Mantissa and nibble of a code. */
  lemma Fields(m: nat, nibble: nat)
    requires m < MANTISSAS
    ensures (m + nibble * MANTISSAS) % MANTISSAS == m && (m + nibble * MANTISSAS) / MANTISSAS == nibble
  {
    ModUnique(m + nibble * MANTISSAS, MANTISSAS, nibble, m);
  }

  lemma Fits43(v: nat)
    ensures v < TWO43 <==> Exponent(v, 3) <= 15
  {
    ShrTable(v);
    var e := Exponent(v, 3);
    if e <= 15 { ShrMono(v, e, 15); }
  }

  /** Below 2^43 the decoded offset is the value rounded down to the grid of its exponent. */
  lemma EncodeRoundsDown(v: nat)
    requires v < TWO43 && !Collides(v)
    ensures var e := Exponent(v, 3);
            && DecodeOffset(EncodeOffset(v)) == Shl(Shr(v, e), e) <= v < Shl(Shr(v, e), e) + Pow2(e)
            && 3 <= e <= 15
  {
    var e := Exponent(v, 3);
    Fits43(v);
    DecodeOf(Shr(v, e), e);
    ShrShl(v, e);
  }

  lemma ShlUp(m: nat, e: nat)
    requires m > 0
    ensures Shl(m, e) < Shl(m, e + 16)
  {
    Pow2Add(e, 16);
    PowTable();
    assert m * Pow2(e + 16) == 65536 * (m * Pow2(e));
    assert m * Pow2(e) > 0;
  }

  lemma LargeLost(v: nat)
    requires Exponent(v, 3) > 15
    ensures DecodeOffset(EncodeOffset(v)) != v
  {
    hide Shl, Shr, Nibble;
    var e := Exponent(v, 3);
    var m := Shr(v, e);
    ShrShl(v, e);
    assert m > 0 by { MantissaPositive(v, e); }
    if e <= 23 {
      DecodeOf(m, e);
      ShlUp(m, e - 16);
      ShlBound(m, e);
    } else {
      ShlPositive(m, e);
      assert DecodeOffset(0) == 0 by { ShlZero(); }
    }
  }

  lemma MantissaPositive(v: nat, e: nat)
    requires e > 3 && e == Exponent(v, 3)
    ensures Shr(v, e) > 0
  {
    assert Shr(v, e - 1) >= MANTISSAS;
  }

  lemma ShlPositive(m: nat, e: nat)
    requires m > 0
    ensures Shl(m, e) > 0
  {
    MulLe(1, m, 1, Pow2(e));
  }

  lemma ShlZero()
    ensures Shl(0, 8) == 0
  {
  }

  lemma ShlBound(m: nat, e: nat)
    requires m < MANTISSAS && e <= 23
    ensures Shl(m, e) + Pow2(e) < TWO64 - 1
  {
    PowTable();
    Pow2Mono(e, 23);
    MulLe(m + 1, MANTISSAS, Pow2(e), Pow2(23));
  }

  lemma Shr23(v: nat)
    ensures Shr(v, 23) == v / 0x80_0000
  {
    ShrTable(v);
    Shr4(v, 15);
    Shr4(v, 19);
  }

  lemma Fits51(v: nat)
    ensures v < 0x8_0000_0000_0000 <==> Exponent(v, 3) <= 23
  {
    hide Shr;
    Shr23(v);
    var e := Exponent(v, 3);
    if e <= 23 { ShrMono(v, e, 23); }
  }

  /** What becomes of the others: from 2^51 on the code is 0, and below that a value comes back divided by 2^16, or, when
      its mantissa and its shift are the largest, as an unused offset. */
  lemma LargeComesBackSmall(v: nat)
    requires v >= TWO43
    ensures v >= 0x8_0000_0000_0000 ==> EncodeOffset(v) == 0
    ensures v < 0x8_0000_0000_0000 ==>
              var e := Exponent(v, 3);
              && 16 <= e <= 23 && Shl(Shr(v, e), e) <= v < Shl(Shr(v, e), e) + Pow2(e)
              && DecodeOffset(EncodeOffset(v))
                 == if v >= 0x8_0000_0000_0000 - 0x80_0000 then TWO64 - 1 else Shl(Shr(v, e), e - 16)
  {
    hide Shl, Shr, Pow2, Nibble, Exponent;
    Fits43(v);
    Fits51(v);
    var e := Exponent(v, 3);
    if e <= 23 {
      DecodeOf(Shr(v, e), e);
      ShrShl(v, e);
      Shr23(v);
      if e < 23 { ShrMono(v, e, 22); BelowTop(v); }
    }
  }

  lemma BelowTop(v: nat)
    requires Shr(v, 22) < MANTISSAS
    ensures v < 0x8_0000_0000_0000 - 0x80_0000
  {
    hide Shr;
    ShrShl(v, 22);
    assert Pow2(22) == 0x40_0000 by { PowTable(); assert Pow2(23) == 2 * Pow2(22); }
  }

  /** A value survives the wire exactly when it is below 2^43, on its grid, and not the colliding one. */
  lemma WhenRoundTrips(v: u64)
    ensures DecodeOffset(EncodeOffset(v)) == v <==>
              v < TWO43 && v == Shl(Shr(v, Exponent(v, 3)), Exponent(v, 3)) && !Collides(v)
  {
    hide Shl, Shr, Pow2, Nibble;
    Fits43(v);
    if Exponent(v, 3) > 15 {
      LargeLost(v);
    } else if Collides(v) {
      DecodeOf(Shr(v, 7), 7);
    } else {
      EncodeRoundsDown(v);
    }
  }

  // ---------- the next legal offset ----------

  /** x is a value m * 2^e with a 28-bit mantissa and an exponent of 3 to top. */
  ghost predicate Legal(x: nat, top: nat) {
    exists m: nat, e: nat :: m < MANTISSAS && 3 <= e <= top && x == Shl(m, e)
  }

  /** r is the least legal value not below start. */
  ghost predicate LeastLegal(r: nat, start: nat, top: nat) {
    start <= r && Legal(r, top) && forall y: nat :: Legal(y, top) && start <= y ==> r <= y
  }

  /** start, or the next multiple of 2^e behind it, for the exponent e of start; 0 when the exponent runs out. */
  function NextOffset(start: nat): nat {
    var e := Exponent(start, 3);
    var m := Shr(start, e);
    if e > 23 then 0
    else if Shl(m, e) == start then start
    else if m < MAX_MANTISSA then Shl(m + 1, e)
    else if e == 23 then 0
    else Shl(MANTISSAS / 2, e + 1)
  }

  /** next_offset. */
  method ComputeNextOffset(start: u64) returns (r: nat)
    ensures r == NextOffset(start)
  {
    hide *;
    var exponent, val := FindExponent(start);
    r := RoundUpTo(start, exponent, val);
  }

  /** The loop that shifts the value into 28 bits. */
  method FindExponent(start: u64) returns (exponent: nat, val: nat)
    ensures exponent == Exponent(start, 3) && val == Shr(start, exponent)
  {
    ShrTable(start);
    exponent, val := 3, start / 8;
    while val > MAX_MANTISSA
      invariant exponent >= 3 && val == Shr(start, exponent)
      invariant Exponent(start, 3) == Exponent(start, exponent)
      decreases val
    {
      exponent, val := exponent + 1, val / 2;
    }
  }

  /** The checks, with their jump back after the mantissa has overflowed. */
  method RoundUpTo(start: u64, e: nat, v: nat) returns (r: nat)
    requires e == Exponent(start, 3) && v == Shr(start, e)
    ensures r == NextOffset(start)
  {
    hide Shr, Pow2, Shl, Exponent;
    NextBy(start);
    var exponent, val, recheck := e, v, true;
    while recheck
      invariant exponent == e ==> val == v || (!recheck && val == v + 1)
      invariant exponent != e ==>
                  exponent == e + 1 && val == MANTISSAS / 2 && e <= 23 && v == MAX_MANTISSA && Shl(v, e) < start
      invariant !recheck ==> exponent <= 23 && Shl(val, exponent) == NextOffset(start)
      decreases e + 1 - exponent, recheck
    {
      recheck := false;
      if exponent > 23 { return 0; }
      if Shl(val, exponent) < start {
        val := val + 1;
        if val > MAX_MANTISSA {
          assert exponent == e;
          exponent, val, recheck := exponent + 1, val / 2, true;
        }
      }
    }
    r := Shl(val, exponent);
  }

  /** What the checks go by. */
  lemma NextBy(start: u64)
    ensures var e := Exponent(start, 3);
            var m := Shr(start, e);
            && m <= MAX_MANTISSA && Shl(m, e) <= start
            && (m == MAX_MANTISSA && Shl(m, e) < start ==> Shl(MANTISSAS / 2, e + 1) >= start)
  {
    var e := Exponent(start, 3);
    ShrShl(start, e);
    TopDoubles(e);
  }

  lemma TopDoubles(e: nat)
    ensures Shl(MANTISSAS / 2, e + 1) == Shl(MAX_MANTISSA, e) + Pow2(e)
  {
  }

  // ---------- NextOffset is the least legal value ----------

  lemma ShlStep(a: nat, b: nat, e: nat)
    requires a < b
    ensures Shl(a, e) + Pow2(e) <= Shl(b, e)
  {
    MulLe(a + 1, b, Pow2(e), Pow2(e));
  }

  lemma ShlSplit(k: nat, d: nat, e: nat)
    requires e <= d
    ensures Shl(k, d) == Shl(k * Pow2(d - e), e)
  {
    Pow2Add(d - e, e);
    assert k * Pow2(d - e) * Pow2(e) == k * (Pow2(d - e) * Pow2(e));
  }

  /** NextOffset is the start itself on its grid, and otherwise the next grid point. */
  lemma NextIsGridPoint(start: nat)
    requires Exponent(start, 3) < 23 || start <= Shl(MAX_MANTISSA, 23)
    ensures var e := Exponent(start, 3);
            var m := Shr(start, e);
            && e <= 23 && Shl(m, e) <= start < Shl(m + 1, e)
            && NextOffset(start) == (if Shl(m, e) == start then start else Shl(m + 1, e))
            && (Shl(m, e) != start && m == MAX_MANTISSA ==> e < 23 && NextOffset(start) == Shl(MANTISSAS / 2, e + 1))
  {
    hide Shl, Shr, Pow2;
    var e := Exponent(start, 3);
    var m := Shr(start, e);
    ShrShl(start, e);
    ExponentAtMost(start, 23);
    ShlNext(m, e);
    ShlSplit(MANTISSAS / 2, e + 1, e);
    PowOne();
    if m == MAX_MANTISSA { assert MANTISSAS / 2 * 2 == m + 1; }
  }

  lemma PowOne()
    ensures Pow2(1) == 2
  {
  }

  lemma ShlNext(m: nat, e: nat)
    ensures Shl(m + 1, e) == Shl(m, e) + Pow2(e)
  {
  }

  lemma ExponentAtMost(start: nat, top: nat)
    requires 3 <= top
    ensures start <= Shl(MAX_MANTISSA, top) ==> Exponent(start, 3) <= top
  {
    if Exponent(start, 3) > top {
      assert Shr(start, top) > MAX_MANTISSA;
      ShrShl(start, top);
      ShlStep(MAX_MANTISSA, Shr(start, top), top);
    }
  }

  lemma NextLegal(start: nat, top: nat)
    requires 3 <= top <= 23 && start <= Shl(MAX_MANTISSA, top)
    ensures start <= NextOffset(start) && Legal(NextOffset(start), top)
  {
    hide Shl, Shr, Pow2, NextOffset;
    var e := Exponent(start, 3);
    var m := Shr(start, e);
    ExponentAtMost(start, top);
    if top < 23 { ShlTopMono(top); }
    NextIsGridPoint(start);
    if Shl(m, e) == start {
      assert NextOffset(start) == Shl(m, e);
    } else if m < MAX_MANTISSA {
      assert NextOffset(start) == Shl(m + 1, e);
    } else {
      assert NextOffset(start) == Shl(MANTISSAS / 2, e + 1);
    }
  }

  lemma ShlTopMono(top: nat)
    requires top <= 23
    ensures Shl(MAX_MANTISSA, top) <= Shl(MAX_MANTISSA, 23)
  {
    Pow2Mono(top, 23);
    MulLe(MAX_MANTISSA, MAX_MANTISSA, Pow2(top), Pow2(23));
  }

  lemma NoLegalBetween(start: nat, k: nat, d: nat)
    requires start <= Shl(MAX_MANTISSA, 23) && k < MANTISSAS && 3 <= d && start <= Shl(k, d)
    ensures NextOffset(start) <= Shl(k, d)
  {
    hide Shl, Shr, Pow2, NextOffset;
    var e := Exponent(start, 3);
    var m := Shr(start, e);
    NextIsGridPoint(start);
    if d < e {
      assert Shr(start, d) >= MANTISSAS;
      ShrShl(start, d);
      ShlStep(k, Shr(start, d), d);
      assert false;
    } else if Shl(m, e) != start {
      ShlSplit(k, d, e);
      var n := k * Pow2(d - e);
      if n < m { ShlStep(n, m, e); }
      if n > m + 1 { ShlStep(m + 1, n, e); }
    }
  }

  /** For every exponent limit up to 23, next_offset returns the least legal value not below start as long as there
      is one; the codec's own limit is 15. */
  lemma NextIsLeast(start: nat, top: nat)
    requires 3 <= top <= 23
    ensures start <= Shl(MAX_MANTISSA, top) ==> LeastLegal(NextOffset(start), start, top)
    ensures start > Shl(MAX_MANTISSA, top) ==> forall y: nat :: Legal(y, top) ==> y < start
  {
    ShlTopMono(top);
    if start <= Shl(MAX_MANTISSA, top) {
      NextLegal(start, top);
      forall y: nat | Legal(y, top) && start <= y ensures NextOffset(start) <= y {
        var k: nat, d: nat :| k < MANTISSAS && 3 <= d <= top && y == Shl(k, d);
        NoLegalBetween(start, k, d);
      }
    } else {
      forall y: nat | Legal(y, top) ensures y < start {
        var k: nat, d: nat :| k < MANTISSAS && 3 <= d <= top && y == Shl(k, d);
        Pow2Mono(d, top);
        MulLe(k, MAX_MANTISSA, Pow2(d), Pow2(top));
      }
    }
  }

  /** Beyond the largest legal value the answer is 0. */
  lemma NextOverflows(start: nat)
    requires start > Shl(MAX_MANTISSA, 23)
    ensures NextOffset(start) == 0
  {
    hide Shl, Shr, Pow2;
    var e := Exponent(start, 3);
    var m := Shr(start, e);
    ShrShl(start, e);
    ShlNext(m, e);
    if e < 23 {
      ShlCap(m + 1, e);
    } else if e == 23 && m < MAX_MANTISSA {
      ShlNext(MAX_MANTISSA, 23);
      if m + 1 < MAX_MANTISSA { ShlStep(m + 1, MAX_MANTISSA, 23); }
    }
  }

  lemma ShlCap(m: nat, e: nat)
    requires m <= MANTISSAS && e < 23
    ensures Shl(m, e) <= Shl(MAX_MANTISSA, 23)
  {
    ShlSplit(MANTISSAS / 2, e + 1, e);
    PowOne();
    MulLe(m, MANTISSAS, Pow2(e), Pow2(e));
    Pow2Mono(e + 1, 23);
    MulLe(MANTISSAS / 2, MAX_MANTISSA, Pow2(e + 1), Pow2(23));
  }

  /** next_offset is idempotent, and it is monotone except from a start it has an answer for to one it has none for. */
  lemma NextMonotone(a: nat, b: nat)
    requires a <= b
    ensures NextOffset(NextOffset(a)) == NextOffset(a)
    ensures NextOffset(a) <= NextOffset(b) <==> b <= Shl(MAX_MANTISSA, 23) || a > Shl(MAX_MANTISSA, 23) || a == 0
  {
    hide NextOffset, Legal;
    NextOfZero();
    if a <= Shl(MAX_MANTISSA, 23) {
      NextIsLeast(a, 23);
      NextTop(a);
      NextIsLeast(NextOffset(a), 23);
    } else {
      NextOverflows(a);
    }
    if b <= Shl(MAX_MANTISSA, 23) { NextIsLeast(b, 23); } else { NextOverflows(b); }
  }

  lemma NextOfZero()
    ensures NextOffset(0) == 0
  {
    assert Shr(0, 3) == 0 by { Shr3(0); }
    ShlBound(0, 3);
  }

  lemma NextTop(a: nat)
    requires a <= Shl(MAX_MANTISSA, 23)
    ensures NextOffset(a) <= Shl(MAX_MANTISSA, 23)
  {
    NoLegalBetween(a, MAX_MANTISSA, 23);
  }

  lemma {:induction false} ShrOfShl(k: nat, d: nat)
    ensures Shr(Shl(k, d), d) == k
  {
    ShrShl(Shl(k, d), d);
    var q := Shr(Shl(k, d), d);
    if q < k { ShlStep(q, k, d); }
    if q > k { ShlStep(k, q, d); }
  }

  /** A multiple of 2^d is on the grid of every smaller exponent. */
  lemma OnSmallerGrid(k: nat, d: nat, e: nat)
    requires e <= d
    ensures var x := Shl(k, d); x == Shl(Shr(x, e), e)
  {
    ShlSplit(k, d, e);
    ShrOfShl(k * Pow2(d - e), e);
  }

  /** Every legal offset but one survives the wire: (2^28 - 1) * 2^7 has the code that means "no offset". */
  lemma LegalSurvives(x: nat)
    requires Legal(x, 15)
    ensures DecodeOffset(EncodeOffset(x)) == x <==> x != Shl(MAX_MANTISSA, 7)
  {
    hide Shl, Shr, Pow2, EncodeOffset, DecodeOffset;
    var k: nat, d: nat :| k < MANTISSAS && 3 <= d <= 15 && x == Shl(k, d);
    LegalBelow43(k, d);
    ShrOfShl(k, d);
    var e := Exponent(x, 3);
    assert e <= d;
    OnSmallerGrid(k, d, e);
    WhenRoundTrips(x);
    if x == Shl(MAX_MANTISSA, 7) { Colliding(); }
  }

  lemma LegalBelow43(k: nat, d: nat)
    requires k < MANTISSAS && d <= 15
    ensures Shl(k, d) < TWO43
  {
    PowTable();
    Pow2Mono(d, 15);
    MulLe(k, MAX_MANTISSA, Pow2(d), Pow2(15));
  }

  lemma Colliding()
    ensures Collides(Shl(MAX_MANTISSA, 7))
  {
    var x := Shl(MAX_MANTISSA, 7);
    ShrOfShl(MAX_MANTISSA, 7);
    assert Exponent(x, 3) <= 7;
    forall e: nat | e < 7 ensures Shr(x, e) >= MANTISSAS { SmallShift(x, e); }
  }

  lemma SmallShift(x: nat, e: nat)
    requires x == Shl(MAX_MANTISSA, 7) && e < 7
    ensures Shr(x, e) >= MANTISSAS
  {
    ShrMono(x, e, 6);
    assert Shr(x, 7) == Shr(x, 6) / 2;
    ShrOfShl(MAX_MANTISSA, 7);
  }

  /** What next_offset promises its callers, a value the format can carry, holds on the codec's range except in
      one gap of 128 values. */
  lemma NextSurvives(start: nat)
    requires start <= Shl(MAX_MANTISSA, 15)
    ensures DecodeOffset(EncodeOffset(NextOffset(start))) == NextOffset(start) <==>
              !(Shl(MAX_MANTISSA - 1, 7) < start <= Shl(MAX_MANTISSA, 7))
  {
    hide Shl, Shr, Pow2, EncodeOffset, DecodeOffset, NextOffset, Collides;
    NextIsLeast(start, 15);
    LegalSurvives(NextOffset(start));
    var top := Shl(MAX_MANTISSA, 7);
    assert Legal(top, 15) && Legal(Shl(MAX_MANTISSA - 1, 7), 15);
    if start <= top { NoLegalBetween7(start); }
  }

  lemma NoLegalBetween7(start: nat)
    requires start <= Shl(MAX_MANTISSA, 7)
    ensures NextOffset(start) == Shl(MAX_MANTISSA, 7) <==> Shl(MAX_MANTISSA - 1, 7) < start
  {
    Pow2Mono(7, 23);
    MulLe(MAX_MANTISSA, MAX_MANTISSA, Pow2(7), Pow2(23));
    NoLegalBetween(start, MAX_MANTISSA, 7);
    ShlNext(MAX_MANTISSA - 1, 7);
    if start <= Shl(MAX_MANTISSA - 1, 7) {
      NoLegalBetween(start, MAX_MANTISSA - 1, 7);
    } else {
      Gap7(start);
    }
  }

  lemma Gap7(start: nat)
    requires Shl(MAX_MANTISSA - 1, 7) < start <= Shl(MAX_MANTISSA, 7)
    ensures NextOffset(start) == Shl(MAX_MANTISSA, 7)
  {
    PowTable();
    ShrTable(start);
    assert Shr(start, 6) >= MANTISSAS by { assert Shr(start, 7) == Shr(start, 6) / 2; }
    var e := Exponent(start, 3);
    if e < 7 { ShrMono(start, e, 6); }
    assert Shr(start, 7) < MANTISSAS;
  }
}
