/** The decision lists of the arithmetic coder's syntax, position by position, as
    Figures F.4 to F.10 and G.10 and Tables F.4 and F.5 of ITU-T T.81 draw them.
 */
module ArithFigures {
  import opened IdealCoder
  import opened CodeBytes
  import opened Coefficients
  import opened Binarization
  import opened DcSyntax
  import opened AcSyntax
  import opened RefineSyntax
  import opened Arithmetic

  // ----- Magnitudes ---------------------------------------------------------------------------------

  /** A category in unary, each decision with a bin of its own: `n` ones, a zero. */
  function Unary(st: nat, n: nat): seq<Decision> {
    seq(n + 1, i requires 0 <= i <= n => Decision(st + i, i < n))
  }

  /** The `n` lowest binary digits of `v`, high to low, all with one bin. */
  function Digits(v: nat, n: nat, st: nat): seq<Decision> {
    seq(n, i requires 0 <= i < n => Decision(st, v / Pow2(n - 1 - i) % 2 == 1))
  }

  /** Bit `e` is the digit of 2^e. */
  lemma {:induction false} BitIsDigit(v: nat, e: nat)
    ensures Bit(v, e) <==> v / Pow2(e) % 2 == 1
    decreases e
  {
    if e > 0 {
      BitIsDigit(v / 2, e - 1);
      HalvedQuotient(v, Pow2(e - 1));
    }
  }

  lemma HalvedQuotient(v: nat, p: nat)
    requires p >= 1
    ensures v / (2 * p) == v / 2 / p
  {
    var q, r := v / 2 / p, v / 2 % p;
    assert v / 2 == p * q + r;
    assert v == 2 * (p * q + r) + v % 2;
    Associate(2, p, q);
    Distribute(2 * p, q, 1);
    QuotientIs(v, 2 * p, q);
  }

  lemma {:induction false} CategoryAt(v: nat, st: nat, n: nat)
    requires Pow2(n) <= v < Pow2(n + 1)
    ensures Log(v) == n && Category(v, st) == Unary(st, n)
    decreases n
  {
    if n > 0 {
      CategoryAt(v / 2, st + 1, n - 1);
      assert [Decision(st, true)] + Unary(st + 1, n - 1) == Unary(st, n);
    }
  }

  lemma {:induction false} LowBitsAt(v: nat, n: nat, st: nat)
    ensures LowBits(v, n, st) == Digits(v, n, st)
    decreases n
  {
    if n > 0 {
      LowBitsAt(v, n - 1, st);
      BitIsDigit(v, n - 1);
      assert [Decision(st, Bit(v, n - 1))] + Digits(v, n - 1, st) == Digits(v, n, st);
    }
  }

  /** `v` lies between the same powers of two as its upper part does. */
  lemma {:induction false} ShrBetween(v: nat, e: nat, n: nat)
    requires e <= n && Pow2(n) <= v < Pow2(n + 1)
    ensures Pow2(n - e) <= Shr(v, e) < Pow2(n - e + 1)
    decreases e
  {
    if e > 0 { ShrBetween(v / 2, e - 1, n - 1); }
  }

  /** Figures F.8 and F.9: the category of `v` in unary, its first `e` decisions
      made before, then the digits below the leading one.
   */
  lemma MagnitudeAt(v: nat, st: nat, e: nat, n: nat)
    requires e <= n && Pow2(n) <= v < Pow2(n + 1) && Shr(v, e) >= 1
    ensures MagnitudeBits(v, st, e) == Unary(st, n - e) + Digits(v, n, st + n - e + 14)
  {
    hide Category, LowBits, Log, Pow2;
    ShrBetween(v, e, n);
    CategoryAt(Shr(v, e), st, n - e);
    CategoryAt(v, st, n);
    LowBitsAt(v, n, st + n - e + 14);
  }

  // ----- DC differences -----------------------------------------------------------------------------

  /** Figures F.4 and F.6 to F.9 with the bins of Table F.4 for the difference `d`:
      S0 to S0 + 3 from the conditioning, X1 = 20 on for the category, 14 further
      for the digits.
   */
  lemma DcDecisionsAt(t: DcTable, st: DcState, m: int)
    requires t.Valid() && st.Valid()
    ensures var d, s0, ds := m - st.last, 64 * t.tbl + st.ctx, DcDecisions(t, st, m);
            && (d == 0 ==> ds == [Decision(s0, false)])
            && (d == 1 ==> ds == [Decision(s0, true), Decision(s0 + 1, false), Decision(s0 + 2, false)])
            && (d == -1 ==> ds == [Decision(s0, true), Decision(s0 + 1, true), Decision(s0 + 3, false)])
  {
    hide MagnitudeBits;
  }

  lemma DcMagnitudeAt(t: DcTable, st: DcState, m: int, n: nat)
    requires t.Valid() && st.Valid() && Pow2(n) < Abs(m - st.last) <= Pow2(n + 1)
    ensures var d, s0, x1 := m - st.last, 64 * t.tbl + st.ctx, 64 * t.tbl + 20;
            DcDecisions(t, st, m)
            == [Decision(s0, true), Decision(s0 + 1, d < 0), Decision(s0 + (if d < 0 then 3 else 2), true)]
               + (Unary(x1, n) + Digits(Abs(d) - 1, n, x1 + n + 14))
  {
    hide MagnitudeBits, Pow2, Log, Digits, Unary;
    var d, s0 := m - st.last, 64 * t.tbl + st.ctx;
    MagnitudeAt(Abs(d) - 1, 64 * t.tbl + 20, 0, n);
    var bits := MagnitudeBits(Abs(d) - 1, DcBin(t.tbl, 20), 0);
    assert DcDecisions(t, st, m)
        == [Decision(s0, true)] + ([Decision(s0 + 1, d < 0)]
                                   + ([Decision(s0 + (if d < 0 then 3 else 2), true)] + bits));
  }

  // ----- AC coefficients ----------------------------------------------------------------------------

  /** Table F.5: S0 and the bins behind it at position `k`. */
  function SE(t: Band, k: nat): nat
    requires k >= 1
  {
    1024 + 256 * t.tbl + 3 * (k - 1)
  }

  /** Figures F.8 and F.9 for the AC coefficient of magnitude `v` + 1 with the bins
      of Table F.5: the first two decisions share one bin, the category goes on at
      189 up to Kx and at 217 above.
   */
  lemma AcMagnitudeAt(t: Band, k: nat, v: nat)
    requires t.Valid() && 1 <= k < DCTSIZE2
    ensures v == 0 ==> AcMagnitude(t, k, v) == [Decision(SE(t, k) + 2, false)]
    ensures v == 1 ==> AcMagnitude(t, k, v) == [Decision(SE(t, k) + 2, true), Decision(SE(t, k) + 2, false)]
  {
    hide MagnitudeBits;
  }

  lemma AcLargeAt(t: Band, k: nat, v: nat, n: nat)
    requires t.Valid() && 1 <= k < DCTSIZE2 && n >= 1 && Pow2(n) <= v < Pow2(n + 1)
    ensures var x2 := 1024 + 256 * t.tbl + (if k <= t.kx then 189 else 217);
            AcMagnitude(t, k, v)
            == [Decision(SE(t, k) + 2, true), Decision(SE(t, k) + 2, true)]
               + (Unary(x2, n - 1) + Digits(v, n, x2 + n + 13))
  {
    hide MagnitudeBits, Log, Digits, Unary;
    assert Shr(v, 1) == Shr(v / 2, 0) == v / 2;
    MagnitudeAt(v, t.LargeBin(k), 1, n);
  }

  /** The decisions for zeros at positions `k` to `p - 1`. */
  function Zeros(t: Band, k: nat, p: nat): seq<Decision>
    requires 1 <= k <= p
  {
    seq(p - k, i requires 0 <= i < p - k => Decision(SE(t, k + i) + 1, false))
  }

  lemma ZerosStep(t: Band, k: nat, p: nat)
    requires 1 <= k < p
    ensures Zeros(t, k, p) == [Decision(SE(t, k) + 1, false)] + Zeros(t, k + 1, p)
  {
  }

  /** Figure F.5: no end of block, the zeros up to the next coefficient that is
      not zero, that coefficient's sign and magnitude, and on behind it.
   */
  lemma AcRun(t: Band, b: Block, k: nat, p: nat, ke: nat)
    requires t.Valid() && 1 <= k <= p <= ke <= t.se && Mag(b[ke], t.al) != 0 && Mag(b[p], t.al) != 0
    requires forall j :: k <= j < p ==> Mag(b[j], t.al) == 0
    ensures AcDecisions(t, b, k, ke)
         == [Decision(SE(t, k), false)]
            + (Zeros(t, k, p) + ([Decision(SE(t, p) + 1, true), Decision(FIXED_BIN, b[p] < 0)]
                                 + (AcMagnitude(t, p, Mag(b[p], t.al) - 1) + AcDecisions(t, b, p + 1, ke))))
  {
    hide AcMagnitude, Mag;
    RunAt(t, b, k, p, ke);
  }

  lemma {:induction false} RunAt(t: Band, b: Block, k: nat, p: nat, ke: nat)
    requires t.Valid() && 1 <= k <= p <= ke <= t.se && Mag(b[ke], t.al) != 0 && Mag(b[p], t.al) != 0
    requires forall j :: k <= j < p ==> Mag(b[j], t.al) == 0
    ensures RunDecisions(t, b, k, ke)
         == Zeros(t, k, p) + ([Decision(SE(t, p) + 1, true), Decision(FIXED_BIN, b[p] < 0)]
                              + (AcMagnitude(t, p, Mag(b[p], t.al) - 1) + AcDecisions(t, b, p + 1, ke)))
    decreases p - k
  {
    hide AcMagnitude, Mag, AcDecisions;
    var rest := AcMagnitude(t, p, Mag(b[p], t.al) - 1) + AcDecisions(t, b, p + 1, ke);
    var own := [Decision(SE(t, p) + 1, true), Decision(FIXED_BIN, b[p] < 0)];
    if k == p {
      assert own + rest == [Decision(SE(t, p) + 1, true)] + ([Decision(FIXED_BIN, b[p] < 0)] + rest);
      assert Zeros(t, p, p) + (own + rest) == own + rest;
    } else {
      RunAt(t, b, k + 1, p, ke);
      ZerosStep(t, k, p);
      assert ([Decision(SE(t, k) + 1, false)] + Zeros(t, k + 1, p)) + (own + rest)
          == [Decision(SE(t, k) + 1, false)] + (Zeros(t, k + 1, p) + (own + rest));
    }
  }

  /** A band without nonzero coefficients is one end of block; otherwise that is
      said behind the last nonzero coefficient `ke`, unless the band ends there.
   */
  lemma AcEnd(t: Band, b: Block, ke: nat)
    requires t.Valid() && ke <= t.se && forall j :: ke < j <= t.se ==> Mag(b[j], t.al) == 0
    ensures ke < t.ss ==> BandDecisions(t, b) == [Decision(SE(t, t.ss), true)]
    ensures ke >= t.ss && Mag(b[ke], t.al) != 0 ==> BandDecisions(t, b) == AcDecisions(t, b, t.ss, ke)
    ensures AcDecisions(t, b, ke + 1, ke) == if ke < t.se then [Decision(SE(t, ke + 1), true)] else []
  {
    hide Mag;
    var last := LastNonzero(b, t.se, t.al);
    if ke >= t.ss && Mag(b[ke], t.al) != 0 { LastIs(b, t.se, t.al, ke); }
  }

  // ----- Refinement ---------------------------------------------------------------------------------

  /** Figure G.10: the end-of-block decision only behind the last coefficient known
      to be nonzero before (`kex`), then zeros up to the next nonzero coefficient,
      then its correction bit or, if it is new, that it is and its sign.
   */
  lemma RefineRunAt(t: Band, b: Block, k: nat, p: nat, ke: nat, kex: nat)
    requires t.Valid() && 1 <= k <= p <= ke <= t.se && Mag(b[ke], t.al) != 0 && Mag(b[p], t.al) != 0
    requires forall j :: k <= j < p ==> Mag(b[j], t.al) == 0
    ensures var m, rest := Mag(b[p], t.al), RefineDecisions(t, b, p + 1, ke, kex);
            RefineDecisions(t, b, k, ke, kex)
            == (if k > kex then [Decision(SE(t, k), false)] else [])
               + (Zeros(t, k, p)
                  + ((if m > 1 then [Decision(SE(t, p) + 2, m % 2 == 1)]
                      else [Decision(SE(t, p) + 1, true), Decision(FIXED_BIN, b[p] < 0)]) + rest))
  {
    hide Mag;
    RefineZerosAt(t, b, k, p, ke, kex);
    if k <= kex {
      assert [] + RefineRun(t, b, k, ke, kex) == RefineRun(t, b, k, ke, kex);
    }
  }

  lemma {:induction false} RefineZerosAt(t: Band, b: Block, k: nat, p: nat, ke: nat, kex: nat)
    requires t.Valid() && 1 <= k <= p <= ke <= t.se && Mag(b[ke], t.al) != 0 && Mag(b[p], t.al) != 0
    requires forall j :: k <= j < p ==> Mag(b[j], t.al) == 0
    ensures var m, rest := Mag(b[p], t.al), RefineDecisions(t, b, p + 1, ke, kex);
            RefineRun(t, b, k, ke, kex)
            == Zeros(t, k, p)
               + ((if m > 1 then [Decision(SE(t, p) + 2, m % 2 == 1)]
                   else [Decision(SE(t, p) + 1, true), Decision(FIXED_BIN, b[p] < 0)]) + rest)
    decreases p - k
  {
    hide Mag, RefineDecisions;
    var m, rest := Mag(b[p], t.al), RefineDecisions(t, b, p + 1, ke, kex);
    var own := if m > 1 then [Decision(SE(t, p) + 2, m % 2 == 1)]
               else [Decision(SE(t, p) + 1, true), Decision(FIXED_BIN, b[p] < 0)];
    if k == p {
      if m <= 1 {
        assert own + rest == [Decision(SE(t, p) + 1, true)] + ([Decision(FIXED_BIN, b[p] < 0)] + rest);
      }
      assert Zeros(t, p, p) + (own + rest) == own + rest;
    } else {
      RefineZerosAt(t, b, k + 1, p, ke, kex);
      ZerosStep(t, k, p);
      assert ([Decision(SE(t, k) + 1, false)] + Zeros(t, k + 1, p)) + (own + rest)
          == [Decision(SE(t, k) + 1, false)] + (Zeros(t, k + 1, p) + (own + rest));
    }
  }

  /** The coefficients known to be nonzero before are those above one. */
  lemma KnownBefore(b: Block, al: nat, ke: nat, kex: nat)
    requires kex <= ke < DCTSIZE2 && (kex > 0 ==> Mag(b[kex], al) > 1)
    requires forall j :: kex < j <= ke ==> Mag(b[j], al) <= 1
    ensures LastNonzero(b, ke, al + 1) == kex
  {
    hide Mag, Approx, ShiftUp, LastNonzero;
    var known := LastNonzero(b, ke, al + 1);
    if known > kex { MagRefines(b[known], al); }
    if kex > 0 { MagRefines(b[kex], al); }
  }

  /** The end of block as in a first scan, whatever was known before. */
  lemma RefineEnd(t: Band, b: Block, ke: nat, kex: nat)
    requires t.Valid() && ke <= t.se && forall j :: ke < j <= t.se ==> Mag(b[j], t.al) == 0
    ensures ke < t.ss ==> BandRefinement(t, b) == [Decision(SE(t, t.ss), true)]
    ensures RefineDecisions(t, b, ke + 1, ke, kex) == if ke < t.se then [Decision(SE(t, ke + 1), true)] else []
  {
    hide Mag, LastNonzero, RefineRun;
  }

  /** The last coefficient that is not zero is the one followed by zeros only. */
  lemma LastIs(b: Block, k: nat, al: nat, ke: nat)
    requires ke <= k < DCTSIZE2 && Mag(b[ke], al) != 0
    requires forall j :: ke < j <= k ==> Mag(b[j], al) == 0
    ensures LastNonzero(b, k, al) == ke
  {
    hide Mag, LastNonzero;
  }

  lemma RefineStart(t: Band, b: Block, ke: nat, kex: nat)
    requires t.Valid() && kex <= ke && t.ss <= ke <= t.se && Mag(b[ke], t.al) != 0
    requires forall j :: ke < j <= t.se ==> Mag(b[j], t.al) == 0
    requires kex > 0 ==> Mag(b[kex], t.al) > 1
    requires forall j :: kex < j <= ke ==> Mag(b[j], t.al) <= 1
    ensures BandRefinement(t, b) == RefineDecisions(t, b, t.ss, ke, kex)
  {
    hide Mag, LastNonzero, RefineDecisions;
    assert LastNonzero(b, t.se, t.al) == ke by { LastIs(b, t.se, t.al, ke); }
    assert LastNonzero(b, ke, t.al + 1) == kex by { KnownBefore(b, t.al, ke, kex); }
  }

  // ----- Error exits of the decoder -------------------------------------------------------------------

  /** Zeros up to the end of the band without an end of block are spectral overflow. */
  lemma {:induction false} ZerosRunOff<D>(ch: Channel<D>, d: D, t: Band, b: Block, k: nat, d': D)
    requires t.Valid() && 1 <= k <= t.se && Reads(ch, d, Zeros(t, k, t.se + 1), d')
    ensures var r := ReadRun(ch, d, t, b, k); !r.ok && r.block == b
    decreases t.se - k
  {
    hide Reads, ReadValue, ReadAc, Zeros;
    ZerosStep(t, k, t.se + 1);
    ReadsFirst(ch, d, Decision(SE(t, k) + 1, false), Zeros(t, k + 1, t.se + 1), d');
    if k < t.se { ZerosRunOff(ch, ch(d, SE(t, k) + 1).1, t, b, k + 1, d'); }
  }

  lemma {:induction false} RefineRunOff<D>(ch: Channel<D>, d: D, t: Band, b: Block, k: nat, kex: nat, d': D)
    requires t.Valid() && 1 <= k <= t.se && Reads(ch, d, Zeros(t, k, t.se + 1), d')
    requires forall j :: k <= j <= t.se ==> b[j] == 0
    ensures var r := ReadRefineRun(ch, d, t, b, k, kex); !r.ok && r.block == b
    decreases t.se - k
  {
    hide Reads, ReadRefine, Zeros;
    ZerosStep(t, k, t.se + 1);
    ReadsFirst(ch, d, Decision(SE(t, k) + 1, false), Zeros(t, k + 1, t.se + 1), d');
    if k < t.se { RefineRunOff(ch, ch(d, SE(t, k) + 1).1, t, b, k + 1, kex, d'); }
  }

  /** A magnitude above 2^15 is magnitude overflow. */
  lemma OversizeFails<D>(ch: Channel<D>, d: D, t: Band, b: Block, k: nat, negative: bool, v: nat, d': D)
    requires t.Valid() && 1 <= k <= t.se && v > 0x8000
    requires Reads(ch, d, [Decision(SE(t, k) + 1, true)] + ([Decision(FIXED_BIN, negative)] + AcMagnitude(t, k, v - 1)),
                   d')
    ensures var r := ReadRun(ch, d, t, b, k); !r.ok && r.block == b
  {
    hide Reads, ReadAc, AcMagnitude, ReadAcMagnitude;
    var ms := AcMagnitude(t, k, v - 1);
    ReadsFirst(ch, d, Decision(SE(t, k) + 1, true), [Decision(FIXED_BIN, negative)] + ms, d');
    var d1 := ch(d, SE(t, k) + 1).1;
    ReadsFirst(ch, d1, Decision(FIXED_BIN, negative), ms, d');
    assert ms + [] == ms;
    ReadAcMagnitudeInverts(ch, ch(d1, FIXED_BIN).1, t, k, v - 1, [], d');
  }
}
