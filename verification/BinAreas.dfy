/** Every decision is coded with a bin of its own component's statistics areas
    or with the fixed bin, whatever the 16-bit coefficients are.
 */
module BinAreas {
  import opened IdealCoder
  import opened CodeBytes
  import opened Coefficients
  import opened Binarization
  import opened DcSyntax
  import opened AcSyntax
  import opened RefineSyntax
  import opened ScanCoding

  ghost predicate InArea(ds: seq<Decision>, first: nat, size: nat) {
    forall i :: 0 <= i < |ds| ==> first <= ds[i].bin < first + size || ds[i].bin == FIXED_BIN
  }

  lemma InAreaConcat(xs: seq<Decision>, ys: seq<Decision>, first: nat, size: nat)
    requires InArea(xs, first, size) && InArea(ys, first, size)
    ensures InArea(xs + ys, first, size)
  {
  }

  lemma InAreaOne(x: Decision, first: nat, size: nat)
    requires first <= x.bin < first + size || x.bin == FIXED_BIN
    ensures InArea([x], first, size)
  {
  }

  ghost predicate InDcArea(ds: seq<Decision>, tbl: nat) {
    InArea(ds, DC_STAT_BINS * tbl, DC_STAT_BINS)
  }

  ghost predicate InAcArea(ds: seq<Decision>, tbl: nat) {
    InArea(ds, 1024 + AC_STAT_BINS * tbl, AC_STAT_BINS)
  }

  lemma {:induction false} CategoryArea(v: nat, st: nat, first: nat, size: nat)
    requires v >= 1 && first <= st && st + Log(v) < first + size
    ensures InArea(Category(v, st), first, size)
    decreases v
  {
    if v >= 2 {
      CategoryArea(v / 2, st + 1, first, size);
      InAreaConcat([Decision(st, true)], Category(v / 2, st + 1), first, size);
    }
  }

  lemma {:induction false} LowBitsArea(v: nat, e: nat, st: nat, first: nat, size: nat)
    requires first <= st < first + size
    ensures InArea(LowBits(v, e, st), first, size)
    decreases e
  {
    if e > 0 {
      LowBitsArea(v, e - 1, st, first, size);
      InAreaConcat([Decision(st, Bit(v, e - 1))], LowBits(v, e - 1, st), first, size);
    }
  }

  /** Sixteen category bins and, fourteen further, one bin for the low bits. */
  lemma MagnitudeArea(v: nat, st: nat, e: nat, first: nat, size: nat)
    requires Shr(v, e) >= 1 && v < 0x10000 && first <= st && st + 29 - e < first + size
    ensures InArea(MagnitudeBits(v, st, e), first, size)
  {
    LogShr(v, e);
    LogBound(v, 16);
    Pow2Add(8, 8);
    assert Pow2(8) == 0x100;
    CategoryArea(Shr(v, e), st, first, size);
    LowBitsArea(v, Log(v), st + Log(v) - e + 14, first, size);
    InAreaConcat(Category(Shr(v, e), st), LowBits(v, Log(v), st + Log(v) - e + 14), first, size);
  }

  lemma DcArea(t: DcTable, st: DcState, m: int)
    requires t.Valid() && st.Valid() && Abs(m - st.last) <= 0x10000
    ensures InDcArea(DcDecisions(t, st, m), t.tbl)
  {
    var v := m - st.last;
    var first := DC_STAT_BINS * t.tbl;
    if v != 0 {
      var i := st.ctx + (if v < 0 then 3 else 2);
      if Abs(v) > 1 {
        MagnitudeArea(Abs(v) - 1, DcBin(t.tbl, 20), 0, first, DC_STAT_BINS);
        InAreaConcat([Decision(DcBin(t.tbl, i), true)], MagnitudeBits(Abs(v) - 1, DcBin(t.tbl, 20), 0), first,
                     DC_STAT_BINS);
      }
      InAreaConcat([Decision(DcBin(t.tbl, st.ctx + 1), v < 0)], DcMagnitude(t.tbl, i, Abs(v) - 1), first, DC_STAT_BINS);
      InAreaConcat([Decision(DcBin(t.tbl, st.ctx), true)], NonzeroDecisions(t, st.ctx, v), first, DC_STAT_BINS);
    }
  }

  lemma AcMagnitudeArea(t: Band, k: nat, v: nat)
    requires t.Valid() && 1 <= k < DCTSIZE2 && v < 0x8000
    ensures InAcArea(AcMagnitude(t, k, v), t.tbl)
  {
    if v >= 2 {
      assert Shr(v, 1) == Shr(v / 2, 0) == v / 2;
      MagnitudeArea(v, t.LargeBin(k), 1, 1024 + AC_STAT_BINS * t.tbl, AC_STAT_BINS);
    }
  }

  lemma {:induction false} AcArea(t: Band, b: Block, k: nat, ke: nat)
    requires t.Valid() && 1 <= k <= t.se + 1 && ke <= t.se && (k <= ke ==> Mag(b[ke], t.al) != 0)
    ensures InAcArea(AcDecisions(t, b, k, ke), t.tbl)
    decreases t.se + 1 - k, 1
  {
    if k <= ke {
      RunArea(t, b, k, ke);
    }
  }

  lemma {:induction false} RunArea(t: Band, b: Block, k: nat, ke: nat)
    requires t.Valid() && 1 <= k <= ke <= t.se && Mag(b[ke], t.al) != 0
    ensures InAcArea(RunDecisions(t, b, k, ke), t.tbl)
    decreases t.se + 1 - k, 0
  {
    hide Mag, InArea, AcDecisions, AcMagnitude;
    MagBound(b[k], t.al);
    var m := Mag(b[k], t.al);
    var first := 1024 + AC_STAT_BINS * t.tbl;
    var x := Decision(t.EobBin(k) + 1, m != 0);
    InAreaOne(x, first, AC_STAT_BINS);
    if m == 0 {
      RunArea(t, b, k + 1, ke);
      InAreaConcat([x], RunDecisions(t, b, k + 1, ke), first, AC_STAT_BINS);
    } else {
      AcMagnitudeArea(t, k, m - 1);
      AcArea(t, b, k + 1, ke);
      var y := Decision(FIXED_BIN, b[k] < 0);
      var value, rest := AcMagnitude(t, k, m - 1), AcDecisions(t, b, k + 1, ke);
      InAreaConcat(value, rest, first, AC_STAT_BINS);
      InAreaOne(y, first, AC_STAT_BINS);
      InAreaConcat([y], value + rest, first, AC_STAT_BINS);
      InAreaConcat([x], [y] + (value + rest), first, AC_STAT_BINS);
    }
  }

  lemma {:induction false} RefineArea(t: Band, b: Block, k: nat, ke: nat, kex: nat)
    requires t.Valid() && 1 <= k <= t.se + 1 && ke <= t.se && (k <= ke ==> Mag(b[ke], t.al) != 0)
    ensures InAcArea(RefineDecisions(t, b, k, ke, kex), t.tbl)
    decreases t.se + 1 - k, 1
  {
    if k <= ke {
      RefineRunArea(t, b, k, ke, kex);
    }
  }

  lemma {:induction false} RefineRunArea(t: Band, b: Block, k: nat, ke: nat, kex: nat)
    requires t.Valid() && 1 <= k <= ke <= t.se && Mag(b[ke], t.al) != 0
    ensures InAcArea(RefineRun(t, b, k, ke, kex), t.tbl)
    decreases t.se + 1 - k, 0
  {
    if Mag(b[k], t.al) == 0 {
      RefineRunArea(t, b, k + 1, ke, kex);
    } else {
      RefineArea(t, b, k + 1, ke, kex);
    }
  }

  /** Predictions that come from 16-bit coefficients. */
  ghost predicate CoefStates(st: seq<DcState>) {
    forall i :: 0 <= i < |st| ==> -0x8000 <= st[i].last < 0x8000
  }

  lemma BlockCodable(scan: Scan, t: Tables, st: seq<DcState>, u: Unit)
    requires ValidScan(scan) && ValidStates(t, st) && u.ci < |st| && CoefStates(st)
    ensures Codable(CodeBlock(scan, t, st, u), BINS)
    ensures CoefStates(NextStates(scan, t, st, u))
  {
    match scan
    case Sequential =>
      DcArea(t.dc[u.ci], st[u.ci], u.block[0]);
      AcArea(t.ac[u.ci], u.block, 1, LastNonzero(u.block, 63, 0));
    case DcFirst(al) => DcArea(t.dc[u.ci], st[u.ci], Shr(u.block[0], al));
    case AcFirst(band) => AcArea(band, u.block, band.ss, LastNonzero(u.block, band.se, band.al));
    case DcRefine(al) =>
    case AcRefine(band) =>
      var ke := LastNonzero(u.block, band.se, band.al);
      RefineArea(band, u.block, band.ss, ke, LastNonzero(u.block, ke, band.al + 1));
  }

  /** No decision of a scan falls outside the statistics areas. */
  lemma {:induction false} ScanCodable(scan: Scan, t: Tables, st: seq<DcState>, us: seq<Unit>)
    requires ValidScan(scan) && ValidStates(t, st) && ValidUnits(us, |st|) && CoefStates(st)
    ensures Codable(CodeScan(scan, t, st, us), BINS)
    decreases |us|
  {
    if us != [] {
      BlockCodable(scan, t, st, us[0]);
      ScanCodable(scan, t, NextStates(scan, t, st, us[0]), us[1..]);
    }
  }
}
