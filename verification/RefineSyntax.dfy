/** Successive approximation refinement as decisions (section G.1.3.3 of ITU-T
    T.81): one more bit of every coefficient of a band, and of the DC value.
 */
module RefineSyntax {
  import opened IdealCoder
  import opened CodeBytes
  import opened Coefficients
  import opened Binarization
  import opened AcSyntax

  // ----- Encoder side ----------------------------------------------------------

  /** Figure G.10 from position `k`.  Coefficients up to `ke` are nonzero in
      this scan, up to `kex` already in the previous one; the band's `al` is
      the bit being sent.
   */
  function RefineDecisions(t: Band, b: Block, k: nat, ke: nat, kex: nat): seq<Decision>
    requires t.Valid() && 1 <= k <= t.se + 1 && ke <= t.se && (k <= ke ==> Mag(b[ke], t.al) != 0)
    decreases t.se + 1 - k, 2
  {
    if k > ke then if k <= t.se then [Decision(t.EobBin(k), true)] else []
    else if k > kex then [Decision(t.EobBin(k), false)] + RefineRun(t, b, k, ke, kex)
    else RefineRun(t, b, k, ke, kex)
  }

  /** Coefficients still zero up to the next one that is not, and that one. */
  function RefineRun(t: Band, b: Block, k: nat, ke: nat, kex: nat): seq<Decision>
    requires t.Valid() && 1 <= k <= ke <= t.se && Mag(b[ke], t.al) != 0
    decreases t.se + 1 - k, 1
  {
    var m := Mag(b[k], t.al);
    if m == 0 then [Decision(t.EobBin(k) + 1, false)] + RefineRun(t, b, k + 1, ke, kex)
    else if m / 2 != 0 then [Decision(t.EobBin(k) + 2, m % 2 == 1)] + RefineDecisions(t, b, k + 1, ke, kex)
    else [Decision(t.EobBin(k) + 1, true)]
         + ([Decision(FIXED_BIN, b[k] < 0)] + RefineDecisions(t, b, k + 1, ke, kex))
  }

  function BandRefinement(t: Band, b: Block): seq<Decision>
    requires t.Valid()
  {
    var ke := LastNonzero(b, t.se, t.al);
    RefineDecisions(t, b, t.ss, ke, LastNonzero(b, ke, t.al + 1))
  }

  // ----- Decoder side ----------------------------------------------------------

  /** The last nonzero position up to `k` of what is known so far. */
  function LastKnown(b: Block, k: nat): (kex: nat)
    requires k < DCTSIZE2
    ensures kex <= k
    ensures kex > 0 ==> b[kex] != 0
    ensures forall j :: kex < j <= k ==> b[j] == 0
  {
    if k == 0 || b[k] != 0 then k else LastKnown(b, k - 1)
  }

  /** The loop over positions from `k` on. */
  function ReadRefine<D>(ch: Channel<D>, d: D, t: Band, b: Block, k: nat, kex: nat): BlockRead<D>
    requires t.Valid() && 1 <= k <= t.se + 1
    decreases t.se + 1 - k, 1, 0
  {
    if k > t.se then BlockRead(d, b, true)
    else if k > kex then
      var (eob, d1) := ch(d, t.EobBin(k));
      if eob then BlockRead(d1, b, true) else ReadRefineRun(ch, d1, t, b, k, kex)
    else ReadRefineRun(ch, d, t, b, k, kex)
  }

  /** `b[k]` moved away from zero by one unit of the bit being read. */
  function Away(x: Coef, al: nat): Coef {
    ToCoef(if x < 0 then x - ShiftUp(1, al) else x + ShiftUp(1, al))
  }

  function ReadRefineRun<D>(ch: Channel<D>, d: D, t: Band, b: Block, k: nat, kex: nat): BlockRead<D>
    requires t.Valid() && 1 <= k <= t.se
    decreases t.se + 1 - k, 0, 1
  {
    if b[k] != 0 then
      var (bit, d1) := ch(d, t.EobBin(k) + 2);
      ReadRefine(ch, d1, t, if bit then b[k := Away(b[k], t.al)] else b, k + 1, kex)
    else
      var (nonzero, d1) := ch(d, t.EobBin(k) + 1);
      AfterRefineBit(ch, nonzero, d1, t, b, k, kex)
  }

  /** A coefficient not known before: newly nonzero, or still zero. */
  function AfterRefineBit<D>(ch: Channel<D>, nonzero: bool, d: D, t: Band, b: Block, k: nat, kex: nat): BlockRead<D>
    requires t.Valid() && 1 <= k <= t.se
    decreases t.se + 1 - k, 0, 0
  {
    if nonzero then
      var (negative, d2) := ch(d, FIXED_BIN);
      ReadRefine(ch, d2, t, b[k := ToCoef(Signed(ShiftUp(1, t.al), negative))], k + 1, kex)
    else if k == t.se then BlockRead(d, b, false)
    else ReadRefineRun(ch, d, t, b, k + 1, kex)
  }

  // ----- The two are inverse ---------------------------------------------------

  /** The band from `k` on is known down to the bit above `al`. */
  ghost predicate KnownFrom(b: Block, orig: Block, k: nat, se: nat, al: nat)
    requires se < DCTSIZE2
  {
    forall j :: k <= j <= se ==> b[j] == Approx(orig[j], al + 1)
  }

  /** One coefficient's refinement, by the three cases of the run. */
  lemma RefinedValue(x: Coef, al: nat)
    ensures var m := Mag(x, al);
            && (Approx(x, al + 1) == 0 <==> m / 2 == 0)
            && -0x8000 <= Approx(x, al + 1) < 0x8000
            && -0x8000 <= Approx(x, al) < 0x8000
            && (m == 0 ==> Approx(x, al) == 0)
            && (m == 1 ==> Approx(x, al) == ToCoef(Signed(ShiftUp(1, al), x < 0)))
            && (m / 2 != 0 && m % 2 == 1 ==> Approx(x, al) == Away(Approx(x, al + 1), al))
            && (m / 2 != 0 && m % 2 == 0 ==> Approx(x, al) == Approx(x, al + 1))
  {
    ApproxIsCoef(x, al);
    ApproxIsCoef(x, al + 1);
    MagRefines(x, al);
    ShiftUpSign(0, al);
  }

  lemma {:induction false} ReadRefineInverts<D>(ch: Channel<D>, d: D, t: Band, b: Block, orig: Block, k: nat, ke: nat,
                                                kex: nat, d': D)
    requires t.Valid() && 1 <= k <= t.se + 1 && ke <= t.se && (k <= ke ==> Mag(orig[ke], t.al) != 0)
    requires forall j :: ke < j <= t.se ==> Mag(orig[j], t.al) == 0
    requires kex <= ke || ke < k
    requires KnownFrom(b, orig, k, t.se, t.al)
    requires Reads(ch, d, RefineDecisions(t, orig, k, ke, kex), d')
    ensures kex < k || k <= ke ==>
              var r := ReadRefine(ch, d, t, b, k, kex);
              r.ok && r.dec == d' && BandRead(r.block, b, orig, k, t.se, t.al)
    decreases t.se + 1 - k, 1
  {
    if k > ke {
      RefinedTail(b, orig, k, ke, t.se, t.al);
      if k <= t.se {
        assert [Decision(t.EobBin(k), true)] + [] == [Decision(t.EobBin(k), true)];
        ReadsFirst(ch, d, Decision(t.EobBin(k), true), [], d');
      }
    } else if k > kex {
      var x := Decision(t.EobBin(k), false);
      ReadsFirst(ch, d, x, RefineRun(t, orig, k, ke, kex), d');
      ReadRefineRunInverts(ch, ch(d, x.bin).1, t, b, orig, k, ke, kex, d');
    } else {
      ReadRefineRunInverts(ch, d, t, b, orig, k, ke, kex, d');
    }
  }

  lemma RefinedTail(b: Block, orig: Block, k: nat, ke: nat, se: nat, al: nat)
    requires se < DCTSIZE2 && ke < k && KnownFrom(b, orig, k, se, al)
    requires forall j :: ke < j <= se ==> Mag(orig[j], al) == 0
    ensures BandRead(b, b, orig, k, se, al)
  {
    forall j | k <= j <= se ensures b[j] == Approx(orig[j], al) {
      RefinedValue(orig[j], al);
    }
  }

  lemma {:induction false} ReadRefineRunInverts<D>(ch: Channel<D>, d: D, t: Band, b: Block, orig: Block, k: nat,
                                                   ke: nat, kex: nat, d': D)
    requires t.Valid() && 1 <= k <= ke <= t.se && Mag(orig[ke], t.al) != 0 && kex <= ke
    requires forall j :: ke < j <= t.se ==> Mag(orig[j], t.al) == 0
    requires KnownFrom(b, orig, k, t.se, t.al)
    requires Reads(ch, d, RefineRun(t, orig, k, ke, kex), d')
    ensures var r := ReadRefineRun(ch, d, t, b, k, kex);
            r.ok && r.dec == d' && BandRead(r.block, b, orig, k, t.se, t.al)
    decreases t.se + 1 - k, 0
  {
    hide Approx, Mag, ShiftUp, Shr, Signed, ToCoef, Reads, Away, RefineDecisions;
    var m := Mag(orig[k], t.al);
    RefinedValue(orig[k], t.al);
    if m == 0 {
      var x := Decision(t.EobBin(k) + 1, false);
      ReadsFirst(ch, d, x, RefineRun(t, orig, k + 1, ke, kex), d');
      ReadRefineRunInverts(ch, ch(d, x.bin).1, t, b, orig, k + 1, ke, kex, d');
      BandReadZero(ReadRefineRun(ch, ch(d, x.bin).1, t, b, k + 1, kex).block, b, orig, k, t.se, t.al);
    } else {
      var rest := RefineDecisions(t, orig, k + 1, ke, kex);
      var b1 := b[k := Approx(orig[k], t.al)];
      var d1;
      if m / 2 != 0 {
        var x := Decision(t.EobBin(k) + 2, m % 2 == 1);
        ReadsFirst(ch, d, x, rest, d');
        d1 := ch(d, x.bin).1;
        assert m % 2 == 0 ==> b1 == b;
      } else {
        var x := Decision(t.EobBin(k) + 1, true);
        var y := Decision(FIXED_BIN, orig[k] < 0);
        ReadsFirst(ch, d, x, [y] + rest, d');
        ReadsFirst(ch, ch(d, x.bin).1, y, rest, d');
        d1 := ch(ch(d, x.bin).1, FIXED_BIN).1;
      }
      ReadRefineInverts(ch, d1, t, b1, orig, k + 1, ke, kex, d');
      BandReadValue(ReadRefine(ch, d1, t, b1, k + 1, kex).block, b, orig, k, t.se, t.al);
    }
  }

  /** Below position `k` the earlier end of block no longer matters. */
  lemma {:induction false} ReadRefineSameEnd<D>(ch: Channel<D>, d: D, t: Band, b: Block, k: nat, kex: nat, kex': nat)
    requires t.Valid() && 1 <= k <= t.se + 1 && kex < k && kex' < k
    ensures ReadRefine(ch, d, t, b, k, kex) == ReadRefine(ch, d, t, b, k, kex')
    decreases t.se + 1 - k, 1
  {
    if k <= t.se {
      ReadRefineRunSameEnd(ch, ch(d, t.EobBin(k)).1, t, b, k, kex, kex');
    }
  }

  lemma {:induction false} ReadRefineRunSameEnd<D>(ch: Channel<D>, d: D, t: Band, b: Block, k: nat, kex: nat, kex': nat)
    requires t.Valid() && 1 <= k <= t.se && kex < k && kex' < k
    ensures ReadRefineRun(ch, d, t, b, k, kex) == ReadRefineRun(ch, d, t, b, k, kex')
    decreases t.se + 1 - k, 0
  {
    if b[k] != 0 {
      var (bit, d1) := ch(d, t.EobBin(k) + 2);
      ReadRefineSameEnd(ch, d1, t, if bit then b[k := Away(b[k], t.al)] else b, k + 1, kex, kex');
    } else {
      var (nonzero, d1) := ch(d, t.EobBin(k) + 1);
      if nonzero {
        var (negative, d2) := ch(d1, FIXED_BIN);
        ReadRefineSameEnd(ch, d2, t, b[k := ToCoef(Signed(ShiftUp(1, t.al), negative))], k + 1, kex, kex');
      } else if k < t.se {
        ReadRefineRunSameEnd(ch, d1, t, b, k + 1, kex, kex');
      }
    }
  }

  /** Both sides find the same end of the previous stage inside the band, even
      though the encoder looks at the original and only up to its own end.
   */
  lemma SameEarlierEnd(t: Band, b: Block, orig: Block)
    requires t.Valid() && KnownFrom(b, orig, t.ss, t.se, t.al)
    ensures var kex := LastNonzero(orig, LastNonzero(orig, t.se, t.al), t.al + 1);
            LastKnown(b, t.se) == kex || (LastKnown(b, t.se) < t.ss && kex < t.ss)
  {
    var ke := LastNonzero(orig, t.se, t.al);
    var kex := LastNonzero(orig, ke, t.al + 1);
    var known := LastKnown(b, t.se);
    RefinedValue(orig[kex], t.al);
    RefinedValue(orig[known], t.al);
    MagRefines(orig[kex], t.al);
    MagRefines(orig[known], t.al);
  }

  /** A refinement scan of a band, coded and read back. */
  lemma RefinementRoundTrips<D>(ch: Channel<D>, d: D, t: Band, b: Block, orig: Block, d': D)
    requires t.Valid() && KnownFrom(b, orig, t.ss, t.se, t.al)
    requires Reads(ch, d, BandRefinement(t, orig), d')
    ensures var r := ReadRefine(ch, d, t, b, t.ss, LastKnown(b, t.se));
            r.ok && r.dec == d' && BandRead(r.block, b, orig, t.ss, t.se, t.al)
  {
    var ke := LastNonzero(orig, t.se, t.al);
    var kex := LastNonzero(orig, ke, t.al + 1);
    SameEarlierEnd(t, b, orig);
    ReadRefineInverts(ch, d, t, b, orig, t.ss, ke, kex, d');
    if LastKnown(b, t.se) != kex {
      ReadRefineSameEnd(ch, d, t, b, t.ss, LastKnown(b, t.se), kex);
    }
  }

  // ----- DC refinement ---------------------------------------------------------

  function DcRefineDecision(x: Coef, al: nat): Decision {
    Decision(FIXED_BIN, Shr(x, al) % 2 == 1)
  }

  /** `x` with bit `al` of its two's complement form set. */
  function SetBit(x: Coef, al: nat): Coef {
    if Shr(x, al) % 2 == 1 then x else ToCoef(x + ShiftUp(1, al))
  }

  lemma {:induction false} ShrShiftUpDouble(x: int, al: nat)
    ensures Shr(ShiftUp(2 * x, al), al) == 2 * x
    decreases al
  {
    if al > 0 {
      ShrShiftUpDouble(x, al - 1);
      assert ShiftUp(2 * x, al) / 2 == ShiftUp(2 * x, al - 1);
    }
  }

  /** The next bit of the DC value, merged into what is known of it. */
  lemma DcRefinementRoundTrips(x: Coef, al: nat)
    requires al <= 14
    ensures -0x8000 <= DcApprox(x, al + 1) < 0x8000
    ensures DcApprox(x, al) ==
            if DcRefineDecision(x, al).val then SetBit(DcApprox(x, al + 1), al) else DcApprox(x, al + 1)
  {
    DcRefines(x, al);
    DcApproxIsCoef(x, al);
    DcApproxIsCoef(x, al + 1);
    ShiftUpSnoc(Shr(x, al + 1), al);
    ShrShiftUpDouble(Shr(x, al + 1), al);
    ShiftUpSign(0, al);
  }
}
