/** The first coding of a band of AC coefficients as decisions (sections
    F.1.4.2, F.2.4.2 and G.1.3.2 of ITU-T T.81).  Sequential mode codes the band
    1..63 without point transform.
 */
module AcSyntax {
  import opened IdealCoder
  import opened CodeBytes
  import opened Coefficients
  import opened Binarization

  /** Table, conditioning threshold Kx, spectral band and point transform. */
  datatype Band = Band(tbl: nat, kx: nat, ss: nat, se: nat, al: nat) {
    predicate Valid() {
      tbl < NUM_ARITH_TBLS && 1 <= ss <= se < DCTSIZE2
    }

    /** Statistics bin of the end-of-block decision at position `k`. */
    function EobBin(k: nat): nat
      requires tbl < NUM_ARITH_TBLS && 1 <= k < DCTSIZE2
    {
      AcBin(tbl, 3 * (k - 1))
    }

    /** First category bin of a large magnitude at position `k`. */
    function LargeBin(k: nat): nat
      requires tbl < NUM_ARITH_TBLS
    {
      AcBin(tbl, if k <= kx then 189 else 217)
    }
  }

  // ----- Encoder side ----------------------------------------------------------

  /** The last position up to `k` whose coefficient survives the point transform. */
  function LastNonzero(b: Block, k: nat, al: nat): (ke: nat)
    requires k < DCTSIZE2
    ensures ke <= k
    ensures ke > 0 ==> Mag(b[ke], al) != 0
    ensures forall j :: ke < j <= k ==> Mag(b[j], al) == 0
  {
    if k == 0 || Mag(b[k], al) != 0 then k else LastNonzero(b, k - 1, al)
  }

  /** Figures F.8 and F.9 for the magnitude minus one at position `k`. */
  function AcMagnitude(t: Band, k: nat, v: nat): seq<Decision>
    requires t.Valid() && 1 <= k < DCTSIZE2
  {
    var st := t.EobBin(k) + 2;
    if v == 0 then [Decision(st, false)]
    else if v == 1 then [Decision(st, true)] + [Decision(st, false)]
    else [Decision(st, true)] + ([Decision(st, true)] + MagnitudeBits(v, t.LargeBin(k), 1))
  }

  /** Figure F.5 from position `k`, where `ke` is the last position to code. */
  function AcDecisions(t: Band, b: Block, k: nat, ke: nat): seq<Decision>
    requires t.Valid() && 1 <= k <= t.se + 1 && ke <= t.se && (k <= ke ==> Mag(b[ke], t.al) != 0)
    decreases t.se + 1 - k, 1
  {
    if k > ke then if k <= t.se then [Decision(t.EobBin(k), true)] else []
    else [Decision(t.EobBin(k), false)] + RunDecisions(t, b, k, ke)
  }

  /** Zero coefficients up to the next nonzero one, and that one. */
  function RunDecisions(t: Band, b: Block, k: nat, ke: nat): seq<Decision>
    requires t.Valid() && 1 <= k <= ke <= t.se && Mag(b[ke], t.al) != 0
    decreases t.se + 1 - k, 0
  {
    var m := Mag(b[k], t.al);
    if m == 0 then [Decision(t.EobBin(k) + 1, false)] + RunDecisions(t, b, k + 1, ke)
    else [Decision(t.EobBin(k) + 1, true)]
         + ([Decision(FIXED_BIN, b[k] < 0)] + (AcMagnitude(t, k, m - 1) + AcDecisions(t, b, k + 1, ke)))
  }

  /** One block's band. */
  function BandDecisions(t: Band, b: Block): seq<Decision>
    requires t.Valid()
  {
    AcDecisions(t, b, t.ss, LastNonzero(b, t.se, t.al))
  }

  // ----- Decoder side ----------------------------------------------------------

  function ReadAcMagnitude<D>(ch: Channel<D>, d: D, t: Band, k: nat): Magnitude<D>
    requires t.Valid() && 1 <= k < DCTSIZE2
  {
    var st := t.EobBin(k) + 2;
    var (more, d1) := ch(d, st);
    if !more then Magnitude(d1, 0, 1, true)
    else
      var (large, d2) := ch(d1, st);
      if !large then Magnitude(d2, 1, 2, true) else ReadMagnitude(ch, d2, t.LargeBin(k), 1)
  }

  datatype BlockRead<D> = BlockRead(dec: D, block: Block, ok: bool)

  /** Figure F.20 from position `k`. */
  function ReadAc<D>(ch: Channel<D>, d: D, t: Band, b: Block, k: nat): BlockRead<D>
    requires t.Valid() && 1 <= k <= t.se + 1
    decreases t.se + 1 - k, 1, 0
  {
    if k > t.se then BlockRead(d, b, true)
    else
      var (eob, d1) := ch(d, t.EobBin(k));
      if eob then BlockRead(d1, b, true) else ReadRun(ch, d1, t, b, k)
  }

  /** The run of zeros from position `k`, then a nonzero coefficient. */
  function ReadRun<D>(ch: Channel<D>, d: D, t: Band, b: Block, k: nat): BlockRead<D>
    requires t.Valid() && 1 <= k <= t.se
    decreases t.se + 1 - k, 0, 1
  {
    var (nonzero, d1) := ch(d, t.EobBin(k) + 1);
    AfterRunBit(ch, nonzero, d1, t, b, k)
  }

  function AfterRunBit<D>(ch: Channel<D>, nonzero: bool, d: D, t: Band, b: Block, k: nat): BlockRead<D>
    requires t.Valid() && 1 <= k <= t.se
    decreases t.se + 1 - k, 0, 0
  {
    if !nonzero then
      if k == t.se then BlockRead(d, b, false) else ReadRun(ch, d, t, b, k + 1)
    else
      var (value, d2, ok) := ReadValue(ch, d, t, k);
      if !ok then BlockRead(d2, b, false) else ReadAc(ch, d2, t, b[k := value], k + 1)
  }

  /** A nonzero coefficient, scaled back by the point transform. */
  function ReadValue<D>(ch: Channel<D>, d: D, t: Band, k: nat): (Coef, D, bool)
    requires t.Valid() && 1 <= k <= t.se
  {
    var (negative, d1) := ch(d, FIXED_BIN);
    var r := ReadAcMagnitude(ch, d1, t, k);
    (ToCoef(ShiftUp(Signed(r.v, negative), t.al)), r.dec, r.ok)
  }

  // ----- The two are inverse ---------------------------------------------------

  lemma ReadAcMagnitudeInverts<D>(ch: Channel<D>, d: D, t: Band, k: nat, v: nat, tail: seq<Decision>, d': D)
    requires t.Valid() && 1 <= k < DCTSIZE2
    requires Reads(ch, d, AcMagnitude(t, k, v) + tail, d')
    ensures var r := ReadAcMagnitude(ch, d, t, k);
            && (r.ok <==> v < 0x8000)
            && (r.ok ==> r.v == v + 1 && Reads(ch, r.dec, tail, d'))
  {
    hide Reads, MagnitudeBits, ReadMagnitude;
    var st := t.EobBin(k) + 2;
    if v == 0 {
      ReadsFirst(ch, d, Decision(st, false), tail, d');
    } else if v == 1 {
      assert AcMagnitude(t, k, v) + tail == [Decision(st, true)] + ([Decision(st, false)] + tail);
      ReadsFirst(ch, d, Decision(st, true), [Decision(st, false)] + tail, d');
      ReadsFirst(ch, ch(d, st).1, Decision(st, false), tail, d');
    } else {
      assert Shr(v, 1) == Shr(v / 2, 0) == v / 2;
      var rest := MagnitudeBits(v, t.LargeBin(k), 1) + tail;
      assert AcMagnitude(t, k, v) + tail == [Decision(st, true)] + ([Decision(st, true)] + rest);
      ReadsFirst(ch, d, Decision(st, true), [Decision(st, true)] + rest, d');
      ReadsFirst(ch, ch(d, st).1, Decision(st, true), rest, d');
      ReadMagnitudeInverts(ch, ch(ch(d, st).1, st).1, v, t.LargeBin(k), 1, tail, d');
    }
  }

  lemma ReadValueInverts<D>(ch: Channel<D>, d: D, t: Band, k: nat, x: Coef, tail: seq<Decision>, d': D)
    requires t.Valid() && 1 <= k <= t.se && Mag(x, t.al) != 0
    requires Reads(ch, d, [Decision(FIXED_BIN, x < 0)] + (AcMagnitude(t, k, Mag(x, t.al) - 1) + tail), d')
    ensures var (value, d1, ok) := ReadValue(ch, d, t, k);
            ok && value == Approx(x, t.al) && Reads(ch, d1, tail, d')
  {
    hide Reads, AcMagnitude, ReadAcMagnitude, Mag, ShiftUp;
    var m := Mag(x, t.al);
    ReadsFirst(ch, d, Decision(FIXED_BIN, x < 0), AcMagnitude(t, k, m - 1) + tail, d');
    ReadAcMagnitudeInverts(ch, ch(d, FIXED_BIN).1, t, k, m - 1, tail, d');
    ApproxIsCoef(x, t.al);
    ShiftUpSign(m, t.al);
  }

  /** A block as the decoder knows it once the band from `k` on is read. */
  ghost predicate BandRead(r: Block, before: Block, orig: Block, k: nat, se: nat, al: nat)
    requires se < DCTSIZE2
  {
    && (forall j :: k <= j <= se ==> r[j] == Approx(orig[j], al))
    && (forall j :: 0 <= j < DCTSIZE2 && !(k <= j <= se) ==> r[j] == before[j])
  }

  ghost predicate ZeroFrom(b: Block, k: nat, se: nat)
    requires se < DCTSIZE2
  {
    forall j :: k <= j <= se ==> b[j] == 0
  }

  lemma ZeroTail(b: Block, orig: Block, k: nat, ke: nat, se: nat, al: nat)
    requires se < DCTSIZE2 && ke < k && ZeroFrom(b, k, se)
    requires forall j :: ke < j <= se ==> Mag(orig[j], al) == 0
    ensures BandRead(b, b, orig, k, se, al)
  {
    forall j | k <= j <= se ensures b[j] == Approx(orig[j], al) {
      ApproxIsCoef(orig[j], al);
    }
  }

  /** Reading inverts coding from any position on, over every magnitude a
      16-bit coefficient can have; the error exits are never taken.
   */
  lemma {:induction false} ReadAcInverts<D>(ch: Channel<D>, d: D, t: Band, b: Block, orig: Block, k: nat, ke: nat,
                                            d': D)
    requires t.Valid() && 1 <= k <= t.se + 1 && ke <= t.se && (k <= ke ==> Mag(orig[ke], t.al) != 0)
    requires forall j :: ke < j <= t.se ==> Mag(orig[j], t.al) == 0
    requires ZeroFrom(b, k, t.se)
    requires Reads(ch, d, AcDecisions(t, orig, k, ke), d')
    ensures var r := ReadAc(ch, d, t, b, k);
            r.ok && r.dec == d' && BandRead(r.block, b, orig, k, t.se, t.al)
    decreases t.se + 1 - k, 1
  {
    if k > ke {
      ZeroTail(b, orig, k, ke, t.se, t.al);
      if k <= t.se {
        assert [Decision(t.EobBin(k), true)] + [] == [Decision(t.EobBin(k), true)];
        ReadsFirst(ch, d, Decision(t.EobBin(k), true), [], d');
      }
    } else {
      var x := Decision(t.EobBin(k), false);
      ReadsFirst(ch, d, x, RunDecisions(t, orig, k, ke), d');
      ReadRunInverts(ch, ch(d, x.bin).1, t, b, orig, k, ke, d');
    }
  }

  lemma {:induction false} ReadRunInverts<D>(ch: Channel<D>, d: D, t: Band, b: Block, orig: Block, k: nat, ke: nat,
                                             d': D)
    requires t.Valid() && 1 <= k <= ke <= t.se && Mag(orig[ke], t.al) != 0
    requires forall j :: ke < j <= t.se ==> Mag(orig[j], t.al) == 0
    requires ZeroFrom(b, k, t.se)
    requires Reads(ch, d, RunDecisions(t, orig, k, ke), d')
    ensures var r := ReadRun(ch, d, t, b, k);
            r.ok && r.dec == d' && BandRead(r.block, b, orig, k, t.se, t.al)
    decreases t.se + 1 - k, 0
  {
    hide Approx, Mag, ShiftUp, Shr, Signed, ToCoef, Reads, AcMagnitude, AcDecisions;
    var m := Mag(orig[k], t.al);
    var x := Decision(t.EobBin(k) + 1, m != 0);
    if m == 0 {
      ReadsFirst(ch, d, x, RunDecisions(t, orig, k + 1, ke), d');
      ReadRunInverts(ch, ch(d, x.bin).1, t, b, orig, k + 1, ke, d');
      BandReadZero(ReadRun(ch, ch(d, x.bin).1, t, b, k + 1).block, b, orig, k, t.se, t.al);
    } else {
      var rest := AcDecisions(t, orig, k + 1, ke);
      ReadsFirst(ch, d, x, [Decision(FIXED_BIN, orig[k] < 0)] + (AcMagnitude(t, k, m - 1) + rest), d');
      ReadValueInverts(ch, ch(d, x.bin).1, t, k, orig[k], rest, d');
      var (v, d1, ok) := ReadValue(ch, ch(d, x.bin).1, t, k);
      ReadAcInverts(ch, d1, t, b[k := v], orig, k + 1, ke, d');
      BandReadValue(ReadAc(ch, d1, t, b[k := v], k + 1).block, b, orig, k, t.se, t.al);
    }
  }

  lemma BandReadZero(r: Block, b: Block, orig: Block, k: nat, se: nat, al: nat)
    requires k <= se < DCTSIZE2 && b[k] == 0 && Mag(orig[k], al) == 0
    requires BandRead(r, b, orig, k + 1, se, al)
    ensures BandRead(r, b, orig, k, se, al)
  {
    ApproxIsCoef(orig[k], al);
  }

  lemma BandReadValue(r: Block, b: Block, orig: Block, k: nat, se: nat, al: nat)
    requires k <= se < DCTSIZE2 && -0x8000 <= Approx(orig[k], al) < 0x8000
    requires BandRead(r, b[k := Approx(orig[k], al)], orig, k + 1, se, al)
    ensures BandRead(r, b, orig, k, se, al)
  {
  }

  /** A band coded and read back: each coefficient at its point transform. */
  lemma BandRoundTrips<D>(ch: Channel<D>, d: D, t: Band, b: Block, orig: Block, d': D)
    requires t.Valid() && ZeroFrom(b, t.ss, t.se)
    requires Reads(ch, d, BandDecisions(t, orig), d')
    ensures var r := ReadAc(ch, d, t, b, t.ss);
            r.ok && r.dec == d' && BandRead(r.block, b, orig, t.ss, t.se, t.al)
  {
    ReadAcInverts(ch, d, t, b, orig, t.ss, LastNonzero(orig, t.se, t.al), d');
  }
}
