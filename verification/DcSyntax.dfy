/** DC differences as decisions (sections F.1.4.1, F.1.4.4.1 and F.2.4.1 of
    ITU-T T.81), as jcarith.c codes them and jdarith.c reads them back.
 */
module DcSyntax {
  import opened IdealCoder
  import opened CodeBytes
  import opened Coefficients
  import opened Binarization

  /** Table number and conditioning bounds for one component's DC coding. */
  datatype DcTable = DcTable(tbl: nat, lower: nat, upper: nat) {
    predicate Valid() {
      tbl < NUM_ARITH_TBLS
    }
  }

  /** A component's prediction and the index its next difference is coded with. */
  datatype DcState = DcState(last: int, ctx: nat) {
    predicate Valid() {
      ctx in {0, 4, 8, 12, 16}
    }
  }

  /** Differences the decoder can read: category 2^15 is its error exit. */
  const MAX_DIFFERENCE := 0x8000

  /** Section F.1.4.4.1.2: the context that a difference of sign `negative` and
      magnitude category `m` leaves behind.
   */
  function NextContext(t: DcTable, negative: bool, m: nat): (ctx: nat)
    ensures ctx in {0, 4, 8, 12, 16}
  {
    if m < Pow2(t.lower) / 2 then 0
    else (if negative then 8 else 4) + (if m > Pow2(t.upper) / 2 then 8 else 0)
  }

  // ----- Encoder side ----------------------------------------------------------

  /** Figures F.8 and F.9 for the magnitude minus one, from bin `i` on. */
  function DcMagnitude(tbl: nat, i: nat, v: nat): seq<Decision>
    requires tbl < NUM_ARITH_TBLS && i < 20
  {
    if v == 0 then [Decision(DcBin(tbl, i), false)]
    else [Decision(DcBin(tbl, i), true)] + MagnitudeBits(v, DcBin(tbl, 20), 0)
  }

  /** The category of a magnitude minus one, as conditioning sees it. */
  function CategoryOf(v: nat): nat {
    if v == 0 then 0 else Pow2(Log(v))
  }

  /** Figure F.4: the decisions for the point-transformed coefficient `m`. */
  function DcDecisions(t: DcTable, st: DcState, m: int): seq<Decision>
    requires t.Valid() && st.Valid()
  {
    var v := m - st.last;
    if v == 0 then [Decision(DcBin(t.tbl, st.ctx), false)]
    else [Decision(DcBin(t.tbl, st.ctx), true)] + NonzeroDecisions(t, st.ctx, v)
  }

  /** Figures F.6 and F.7: a nonzero difference, sign first. */
  function NonzeroDecisions(t: DcTable, ctx: nat, v: int): seq<Decision>
    requires t.Valid() && ctx <= 16 && v != 0
  {
    [Decision(DcBin(t.tbl, ctx + 1), v < 0)]
    + DcMagnitude(t.tbl, ctx + (if v < 0 then 3 else 2), Abs(v) - 1)
  }

  function DcNext(t: DcTable, st: DcState, m: int): (next: DcState)
    ensures next.Valid()
  {
    var v := m - st.last;
    if v == 0 then DcState(m, 0)
    else DcState(m, NextContext(t, v < 0, CategoryOf(Abs(v) - 1)))
  }

  /** A power of two is above the category exactly if it is above the number. */
  lemma {:induction false} CategoryBelow(v: nat, k: nat)
    requires v >= 1
    ensures Pow2(Log(v)) < Pow2(k) <==> v < Pow2(k)
    ensures Pow2(Log(v)) > Pow2(k) <==> v >= Pow2(k + 1)
    decreases v
  {
    if v >= 2 && k >= 1 {
      CategoryBelow(v / 2, k - 1);
    }
  }

  /** Section F.1.4.4.1.2 in terms of the difference `d`: it counts as zero up to
      half of 2^L, as small up to 2^U, and as large above; the next difference is
      coded with the context of that class and, unless zero, of its sign.
   */
  lemma Conditioning(t: DcTable, st: DcState, m: int)
    ensures var d, next := m - st.last, DcNext(t, st, m);
            && next.last == m
            && (next.ctx == 0 <==> 2 * Abs(d) <= Pow2(t.lower))
            && (next.ctx == 4 <==> 2 * Abs(d) > Pow2(t.lower) && Abs(d) <= Pow2(t.upper) && d > 0)
            && (next.ctx == 8 <==> 2 * Abs(d) > Pow2(t.lower) && Abs(d) <= Pow2(t.upper) && d < 0)
            && (next.ctx == 12 <==> 2 * Abs(d) > Pow2(t.lower) && Abs(d) > Pow2(t.upper) && d > 0)
            && (next.ctx == 16 <==> 2 * Abs(d) > Pow2(t.lower) && Abs(d) > Pow2(t.upper) && d < 0)
  {
    var d := m - st.last;
    hide Log;
    if Abs(d) > 1 {
      var v := Abs(d) - 1;
      if t.lower >= 1 { CategoryBelow(v, t.lower - 1); }
      if t.upper >= 1 { CategoryBelow(v, t.upper - 1); }
      CategoryBelow(v, 0);
    }
  }

  // ----- Decoder side ----------------------------------------------------------

  function ReadDcMagnitude<D>(ch: Channel<D>, d: D, tbl: nat, i: nat): Magnitude<D>
    requires tbl < NUM_ARITH_TBLS && i < 20
  {
    var (more, d1) := ch(d, DcBin(tbl, i));
    if !more then Magnitude(d1, 0, 1, true) else ReadMagnitude(ch, d1, DcBin(tbl, 20), 0)
  }

  datatype Difference<D> = Difference(dec: D, v: int, m: nat, ok: bool)

  /** Figures F.21 and F.22. */
  function ReadNonzero<D>(ch: Channel<D>, d: D, t: DcTable, ctx: nat): Difference<D>
    requires t.Valid() && ctx <= 16
  {
    var (negative, d1) := ch(d, DcBin(t.tbl, ctx + 1));
    var r := ReadDcMagnitude(ch, d1, t.tbl, ctx + (if negative then 3 else 2));
    Difference(r.dec, Signed(r.v, negative), r.m, r.ok)
  }

  datatype DcRead<D> = DcRead(dec: D, st: DcState, ok: bool)

  /** Figure F.19: the next prediction, kept modulo 2^16. */
  function ReadDc<D>(ch: Channel<D>, d: D, t: DcTable, st: DcState): (r: DcRead<D>)
    requires t.Valid() && st.Valid()
    ensures r.st.Valid()
  {
    var (differs, d1) := ch(d, DcBin(t.tbl, st.ctx));
    if !differs then DcRead(d1, DcState(st.last, 0), true)
    else
      var r := ReadNonzero(ch, d1, t, st.ctx);
      if !r.ok then DcRead(r.dec, st, false)
      else DcRead(r.dec, AfterDifference(t, st, r.v, r.m), true)
  }

  function AfterDifference(t: DcTable, st: DcState, v: int, m: nat): (next: DcState)
    ensures next.Valid()
  {
    DcState((st.last + v) % 0x10000, NextContext(t, v < 0, m))
  }

  // ----- The two are inverse ---------------------------------------------------

  lemma ReadDcMagnitudeInverts<D>(ch: Channel<D>, d: D, tbl: nat, i: nat, v: nat, tail: seq<Decision>, d': D)
    requires tbl < NUM_ARITH_TBLS && i < 20
    requires Reads(ch, d, DcMagnitude(tbl, i, v) + tail, d')
    ensures var r := ReadDcMagnitude(ch, d, tbl, i);
            && (r.ok <==> v < MAX_DIFFERENCE)
            && (r.ok ==> r.m == CategoryOf(v) && r.v == v + 1 && Reads(ch, r.dec, tail, d'))
  {
    var first := Decision(DcBin(tbl, i), v != 0);
    if v == 0 {
      ReadsFirst(ch, d, first, tail, d');
    } else {
      var rest := MagnitudeBits(v, DcBin(tbl, 20), 0) + tail;
      assert DcMagnitude(tbl, i, v) + tail == [first] + rest;
      ReadsFirst(ch, d, first, rest, d');
      ReadMagnitudeInverts(ch, ch(d, first.bin).1, v, DcBin(tbl, 20), 0, tail, d');
    }
  }

  lemma ReadNonzeroInverts<D>(ch: Channel<D>, d: D, t: DcTable, ctx: nat, v: int, tail: seq<Decision>, d': D)
    requires t.Valid() && ctx <= 16 && v != 0
    requires Reads(ch, d, NonzeroDecisions(t, ctx, v) + tail, d')
    ensures var r := ReadNonzero(ch, d, t, ctx);
            && (r.ok <==> Abs(v) <= MAX_DIFFERENCE)
            && (r.ok ==> r.v == v && r.m == CategoryOf(Abs(v) - 1) && Reads(ch, r.dec, tail, d'))
  {
    var y := Decision(DcBin(t.tbl, ctx + 1), v < 0);
    var i := ctx + (if v < 0 then 3 else 2);
    var rest := DcMagnitude(t.tbl, i, Abs(v) - 1) + tail;
    assert NonzeroDecisions(t, ctx, v) + tail == [y] + rest;
    ReadsFirst(ch, d, y, rest, d');
    ReadDcMagnitudeInverts(ch, ch(d, y.bin).1, t.tbl, i, Abs(v) - 1, tail, d');
  }

  /** The decoder follows the encoder's prediction modulo 2^16 and ends in the
      same context, exactly when the difference is at most 2^15 in magnitude;
      otherwise it takes its error exit.
   */
  lemma ReadDcInverts<D>(ch: Channel<D>, d: D, t: DcTable, enc: DcState, dec: DcState, m: int, tail: seq<Decision>,
                         d': D)
    requires t.Valid() && enc.Valid()
    requires dec == DcState(enc.last % 0x10000, enc.ctx)
    requires Reads(ch, d, DcDecisions(t, enc, m) + tail, d')
    ensures var r := ReadDc(ch, d, t, dec);
            && (r.ok <==> Abs(m - enc.last) <= MAX_DIFFERENCE)
            && (r.ok ==> r.st == DcState(m % 0x10000, DcNext(t, enc, m).ctx) && Reads(ch, r.dec, tail, d'))
  {
    hide Reads, NonzeroDecisions, ReadNonzero;
    var v := m - enc.last;
    var x := Decision(DcBin(t.tbl, enc.ctx), v != 0);
    if v == 0 {
      ReadsFirst(ch, d, x, tail, d');
    } else {
      var rest := NonzeroDecisions(t, enc.ctx, v) + tail;
      assert DcDecisions(t, enc, m) + tail == [x] + rest;
      ReadsFirst(ch, d, x, rest, d');
      ReadNonzeroInverts(ch, ch(d, x.bin).1, t, enc.ctx, v, tail, d');
      SamePrediction(t, enc, m);
    }
  }

  lemma SamePrediction(t: DcTable, enc: DcState, m: int)
    requires m != enc.last
    ensures AfterDifference(t, DcState(enc.last % 0x10000, enc.ctx), m - enc.last, CategoryOf(Abs(m - enc.last) - 1))
         == DcState(m % 0x10000, DcNext(t, enc, m).ctx)
  {
    SumModulo(enc.last, m - enc.last);
  }

  lemma SumModulo(last: int, v: int)
    ensures (last % 0x10000 + v) % 0x10000 == (last + v) % 0x10000
  {
  }

  /** The coefficient a decoder stores for its prediction. */
  lemma StoredDc(x: Coef, al: nat)
    requires al <= 15
    ensures ToCoef(ShiftUp(Shr(x, al) % 0x10000, al)) == DcApprox(x, al)
  {
    hide ShiftUp, Shr;
    var m := Shr(x, al);
    DcApproxIsCoef(x, al);
    if m < 0 {
      ShiftUpAdd(m, 0x10000, al);
      ShiftUpMultiple(al);
      SameModulo(ShiftUp(m, al), ShiftUp(0x10000, al) / 0x10000);
    }
  }

  lemma SameModulo(x: int, n: int)
    requires -0x8000 <= x < 0x8000
    ensures ToCoef(x + 0x10000 * n) == x
  {
  }

  lemma {:induction false} ShiftUpMultiple(k: nat)
    ensures ShiftUp(0x10000, k) % 0x10000 == 0
    decreases k
  {
    if k > 0 { ShiftUpMultiple(k - 1); }
  }
}
