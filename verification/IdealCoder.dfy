/** The arithmetic coder of sections D.1.4 to D.2.5 of ITU-T T.81 on exact
    numbers: the encoder narrows an interval with unbounded integers, and the
    decoder follows the real offset of one code value inside that interval.
    The register-level coders of jcarith.c and jdarith.c are proved to refine
    these two, and the two are proved to be inverse to each other here.
 */
module IdealCoder {
  import opened ProbabilityTable

  // ----- Encoder -----------------------------------------------------------

  /** After `shifts` renormalization shifts, the code value scaled by
      2^(16 + shifts) must lie in [low, low + width).
   */
  datatype Interval = Interval(low: nat, width: nat, shifts: nat) {
    predicate Normalized() {
      0x8000 <= width <= 0x10000
    }
  }

  /** What coding one decision does to the interval (it grows at the bottom by
      `add` and its size becomes `width`) and to the bin's statistics.
   */
  datatype Split = Split(add: nat, width: nat, next: Stat)

  /** Figures D.1 to D.6: the sub-interval of the decision `val`, with the
      conditional exchange of the two symbols, and the estimation that follows.
   */
  function SplitFor(t: Table, s: Stat, width: nat, val: bool): (sp: Split)
    requires 0x8000 <= width <= 0x10000
    ensures 1 <= sp.width <= 0x10000 && sp.add + sp.width <= width
  {
    var qe := Qe(t, s);
    var rest := width - qe;
    if val != Mps(s) then
      if rest >= qe then Split(rest, qe, AfterLps(t, s)) else Split(0, rest, AfterLps(t, s))
    else if rest >= 0x8000 then Split(0, rest, s)
    else if rest < qe then Split(rest, qe, AfterMps(t, s))
    else Split(0, rest, AfterMps(t, s))
  }

  /** The two sub-intervals fill the interval: `width - Qe` at the bottom for one
      symbol and Qe at the top for the other.
   */
  lemma SplitFills(t: Table, s: Stat, width: nat)
    requires 0x8000 <= width <= 0x10000
    ensures var more, less := SplitFor(t, s, width, Mps(s)), SplitFor(t, s, width, !Mps(s));
            && more.width + less.width == width
            && ((more.add == 0 && less.add == more.width) || (less.add == 0 && more.add == less.width))
            && ((more.add == 0 && less.width == Qe(t, s)) || (less.add == 0 && more.width == Qe(t, s)))
  {
  }

  /** The conditional exchange: the larger sub-interval is always the one of the
      more probable symbol; of two equal ones that symbol has the lower.
   */
  lemma LargerForMoreProbable(t: Table, s: Stat, width: nat)
    requires 0x8000 <= width <= 0x10000
    ensures var more, less := SplitFor(t, s, width, Mps(s)), SplitFor(t, s, width, !Mps(s));
            && more.width >= less.width
            && (more.width == less.width ==> more.add == 0)
            && less.width < 0x8000
  {
  }

  /** Estimation happens exactly when renormalization is due: always after the
      less probable symbol, after the more probable one if its sub-interval is
      below 0x8000.
   */
  lemma EstimatedIfRenormalized(t: Table, s: Stat, width: nat, val: bool)
    requires 0x8000 <= width <= 0x10000
    ensures var sp := SplitFor(t, s, width, val);
            sp.next == if sp.width >= 0x8000 then s else if val == Mps(s) then AfterMps(t, s) else AfterLps(t, s)
  {
  }

  function Renormalize(iv: Interval): (r: Interval)
    requires 1 <= iv.width <= 0x10000
    ensures r.Normalized()
    decreases 0x10000 - iv.width
  {
    if iv.width >= 0x8000 then iv
    else Renormalize(Interval(2 * iv.low, 2 * iv.width, iv.shifts + 1))
  }

  function Narrow(t: Table, iv: Interval, s: Stat, val: bool): (r: Interval)
    requires iv.Normalized()
    ensures r.Normalized()
  {
    var sp := SplitFor(t, s, iv.width, val);
    Renormalize(Interval(iv.low + sp.add, sp.width, iv.shifts))
  }

  /** A decision and the index of the statistics bin it is coded with. */
  datatype Decision = Decision(bin: nat, val: bool)

  datatype Encoder = Encoder(table: Table, iv: Interval, stats: seq<Stat>)

  const WHOLE := Interval(0, 0x10000, 0)

  ghost predicate Codable(ds: seq<Decision>, bins: nat) {
    forall i :: 0 <= i < |ds| ==> ds[i].bin < bins
  }

  function EncodeOne(e: Encoder, d: Decision): (r: Encoder)
    requires e.iv.Normalized() && d.bin < |e.stats|
    ensures r.iv.Normalized() && |r.stats| == |e.stats| && r.table == e.table
  {
    var s := e.stats[d.bin];
    Encoder(e.table, Narrow(e.table, e.iv, s, d.val),
            e.stats[d.bin := SplitFor(e.table, s, e.iv.width, d.val).next])
  }

  ghost function EncodeAll(e: Encoder, ds: seq<Decision>): (r: Encoder)
    requires e.iv.Normalized() && Codable(ds, |e.stats|)
    ensures r.iv.Normalized() && |r.stats| == |e.stats| && r.table == e.table
    decreases |ds|
  {
    if ds == [] then e else EncodeAll(EncodeOne(e, ds[0]), ds[1..])
  }

  lemma {:induction false} EncodeAllConcat(e: Encoder, xs: seq<Decision>, ys: seq<Decision>)
    requires e.iv.Normalized() && Codable(xs, |e.stats|) && Codable(ys, |e.stats|)
    ensures Codable(xs + ys, |e.stats|)
    ensures EncodeAll(e, xs + ys) == EncodeAll(EncodeAll(e, xs), ys)
    decreases |xs|
  {
    if xs == [] {
      assert xs + ys == ys;
    } else {
      assert (xs + ys)[0] == xs[0] && (xs + ys)[1..] == xs[1..] + ys;
      EncodeAllConcat(EncodeOne(e, xs[0]), xs[1..], ys);
    }
  }

  // ----- Decoder -----------------------------------------------------------

  /** The code value's distance from the bottom of the current interval. */
  datatype Offset = Offset(pos: real, width: nat) {
    ghost predicate Valid() {
      1 <= width <= 0x10000 && 0.0 <= pos < width as real
    }
  }

  function RenormalizeOffset(o: Offset): (r: Offset)
    requires 1 <= o.width <= 0x10000
    ensures 0x8000 <= r.width <= 0x10000
    ensures o.Valid() ==> r.Valid()
    decreases 0x10000 - o.width
  {
    if o.width >= 0x8000 then o
    else RenormalizeOffset(Offset(2.0 * o.pos, 2 * o.width))
  }

  datatype Outcome = Outcome(val: bool, offset: Offset, next: Stat)

  /** Figures D.8 to D.13: which sub-interval the offset falls in. */
  function Decide(t: Table, o: Offset, s: Stat): (r: Outcome)
    requires 0x8000 <= o.width <= 0x10000
    ensures 1 <= r.offset.width <= 0x10000
    ensures o.Valid() ==> r.offset.Valid()
  {
    var qe := Qe(t, s);
    var rest := o.width - qe;
    if o.pos >= rest as real then
      var upper := Offset(o.pos - rest as real, qe);
      if rest < qe then Outcome(Mps(s), upper, AfterMps(t, s))
      else Outcome(!Mps(s), upper, AfterLps(t, s))
    else
      var lower := Offset(o.pos, rest);
      if rest >= 0x8000 then Outcome(Mps(s), lower, s)
      else if rest < qe then Outcome(!Mps(s), lower, AfterLps(t, s))
      else Outcome(Mps(s), lower, AfterMps(t, s))
  }

  datatype Decoder = Decoder(table: Table, offset: Offset, stats: seq<Stat>) {
    ghost predicate Valid() {
      offset.Valid()
    }
  }

  /** One decision decoded with bin `bin`; renormalization comes first. */
  function DecodeOne(d: Decoder, bin: nat): (r: (bool, Decoder))
    requires 1 <= d.offset.width <= 0x10000 && bin < |d.stats|
    ensures 1 <= r.1.offset.width <= 0x10000 && |r.1.stats| == |d.stats| && r.1.table == d.table
    ensures d.Valid() ==> r.1.Valid()
  {
    var o := Decide(d.table, RenormalizeOffset(d.offset), d.stats[bin]);
    (o.val, Decoder(d.table, o.offset, d.stats[bin := o.next]))
  }

  // ----- The two are inverse -----------------------------------------------

  /** A code value `x` of the unit interval, scaled by 2^(16 + shifts). */
  ghost function Scaled(x: real, shifts: nat): real {
    if shifts == 0 then 65536.0 * x else 2.0 * Scaled(x, shifts - 1)
  }

  ghost predicate Inside(x: real, iv: Interval) {
    iv.low as real <= Scaled(x, iv.shifts) < (iv.low + iv.width) as real
  }

  /** The offset the decoder must hold when the encoder holds `iv`. */
  ghost function OffsetIn(x: real, iv: Interval): Offset {
    Offset(Scaled(x, iv.shifts) - iv.low as real, iv.width)
  }

  lemma {:induction false} RenormalizeAgrees(x: real, iv: Interval)
    requires 1 <= iv.width <= 0x10000
    ensures RenormalizeOffset(OffsetIn(x, iv)) == OffsetIn(x, Renormalize(iv))
    ensures Inside(x, Renormalize(iv)) <==> Inside(x, iv)
    decreases 0x10000 - iv.width
  {
    if iv.width < 0x8000 {
      RenormalizeAgrees(x, Interval(2 * iv.low, 2 * iv.width, iv.shifts + 1));
    }
  }

  /** Coding a decision only ever narrows the interval. */
  lemma {:induction false} NarrowNests(t: Table, x: real, iv: Interval, s: Stat, val: bool)
    requires iv.Normalized() && Inside(x, Narrow(t, iv, s, val))
    ensures Inside(x, iv)
  {
    var sp := SplitFor(t, s, iv.width, val);
    RenormalizeAgrees(x, Interval(iv.low + sp.add, sp.width, iv.shifts));
  }

  /** Two decoders that differ at most in a pending renormalization. */
  ghost predicate InStep(d: Decoder, e: Encoder, x: real) {
    && 1 <= d.offset.width <= 0x10000
    && d.table == e.table && d.stats == e.stats
    && RenormalizeOffset(d.offset) == OffsetIn(x, e.iv)
  }

  lemma {:induction false} DecideInvertsSplit(t: Table, x: real, iv: Interval, s: Stat, val: bool)
    requires iv.Normalized()
    requires Inside(x, Narrow(t, iv, s, val))
    ensures var o := Decide(t, OffsetIn(x, iv), s);
            && o.val == val
            && o.next == SplitFor(t, s, iv.width, val).next
            && RenormalizeOffset(o.offset) == OffsetIn(x, Narrow(t, iv, s, val))
  {
    var sp := SplitFor(t, s, iv.width, val);
    var sub := Interval(iv.low + sp.add, sp.width, iv.shifts);
    RenormalizeAgrees(x, sub);
    assert Inside(x, sub);
    assert Decide(t, OffsetIn(x, iv), s).offset == OffsetIn(x, sub);
  }

  lemma {:induction false} DecodeInvertsEncode(d: Decoder, e: Encoder, x: real, dec: Decision)
    requires e.iv.Normalized() && dec.bin < |e.stats|
    requires InStep(d, e, x) && Inside(x, EncodeOne(e, dec).iv)
    ensures DecodeOne(d, dec.bin).0 == dec.val
    ensures InStep(DecodeOne(d, dec.bin).1, EncodeOne(e, dec), x)
    ensures Inside(x, e.iv)
  {
    DecideInvertsSplit(e.table, x, e.iv, e.stats[dec.bin], dec.val);
    NarrowNests(e.table, x, e.iv, e.stats[dec.bin], dec.val);
  }

  /** The decisions a decoder will return if asked for these bins in turn. */
  ghost predicate Yields(d: Decoder, ds: seq<Decision>)
    requires 1 <= d.offset.width <= 0x10000 && Codable(ds, |d.stats|)
    decreases |ds|
  {
    ds == [] ||
    (DecodeOne(d, ds[0].bin).0 == ds[0].val && Yields(DecodeOne(d, ds[0].bin).1, ds[1..]))
  }

  ghost function DecodeAll(d: Decoder, ds: seq<Decision>): (r: Decoder)
    requires 1 <= d.offset.width <= 0x10000 && Codable(ds, |d.stats|)
    ensures 1 <= r.offset.width <= 0x10000 && |r.stats| == |d.stats|
    decreases |ds|
  {
    if ds == [] then d else DecodeAll(DecodeOne(d, ds[0].bin).1, ds[1..])
  }

  lemma {:induction false} EncodeAllNests(e: Encoder, ds: seq<Decision>, x: real)
    requires e.iv.Normalized() && Codable(ds, |e.stats|)
    requires Inside(x, EncodeAll(e, ds).iv)
    ensures Inside(x, e.iv)
    decreases |ds|
  {
    if ds != [] {
      EncodeAllNests(EncodeOne(e, ds[0]), ds[1..], x);
      NarrowNests(e.table, x, e.iv, e.stats[ds[0].bin], ds[0].val);
    }
  }

  /** Any code value inside the encoder's last interval makes the decoder
      return every decision and keep every bin in the encoder's state.
   */
  lemma {:induction false} DecodingInvertsEncoding(d: Decoder, e: Encoder, ds: seq<Decision>, x: real)
    requires e.iv.Normalized() && Codable(ds, |e.stats|)
    requires InStep(d, e, x) && Inside(x, EncodeAll(e, ds).iv)
    ensures Yields(d, ds)
    ensures InStep(DecodeAll(d, ds), EncodeAll(e, ds), x)
    decreases |ds|
  {
    if ds != [] {
      var e' := EncodeOne(e, ds[0]);
      EncodeAllNests(e', ds[1..], x);
      DecodeInvertsEncode(d, e, x, ds[0]);
      DecodingInvertsEncoding(DecodeOne(d, ds[0].bin).1, e', ds[1..], x);
    }
  }
}
