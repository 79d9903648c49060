/** How coefficients become binary decisions, and back (sections F.1.4, F.2.4
    and G.1.3 of ITU-T T.81).  The encoder's side of a piece of syntax is the
    list of decisions it codes; the decoder's side is a function that reads
    from any binary channel and picks its next bin from what it has read.
 */
module Binarization {
  import opened IdealCoder
  import opened CodeBytes
  import opened Coefficients

  // ----- Statistics areas -----------------------------------------------------

  const DC_STAT_BINS := 64
  const AC_STAT_BINS := 256
  const NUM_ARITH_TBLS := 16

  /** All areas side by side: the DC areas, the AC areas, the fixed bin. */
  const FIXED_BIN := 5120
  const BINS := 5121

  function DcBin(tbl: nat, i: nat): (bin: nat)
    requires tbl < NUM_ARITH_TBLS && i < DC_STAT_BINS
    ensures bin < BINS
  {
    DC_STAT_BINS * tbl + i
  }

  function AcBin(tbl: nat, i: nat): (bin: nat)
    requires tbl < NUM_ARITH_TBLS && i < AC_STAT_BINS
    ensures bin < BINS
  {
    1024 + AC_STAT_BINS * tbl + i
  }

  /** A source of decisions: from a state and a bin, the next decision. */
  type Channel<!D> = (D, nat) -> (bool, D)

  /** Reading `ds` succeeds decision by decision and leaves the state `d'`. */
  ghost predicate Reads<D>(ch: Channel<D>, d: D, ds: seq<Decision>, d': D)
    decreases |ds|
  {
    if ds == [] then d' == d
    else ch(d, ds[0].bin).0 == ds[0].val && Reads(ch, ch(d, ds[0].bin).1, ds[1..], d')
  }

  lemma ReadsNothing<D>(ch: Channel<D>, d: D, d': D)
    requires Reads(ch, d, [], d')
    ensures d == d'
  {
  }

  /** One decision at the front of a list. */
  lemma ReadsFirst<D>(ch: Channel<D>, d: D, x: Decision, ys: seq<Decision>, d': D)
    requires Reads(ch, d, [x] + ys, d')
    ensures ch(d, x.bin).0 == x.val
    ensures Reads(ch, ch(d, x.bin).1, ys, d')
  {
    var ds := [x] + ys;
    assert ds[0] == x && ds[1..] == ys;
  }

  /** Two lists read one after the other. */
  lemma {:induction false} ReadsConcat<D>(ch: Channel<D>, d: D, xs: seq<Decision>, ys: seq<Decision>, d': D)
      returns (mid: D)
    requires Reads(ch, d, xs + ys, d')
    ensures Reads(ch, d, xs, mid) && Reads(ch, mid, ys, d')
    decreases |xs|
  {
    if xs == [] {
      assert xs + ys == ys;
      mid := d;
    } else {
      assert (xs + ys)[0] == xs[0] && (xs + ys)[1..] == xs[1..] + ys;
      mid := ReadsConcat(ch, ch(d, xs[0].bin).1, xs[1..], ys, d');
    }
  }

  // ----- Magnitudes -----------------------------------------------------------

  /** The exponent of the highest power of two not above `v`. */
  function Log(v: nat): nat
    requires v >= 1
  {
    if v < 2 then 0 else 1 + Log(v / 2)
  }

  lemma {:induction false} LogBound(v: nat, k: nat)
    requires v >= 1
    ensures Log(v) < k <==> v < Pow2(k)
    decreases v
  {
    if v >= 2 && k >= 1 {
      LogBound(v / 2, k - 1);
    }
  }

  /** Figure F.8: the magnitude category of `v`, from bin `st` on. */
  function Category(v: nat, st: nat): seq<Decision>
    requires v >= 1
  {
    if v < 2 then [Decision(st, false)]
    else [Decision(st, true)] + Category(v / 2, st + 1)
  }

  /** Bit `e` of `v`. */
  function Bit(v: nat, e: nat): bool {
    if e == 0 then v % 2 == 1 else Bit(v / 2, e - 1)
  }

  /** Figure F.9: the bits of `v` below bit `e`, all with bin `st`. */
  function LowBits(v: nat, e: nat, st: nat): seq<Decision> {
    if e == 0 then []
    else [Decision(st, Bit(v, e - 1))] + LowBits(v, e - 1, st)
  }

  function LowValue(v: nat, e: nat): nat {
    if e == 0 then 0
    else (if Bit(v, e - 1) then Pow2(e - 1) else 0) + LowValue(v, e - 1)
  }

  lemma {:induction false} LowValueHalves(v: nat, e: nat)
    ensures LowValue(v, e + 1) == 2 * LowValue(v / 2, e) + v % 2
    decreases e
  {
    if e > 0 { LowValueHalves(v, e - 1); }
  }

  /** A number is its top bit and the bits below it. */
  lemma {:induction false} TopAndLowBits(v: nat)
    requires v >= 1
    ensures v == Pow2(Log(v)) + LowValue(v, Log(v))
    decreases v
  {
    if v >= 2 {
      TopAndLowBits(v / 2);
      LowValueHalves(v, Log(v / 2));
    }
  }

  /** What the decoder's category loop finds: the category's exponent, the bin
      it stopped at, and whether the category stayed below 2^15.
   */
  datatype ReadExp<D> = ReadExp(dec: D, e: nat, st: nat, ok: bool)

  /** The loop `while (arith_decode(st)) { if ((m <<= 1) == 0x8000) ...; st++ }`. */
  function ReadCategory<D>(ch: Channel<D>, d: D, st: nat, e: nat): (r: ReadExp<D>)
    requires e <= 14
    ensures e <= r.e <= 15 && r.st <= st + (14 - e)
    ensures r.ok <==> r.e <= 14
    ensures r.ok ==> r.st == st + (r.e - e)
    decreases 14 - e, 1
  {
    var (more, d') := ch(d, st);
    AfterCategoryBit(ch, more, d', st, e)
  }

  function AfterCategoryBit<D>(ch: Channel<D>, more: bool, d: D, st: nat, e: nat): (r: ReadExp<D>)
    requires e <= 14
    ensures e <= r.e <= 15 && r.st <= st + (14 - e)
    ensures r.ok <==> r.e <= 14
    ensures r.ok ==> r.st == st + (r.e - e)
    decreases 14 - e, 0
  {
    if !more then ReadExp(d, e, st, true)
    else if e == 14 then ReadExp(d, 15, st, false)
    else ReadCategory(ch, d, st + 1, e + 1)
  }

  function ReadLowBits<D>(ch: Channel<D>, d: D, e: nat, st: nat): (nat, D)
    decreases e
  {
    if e == 0 then (0, d)
    else
      var (b, d1) := ch(d, st);
      var (rest, d2) := ReadLowBits(ch, d1, e - 1, st);
      ((if b then Pow2(e - 1) else 0) + rest, d2)
  }

  /** The category loop inverts Category, unless the category reaches 2^15. */
  lemma {:induction false} ReadCategoryInverts<D>(ch: Channel<D>, d: D, v: nat, st: nat, e: nat, tail: seq<Decision>,
                                                  d': D)
    requires v >= 1 && e <= 14
    requires Reads(ch, d, Category(v, st) + tail, d')
    ensures var r := ReadCategory(ch, d, st, e);
            && (r.ok <==> e + Log(v) <= 14)
            && (r.ok ==> r.e == e + Log(v) && r.st == st + Log(v) && Reads(ch, r.dec, tail, d'))
    decreases v
  {
    if v < 2 {
      ReadsFirst(ch, d, Decision(st, false), tail, d');
    } else {
      var rest := Category(v / 2, st + 1) + tail;
      assert Category(v, st) + tail == [Decision(st, true)] + rest;
      ReadsFirst(ch, d, Decision(st, true), rest, d');
      if e < 14 {
        ReadCategoryInverts(ch, ch(d, st).1, v / 2, st + 1, e + 1, tail, d');
      }
    }
  }

  lemma {:induction false} ReadLowBitsInverts<D>(ch: Channel<D>, d: D, v: nat, e: nat, st: nat, tail: seq<Decision>,
                                                 d': D)
    requires Reads(ch, d, LowBits(v, e, st) + tail, d')
    ensures var r := ReadLowBits(ch, d, e, st); r.0 == LowValue(v, e) && Reads(ch, r.1, tail, d')
    decreases e
  {
    if e == 0 {
      assert LowBits(v, e, st) + tail == tail;
    } else {
      var x := Decision(st, Bit(v, e - 1));
      var rest := LowBits(v, e - 1, st) + tail;
      assert LowBits(v, e, st) + tail == [x] + rest;
      ReadsFirst(ch, d, x, rest, d');
      ReadLowBitsInverts(ch, ch(d, st).1, v, e - 1, st, tail, d');
    }
  }

  // ----- A magnitude as a whole -----------------------------------------------

  datatype Magnitude<D> = Magnitude(dec: D, m: nat, v: nat, ok: bool)

  /** Figures F.23 and F.24 once the category is known to be at least 2^e: the
      category `m`, whose bins start at `st`, and the magnitude `v`.
   */
  function ReadMagnitude<D>(ch: Channel<D>, d: D, st: nat, e: nat): Magnitude<D>
    requires e <= 14
  {
    var r := ReadCategory(ch, d, st, e);
    if !r.ok then Magnitude(r.dec, 0x8000, 0, false)
    else
      var (low, d2) := ReadLowBits(ch, r.dec, r.e, r.st + 14);
      Magnitude(d2, Pow2(r.e), Pow2(r.e) + low + 1, true)
  }

  /** The same part of the encoder's output; `v` is the magnitude minus one. */
  function MagnitudeBits(v: nat, st: nat, e: nat): seq<Decision>
    requires Shr(v, e) >= 1
  {
    LogShr(v, e);
    Category(Shr(v, e), st) + LowBits(v, Log(v), st + Log(v) - e + 14)
  }

  lemma {:induction false} LogShr(v: nat, e: nat)
    requires Shr(v, e) >= 1
    ensures v >= 1 && Log(v) == Log(Shr(v, e)) + e
    decreases e
  {
    if e > 0 { LogShr(v / 2, e - 1); }
  }

  lemma ExponentBelow15(v: nat)
    requires v >= 1
    ensures Log(v) <= 14 <==> v < 0x8000
  {
    LogBound(v, 15);
    assert Pow2(15) == 0x8000;
  }

  /** Reading a magnitude inverts writing it, up to magnitude 2^15. */
  lemma ReadMagnitudeInverts<D>(ch: Channel<D>, d: D, v: nat, st: nat, e: nat, tail: seq<Decision>, d': D)
    requires e <= 14 && Shr(v, e) >= 1
    requires Reads(ch, d, MagnitudeBits(v, st, e) + tail, d')
    ensures var r := ReadMagnitude(ch, d, st, e);
            && v >= 1
            && (r.ok <==> v < 0x8000)
            && (r.ok ==> r.m == Pow2(Log(v)) && r.v == v + 1 && Reads(ch, r.dec, tail, d'))
  {
    hide Reads, ReadCategory, ReadLowBits, Category, LowBits, LowValue, Log, Pow2, Shr;
    LogShr(v, e);
    ExponentBelow15(v);
    var bits := LowBits(v, Log(v), st + Log(v) - e + 14);
    assert MagnitudeBits(v, st, e) + tail == Category(Shr(v, e), st) + (bits + tail);
    ReadCategoryInverts(ch, d, Shr(v, e), st, e, bits + tail, d');
    if Log(v) <= 14 {
      var r := ReadCategory(ch, d, st, e);
      ReadLowBitsInverts(ch, r.dec, v, Log(v), r.st + 14, tail, d');
      TopAndLowBits(v);
    }
  }

}
