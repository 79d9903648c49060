/** Refinement scans of AC coefficients (section G.1.2.3 of ITU-T T.81): runs
    of end-of-band across blocks, with the correction bits of all of them held
    back until the run is sent.
 */
module HuffAcRefine {
  import opened CodeBytes
  import opened Coefficients
  import opened AcSyntax
  import opened RefineSyntax
  import opened HuffTokens
  import opened HuffSyntax
  import opened HuffAcFirst

  const MAX_CORR_BITS := 1000

  // ----- Encoder ---------------------------------------------------------------------------

  function BitToken(bit: bool): Token {
    Raw(if bit then 1 else 0, 1)
  }

  function BitTokens(bits: seq<bool>): seq<Token> {
    if bits == [] then [] else [BitToken(bits[0])] + BitTokens(bits[1..])
  }

  /** emit_eobrun: the waiting run, then the correction bits that go with it. */
  function Flush(tbl: nat, e: nat, be: seq<bool>): seq<Token>
    requires e <= MAX_EOBRUN
  {
    EobTokens(tbl, e) + BitTokens(be)
  }

  /** Nothing between the positions becomes nonzero. */
  ghost predicate NoNew(b: Block, k: nat, end: nat, al: nat) {
    forall j :: k <= j < end && j < DCTSIZE2 ==> Mag(b[j], al) != 1
  }

  /** The last coefficient that becomes nonzero; the first of the band if none does. */
  function LastNew(t: Band, b: Block, k: nat): (last: nat)
    requires t.Valid() && t.ss <= k <= t.se
    ensures t.ss <= last <= k && NoNew(b, last + 1, k + 1, t.al)
    ensures last == t.ss || Mag(b[last], t.al) == 1
    decreases k
  {
    if k == t.ss || Mag(b[k], t.al) == 1 then k else LastNew(t, b, k - 1)
  }

  /** Tokens of a block, and what is held back at its end: `e` bands to end
      with their correction bits `be`, then `r` zeros and correction bits `br`
      of this block.
   */
  datatype Refined = Refined(tokens: seq<Token>, e: nat, be: seq<bool>, r: nat, br: seq<bool>)

  function Prepend(ts: seq<Token>, x: Refined): Refined {
    x.(tokens := ts + x.tokens)
  }

  /** Figure G.7 from position `k`. */
  function Refine(t: Band, b: Block, k: nat, last: nat, e: nat, be: seq<bool>, r: nat, br: seq<bool>): (x: Refined)
    requires t.Valid() && e <= MAX_EOBRUN && NoNew(b, last + 1, t.se + 1, t.al)
    ensures x.e <= e
    decreases t.se + 1 - k, r
  {
    if k > t.se then Refined([], e, be, r, br)
    else
      var m := Mag(b[k], t.al);
      if m == 0 then Refine(t, b, k + 1, last, e, be, r + 1, br)
      else if r > 15 && k <= last then
        Prepend(Flush(t.tbl, e, be) + ([Symbol(t.tbl, ZRL)] + BitTokens(br)), Refine(t, b, k, last, 0, [], r - 16, []))
      else if m > 1 then Refine(t, b, k + 1, last, e, be, r, br + [m % 2 == 1])
      else
        Prepend(Flush(t.tbl, e, be) + NewTokens(t.tbl, r, b[k] < 0, br), Refine(t, b, k + 1, last, 0, [], 0, []))
  }

  /** A newly nonzero coefficient: symbol, sign, correction bits passed over. */
  function NewTokens(tbl: nat, r: nat, negative: bool, br: seq<bool>): seq<Token>
    requires r <= 15
  {
    [Symbol(tbl, 16 * r + 1)] + ([BitToken(!negative)] + BitTokens(br))
  }

  function RefineBlock(t: Band, b: Block, e: nat, be: seq<bool>): Refined
    requires t.Valid() && e <= MAX_EOBRUN
  {
    Refine(t, b, t.ss, LastNew(t, b, t.se), e, be, 0, [])
  }

  /** Whether the end of the block is held back. */
  predicate EndsEarly(x: Refined) {
    x.r > 0 || x.br != []
  }

  /** The run is sent at once if the next block might not fit. */
  predicate Overflows(e: nat, be: seq<bool>) {
    e == MAX_EOBRUN || |be| > MAX_CORR_BITS - DCTSIZE2 + 1
  }

  /** Held back between two blocks. */
  datatype Held = Held(e: nat, be: seq<bool>) {
    ghost predicate Valid() {
      && e < MAX_EOBRUN && |be| <= MAX_CORR_BITS - DCTSIZE2 + 1
      && (e == 0 ==> be == [])
    }
  }

  function Ended(x: Refined): Held {
    if EndsEarly(x) then Held(x.e + 1, x.be + x.br) else Held(x.e, x.be)
  }

  function BlockRefinement(t: Band, b: Block, h: Held): seq<Token>
    requires t.Valid() && h.e < MAX_EOBRUN
  {
    var x := RefineBlock(t, b, h.e, h.be);
    x.tokens + if EndsEarly(x) && Overflows(Ended(x).e, Ended(x).be) then Flush(t.tbl, Ended(x).e, Ended(x).be) else []
  }

  function NextHeld(t: Band, b: Block, h: Held): (h': Held)
    requires t.Valid() && h.e < MAX_EOBRUN
    ensures h'.e < MAX_EOBRUN
  {
    var x := RefineBlock(t, b, h.e, h.be);
    if EndsEarly(x) && Overflows(Ended(x).e, Ended(x).be) then Held(0, []) else Ended(x)
  }

  ghost function RefinementTokens(t: Band, bs: seq<Block>, h: Held): seq<Token>
    requires t.Valid() && h.e < MAX_EOBRUN
    decreases |bs|
  {
    if bs == [] then Flush(t.tbl, h.e, h.be)
    else BlockRefinement(t, bs[0], h) + RefinementTokens(t, bs[1..], NextHeld(t, bs[0], h))
  }

  // ----- Decoder ----------------------------------------------------------------------------

  /** A correction bit applied: the bit at `al` set, away from zero, unless it is
      set already.
   */
  function Corrected(x: Coef, bit: bool, al: nat): Coef {
    if bit && Shr(x, al) % 2 == 0 then Away(x, al) else x
  }

  datatype Step<D> = Step(dec: D, block: Block, k: nat)

  /** Advance over already-nonzero coefficients and `r` still-zero ones. */
  function Advance<D>(src: Source<D>, d: D, b: Block, k: nat, r: nat, se: nat, al: nat): (s: Step<D>)
    requires se < DCTSIZE2
    ensures s.k >= k
    decreases se + 1 - k
  {
    if k > se then Step(d, b, k)
    else if b[k] != 0 then
      var (bit, d1) := src.raw(d, 1);
      Advance(src, d1, b[k := Corrected(b[k], bit != 0, al)], k + 1, r, se, al)
    else if r == 0 then Step(d, b, k)
    else Advance(src, d, b, k + 1, r - 1, se, al)
  }

  function NewValue(bit: nat, al: nat): Coef {
    ToCoef(Signed(ShiftUp(1, al), bit == 0))
  }

  /** The loop of decode_mcu_AC_refine, up to an end-of-band symbol. */
  function ReadRefinement<D>(src: Source<D>, d: D, tbl: nat, b: Block, k: nat, se: nat, al: nat): BandEnd<D>
    requires se < DCTSIZE2
    decreases se + 1 - k
  {
    if k > se then BandEnd(d, b, k, 0)
    else
      var (s, d1) := src.symbol(d, tbl);
      var r, n := s as nat / 16, s as nat % 16;
      if n != 0 then
        var (bit, d2) := src.raw(d1, 1);
        var a := Advance(src, d2, b, k, r, se, al);
        ReadRefinement(src, a.dec, tbl, a.block[Clamp(a.k) := NewValue(bit, al)], a.k + 1, se, al)
      else if r == 15 then
        var a := Advance(src, d1, b, k, 15, se, al);
        ReadRefinement(src, a.dec, tbl, a.block, a.k + 1, se, al)
      else if r > 0 then
        var (v, d2) := src.raw(d1, r);
        BandEnd(d2, b, k, Pow2(r) + v)
      else BandEnd(d1, b, k, 1)
  }

  /** Correction bits for the rest of the band. */
  function FixRest<D>(src: Source<D>, d: D, b: Block, k: nat, se: nat, al: nat): (D, Block)
    requires se < DCTSIZE2
    decreases se + 1 - k
  {
    if k > se then (d, b)
    else if b[k] != 0 then
      var (bit, d1) := src.raw(d, 1);
      FixRest(src, d1, b[k := Corrected(b[k], bit != 0, al)], k + 1, se, al)
    else FixRest(src, d, b, k + 1, se, al)
  }

  /** One block: its symbols, unless a run ends its band, then the correction
      bits of what the run covers.
   */
  function ReadBlock<D>(src: Source<D>, d: D, t: Band, b: Block, run: nat): BandEnd<D>
    requires t.Valid()
  {
    var x := if run > 0 then BandEnd(d, b, t.ss, run) else ReadRefinement(src, d, t.tbl, b, t.ss, t.se, t.al);
    if x.run > 0 then
      var (d', b') := FixRest(src, x.dec, x.block, x.k, t.se, t.al);
      BandEnd(d', b', t.se + 1, x.run - 1)
    else x
  }

  ghost function ReadRefinements<D>(src: Source<D>, d: D, t: Band, known: seq<Block>, run: nat): (r: BlocksRead<D>)
    requires t.Valid()
    ensures |r.blocks| == |known|
    decreases |known|
  {
    if known == [] then BlocksRead(d, [], run)
    else
      var x := ReadBlock(src, d, t, known[0], run);
      var rest := ReadRefinements(src, x.dec, t, known[1..], x.run);
      BlocksRead(rest.dec, [x.block] + rest.blocks, rest.run)
  }

  // ----- What lies between two symbols --------------------------------------------------------

  /** The correction bits of positions `k` to `end - 1`. */
  function Corrections(b: Block, k: nat, end: nat, al: nat): seq<bool>
    requires end <= DCTSIZE2
    decreases end - k
  {
    if k >= end then []
    else (if Mag(b[k], al) > 1 then [Mag(b[k], al) % 2 == 1] else []) + Corrections(b, k + 1, end, al)
  }

  function ZeroCount(b: Block, k: nat, end: nat, al: nat): nat
    requires end <= DCTSIZE2
    decreases end - k
  {
    if k >= end then 0 else (if Mag(b[k], al) == 0 then 1 else 0) + ZeroCount(b, k + 1, end, al)
  }

  lemma GapSnoc(b: Block, k: nat, end: nat, al: nat)
    requires k <= end < DCTSIZE2
    ensures Corrections(b, k, end + 1, al)
            == Corrections(b, k, end, al) + if Mag(b[end], al) > 1 then [Mag(b[end], al) % 2 == 1] else []
    ensures ZeroCount(b, k, end + 1, al) == ZeroCount(b, k, end, al) + if Mag(b[end], al) == 0 then 1 else 0
  {
    hide Mag;
    GapSplit(b, k, end, end + 1, al);
    var one := if Mag(b[end], al) > 1 then [Mag(b[end], al) % 2 == 1] else [];
    assert Corrections(b, end, end + 1, al) == one + Corrections(b, end + 1, end + 1, al) == one;
  }

  /** Every correction bit comes before the 17th zero. */
  ghost predicate Early(b: Block, k: nat, end: nat, al: nat)
    requires end <= DCTSIZE2
  {
    forall j :: k <= j < end && Mag(b[j], al) > 1 ==> ZeroCount(b, k, j, al) <= 15
  }

  // ----- Advancing ----------------------------------------------------------------------------

  /** Correcting a coefficient refines it. */
  lemma CorrectionRefines(x: Coef, al: nat)
    requires Mag(x, al) > 1
    ensures -0x8000 <= Approx(x, al + 1) < 0x8000 && Approx(x, al + 1) != 0
    ensures Corrected(Approx(x, al + 1), Mag(x, al) % 2 == 1, al) == Approx(x, al)
  {
    hide Mag, Approx, Away, Shr, ShiftUp;
    MagRefines(x, al);
    RefinedValue(x, al);
    BitUnset(x, al);
  }

  /** The bit being sent is not set yet. */
  lemma BitUnset(x: Coef, al: nat)
    ensures Shr(Approx(x, al + 1), al) % 2 == 0
  {
    var m: int := Mag(x, al + 1);
    ShiftUpSign(m, al + 1);
    ShiftUpSnoc(m, al);
    ShiftUpSign(2 * m, al);
    ShrShiftUpDouble(if x < 0 then -m else m, al);
    assert ShiftUp(2 * (-m), al) == -ShiftUp(2 * m, al);
  }

  /** A coefficient known to be zero is still zero or becomes nonzero. */
  lemma StillZero(x: Coef, al: nat)
    ensures Approx(x, al + 1) == 0 <==> Mag(x, al) <= 1
    ensures Mag(x, al) == 0 ==> Approx(x, al) == 0
  {
    hide Mag, Approx, Away;
    RefinedValue(x, al);
  }

  /** The positions from `k` to `end - 1` refined, the rest as before. */
  ghost predicate RefinedTo(r: Block, b: Block, orig: Block, k: nat, end: nat, al: nat) {
    && (forall j :: k <= j < end && j < DCTSIZE2 ==> r[j] == Approx(orig[j], al))
    && (forall j :: 0 <= j < DCTSIZE2 && !(k <= j < end) ==> r[j] == b[j])
  }

  lemma RefinedOne(r: Block, b: Block, orig: Block, k: nat, end: nat, al: nat, v: Coef)
    requires k < end <= DCTSIZE2 && v == Approx(orig[k], al) && RefinedTo(r, b[k := v], orig, k + 1, end, al)
    ensures RefinedTo(r, b, orig, k, end, al)
  {
  }

  lemma KnownRest(b: Block, orig: Block, k: nat, se: nat, al: nat, v: Coef)
    requires k <= se < DCTSIZE2 && KnownFrom(b, orig, k, se, al)
    ensures KnownFrom(b[k := v], orig, k + 1, se, al)
  {
  }

  lemma DeliversBit<D>(src: Source<D>, d: D, bit: bool, rest: seq<Token>, d': D)
    requires Delivers(src, d, [BitToken(bit)] + rest, d')
    ensures (src.raw(d, 1).0 != 0) == bit && Delivers(src, src.raw(d, 1).1, rest, d')
  {
    DeliversRaw(src, d, if bit then 1 else 0, 1, rest, d');
    assert LowPart(1, 1) == 1 && LowPart(0, 1) == 0;
  }

  lemma BitTokensCons(x: bool, bits: seq<bool>, rest: seq<Token>)
    ensures BitTokens([x] + bits) + rest == [BitToken(x)] + (BitTokens(bits) + rest)
  {
  }

  /** Advancing to the zero at `end` reads exactly the correction bits passed. */
  lemma {:induction false} AdvanceReads<D>(src: Source<D>, d: D, b: Block, orig: Block, k: nat, end: nat, se: nat,
                                           al: nat, rest: seq<Token>, d': D)
    returns (mid: D, b': Block)
    requires k <= end <= se < DCTSIZE2 && NoNew(orig, k, end, al) && Mag(orig[end], al) <= 1
             && KnownFrom(b, orig, k, se, al)
    requires Delivers(src, d, BitTokens(Corrections(orig, k, end, al)) + rest, d')
    ensures Delivers(src, mid, rest, d')
    ensures Advance(src, d, b, k, ZeroCount(orig, k, end, al), se, al) == Step(mid, b', end)
    ensures RefinedTo(b', b, orig, k, end, al)
    decreases end - k
  {
    hide Delivers, Mag, Approx, Corrected;
    StillZero(orig[k], al);
    if k == end {
      assert BitTokens([]) + rest == rest;
      mid, b' := d, b;
    } else if Mag(orig[k], al) == 0 {
      assert [] + Corrections(orig, k + 1, end, al) == Corrections(orig, k + 1, end, al);
      mid, b' := AdvanceReads(src, d, b, orig, k + 1, end, se, al, rest, d');
    } else {
      var bit, more := Mag(orig[k], al) % 2 == 1, Corrections(orig, k + 1, end, al);
      CorrectionRefines(orig[k], al);
      BitTokensCons(bit, more, rest);
      DeliversBit(src, d, bit, BitTokens(more) + rest, d');
      var v := Corrected(b[k], bit, al);
      KnownRest(b, orig, k, se, al, v);
      mid, b' := AdvanceReads(src, src.raw(d, 1).1, b[k := v], orig, k + 1, end, se, al, rest, d');
      RefinedOne(b', b, orig, k, end, al, v);
    }
  }

  /** Correcting the rest of the band reads exactly its correction bits. */
  lemma {:induction false} FixRestReads<D>(src: Source<D>, d: D, b: Block, orig: Block, k: nat, se: nat, al: nat,
                                           rest: seq<Token>, d': D)
    returns (mid: D, b': Block)
    requires k <= se + 1 && se < DCTSIZE2 && NoNew(orig, k, se + 1, al) && KnownFrom(b, orig, k, se, al)
    requires Delivers(src, d, BitTokens(Corrections(orig, k, se + 1, al)) + rest, d')
    ensures Delivers(src, mid, rest, d')
    ensures FixRest(src, d, b, k, se, al) == (mid, b')
    ensures RefinedTo(b', b, orig, k, se + 1, al)
    decreases se + 1 - k
  {
    hide Delivers, Mag, Approx, Corrected;
    if k > se {
      assert BitTokens([]) + rest == rest;
      mid, b' := d, b;
    } else {
      StillZero(orig[k], al);
      if Mag(orig[k], al) == 0 {
        assert [] + Corrections(orig, k + 1, se + 1, al) == Corrections(orig, k + 1, se + 1, al);
        mid, b' := FixRestReads(src, d, b, orig, k + 1, se, al, rest, d');
      } else {
        var bit, more := Mag(orig[k], al) % 2 == 1, Corrections(orig, k + 1, se + 1, al);
        CorrectionRefines(orig[k], al);
        BitTokensCons(bit, more, rest);
        DeliversBit(src, d, bit, BitTokens(more) + rest, d');
        var v := Corrected(b[k], bit, al);
        KnownRest(b, orig, k, se, al, v);
        mid, b' := FixRestReads(src, src.raw(d, 1).1, b[k := v], orig, k + 1, se, al, rest, d');
        RefinedOne(b', b, orig, k, se + 1, al, v);
      }
    }
  }

  // ----- One block ------------------------------------------------------------------------------

  lemma Regroup<T>(a: seq<T>, b: seq<T>, c: seq<T>)
    ensures (a + b) + c == a + (b + c)
  {
  }

  lemma {:induction false} GapSplit(b: Block, k: nat, p: nat, end: nat, al: nat)
    requires k <= p <= end <= DCTSIZE2
    ensures Corrections(b, k, end, al) == Corrections(b, k, p, al) + Corrections(b, p, end, al)
    ensures ZeroCount(b, k, end, al) == ZeroCount(b, k, p, al) + ZeroCount(b, p, end, al)
    decreases p - k
  {
    hide Mag;
    if k < p {
      GapSplit(b, k + 1, p, end, al);
      var first := if Mag(b[k], al) > 1 then [Mag(b[k], al) % 2 == 1] else [];
      Regroup(first, Corrections(b, k + 1, p, al), Corrections(b, p, end, al));
    } else {
      assert [] + Corrections(b, p, end, al) == Corrections(b, p, end, al);
    }
  }

  lemma {:induction false} NoCorrections(b: Block, k: nat, end: nat, al: nat)
    requires end <= DCTSIZE2 && forall j :: k <= j < end ==> Mag(b[j], al) <= 1
    ensures Corrections(b, k, end, al) == []
    decreases end - k
  {
    if k < end { NoCorrections(b, k + 1, end, al); }
  }

  /** The zero a run of 16 ends at. */
  lemma {:induction false} NthZero(b: Block, k: nat, end: nat, n: nat, al: nat) returns (p: nat)
    requires k <= end <= DCTSIZE2 && ZeroCount(b, k, end, al) > n
    ensures k <= p < end && Mag(b[p], al) == 0 && ZeroCount(b, k, p, al) == n
    decreases end - k
  {
    hide Mag;
    if Mag(b[k], al) != 0 {
      p := NthZero(b, k + 1, end, n, al);
    } else if n == 0 {
      p := k;
    } else {
      p := NthZero(b, k + 1, end, n - 1, al);
    }
  }

  lemma OneZero(b: Block, p: nat, al: nat)
    requires p < DCTSIZE2 && Mag(b[p], al) == 0
    ensures Corrections(b, p, p + 1, al) == [] && ZeroCount(b, p, p + 1, al) == 1
  {
    hide Mag;
    assert Corrections(b, p + 1, p + 1, al) == [];
  }

  /** When a run of 16 is sent, no correction bit lies beyond its end. */
  lemma RunOf16(b: Block, k0: nat, k: nat, al: nat) returns (p: nat)
    requires k0 <= k <= DCTSIZE2 && ZeroCount(b, k0, k, al) > 15 && Early(b, k0, k, al) && NoNew(b, k0, k, al)
    ensures k0 <= p < k && Mag(b[p], al) == 0 && ZeroCount(b, k0, p, al) == 15
    ensures Corrections(b, k0, p, al) == Corrections(b, k0, k, al)
    ensures ZeroCount(b, p + 1, k, al) == ZeroCount(b, k0, k, al) - 16
    ensures Corrections(b, p + 1, k, al) == [] && Early(b, p + 1, k, al)
  {
    hide Mag, Corrections, ZeroCount;
    p := NthZero(b, k0, k, 15, al);
    OneZero(b, p, al);
    GapSplit(b, k0, p, k, al);
    GapSplit(b, p, p + 1, k, al);
    forall j | p + 1 <= j < k ensures Mag(b[j], al) <= 1 {
      GapSplit(b, k0, p, j, al);
      GapSplit(b, p, p + 1, j, al);
    }
    NoCorrections(b, p + 1, k, al);
    assert Corrections(b, k0, p, al) + [] == Corrections(b, k0, p, al);
  }

  /** The decoder on a run of 16 and its correction bits. */
  lemma ReadsZrl<D>(src: Source<D>, d: D, t: Band, b: Block, orig: Block, k0: nat, p: nat, rest: seq<Token>, d': D)
    returns (mid: D, b': Block)
    requires t.Valid() && k0 <= p <= t.se && NoNew(orig, k0, p, t.al) && Mag(orig[p], t.al) == 0
             && ZeroCount(orig, k0, p, t.al) == 15
    requires KnownFrom(b, orig, k0, t.se, t.al)
    requires Delivers(src, d, ([Symbol(t.tbl, ZRL)] + BitTokens(Corrections(orig, k0, p, t.al))) + rest, d')
    ensures Delivers(src, mid, rest, d')
    ensures ReadRefinement(src, d, t.tbl, b, k0, t.se, t.al) == ReadRefinement(src, mid, t.tbl, b', p + 1, t.se, t.al)
    ensures RefinedTo(b', b, orig, k0, p + 1, t.al)
  {
    hide Delivers, Mag, Approx, Advance, ZeroCount, Corrections;
    var bits := BitTokens(Corrections(orig, k0, p, t.al));
    assert ([Symbol(t.tbl, ZRL)] + bits) + rest == [Symbol(t.tbl, ZRL)] + (bits + rest);
    DeliversSymbol(src, d, t.tbl, ZRL, bits + rest, d');
    mid, b' := AdvanceReads(src, src.symbol(d, t.tbl).1, b, orig, k0, p, t.se, t.al, rest, d');
    StillZero(orig[p], t.al);
  }

  /** The decoder on a newly nonzero coefficient and the bits passed over. */
  lemma ReadsNew<D>(src: Source<D>, d: D, t: Band, b: Block, orig: Block, k0: nat, k: nat, rest: seq<Token>, d': D)
    returns (mid: D, b': Block)
    requires t.Valid() && k0 <= k <= t.se && NoNew(orig, k0, k, t.al) && Mag(orig[k], t.al) == 1
             && ZeroCount(orig, k0, k, t.al) <= 15
    requires KnownFrom(b, orig, k0, t.se, t.al)
    requires Delivers(src, d, NewTokens(t.tbl, ZeroCount(orig, k0, k, t.al), orig[k] < 0,
                                        Corrections(orig, k0, k, t.al)) + rest, d')
    ensures Delivers(src, mid, rest, d')
    ensures ReadRefinement(src, d, t.tbl, b, k0, t.se, t.al) == ReadRefinement(src, mid, t.tbl, b', k + 1, t.se, t.al)
    ensures RefinedTo(b', b, orig, k0, k + 1, t.al)
  {
    hide Delivers, Mag, Approx, Advance, ZeroCount, Corrections, ReadRefinement;
    var r, bits, negative := ZeroCount(orig, k0, k, t.al), BitTokens(Corrections(orig, k0, k, t.al)), orig[k] < 0;
    var s: byte := 16 * r + 1;
    assert NewTokens(t.tbl, r, negative, Corrections(orig, k0, k, t.al)) + rest
        == [Symbol(t.tbl, s)] + ([BitToken(!negative)] + (bits + rest));
    DeliversSymbol(src, d, t.tbl, s, [BitToken(!negative)] + (bits + rest), d');
    var d1 := src.symbol(d, t.tbl).1;
    DeliversBit(src, d1, !negative, bits + rest, d');
    var (bit, d2) := src.raw(d1, 1);
    var b1;
    mid, b1 := AdvanceReads(src, d2, b, orig, k0, k, t.se, t.al, rest, d');
    RefinedValue(orig[k], t.al);
    b' := b1[k := NewValue(bit, t.al)];
    NewStep(src, d, t.tbl, b, k0, r, t.se, t.al);
  }

  lemma NewStep<D>(src: Source<D>, d: D, tbl: nat, b: Block, k: nat, r: nat, se: nat, al: nat)
    requires k <= se < DCTSIZE2 && r <= 15 && src.symbol(d, tbl).0 as nat == 16 * r + 1
    ensures var (bit, d2) := src.raw(src.symbol(d, tbl).1, 1);
            var a := Advance(src, d2, b, k, r, se, al);
            ReadRefinement(src, d, tbl, b, k, se, al)
            == ReadRefinement(src, a.dec, tbl, a.block[Clamp(a.k) := NewValue(bit, al)], a.k + 1, se, al)
  {
    hide Advance, NewValue;
    assert (16 * r + 1) / 16 == r && (16 * r + 1) % 16 == 1;
  }

  lemma RefinedConcat(r: Block, m: Block, b: Block, orig: Block, k: nat, p: nat, end: nat, al: nat)
    requires k <= p <= end && RefinedTo(m, b, orig, k, p, al) && RefinedTo(r, m, orig, p, end, al)
    ensures RefinedTo(r, b, orig, k, end, al)
  {
  }

  lemma KnownAfter(m: Block, b: Block, orig: Block, k: nat, p: nat, se: nat, al: nat)
    requires k <= p && se < DCTSIZE2 && KnownFrom(b, orig, k, se, al) && RefinedTo(m, b, orig, k, p, al)
    ensures KnownFrom(m, orig, p, se, al)
  {
  }

  lemma NoFlush(tbl: nat, ts: seq<Token>)
    ensures Flush(tbl, 0, []) + ts == ts
  {
    NothingToEnd(tbl);
  }

  /** The decoder, waiting at `k0` for the next symbol, follows the encoder at
      `k`: what is between is held back as zeros and correction bits.
   */
  lemma {:induction false} RefineReads<D>(src: Source<D>, d: D, t: Band, b: Block, orig: Block, k0: nat, k: nat,
                                          last: nat, rest: seq<Token>, d': D)
    returns (mid: D, b': Block, end: nat)
    requires t.Valid() && t.ss <= k0 <= k <= t.se + 1 && last <= t.se && NoNew(orig, last + 1, t.se + 1, t.al)
    requires KnownFrom(b, orig, k0, t.se, t.al) && NoNew(orig, k0, k, t.al) && (k <= last ==> Early(orig, k0, k, t.al))
    requires Delivers(src, d, Refine(t, orig, k, last, 0, [], ZeroCount(orig, k0, k, t.al),
                                     Corrections(orig, k0, k, t.al)).tokens + rest, d')
    ensures k0 <= end <= t.se + 1 && NoNew(orig, end, t.se + 1, t.al)
    ensures var x := Refine(t, orig, k, last, 0, [], ZeroCount(orig, k0, k, t.al), Corrections(orig, k0, k, t.al));
            x.e == 0 && x.be == [] && x.r == ZeroCount(orig, end, t.se + 1, t.al)
                && x.br == Corrections(orig, end, t.se + 1, t.al)
    ensures Delivers(src, mid, rest, d')
    ensures ReadRefinement(src, d, t.tbl, b, k0, t.se, t.al) == ReadRefinement(src, mid, t.tbl, b', end, t.se, t.al)
    ensures RefinedTo(b', b, orig, k0, end, t.al)
    decreases t.se + 1 - k, ZeroCount(orig, k0, k, t.al)
  {
    hide Delivers, Mag, Approx, ReadRefinement, ZeroCount, Corrections, Flush, NewTokens;
    var r, br := ZeroCount(orig, k0, k, t.al), Corrections(orig, k0, k, t.al);
    if k > t.se {
      assert [] + rest == rest;
      mid, b', end := d, b, k0;
    } else {
      GapSnoc(orig, k0, k, t.al);
      EmptyGap(orig, k + 1, t.al);
      if Mag(orig[k], t.al) == 0 {
        assert br + [] == br;
        mid, b', end := RefineReads(src, d, t, b, orig, k0, k + 1, last, rest, d');
      } else if r > 15 && k <= last {
        var p := RunOf16(orig, k0, k, t.al);
        var x := Refine(t, orig, k, last, 0, [], r - 16, []);
        var zrl := [Symbol(t.tbl, ZRL)] + BitTokens(br);
        NoFlush(t.tbl, zrl);
        assert (zrl + x.tokens) + rest == zrl + (x.tokens + rest);
        var d1, b1 := ReadsZrl(src, d, t, b, orig, k0, p, x.tokens + rest, d');
        KnownAfter(b1, b, orig, k0, p + 1, t.se, t.al);
        mid, b', end := RefineReads(src, d1, t, b1, orig, p + 1, k, last, rest, d');
        RefinedConcat(b', b1, b, orig, k0, p + 1, end, t.al);
      } else if Mag(orig[k], t.al) > 1 {
        mid, b', end := RefineReads(src, d, t, b, orig, k0, k + 1, last, rest, d');
      } else {
        var x := Refine(t, orig, k + 1, last, 0, [], 0, []);
        var new_ := NewTokens(t.tbl, r, orig[k] < 0, br);
        NoFlush(t.tbl, new_);
        assert (new_ + x.tokens) + rest == new_ + (x.tokens + rest);
        var d1, b1 := ReadsNew(src, d, t, b, orig, k0, k, x.tokens + rest, d');
        KnownAfter(b1, b, orig, k0, k + 1, t.se, t.al);
        mid, b', end := RefineReads(src, d1, t, b1, orig, k + 1, k + 1, last, rest, d');
        RefinedConcat(b', b1, b, orig, k0, k + 1, end, t.al);
      }
    }
  }

  lemma EmptyGap(b: Block, k: nat, al: nat)
    requires k <= DCTSIZE2
    ensures ZeroCount(b, k, k, al) == 0 && Corrections(b, k, k, al) == [] && Early(b, k, k, al)
  {
  }

  // ----- Runs across blocks ------------------------------------------------------------------------

  /** A block without newly nonzero coefficients sends nothing of its own. */
  ghost predicate Quiet(t: Band, b: Block)
    requires t.Valid()
  {
    NoNew(b, t.ss, t.se + 1, t.al)
  }

  lemma {:induction false} QuietFrom(t: Band, b: Block, k: nat, e: nat, be: seq<bool>, r: nat, br: seq<bool>)
    requires t.Valid() && e <= MAX_EOBRUN && Quiet(t, b) && t.ss <= k <= t.se + 1 && (k == t.ss ==> r == 0)
    ensures Refine(t, b, k, t.ss, e, be, r, br)
         == Refined([], e, be, r + ZeroCount(b, k, t.se + 1, t.al), br + Corrections(b, k, t.se + 1, t.al))
    decreases t.se + 1 - k
  {
    hide Mag;
    if k > t.se {
      assert br + [] == br;
    } else if Mag(b[k], t.al) == 0 {
      QuietFrom(t, b, k + 1, e, be, r + 1, br);
      assert [] + Corrections(b, k + 1, t.se + 1, t.al) == Corrections(b, k + 1, t.se + 1, t.al);
    } else {
      var one := [Mag(b[k], t.al) % 2 == 1];
      QuietFrom(t, b, k + 1, e, be, r, br + one);
      assert (br + one) + Corrections(b, k + 1, t.se + 1, t.al) == br + (one + Corrections(b, k + 1, t.se + 1, t.al));
    }
  }

  lemma QuietBlock(t: Band, b: Block, e: nat, be: seq<bool>)
    requires t.Valid() && e <= MAX_EOBRUN && Quiet(t, b)
    ensures var x := RefineBlock(t, b, e, be);
            && x == Refined([], e, be, ZeroCount(b, t.ss, t.se + 1, t.al), Corrections(b, t.ss, t.se + 1, t.al))
            && EndsEarly(x) && |x.br| <= t.se + 1 - t.ss
  {
    hide Mag, Refine;
    QuietFrom(t, b, t.ss, e, be, 0, []);
    assert [] + Corrections(b, t.ss, t.se + 1, t.al) == Corrections(b, t.ss, t.se + 1, t.al);
    SomethingHeld(b, t.ss, t.se + 1, t.al);
  }

  /** Every position but a newly nonzero one is a zero or holds a bit back. */
  lemma {:induction false} SomethingHeld(b: Block, k: nat, end: nat, al: nat)
    requires k <= end <= DCTSIZE2 && NoNew(b, k, end, al)
    ensures ZeroCount(b, k, end, al) + |Corrections(b, k, end, al)| == end - k
    decreases end - k
  {
    hide Mag;
    if k < end { SomethingHeld(b, k + 1, end, al); }
  }

  /** What is waiting goes out before the first token of a block that has one. */
  lemma {:induction false} FlushedFirst(t: Band, b: Block, k: nat, last: nat, e: nat, be: seq<bool>, r: nat,
                                        br: seq<bool>)
    requires t.Valid() && e <= MAX_EOBRUN && t.ss <= k <= last <= t.se && Mag(b[last], t.al) == 1
    requires NoNew(b, last + 1, t.se + 1, t.al)
    ensures Refine(t, b, k, last, e, be, r, br) == Prepend(Flush(t.tbl, e, be), Refine(t, b, k, last, 0, [], r, br))
    decreases t.se + 1 - k, r
  {
    hide Mag, Flush, NewTokens;
    if Mag(b[k], t.al) == 0 {
      FlushedFirst(t, b, k + 1, last, e, be, r + 1, br);
    } else if r > 15 {
      NoFlush(t.tbl, [Symbol(t.tbl, ZRL)] + BitTokens(br));
      PrependTwice(Flush(t.tbl, e, be), [Symbol(t.tbl, ZRL)] + BitTokens(br), Refine(t, b, k, last, 0, [], r - 16, []));
    } else if Mag(b[k], t.al) > 1 {
      FlushedFirst(t, b, k + 1, last, e, be, r, br + [Mag(b[k], t.al) % 2 == 1]);
    } else {
      NoFlush(t.tbl, NewTokens(t.tbl, r, b[k] < 0, br));
      PrependTwice(Flush(t.tbl, e, be), NewTokens(t.tbl, r, b[k] < 0, br), Refine(t, b, k + 1, last, 0, [], 0, []));
    }
  }

  lemma PrependTwice(a: seq<Token>, b: seq<Token>, x: Refined)
    ensures Prepend(a, Prepend(b, x)) == Prepend(a + b, x)
  {
    assert a + (b + x.tokens) == (a + b) + x.tokens;
  }

  /** A block that is not quiet starts a fresh run. */
  lemma BusyBlock(t: Band, b: Block, h: Held)
    requires t.Valid() && h.e < MAX_EOBRUN && !Quiet(t, b)
    ensures BlockRefinement(t, b, h) == Flush(t.tbl, h.e, h.be) + BlockRefinement(t, b, Held(0, []))
    ensures NextHeld(t, b, h) == NextHeld(t, b, Held(0, []))
  {
    hide Mag, Flush, Refine;
    var last := LastNew(t, b, t.se);
    SomeNew(t, b);
    FlushedFirst(t, b, t.ss, last, h.e, h.be, 0, []);
    var x := RefineBlock(t, b, 0, []);
    var after := if EndsEarly(x) && Overflows(Ended(x).e, Ended(x).be) then Flush(t.tbl, Ended(x).e, Ended(x).be)
          else [];
    assert (Flush(t.tbl, h.e, h.be) + x.tokens) + after == Flush(t.tbl, h.e, h.be) + (x.tokens + after);
  }

  lemma SomeNew(t: Band, b: Block)
    requires t.Valid() && !Quiet(t, b)
    ensures Mag(b[LastNew(t, b, t.se)], t.al) == 1
  {
    var last := LastNew(t, b, t.se);
    var j :| t.ss <= j < t.se + 1 && Mag(b[j], t.al) == 1;
  }

  ghost function AllCorrections(t: Band, bs: seq<Block>): seq<bool>
    requires t.Valid()
  {
    if bs == [] then [] else Corrections(bs[0], t.ss, t.se + 1, t.al) + AllCorrections(t, bs[1..])
  }

  lemma {:induction false} BitTokensConcat(a: seq<bool>, b: seq<bool>)
    ensures BitTokens(a + b) == BitTokens(a) + BitTokens(b)
    decreases |a|
  {
    if a == [] {
      assert a + b == b;
    } else {
      assert (a + b)[0] == a[0] && (a + b)[1..] == a[1..] + b;
      BitTokensConcat(a[1..], b);
    }
  }

  /** A quiet block joins the waiting run, which is sent only if it is full. */
  lemma QuietStep(t: Band, b: Block, h: Held)
    requires t.Valid() && h.e < MAX_EOBRUN && Quiet(t, b)
    ensures var next := Held(h.e + 1, h.be + Corrections(b, t.ss, t.se + 1, t.al));
            if Overflows(next.e, next.be)
            then BlockRefinement(t, b, h) == Flush(t.tbl, next.e, next.be) && NextHeld(t, b, h) == Held(0, [])
            else BlockRefinement(t, b, h) == [] && NextHeld(t, b, h) == next && next.e < MAX_EOBRUN
  {
    hide Mag, Refine, Flush, RefineBlock, Quiet;
    QuietBlock(t, b, h.e, h.be);
    var next := Held(h.e + 1, h.be + Corrections(b, t.ss, t.se + 1, t.al));
    assert [] + Flush(t.tbl, next.e, next.be) == Flush(t.tbl, next.e, next.be);
  }

  /** A waiting run is sent as one: its length, then the correction bits of all
      its blocks in order.
   */
  lemma {:induction false} HeldRun(t: Band, bs: seq<Block>, h: Held) returns (z: nat)
    requires t.Valid() && 1 <= h.e < MAX_EOBRUN
    ensures z <= |bs| && h.e + z <= MAX_EOBRUN && forall i :: 0 <= i < z ==> Quiet(t, bs[i])
    ensures RefinementTokens(t, bs, h)
         == Flush(t.tbl, h.e + z, h.be + AllCorrections(t, bs[..z])) + RefinementTokens(t, bs[z..], Held(0, []))
    decreases |bs|
  {
    hide Quiet, Mag, Flush, Overflows, BlockRefinement, NextHeld, Corrections;
    z := 0;
    assert h.be + AllCorrections(t, bs[..0]) == h.be && bs[0..] == bs;
    if bs == [] {
      NoFlush(t.tbl, []);
      assert Flush(t.tbl, h.e, h.be) + [] == Flush(t.tbl, h.e, h.be);
    } else if !Quiet(t, bs[0]) {
      BusyBlock(t, bs[0], h);
      var first, rest := BlockRefinement(t, bs[0], Held(0, [])), RefinementTokens(t, bs[1..], NextHeld(t, bs[0], h));
      assert (Flush(t.tbl, h.e, h.be) + first) + rest == Flush(t.tbl, h.e, h.be) + (first + rest);
    } else {
      QuietStep(t, bs[0], h);
      var own := Corrections(bs[0], t.ss, t.se + 1, t.al);
      var next := Held(h.e + 1, h.be + own);
      if Overflows(next.e, next.be) {
        z := 1;
        OneBlockRun(t, bs);
      } else {
        var z1 := HeldRun(t, bs[1..], next);
        z := z1 + 1;
        LongerRun(t, bs, z1, h.be);
        assert bs[1..][z1..] == bs[z..];
        assert forall i :: 1 <= i < z ==> bs[i] == bs[1..][i - 1];
        assert [] + RefinementTokens(t, bs[1..], next) == RefinementTokens(t, bs[1..], next);
      }
    }
  }

  lemma OneBlockRun(t: Band, bs: seq<Block>)
    requires t.Valid() && bs != []
    ensures AllCorrections(t, bs[..1]) == Corrections(bs[0], t.ss, t.se + 1, t.al)
  {
    hide Corrections;
    assert bs[..1][1..] == [];
    assert AllCorrections(t, bs[..1][1..]) == [];
  }

  lemma LongerRun(t: Band, bs: seq<Block>, z: nat, be: seq<bool>)
    requires t.Valid() && z < |bs|
    ensures (be + Corrections(bs[0], t.ss, t.se + 1, t.al)) + AllCorrections(t, bs[1..][..z])
            == be + AllCorrections(t, bs[..z + 1])
  {
    hide Corrections;
    assert bs[..z + 1][1..] == bs[1..][..z] && bs[..z + 1][0] == bs[0];
  }

  // ----- Round trip ----------------------------------------------------------------------------------

  ghost predicate AllKnown(t: Band, known: seq<Block>, orig: seq<Block>)
    requires t.Valid()
  {
    |known| == |orig| && forall i :: 0 <= i < |orig| ==> KnownFrom(known[i], orig[i], t.ss, t.se, t.al)
  }

  lemma ReadsEob<D>(src: Source<D>, d: D, tbl: nat, b: Block, k: nat, se: nat, al: nat, e: nat, rest: seq<Token>, d': D)
      returns (mid: D)
    requires k <= se < DCTSIZE2 && 1 <= e <= MAX_EOBRUN && Delivers(src, d, EobTokens(tbl, e) + rest, d')
    ensures Delivers(src, mid, rest, d')
    ensures ReadRefinement(src, d, tbl, b, k, se, al) == BandEnd(mid, b, k, e)
  {
    hide Delivers, NBits, Pow2, Advance;
    EobCategory(e);
    if e == 1 {
      assert EobTokens(tbl, e) + rest == [Symbol(tbl, 0)] + rest;
      DeliversSymbol(src, d, tbl, 0, rest, d');
      mid := src.symbol(d, tbl).1;
    } else {
      var n := NBits(e) - 1;
      var s: byte := 16 * n;
      assert EobTokens(tbl, e) + rest == [Symbol(tbl, s)] + ([Raw(e, n)] + rest);
      DeliversSymbol(src, d, tbl, s, [Raw(e, n)] + rest, d');
      DeliversRaw(src, src.symbol(d, tbl).1, e, n, rest, d');
      mid := src.raw(src.symbol(d, tbl).1, n).1;
      TopBit(e);
      assert (16 * n) / 16 == n && (16 * n) % 16 == 0;
    }
  }

  lemma RefinedBand(r: Block, b: Block, orig: Block, t: Band)
    requires t.Valid() && RefinedTo(r, b, orig, t.ss, t.se + 1, t.al)
    ensures BandRead(r, b, orig, t.ss, t.se, t.al)
  {
  }

  /** A block inside a run: only correction bits. */
  lemma RunBlock<D>(src: Source<D>, d: D, t: Band, known: Block, orig: Block, run: nat, rest: seq<Token>, d': D)
      returns (mid: D)
    requires t.Valid() && run > 0 && Quiet(t, orig) && KnownFrom(known, orig, t.ss, t.se, t.al)
    requires Delivers(src, d, BitTokens(Corrections(orig, t.ss, t.se + 1, t.al)) + rest, d')
    ensures Delivers(src, mid, rest, d')
    ensures var x := ReadBlock(src, d, t, known, run);
            x.dec == mid && x.run == run - 1 && BandRead(x.block, known, orig, t.ss, t.se, t.al)
  {
    hide Delivers, Mag, Approx, FixRest, Corrections, RefinedTo, BandRead, ReadRefinement;
    var b;
    mid, b := FixRestReads(src, d, known, orig, t.ss, t.se, t.al, rest, d');
    RefinedBand(b, known, orig, t);
  }

  /** Zeros and correction bits are held back only from the last symbol on. */
  lemma {:induction false} RefineHolds(t: Band, b: Block, k: nat, last: nat, e: nat, be: seq<bool>, r: nat,
                                       br: seq<bool>)
    requires t.Valid() && e <= MAX_EOBRUN && NoNew(b, last + 1, t.se + 1, t.al) && k <= t.se + 1
    ensures var x := Refine(t, b, k, last, e, be, r, br);
            |x.br| <= |br| + (t.se + 1 - k) && ((x.e == e && x.be == be) || (x.e == 0 && x.be == []))
    decreases t.se + 1 - k, r
  {
    hide Mag, NoNew, Flush, NewTokens;
    if k <= t.se {
      if Mag(b[k], t.al) == 0 {
        RefineHolds(t, b, k + 1, last, e, be, r + 1, br);
      } else if r > 15 && k <= last {
        RefineHolds(t, b, k, last, 0, [], r - 16, []);
      } else if Mag(b[k], t.al) > 1 {
        RefineHolds(t, b, k + 1, last, e, be, r, br + [Mag(b[k], t.al) % 2 == 1]);
      } else {
        RefineHolds(t, b, k + 1, last, 0, [], 0, []);
      }
    }
  }

  /** A block on its own starts with nothing held back, and holds back its end. */
  lemma OwnBlock(t: Band, b: Block)
    requires t.Valid()
    ensures var x := RefineBlock(t, b, 0, []);
            && BlockRefinement(t, b, Held(0, [])) == x.tokens
            && NextHeld(t, b, Held(0, [])) == if EndsEarly(x) then Held(1, x.br) else Held(0, [])
  {
    hide Refine, Mag;
    var x := RefineBlock(t, b, 0, []);
    RefineHolds(t, b, t.ss, LastNew(t, b, t.se), 0, [], 0, []);
    assert [] + x.br == x.br && x.tokens + [] == x.tokens;
  }

  /** The decoder on the end of a block that was held back, at position `end`. */
  lemma HeldEndReads<D>(src: Source<D>, d: D, t: Band, b: Block, known: Block, orig: Block, end: nat, bs: seq<Block>,
                        d': D)
    returns (mid: D, b': Block, next: nat)
    requires t.Valid() && t.ss <= end <= t.se && NoNew(orig, end, t.se + 1, t.al)
    requires KnownFrom(known, orig, t.ss, t.se, t.al) && RefinedTo(b, known, orig, t.ss, end, t.al)
    requires Delivers(src, d, RefinementTokens(t, bs, Held(1, Corrections(orig, end, t.se + 1, t.al))), d')
    ensures next <= |bs| && forall i :: 0 <= i < next ==> Quiet(t, bs[i])
    ensures Delivers(src, mid, BitTokens(AllCorrections(t, bs[..next])) + RefinementTokens(t, bs[next..], Held(0, [])),
                     d')
    ensures var x := ReadRefinement(src, d, t.tbl, b, end, t.se, t.al);
            x.run == next + 1 && FixRest(src, x.dec, x.block, x.k, t.se, t.al) == (mid, b')
    ensures BandRead(b', known, orig, t.ss, t.se, t.al)
  {
    hide Delivers, Mag, Approx, FixRest, Corrections, RefinedTo, BandRead, ReadRefinement, Quiet, EobTokens,
         AllCorrections, KnownFrom, NoNew, RefinementTokens;
    var br := Corrections(orig, end, t.se + 1, t.al);
    next := HeldRun(t, bs, Held(1, br));
    var corrections, tail := AllCorrections(t, bs[..next]), RefinementTokens(t, bs[next..], Held(0, []));
    BitTokensConcat(br, corrections);
    assert Flush(t.tbl, 1 + next, br + corrections) + tail
        == EobTokens(t.tbl, 1 + next) + (BitTokens(br) + (BitTokens(corrections) + tail));
    var d1 := ReadsEob(src, d, t.tbl, b, end, t.se, t.al, 1 + next, BitTokens(br) + (BitTokens(corrections) + tail),
                       d');
    KnownAfter(b, known, orig, t.ss, end, t.se, t.al);
    mid, b' := FixRestReads(src, d1, b, orig, end, t.se, t.al, BitTokens(corrections) + tail, d');
    RefinedConcat(b', b, known, orig, t.ss, end, t.se + 1, t.al);
    RefinedBand(b', known, orig, t);
  }

  /** The block the decoder reads when no run is known, and the run after it. */
  lemma FreshBlockReads<D>(src: Source<D>, d: D, t: Band, known: Block, orig: seq<Block>, d': D)
      returns (mid: D, next: nat)
    requires t.Valid() && orig != [] && KnownFrom(known, orig[0], t.ss, t.se, t.al)
    requires Delivers(src, d, RefinementTokens(t, orig, Held(0, [])), d')
    ensures next <= |orig| - 1 && forall i :: 0 <= i < next ==> Quiet(t, orig[1..][i])
    ensures Delivers(src, mid, BitTokens(AllCorrections(t, orig[1..][..next]))
                     + RefinementTokens(t, orig[1..][next..], Held(0, [])), d')
    ensures var x := ReadBlock(src, d, t, known, 0);
            x.dec == mid && x.run == next && BandRead(x.block, known, orig[0], t.ss, t.se, t.al)
  {
    hide Delivers, Mag, Approx, FixRest, Corrections, ZeroCount, RefinedTo, BandRead, ReadRefinement, Refine, Quiet,
         AllCorrections, KnownFrom, NoNew, BlockRefinement, NextHeld;
    var o, x := orig[0], RefineBlock(t, orig[0], 0, []);
    var rest := RefinementTokens(t, orig[1..], NextHeld(t, o, Held(0, [])));
    OwnBlock(t, o);
    EmptyGap(o, t.ss, t.al);
    NoNewEmpty(o, t.ss, t.al);
    var d1, b1, end := RefineReads(src, d, t, known, o, t.ss, t.ss, LastNew(t, o, t.se), rest, d');
    SomethingHeld(o, end, t.se + 1, t.al);
    if EndsEarly(x) {
      var b2;
      mid, b2, next := HeldEndReads(src, d1, t, b1, known, o, end, orig[1..], d');
    } else {
      mid, next := d1, 0;
      assert orig[1..][..0] == [] && orig[1..][0..] == orig[1..];
      NothingHeld(t, orig[1..]);
      EndOfBand(src, d1, t, b1);
      RefinedBand(b1, known, o, t);
    }
  }

  lemma NoNewEmpty(b: Block, k: nat, al: nat)
    ensures NoNew(b, k, k, al)
  {
  }

  lemma EndOfBand<D>(src: Source<D>, d: D, t: Band, b: Block)
    requires t.Valid()
    ensures ReadRefinement(src, d, t.tbl, b, t.se + 1, t.se, t.al) == BandEnd(d, b, t.se + 1, 0)
  {
  }

  lemma NothingHeld(t: Band, bs: seq<Block>)
    requires t.Valid()
    ensures BitTokens(AllCorrections(t, [])) + RefinementTokens(t, bs, Held(0, []))
            == RefinementTokens(t, bs, Held(0, []))
  {
  }

  lemma NothingLeft(t: Band, known: seq<Block>)
    requires t.Valid() && known == []
    ensures RefinementTokens(t, [], Held(0, [])) == Flush(t.tbl, 0, []) && AllRead(t, [], known, [])
  {
  }

  /** Any number of blocks, refined with runs across them and read back: every
      coefficient at its next approximation, and all tokens used up.
   */
  lemma {:induction false} RefinementsRoundTrip<D>(src: Source<D>, d: D, t: Band, known: seq<Block>, orig: seq<Block>,
                                                   run: nat, d': D)
    requires t.Valid() && AllKnown(t, known, orig) && run <= |orig|
    requires forall i :: 0 <= i < run ==> Quiet(t, orig[i])
    requires Delivers(src, d, BitTokens(AllCorrections(t, orig[..run])) + RefinementTokens(t, orig[run..], Held(0, [])),
                      d')
    ensures var r := ReadRefinements(src, d, t, known, run);
            r.dec == d' && r.run == 0 && AllRead(t, r.blocks, known, orig)
    decreases |orig|
  {
    hide Delivers, BandRead, KnownFrom, Quiet, ReadBlock, RefinementTokens, Corrections, AllRead;
    if orig == [] {
      NothingLeft(t, known);
      NothingHeld(t, []);
      NoFlush(t.tbl, []);
      DeliversNothing(src, d, d');
    } else if run > 0 {
      var own, more := Corrections(orig[0], t.ss, t.se + 1, t.al), AllCorrections(t, orig[1..][..run - 1]);
      assert orig[..run][1..] == orig[1..][..run - 1] && orig[1..][run - 1..] == orig[run..]
             && orig[..run][0] == orig[0];
      BitTokensConcat(own, more);
      var tail := RefinementTokens(t, orig[run..], Held(0, []));
      assert (BitTokens(own) + BitTokens(more)) + tail == BitTokens(own) + (BitTokens(more) + tail);
      var mid := RunBlock(src, d, t, known[0], orig[0], run, BitTokens(more) + tail, d');
      RefinementsRoundTrip(src, mid, t, known[1..], orig[1..], run - 1, d');
      AllReadFirst(t, ReadBlock(src, d, t, known[0], run).block,
                   ReadRefinements(src, mid, t, known[1..], run - 1).blocks, known, orig);
    } else {
      assert orig[..0] == [] && orig[0..] == orig;
      NothingHeld(t, orig);
      var mid, next := FreshBlockReads(src, d, t, known[0], orig, d');
      RefinementsRoundTrip(src, mid, t, known[1..], orig[1..], next, d');
      AllReadFirst(t, ReadBlock(src, d, t, known[0], 0).block, ReadRefinements(src, mid, t, known[1..], next).blocks,
                   known, orig);
    }
  }
}
