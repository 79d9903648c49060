/** What the Huffman coders send, token by token, as Figures F.1 to F.3 and G.3 to
    G.7 and sections F.1.2 and G.1.2 of ITU-T T.81 lay it down.
 */
module HuffFigures {
  import opened CodeBytes
  import opened Coefficients
  import opened CanonicalCode
  import opened AcSyntax
  import opened ScanCoding
  import opened HuffTokens
  import opened HuffSyntax
  import HB = HuffBlocks
  import opened HuffAcFirst
  import opened HuffAcRefine

  // ----- Values -------------------------------------------------------------------------------------

  /** A value's category is the number of its magnitude's binary digits; the bits
      behind it are the value itself or, if it is negative, those of its magnitude
      complemented.
   */
  lemma ValueAt(x: int, n: nat)
    requires n >= 1 && Pow2(n - 1) <= Abs(x) < Pow2(n)
    ensures NBits(Abs(x)) == n
    ensures x > 0 ==> ValueBits(x) == x
    ensures x < 0 ==> ValueBits(x) + Abs(x) == Pow2(n) - 1
  {
    NBitsBound(Abs(x), n);
    NBitsBound(Abs(x), n - 1);
  }

  /** Complementing is subtracting from all ones. */
  lemma {:induction false} ComplementBits(v: nat, n: nat, i: nat)
    requires v < Pow2(n) && i < n
    ensures BitString(Pow2(n) - 1 - v, n)[i] <==> !BitString(v, n)[i]
    decreases n
  {
    hide Pow2;
    HalfComplement(v, n);
    if i < n - 1 { ComplementBits(v / 2, n - 1, i); }
  }

  lemma HalfComplement(v: nat, n: nat)
    requires n >= 1 && v < Pow2(n)
    ensures v / 2 < Pow2(n - 1)
    ensures var w := Pow2(n) - 1 - v; w / 2 == Pow2(n - 1) - 1 - v / 2 && (w % 2 == 1 <==> v % 2 == 0)
  {
  }

  lemma {:induction false} ProductOfShift(x: int, k: nat)
    ensures ShiftUp(x, k) == x * Pow2(k)
    decreases k
  {
    if k > 0 {
      ProductOfShift(x, k - 1);
      var p := Pow2(k - 1);
      assert x * (2 * p) == 2 * (x * p);
    }
  }

  // ----- Sequential and first scans -------------------------------------------------------------------

  /** Section F.1.2.1: the category of the difference, then its bits. */
  lemma DcTokensAt(tbl: nat, x: int, n: nat)
    requires n <= 15 && (if n == 0 then x == 0 else Pow2(n - 1) <= Abs(x) < Pow2(n))
    ensures NBits(Abs(x)) <= 15
    ensures HB.DcTokens(tbl, x) == [Symbol(tbl, n)] + if n == 0 then [] else [Raw(ValueBits(x), n)]
  {
    if n >= 1 { ValueAt(x, n); }
  }

  /** Figures F.2 and F.3: `q` symbols 0xF0 for 16 zeros each, one symbol for the
      remaining zeros and the category of the coefficient at `p`, its bits, and on
      behind it.
   */
  lemma BandRunAt(tbl: nat, b: Block, k: nat, p: nat, se: nat, al: nat, q: nat, r: nat, n: nat)
    requires k <= p <= se < DCTSIZE2 && BandInRange(b, k, se, al, 15) && ZeroMags(b, k, p, al)
    requires p - k == 16 * q + r && r < 16 && 1 <= n <= 15 && Pow2(n - 1) <= Mag(b[p], al) < Pow2(n)
    ensures BandInRange(b, p + 1, se, al, 15)
    ensures BandTokens(tbl, b, k, 0, se, al)
         == seq(q, _ => Symbol(tbl, 0xF0))
            + ([Symbol(tbl, 16 * r + n)] + [Raw(ValueBits(Transformed(b, p, al)), n)]
               + BandTokens(tbl, b, p + 1, 0, se, al))
  {
    hide NBits, ValueBits, Mag;
    PassZeros(tbl, b, k, 0, p, se, al);
    LongRunsAre(tbl, q);
    TransformedValue(b, p, al);
    ValueAt(Transformed(b, p, al), n);
    assert (p - k) / 16 == q && (p - k) % 16 == r;
  }

  lemma {:induction false} PassZeros(tbl: nat, b: Block, k: nat, r: nat, p: nat, se: nat, al: nat)
    requires k <= p <= se < DCTSIZE2 && BandInRange(b, k, se, al, 15) && ZeroMags(b, k, p, al)
    ensures BandInRange(b, p, se, al, 15)
    ensures BandTokens(tbl, b, k, r, se, al) == BandTokens(tbl, b, p, r + (p - k), se, al)
    decreases p - k
  {
    hide NBits, Coded, LongRuns, Mag;
    if k < p {
      TransformedValue(b, k, al);
      PassZeros(tbl, b, k + 1, r + 1, p, se, al);
    }
  }

  lemma {:induction false} LongRunsAre(tbl: nat, q: nat)
    ensures LongRuns(tbl, q) == seq(q, _ => Symbol(tbl, 0xF0))
    decreases q
  {
    if q > 0 { LongRunsAre(tbl, q - 1); }
  }

  /** A sequential block: the DC difference, the coefficients, and symbol 0 behind
      the last one unless it is at the end.
   */
  lemma SequentialBlockAt(t: HB.TablePair, last: int, b: Block, n: nat)
    requires HB.Sendable(Sequential, last, b) && n <= 15
    requires if n == 0 then b[0] == last else Pow2(n - 1) <= Abs(b[0] - last) < Pow2(n)
    ensures HB.BlockTokens(Sequential, t, last, b)
         == ([Symbol(t.dc, n)] + if n == 0 then [] else [Raw(ValueBits(b[0] - last), n)])
            + (BandTokens(t.ac, b, 1, 0, 63, 0) + if b[63] == 0 then [Symbol(t.ac, 0)] else [])
  {
    hide BandTokens, NBits, ValueBits;
    DcTokensAt(t.dc, b[0] - last, n);
    assert Mag(b[63], 0) == Abs(b[63]);
  }

  /** Section G.1.2.2: a run of `e` ended bands is symbol 16 n, where 2^n is the
      largest power of two not above `e`, and `n` more bits for the rest.
   */
  lemma EobTokensAt(tbl: nat, e: nat, n: nat)
    requires n <= 14 && Pow2(n) <= e < Pow2(n + 1)
    ensures e <= 0x7FFF && EobTokens(tbl, e) == [Symbol(tbl, 16 * n)] + if n == 0 then [] else [Raw(e, n)]
    ensures LowPart(e, n) == e - Pow2(n)
  {
    hide LowPart, NBits;
    NBitsBound(e, n);
    NBitsBound(e, n + 1);
    EobFits(e, n);
    LowPartRest(e, n);
  }

  lemma EobFits(e: nat, n: nat)
    requires n <= 14 && e < Pow2(n + 1)
    ensures e <= 0x7FFF
  {
    hide NBits;
    NBitsBound(e, n + 1);
    NBitsBound(e, 15);
    assert Pow2(15) == 0x8000;
  }

  lemma {:induction false} LowPartRest(e: nat, n: nat)
    requires Pow2(n) <= e < Pow2(n + 1)
    ensures LowPart(e, n) == e - Pow2(n)
    decreases n
  {
    if n > 0 { LowPartRest(e / 2, n - 1); }
  }

  /** A block of a first scan: an empty one only lengthens the run, which is sent
      when it has reached 32767; any other one has the run sent before it and, unless
      its last coefficient is not zero, begins the next one.
   */
  lemma FirstScanBlockAt(t: Band, b: Block, e: nat)
    requires t.Valid() && HuffAcFirst.InRange(t, b) && e < 32767
    ensures ZeroMags(b, t.ss, t.se + 1, t.al) ==>
              && HuffAcFirst.BlockTokens(t, b, e) == (if e == 32766 then EobTokens(t.tbl, 32767) else [])
              && NextRun(t, b, e) == (if e == 32766 then 0 else e + 1)
    ensures !ZeroMags(b, t.ss, t.se + 1, t.al) ==>
              && HuffAcFirst.BlockTokens(t, b, e) == EobTokens(t.tbl, e) + BandTokens(t.tbl, b, t.ss, 0, t.se, t.al)
              && NextRun(t, b, e) == (if Mag(b[t.se], t.al) != 0 then 0 else 1)
  {
    hide Mag, BandTokens, EobTokens;
    if ZeroMags(b, t.ss, t.se + 1, t.al) {
      EmptyBlock(t, b, e);
    } else {
      var k :| t.ss <= k < t.se + 1 && k < DCTSIZE2 && Mag(b[k], t.al) != 0;
      assert AnyNonzero(t, b);
    }
  }

  // ----- Refinement scans -----------------------------------------------------------------------------

  lemma {:induction false} PassGap(t: Band, b: Block, k: nat, p: nat, last: nat, e: nat, be: seq<bool>, r: nat,
                                   br: seq<bool>)
    requires t.Valid() && e <= MAX_EOBRUN && NoNew(b, last + 1, t.se + 1, t.al)
    requires t.ss <= k <= p <= t.se + 1 && NoNew(b, k, p, t.al) && r + ZeroCount(b, k, p, t.al) <= 15
    ensures Refine(t, b, k, last, e, be, r, br)
         == Refine(t, b, p, last, e, be, r + ZeroCount(b, k, p, t.al), br + Corrections(b, k, p, t.al))
    decreases p - k
  {
    hide Mag, Flush, NewTokens;
    if k == p {
      assert br + [] == br;
    } else if Mag(b[k], t.al) == 0 {
      PassGap(t, b, k + 1, p, last, e, be, r + 1, br);
      assert [] + Corrections(b, k + 1, p, t.al) == Corrections(b, k + 1, p, t.al);
    } else {
      var one := [Mag(b[k], t.al) % 2 == 1];
      PassGap(t, b, k + 1, p, last, e, be, r, br + one);
      assert (br + one) + Corrections(b, k + 1, p, t.al) == br + (one + Corrections(b, k + 1, p, t.al));
    }
  }

  /** Figure G.7: at the next coefficient that becomes nonzero, the waiting run and
      its bits go out, then the symbol for up to 15 zeros passed over and category
      one, a one for a positive sign, and the corrections passed over.
   */
  lemma NewCoefAt(t: Band, b: Block, k: nat, p: nat, last: nat, e: nat, be: seq<bool>)
    requires t.Valid() && e <= MAX_EOBRUN && NoNew(b, last + 1, t.se + 1, t.al)
    requires t.ss <= k <= p <= t.se && NoNew(b, k, p, t.al) && ZeroCount(b, k, p, t.al) <= 15 && Mag(b[p], t.al) == 1
    ensures var rest := Refine(t, b, p + 1, last, 0, [], 0, []);
            Refine(t, b, k, last, e, be, 0, [])
            == rest.(tokens := ((EobTokens(t.tbl, e) + BitTokens(be))
                                + ([Symbol(t.tbl, 16 * ZeroCount(b, k, p, t.al) + 1)]
                                   + ([Raw(if b[p] < 0 then 0 else 1, 1)] + BitTokens(Corrections(b, k, p, t.al)))))
                               + rest.tokens)
  {
    hide Mag, EobTokens, BitTokens;
    PassGap(t, b, k, p, last, e, be, 0, []);
    assert [] + Corrections(b, k, p, t.al) == Corrections(b, k, p, t.al);
  }

  /** After 16 zeros or more, with a symbol still to come, the next coefficient that
      is not zero is preceded by symbol 0xF0 and the corrections so far.
   */
  lemma LongGapAt(t: Band, b: Block, k: nat, last: nat, e: nat, be: seq<bool>, r: nat, br: seq<bool>)
    requires t.Valid() && e <= MAX_EOBRUN && NoNew(b, last + 1, t.se + 1, t.al)
    requires k <= last <= t.se && Mag(b[k], t.al) != 0 && r >= 16
    ensures var rest := Refine(t, b, k, last, 0, [], r - 16, []);
            Refine(t, b, k, last, e, be, r, br)
            == rest.(tokens := ((EobTokens(t.tbl, e) + BitTokens(be)) + ([Symbol(t.tbl, 0xF0)] + BitTokens(br)))
                               + rest.tokens)
  {
    hide Mag, EobTokens, BitTokens;
  }

  /** The corrections are the lowest bits of the coefficients nonzero before. */
  lemma CorrectionsAre(b: Block, k: nat, p: nat, al: nat)
    requires k < p <= DCTSIZE2
    ensures Corrections(b, k, p, al)
         == (if Mag(b[k], al) <= 1 then [] else [Mag(b[k], al) % 2 == 1]) + Corrections(b, k + 1, p, al)
  {
    hide Mag;
  }

  /** A block without new coefficients sends nothing while the run stays below 32767
      and the corrections held back leave room, of 1000, for those of one more block.
   */
  lemma QuietBlockAt(t: Band, b: Block, h: Held)
    requires t.Valid() && h.e < 32767 && Quiet(t, b)
    ensures var e, be := h.e + 1, h.be + Corrections(b, t.ss, t.se + 1, t.al);
            if e < 32767 && |be| <= 1000 - 63
            then BlockRefinement(t, b, h) == [] && NextHeld(t, b, h) == Held(e, be)
            else BlockRefinement(t, b, h) == EobTokens(t.tbl, e) + BitTokens(be) && NextHeld(t, b, h) == Held(0, [])
  {
    hide Mag, Quiet, BlockRefinement, NextHeld, EobTokens, BitTokens, Corrections;
    QuietStep(t, b, h);
  }
}
