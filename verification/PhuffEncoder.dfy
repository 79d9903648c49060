/** The progressive Huffman encoder's state and its four MCU routines (emit_symbol,
    emit_bits, emit_buffered_bits, emit_eobrun, encode_mcu_DC_first,
    encode_mcu_AC_first, encode_mcu_DC_refine, encode_mcu_AC_refine, jcphuff.c).
 */
module PhuffEncoder {
  import opened CodeBytes
  import opened Coefficients
  import opened AcSyntax
  import opened CanonicalCode
  import opened DerivedTable
  import opened HuffTokens
  import opened HuffSyntax
  import HuffBlocks
  import opened HuffAcFirst
  import opened HuffAcRefine
  import opened BitPacking
  import opened HuffEncoder
  import Buf = PhuffBitBuffer

  /** Contracts below say `Valid() == true` so that the invariant is carried
      from call to call as one fact.
   */
  class PhuffEncoder {
    const gather: bool               // count symbols instead of sending them
    const tables: seq<SymbolCodes>   // derived_tbls
    const counts: seq<array<nat>>    // count_ptrs
    const bits: Buf.PhuffBitBuffer
    const maxBits: nat               // max_coef_bits
    const tbl: nat                   // ac_tbl_no
    var lastDcVal: seq<int>          // last_dc_val
    var EOBRUN: nat                  // run length of EOBs
    var BE: nat                      // number of buffered correction bits
    const bitBuffer: array<bool>
    var failed: bool                 // a symbol without a code was to be sent

    ghost var sent: seq<Token>       // all tokens emitted so far

    ghost predicate Sending()
      reads this, bits
    {
      !gather && !failed ==> bits.Valid() && Put(bits.sent, [], tables, sent)
    }

    ghost predicate Counting()
      reads this, counts
    {
      gather ==> CountsOfTokens(counts, sent)
    }

    ghost predicate Valid()
      reads this, bits, counts, bitBuffer
    {
      && tbl < |tables| == |counts| && (forall i :: 0 <= i < |tables| ==> Fits(tables[i]))
      && Arrays(counts) && bitBuffer.Length == MAX_CORR_BITS && maxBits <= 14
      && EOBRUN <= MAX_EOBRUN && BE <= MAX_CORR_BITS && (EOBRUN == 0 ==> BE == 0)
      && Sending() && Counting() && Tabled(tables, sent)
      && (failed <==> !gather && !AllCoded(tables, sent))
    }

    constructor (gather: bool, tables: seq<SymbolCodes>, tbl: nat, slots: nat, maxBits: nat)
      requires tbl < |tables| && maxBits <= 14 && forall i :: 0 <= i < |tables| ==> Fits(tables[i])
      ensures Valid() == true && fresh(bits) && fresh(bitBuffer) && forall i :: 0 <= i < |counts| ==> fresh(counts[i])
      ensures sent == [] && EOBRUN == 0 && BE == 0 && lastDcVal == seq(slots, _ => 0)
      ensures this.gather == gather && this.tables == tables && this.tbl == tbl && this.maxBits == maxBits
    {
      hide CountedUp, Put, Fits;
      this.gather, this.tables, this.tbl, this.maxBits := gather, tables, tbl, maxBits;
      var newCounts := NewCounts(|tables|);
      counts := newCounts;
      bits := new Buf.PhuffBitBuffer();
      bitBuffer := new bool[MAX_CORR_BITS];
      EOBRUN, BE, failed, sent, lastDcVal := 0, 0, false, [], seq(slots, _ => 0);
      new;
      NothingCounted(counts);
      PutNothing([], tables);
    }

    /** emit_symbol: counted, or sent as its code; without a code, the error exit. */
    method EmitSymbol(tblNo: nat, symbol: byte)
      requires Valid() && tblNo < |tables|
      modifies `failed, `sent, counts, bits
      ensures Valid() == true && sent == old(sent) + [Symbol(tblNo, symbol)]
    {
      hide CountedUp, Put, BitString;
      SentSymbol(tables, tblNo, symbol);
      OneMoreToken(tables, sent, Symbol(tblNo, symbol));
      if gather {
        CountSymbol(counts, tblNo, symbol, sent);
      } else if !failed {
        PutMore(bits.sent, [], tables, sent, [Symbol(tblNo, symbol)]);
        var ok := bits.EmitBits(tables[tblNo].ehufco[symbol], tables[tblNo].ehufsi[symbol]);
        failed := !ok;
      }
      sent := sent + [Symbol(tblNo, symbol)];
    }

    /** emit_bits, for bits that are not part of a code. */
    method EmitBits(code: nat, size: nat)
      requires Valid() && 1 <= size <= 16
      modifies `sent, bits
      ensures Valid() == true && sent == old(sent) + [Raw(code, size)]
    {
      hide CountedUp, Put, BitString;
      AllBitsOne(tables, Raw(code, size));
      OneMoreToken(tables, sent, Raw(code, size));
      if !gather && !failed {
        PutMore(bits.sent, [], tables, sent, [Raw(code, size)]);
        var ok := bits.EmitBits(code, size);
      } else if gather {
        BitsNotCounted(counts, sent, Raw(code, size));
      }
      sent := sent + [Raw(code, size)];
    }

    /** emit_buffered_bits. */
    method EmitBufferedBits(start: nat, nbits: nat)
      requires Valid() && start + nbits <= MAX_CORR_BITS
      modifies `sent, bits
      ensures Valid() == true
      ensures sent == old(sent) + BitTokens(bitBuffer[start..start + nbits])
    {
      hide CountedUp, Put, Fits, Tabled, AllCoded;
      ghost var before := sent;
      assert bitBuffer[start..start] == [] && before + [] == before;
      for i := 0 to nbits
        invariant Valid() == true
        invariant sent == before + BitTokens(bitBuffer[start..start + i])
      {
        ghost var done := bitBuffer[start..start + i];
        BitTokensConcat(done, [bitBuffer[start + i]]);
        BitTokensOne(bitBuffer[start + i]);
        assert bitBuffer[start..start + i + 1] == done + [bitBuffer[start + i]];
        EmitBits(if bitBuffer[start + i] then 1 else 0, 1);
        assert (before + BitTokens(done)) + [BitToken(bitBuffer[start + i])]
                   == before + (BitTokens(done) + [BitToken(bitBuffer[start + i])]);
      }
    }

    /** The symbol and bits of a run. */
    method EmitRun(run: nat)
      requires Valid() && 1 <= run <= MAX_EOBRUN
      modifies `failed, `sent, counts, bits
      ensures Valid() == true
      ensures sent == old(sent) + EobTokens(tbl, run)
    {
      hide CountedUp, Put, Fits, Tabled, AllCoded, NBits, EobTokens, Sending, Counting;
      ghost var before := sent;
      EobTokensAre(tbl, run);
      var nbits := NBits(run) - 1;
      EmitSymbol(tbl, 16 * nbits);
      if nbits > 0 {
        EmitBits(run, nbits);
        assert (before + [Symbol(tbl, 16 * nbits)]) + [Raw(run, nbits)]
                   == before + ([Symbol(tbl, 16 * nbits)] + [Raw(run, nbits)]);
      }
    }

    /** emit_eobrun: a pending run and the correction bits that go with it. */
    method EmitEobrun()
      requires Valid()
      modifies `failed, `sent, `EOBRUN, `BE, counts, bits
      ensures Valid() == true && EOBRUN == 0 && BE == 0
      ensures sent == old(sent) + Flush(tbl, old(EOBRUN), old(bitBuffer[..BE]))
    {
      hide CountedUp, Put, Fits, Tabled, AllCoded, EobTokens;
      ghost var before, be := sent, bitBuffer[..BE];
      if EOBRUN > 0 {
        EmitRun(EOBRUN);
        assert bitBuffer[0..0 + BE] == be;
        EmitBufferedBits(0, BE);
        assert (before + EobTokens(tbl, EOBRUN)) + BitTokens(be) == before + (EobTokens(tbl, EOBRUN) + BitTokens(be));
        EOBRUN, BE := 0, 0;
      } else {
        NoFlush(tbl, []);
        assert before + [] == before && Flush(tbl, 0, []) + [] == Flush(tbl, 0, []);
      }
    }

    /** A symbol for a run of zeros and a value, the value's bits after it. */
    method EmitCoded(r: nat, x: int)
      requires Valid() && r < 16 && 1 <= NBits(Abs(x)) <= 15
      modifies `failed, `sent, counts, bits
      ensures Valid() == true && sent == old(sent) + Coded(tbl, r, x)
    {
      hide CountedUp, Put, Fits, Tabled, AllCoded, NBits, Sending, Counting;
      ghost var before := sent;
      var nbits := NBits(Abs(x));
      EmitSymbol(tbl, 16 * r + nbits);
      EmitBits(ValueBits(x), nbits);
      assert (before + [Symbol(tbl, 16 * r + nbits)]) + [Raw(ValueBits(x), nbits)]
                 == before + ([Symbol(tbl, 16 * r + nbits)] + [Raw(ValueBits(x), nbits)]);
    }

    /** Runs of 16 zeros, until fewer are left. */
    method EmitLongRuns(r: nat) returns (left: nat)
      requires Valid()
      modifies `failed, `sent, counts, bits
      ensures Valid() == true && left == r % 16 && sent == old(sent) + LongRuns(tbl, r / 16)
    {
      hide CountedUp, Put, Fits, Tabled, AllCoded, Sending, Counting;
      ghost var before, q, m, done := sent, r / 16, r % 16, [];
      assert before + [] == before && [] + LongRuns(tbl, q) == LongRuns(tbl, q);
      left := r;
      while left > 15
        invariant Valid() == true
        invariant left == 16 * q + m
        invariant sent == before + done && done + LongRuns(tbl, q) == LongRuns(tbl, r / 16)
        decreases left
      {
        EmitSymbol(tbl, ZRL);
        left, q := left - 16, q - 1;
        assert (before + done) + [Symbol(tbl, ZRL)] == before + (done + [Symbol(tbl, ZRL)]);
        assert done + ([Symbol(tbl, ZRL)] + LongRuns(tbl, q)) == (done + [Symbol(tbl, ZRL)]) + LongRuns(tbl, q);
        done := done + [Symbol(tbl, ZRL)];
      }
      assert done + [] == done;
    }

    /** A nonzero value after `r` zeros, unless it is out of range. */
    method EmitCoefficient(r: nat, x: int) returns (ok: bool)
      requires Valid() && x != 0
      modifies `failed, `sent, counts, bits
      ensures Valid() == true && (ok <==> NBits(Abs(x)) <= maxBits)
      ensures ok ==> sent == old(sent) + (LongRuns(tbl, r / 16) + Coded(tbl, r % 16, x))
    {
      hide CountedUp, Put, Fits, Tabled, AllCoded, NBits, Sending, Counting, Coded, LongRuns;
      ghost var before, q, m := sent, r / 16, r % 16;
      var left := EmitLongRuns(r);
      ok := NBits(Abs(x)) <= maxBits;
      if ok {
        NonzeroBits(x);
        EmitCoded(left, x);
        assert (before + LongRuns(tbl, q)) + Coded(tbl, m, x) == before + (LongRuns(tbl, q) + Coded(tbl, m, x));
      }
    }

    /** Figure G.3: the coefficients of a band; `r` zeros are left at its end. */
    method EmitBand(t: Band, b: Block) returns (r: nat, ok: bool)
      requires Valid() && t.Valid() && t.tbl == tbl
      modifies `failed, `sent, counts, bits
      ensures Valid() == true && (ok <==> BandInRange(b, t.ss, t.se, t.al, maxBits))
      ensures ok ==> InRange(t, b) && sent == old(sent) + BandTokens(tbl, b, t.ss, 0, t.se, t.al)
      ensures ok ==> (r > 0 <==> Mag(b[t.se], t.al) == 0)
    {
      hide CountedUp, Put, Fits, Tabled, AllCoded, NBits, Sending, Counting, Coded, LongRuns, Mag, BandTokens,
           BandInRange, Transformed,
           BandAhead, PhuffEncoder.Valid;
      MaxBitsSmall();
      ghost var inRange := BandInRange(b, t.ss, t.se, t.al, maxBits);
      if inRange { WiderRange(b, t.ss, t.se, t.al, maxBits, 15); }
      ghost var before, done := sent, [];
      ghost var all := if inRange then BandTokens(tbl, b, t.ss, 0, t.se, t.al) else [];
      assert before + [] == before;
      if inRange { WholeBandAhead(tbl, b, t.ss, t.se, t.al); }
      r := 0;
      for k := t.ss to t.se + 1
        invariant Valid() == true
        invariant BandInRange(b, k, t.se, t.al, maxBits) <==> inRange
        invariant r > 0 <==> k > t.ss && Mag(b[k - 1], t.al) == 0
        invariant sent == before + done
        invariant inRange ==> BandAhead(tbl, b, k, r, t.se, t.al, done, all)
      {
        RangeStep(b, k, t.se, t.al, maxBits);
        if inRange { BandStep(tbl, b, k, r, t.se, t.al, done, all); }
        var x := Transformed(b, k, t.al);
        if x == 0 {
          r := r + 1;
        } else {
          ok := EmitCoefficient(r, x);
          if !ok { return; }
          ghost var own := LongRuns(tbl, r / 16) + Coded(tbl, r % 16, x);
          Regroup(before, done, own);
          done := done + own;
          r := 0;
        }
      }
      RangeEnd(b, t.se, t.al, maxBits);
      NoBandAhead(tbl, b, r, t.se, t.al, done, all);
      ok := true;
    }

    lemma BufferLength()
      requires Valid()
      ensures bitBuffer.Length == MAX_CORR_BITS
    {
    }

    lemma MaxBitsSmall()
      requires Valid()
      ensures maxBits <= 14
    {
    }

    /** Whether any coefficient of the band is sent. */
    static method FindNonzero(t: Band, b: Block) returns (any: bool)
      requires t.Valid()
      ensures any == AnyNonzero(t, b)
    {
      any := false;
      for k := t.ss to t.se + 1
        invariant any <==> exists j :: t.ss <= j < k && Mag(b[j], t.al) != 0
      {
        if Mag(b[k], t.al) != 0 {
          any := true;
        }
      }
    }

    /** A run without correction bits goes out. */
    method EmitPlainRun()
      requires Valid() && BE == 0
      modifies `failed, `sent, `EOBRUN, `BE, counts, bits
      ensures Valid() == true && EOBRUN == 0 && BE == 0
      ensures sent == old(sent) + EobTokens(tbl, old(EOBRUN))
    {
      hide CountedUp, Put, Fits, Tabled, AllCoded, EobTokens, Sending, Counting;
      EobOnly(tbl, EOBRUN);
      assert bitBuffer[..0] == [];
      EmitEobrun();
    }

    /** Trailing zeros count one more end of band, which is forced out when the
        run is full.
     */
    method EndBand(r: nat)
      requires Valid() && BE == 0 && EOBRUN < MAX_EOBRUN
      modifies `failed, `sent, `EOBRUN, `BE, counts, bits
      ensures Valid() == true && BE == 0
      ensures var e := old(EOBRUN) + if r > 0 then 1 else 0;
              && EOBRUN == (if e == MAX_EOBRUN then 0 else e)
              && sent == old(sent) + if e == MAX_EOBRUN then EobTokens(tbl, MAX_EOBRUN) else []
    {
      hide CountedUp, Put, Fits, Tabled, AllCoded, EobTokens;
      ghost var before := sent;
      assert before + [] == before;
      if r > 0 {
        EOBRUN := EOBRUN + 1;
        if EOBRUN == MAX_EOBRUN {
          EmitPlainRun();
        }
      }
    }

    /** encode_mcu_AC_first: an error exactly for a coefficient out of range. */
    method EncodeMcuAcFirst(t: Band, b: Block) returns (ok: bool)
      requires Valid() && t.Valid() && t.tbl == tbl && EOBRUN < MAX_EOBRUN && BE == 0
      modifies `failed, `sent, `EOBRUN, `BE, counts, bits
      ensures Valid() == true && BE == 0 && (ok <==> BandInRange(b, t.ss, t.se, t.al, maxBits))
      ensures ok ==>
                InRange(t, b) && sent == old(sent) + BlockTokens(t, b, old(EOBRUN))
                && EOBRUN == NextRun(t, b, old(EOBRUN))
    {
      hide CountedUp, Put, Fits, Tabled, AllCoded, BandTokens, EobTokens, AnyNonzero, Sending, Counting, BandInRange,
           Mag;
      ghost var before, e := sent, EOBRUN;
      var any := FindNonzero(t, b);
      BandOrNothing(t, b);
      ghost var pre := if any then EobTokens(tbl, e) else [];
      if any {
        EmitPlainRun();
      } else {
        assert before + [] == before;
      }
      var r;
      r, ok := EmitBand(t, b);
      if !ok { return; }
      EndBand(r);
      ghost var band, post := BandTokens(tbl, b, t.ss, 0, t.se, t.al),
                              if Waiting(t, b, e) == MAX_EOBRUN then EobTokens(tbl, MAX_EOBRUN) else [];
      assert ((before + pre) + band) + post == before + ((pre + band) + post);
    }

    // ----- DC coefficients --------------------------------------------------------------------

    /** One block of encode_mcu_DC_first: an error exactly for a difference out of
        range.
     */
    method EncodeDcFirst(ci: nat, dcTbl: nat, b: Block, al: nat) returns (ok: bool)
      requires Valid() && ci < |lastDcVal| && dcTbl < |tables|
      modifies `failed, `sent, `lastDcVal, counts, bits
      ensures Valid() == true && lastDcVal == old(lastDcVal)[ci := Shr(b[0], al)]
      ensures ok <==> NBits(Abs(Shr(b[0], al) - old(lastDcVal[ci]))) <= maxBits + 1
      ensures ok ==> NBits(Abs(Shr(b[0], al) - old(lastDcVal[ci]))) <= 15
                     && sent == old(sent) + HuffBlocks.DcTokens(dcTbl, Shr(b[0], al) - old(lastDcVal[ci]))
    {
      hide CountedUp, Put, Fits, Tabled, AllCoded, NBits, Arrays, CountsOfTokens;
      ghost var before := sent;
      var temp := Shr(b[0], al) - lastDcVal[ci];
      lastDcVal := lastDcVal[ci := Shr(b[0], al)];
      var nbits := NBits(Abs(temp));
      ok := nbits <= maxBits + 1;
      if ok {
        NonzeroBits(temp);
        EmitSymbol(dcTbl, nbits);
        if nbits > 0 {
          EmitBits(ValueBits(temp), nbits);
          assert (before + [Symbol(dcTbl, nbits)]) + [Raw(ValueBits(temp), nbits)]
              == before + ([Symbol(dcTbl, nbits)] + [Raw(ValueBits(temp), nbits)]);
        }
      }
    }

    /** One block of encode_mcu_DC_refine: the bit at `al`. */
    method EncodeDcRefine(b: Block, al: nat)
      requires Valid()
      modifies `sent, bits
      ensures Valid() == true
      ensures sent == old(sent) + [Raw(if Shr(b[0], al) % 2 == 1 then 1 else 0, 1)]
    {
      EmitBits(if Shr(b[0], al) % 2 == 1 then 1 else 0, 1);
    }

    // ----- Refinement -----------------------------------------------------------------------

    /** The last coefficient that becomes nonzero. */
    static method FindLastNew(t: Band, b: Block) returns (eob: nat)
      requires t.Valid()
      ensures eob == LastNew(t, b, t.se)
    {
      eob := t.ss;
      for k := t.ss to t.se + 1
        invariant t.ss <= eob
        invariant k > t.ss ==> eob == LastNew(t, b, k - 1)
        invariant k == t.ss ==> eob == t.ss
      {
        if Mag(b[k], t.al) == 1 {
          eob := k;
        }
      }
    }

    /** A run of 16 zeros, after what is pending and before the correction bits
        passed over.
     */
    method SendZrl(base: nat, br: nat)
      requires Valid() && base + br <= MAX_CORR_BITS
      modifies `failed, `sent, `EOBRUN, `BE, counts, bits
      ensures Valid() == true && EOBRUN == 0 && BE == 0
      ensures sent == old(sent) + (Flush(tbl, old(EOBRUN), old(bitBuffer[..BE]))
                                   + ([Symbol(tbl, ZRL)] + BitTokens(bitBuffer[base..base + br])))
    {
      hide CountedUp, Put, Fits, Tabled, AllCoded, Flush, Sending, Counting;
      ghost var before, pending := sent, Flush(tbl, EOBRUN, bitBuffer[..BE]);
      EmitEobrun();
      EmitSymbol(tbl, ZRL);
      EmitBufferedBits(base, br);
      ghost var corrections := BitTokens(bitBuffer[base..base + br]);
      assert ((before + pending) + [Symbol(tbl, ZRL)]) + corrections
                 == before + (pending + ([Symbol(tbl, ZRL)] + corrections));
    }

    /** A newly nonzero coefficient, likewise. */
    method SendNew(r: nat, negative: bool, base: nat, br: nat)
      requires Valid() && r <= 15 && base + br <= MAX_CORR_BITS
      modifies `failed, `sent, `EOBRUN, `BE, counts, bits
      ensures Valid() == true && EOBRUN == 0 && BE == 0
      ensures sent == old(sent) + (Flush(tbl, old(EOBRUN), old(bitBuffer[..BE]))
                                   + NewTokens(tbl, r, negative, bitBuffer[base..base + br]))
    {
      hide CountedUp, Put, Fits, Tabled, AllCoded, Flush, Sending, Counting;
      ghost var before, pending := sent, Flush(tbl, EOBRUN, bitBuffer[..BE]);
      EmitEobrun();
      EmitSymbol(tbl, 16 * r + 1);
      EmitBits(if negative then 0 else 1, 1);
      EmitBufferedBits(base, br);
      ghost var corrections := BitTokens(bitBuffer[base..base + br]);
      assert (((before + pending) + [Symbol(tbl, 16 * r + 1)]) + [BitToken(!negative)]) + corrections
          == before + (pending + ([Symbol(tbl, 16 * r + 1)] + ([BitToken(!negative)] + corrections)));
    }

    /** What the loop has still to do, from position `k` with `r` zeros and `br`
        correction bits behind those already held.
     */
    ghost function Left(t: Band, b: Block, k: nat, last: nat, r: nat, br: nat): Refined
      requires t.Valid() && NoNew(b, last + 1, t.se + 1, t.al) && EOBRUN <= MAX_EOBRUN
      requires BE + br <= bitBuffer.Length
      reads this, bitBuffer
    {
      Refine(t, b, k, last, EOBRUN, bitBuffer[..BE], r, bitBuffer[BE..BE + br])
    }

    /** Figure G.7 for one block, up to its last coefficient. */
    method RefineBand(t: Band, b: Block) returns (r: nat, br: nat)
      requires Valid() && t.Valid() && t.tbl == tbl && BE <= MAX_CORR_BITS - DCTSIZE2 + 1
      modifies `failed, `sent, `EOBRUN, `BE, counts, bits, bitBuffer
      ensures Valid() == true && BE + br <= MAX_CORR_BITS && EOBRUN <= old(EOBRUN) && BE <= old(BE)
      ensures var x := RefineBlock(t, b, old(EOBRUN), old(bitBuffer[..BE]));
              && sent == old(sent) + x.tokens && x.e == EOBRUN && x.be == bitBuffer[..BE]
              && x.r == r && x.br == bitBuffer[BE..BE + br]
    {
      hide CountedUp, Put, Fits, Tabled, AllCoded, Flush, Sending, Counting, NoNew, Mag, NewTokens;
      ghost var whole, before, done := RefineBlock(t, b, EOBRUN, bitBuffer[..BE]), sent, [];
      var last := FindLastNew(t, b);
      assert bitBuffer[BE..BE] == [] && before + [] == before;
      PrependNothing(whole);
      r, br := 0, 0;
      for k := t.ss to t.se + 1
        invariant Valid() == true
        invariant BE + br <= MAX_CORR_BITS - DCTSIZE2 + 1 + (k - t.ss) && EOBRUN <= old(EOBRUN) && BE <= old(BE)
        invariant sent == before + done && whole == Prepend(done, Left(t, b, k, last, r, br))
      {
        if Mag(b[k], t.al) == 0 {
          r := r + 1;
        } else {
          done, r, br := RefineZeros(t, b, k, last, r, br, before, done, whole);
          done, r, br := RefineNonzero(t, b, k, last, r, br, before, done, whole);
        }
      }
      assert done + [] == done;
    }

    /** A coefficient nonzero before, whose next bit is buffered, or one that
        becomes nonzero now.
     */
    method RefineNonzero(t: Band, b: Block, k: nat, last: nat, r0: nat, br0: nat, ghost before: seq<Token>,
                         ghost done0: seq<Token>, ghost whole: Refined)
      returns (ghost done: seq<Token>, r: nat, br: nat)
      requires Valid() && t.Valid() && t.tbl == tbl && NoNew(b, last + 1, t.se + 1, t.al) && k <= t.se
               && Mag(b[k], t.al) != 0
      requires BE + br0 < MAX_CORR_BITS && (r0 <= 15 || k > last)
      requires sent == before + done0 && whole == Prepend(done0, Left(t, b, k, last, r0, br0))
      modifies `failed, `sent, `EOBRUN, `BE, counts, bits, bitBuffer
      ensures Valid() == true && BE + br <= old(BE) + br0 + 1 && EOBRUN <= old(EOBRUN) && BE <= old(BE)
      ensures sent == before + done && whole == Prepend(done, Left(t, b, k + 1, last, r, br))
    {
      hide CountedUp, Put, Fits, Tabled, AllCoded, Flush, Sending, Counting, NoNew, Mag, NewTokens;
      done, r, br := done0, r0, br0;
      var m := Mag(b[k], t.al);
      if m > 1 {
        ghost var be, held := bitBuffer[..BE], bitBuffer[BE..BE + br];
        bitBuffer[BE + br] := m % 2 == 1;
        br := br + 1;
        assert bitBuffer[..BE] == be && bitBuffer[BE..BE + br] == held + [m % 2 == 1];
      } else {
        NewBeforeLast(t, b, k, last);
        ghost var tokens := Flush(tbl, EOBRUN, bitBuffer[..BE]) + NewTokens(tbl, r, b[k] < 0, bitBuffer[BE..BE + br]);
        SendNew(r, b[k] < 0, BE, br);
        r, br := 0, 0;
        assert bitBuffer[..BE] == [] && bitBuffer[BE..BE + br] == [];
        PrependTwice(done, tokens, Left(t, b, k + 1, last, r, br));
        assert (before + done) + tokens == before + (done + tokens);
        done := done + tokens;
      }
    }

    /** Long runs before the last newly nonzero coefficient. */
    method RefineZeros(t: Band, b: Block, k: nat, last: nat, r0: nat, br0: nat, ghost before: seq<Token>,
                       ghost done0: seq<Token>, ghost whole: Refined)
      returns (ghost done: seq<Token>, r: nat, br: nat)
      requires Valid() && t.Valid() && t.tbl == tbl && NoNew(b, last + 1, t.se + 1, t.al) && k <= t.se
               && Mag(b[k], t.al) != 0
      requires BE + br0 <= MAX_CORR_BITS && sent == before + done0
               && whole == Prepend(done0, Left(t, b, k, last, r0, br0))
      modifies `failed, `sent, `EOBRUN, `BE, counts, bits
      ensures Valid() == true && (r <= 15 || k > last) && BE + br <= old(BE) + br0 && EOBRUN <= old(EOBRUN)
              && BE <= old(BE)
      ensures sent == before + done && whole == Prepend(done, Left(t, b, k, last, r, br))
    {
      hide CountedUp, Put, Fits, Tabled, AllCoded, Flush, Sending, Counting, NoNew, Mag, NewTokens;
      done, r, br := done0, r0, br0;
      while r > 15 && k <= last
        invariant Valid() == true
        invariant BE + br <= old(BE) + br0 && EOBRUN <= old(EOBRUN) && BE <= old(BE)
        invariant sent == before + done && whole == Prepend(done, Left(t, b, k, last, r, br))
        decreases r
      {
        ghost var zrl := Flush(tbl, EOBRUN, bitBuffer[..BE]) + ([Symbol(tbl, ZRL)] + BitTokens(bitBuffer[BE..BE + br]));
        SendZrl(BE, br);
        r, br := r - 16, 0;
        assert bitBuffer[..BE] == [] && bitBuffer[BE..BE + br] == [];
        PrependTwice(done, zrl, Left(t, b, k, last, r, br));
        assert (before + done) + zrl == before + (done + zrl);
        done := done + zrl;
      }
    }

    /** What is left at the end of a block is held back, unless there is then too
        much of it.
     */
    method HoldBack(r: nat, br: nat)
      requires Valid() && EOBRUN < MAX_EOBRUN && BE + br <= MAX_CORR_BITS
      modifies `failed, `sent, `EOBRUN, `BE, counts, bits
      ensures Valid() == true
      ensures var e, be := old(EOBRUN) + 1, old(bitBuffer[..BE + br]);
              if r == 0 && br == 0 then sent == old(sent) && EOBRUN == old(EOBRUN) && BE == old(BE)
              else if Overflows(e, be) then EOBRUN == 0 == BE && sent == old(sent) + Flush(tbl, e, be)
              else EOBRUN == e && BE == |be| && sent == old(sent)
    {
      hide CountedUp, Put, Fits, Tabled, AllCoded, Flush;
      if r > 0 || br > 0 {
        EOBRUN := EOBRUN + 1;
        BE := BE + br;
        if EOBRUN == MAX_EOBRUN || BE > MAX_CORR_BITS - DCTSIZE2 + 1 {
          EmitEobrun();
        }
      }
    }

    /** encode_mcu_AC_refine: between blocks the run stays below its limit and the
        buffer keeps room for another block's correction bits.
     */
    method EncodeMcuAcRefine(t: Band, b: Block)
      requires Valid() && t.Valid() && t.tbl == tbl && EOBRUN < MAX_EOBRUN && BE <= MAX_CORR_BITS - DCTSIZE2 + 1
      modifies `failed, `sent, `EOBRUN, `BE, counts, bits, bitBuffer
      ensures Valid() == true && EOBRUN < MAX_EOBRUN && BE <= MAX_CORR_BITS - DCTSIZE2 + 1
      ensures sent == old(sent) + BlockRefinement(t, b, Held(old(EOBRUN), old(bitBuffer[..BE])))
      ensures Held(EOBRUN, bitBuffer[..BE]) == NextHeld(t, b, Held(old(EOBRUN), old(bitBuffer[..BE])))
    {
      hide CountedUp, Put, Fits, Tabled, AllCoded, Flush, RefineBlock, PhuffEncoder.Valid;
      BufferLength();
      ghost var before, h := sent, Held(EOBRUN, bitBuffer[..BE]);
      ghost var x := RefineBlock(t, b, h.e, h.be);
      var r, br := RefineBand(t, b);
      assert bitBuffer[..BE + br] == bitBuffer[..BE] + bitBuffer[BE..BE + br] && bitBuffer[..0] == [];
      ghost var flush := Flush(tbl, EOBRUN + 1, bitBuffer[..BE + br]);
      assert (before + x.tokens) + [] == before + (x.tokens + []);
      assert (before + x.tokens) + flush == before + (x.tokens + flush);
      HoldBack(r, br);
    }
  }

  // ----- Counting ----------------------------------------------------------------------------------

  lemma NothingCounted(counts: seq<array<nat>>)
    requires Arrays(counts) && forall i :: 0 <= i < |counts| ==> counts[i][..] == seq(257, _ => 0)
    ensures CountsOfTokens(counts, [])
  {
    forall i | 0 <= i < |counts| ensures CountedUp(counts[i][..], seq(counts[i].Length, _ => 0), [], i) {
      GrownNot(counts[i][..], i);
    }
  }

  method CountSymbol(counts: seq<array<nat>>, tbl: nat, symbol: byte, ghost ts: seq<Token>)
    requires Arrays(counts) && tbl < |counts| && CountsOfTokens(counts, ts)
    modifies counts
    ensures CountsOfTokens(counts, ts + [Symbol(tbl, symbol)])
  {
    hide CountedUp;
    GrownOne(counts[tbl][..], seq(257, _ => 0), ts, tbl, symbol);
    counts[tbl][symbol] := counts[tbl][symbol] + 1;
    forall i | 0 <= i < |counts| && i != tbl
      ensures CountedUp(counts[i][..], seq(counts[i].Length, _ => 0), ts + [Symbol(tbl, symbol)], i)
    {
      GrownSame(counts[i][..], seq(257, _ => 0), ts, [Symbol(tbl, symbol)], i);
    }
  }

  lemma BitsNotCounted(counts: seq<array<nat>>, ts: seq<Token>, x: Token)
    requires CountsOfTokens(counts, ts) && x.Raw?
    ensures CountsOfTokens(counts, ts + [x])
  {
    hide CountedUp;
    forall i | 0 <= i < |counts| ensures CountedUp(counts[i][..], seq(counts[i].Length, _ => 0), ts + [x], i) {
      GrownSame(counts[i][..], seq(counts[i].Length, _ => 0), ts, [x], i);
    }
  }

  // ----- Ranges ------------------------------------------------------------------------------------

  lemma NonzeroBits(x: int)
    ensures NBits(Abs(x)) >= 1 <==> x != 0
  {
  }

  lemma WiderRange(b: Block, k: nat, se: nat, al: nat, n: nat, m: nat)
    requires se < DCTSIZE2 && BandInRange(b, k, se, al, n) && n <= m
    ensures BandInRange(b, k, se, al, m)
  {
    hide NBits, Mag;
  }

  lemma RangeStep(b: Block, k: nat, se: nat, al: nat, n: nat)
    requires k <= se < DCTSIZE2
    ensures var x := Transformed(b, k, al);
            && (x == 0 <==> Mag(b[k], al) == 0)
            && (BandInRange(b, k, se, al, n) <==> (x == 0 || NBits(Abs(x)) <= n) && BandInRange(b, k + 1, se, al, n))
  {
    hide Mag;
    TransformedValue(b, k, al);
    assert NBits(0) == 0;
  }

  lemma RangeEnd(b: Block, se: nat, al: nat, n: nat)
    requires se < DCTSIZE2
    ensures BandInRange(b, se + 1, se, al, n)
  {
  }

  lemma PrependNothing(x: Refined)
    ensures Prepend([], x) == x
  {
    assert [] + x.tokens == x.tokens;
  }

  lemma NewBeforeLast(t: Band, b: Block, k: nat, last: nat)
    requires t.Valid() && k <= t.se && NoNew(b, last + 1, t.se + 1, t.al) && Mag(b[k], t.al) == 1
    ensures k <= last
  {
  }

  /** A run without correction bits. */
  lemma EobOnly(tbl: nat, e: nat)
    requires e <= MAX_EOBRUN
    ensures Flush(tbl, e, []) == EobTokens(tbl, e) && (e == 0 ==> EobTokens(tbl, e) == [])
  {
    assert EobTokens(tbl, e) + [] == EobTokens(tbl, e);
  }

  lemma BandOrNothing(t: Band, b: Block)
    requires t.Valid()
    ensures Mag(b[t.se], t.al) != 0 ==> AnyNonzero(t, b)
  {
  }

  /** The band's tokens are those done and those of the rest. */
  ghost predicate BandAhead(tbl: nat, b: Block, k: nat, r: nat, se: nat, al: nat, done: seq<Token>, all: seq<Token>) {
    se < DCTSIZE2 && BandInRange(b, k, se, al, 15) && done + BandTokens(tbl, b, k, r, se, al) == all
  }

  lemma WholeBandAhead(tbl: nat, b: Block, ss: nat, se: nat, al: nat)
    requires se < DCTSIZE2 && BandInRange(b, ss, se, al, 15)
    ensures BandAhead(tbl, b, ss, 0, se, al, [], BandTokens(tbl, b, ss, 0, se, al))
  {
    assert [] + BandTokens(tbl, b, ss, 0, se, al) == BandTokens(tbl, b, ss, 0, se, al);
  }

  /** One coefficient further through a band. */
  lemma BandStep(tbl: nat, b: Block, k: nat, r: nat, se: nat, al: nat, done: seq<Token>, all: seq<Token>)
    requires k <= se && BandAhead(tbl, b, k, r, se, al, done, all)
    ensures var x := Transformed(b, k, al);
            if x == 0 then BandAhead(tbl, b, k + 1, r + 1, se, al, done, all)
            else BandAhead(tbl, b, k + 1, 0, se, al, done + (LongRuns(tbl, r / 16) + Coded(tbl, r % 16, x)), all)
  {
    hide NBits, Mag, LongRuns, Coded;
    TransformedValue(b, k, al);
    var x := Transformed(b, k, al);
    if x != 0 {
      ExtendInverts(x);
      var runs, own, rest := LongRuns(tbl, r / 16), Coded(tbl, r % 16, x), BandTokens(tbl, b, k + 1, 0, se, al);
      assert done + (runs + (own + rest)) == (done + (runs + own)) + rest;
    }
  }

  lemma NoBandAhead(tbl: nat, b: Block, r: nat, se: nat, al: nat, done: seq<Token>, all: seq<Token>)
    ensures BandAhead(tbl, b, se + 1, r, se, al, done, all) ==> done == all
  {
    if BandAhead(tbl, b, se + 1, r, se, al, done, all) {
      assert done + [] == done;
    }
  }

  lemma OneMoreToken(tables: seq<SymbolCodes>, ts: seq<Token>, x: Token)
    requires Tabled(tables, ts)
    requires x.Symbol? ==> x.tbl < |tables| && |tables[x.tbl].ehufco| == |tables[x.tbl].ehufsi| == 256
    ensures Tabled(tables, ts + [x])
    ensures AllCoded(tables, ts + [x]) <==> AllCoded(tables, ts) && (x.Symbol? ==> tables[x.tbl].ehufsi[x.s] != 0)
  {
    var all := ts + [x];
    assert all[|ts|] == x && [x][0] == x;
    assert forall i :: 0 <= i < |ts| ==> all[i] == ts[i];
  }

  lemma BitTokensOne(bit: bool)
    ensures BitTokens([bit]) == [BitToken(bit)]
  {
    assert [bit][1..] == [];
  }

  /** The symbol, and the run's low bits unless it is 1. */
  lemma EobTokensAre(tbl: nat, e: nat)
    requires 1 <= e <= MAX_EOBRUN
    ensures 1 <= NBits(e) <= 15 && (NBits(e) == 1 <==> e == 1)
    ensures EobTokens(tbl, e) == if NBits(e) == 1 then [Symbol(tbl, 0)]
              else [Symbol(tbl, 16 * (NBits(e) - 1))] + [Raw(e, NBits(e) - 1)]
  {
    EobCategory(e);
  }
}
