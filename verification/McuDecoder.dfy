/** The arithmetic decoder's MCU routines (jdarith.c: decode_mcu and the four
    progressive routines) on the register-level coder of ArithDecoder.
 */
module McuDecoder {
  import opened ProbabilityTable
  import opened IdealCoder
  import opened CodeBytes
  import opened Coefficients
  import opened Binarization
  import opened DcSyntax
  import opened AcSyntax
  import opened RefineSyntax
  import opened ScanCoding
  import opened ArithDecoder

  ghost predicate ReadyToStep(d: Decoder) {
    1 <= d.offset.width <= 0x10000 && |d.stats| == BINS
  }

  /** The ideal decoder as a channel. */
  ghost function Step(d: Decoder, bin: nat): (bool, Decoder) {
    if ReadyToStep(d) && bin < BINS then DecodeOne(d, bin) else (false, d)
  }

  /** The bits below bit `e`, added to `v`. */
  ghost function LowBitsFrom<D>(ch: Channel<D>, d: D, e: nat, st: nat, v: nat): (nat, D) {
    var (rest, d') := ReadLowBits(ch, d, e, st);
    (v + rest, d')
  }

  /** Contracts below say `Valid() == true` so that the invariant is carried
      from call to call as one fact and not split into its conjuncts.
   */
  class McuDecoder {
    const coder: ArithDecoder
    var dc: seq<DcState>  // last_dc_val and dc_context
    var failed: bool      // the source sets ct to -1 instead

    ghost predicate Valid()
      reads this, coder, coder.stats
    {
      coder.Valid() && coder.stats.Length == BINS
    }

    ghost function State(): Decoder
      reads coder, coder.stats
    {
      coder.State()
    }

    constructor (coder: ArithDecoder, slots: nat)
      requires coder.Valid() && coder.stats.Length == BINS
      ensures Valid() && this.coder == coder && dc == seq(slots, _ => DcState(0, 0)) && !failed
    {
      this.coder, dc, failed := coder, seq(slots, _ => DcState(0, 0)), false;
    }

    method Next(st: nat) returns (val: bool)
      requires Valid() && st < BINS
      modifies coder, coder.stats
      ensures Valid() == true
      ensures (val, State()) == Step(old(State()), st)
    {
      val := coder.Decode(st);
    }

    /** Figure F.23's loop on magnitude categories. */
    method CategoryLoop(st: nat, first: nat) returns (e: nat, stop: nat, ok: bool)
      requires Valid() && first <= 14 && st + 14 < BINS
      modifies coder, coder.stats
      ensures Valid() == true
      ensures ReadExp(State(), e, stop, ok) == ReadCategory(Step, old(State()), st, first)
    {
      hide Step;
      e, stop, ok := first, st, true;
      var more := Next(stop);
      while more && ok
        invariant Valid() == true
        invariant e <= 15 && (ok <==> e <= 14) && stop <= st + 14 && stop + first <= st + e
        invariant (if ok then AfterCategoryBit(Step, more, State(), stop, e) else ReadExp(State(), e, stop, false))
               == ReadCategory(Step, old(State()), st, first)
        decreases 15 - e
      {
        e := e + 1;
        if e == 15 {
          ok := false;
        } else {
          stop := stop + 1;
          more := Next(stop);
        }
      }
    }

    /** Figure F.24. */
    method LowBitsLoop(e: nat, st: nat) returns (v: nat)
      requires Valid() && st < BINS
      modifies coder, coder.stats
      ensures Valid() == true
      ensures (v, State()) == ReadLowBits(Step, old(State()), e, st)
    {
      hide Step;
      v := 0;
      var i: nat := e;
      while i > 0
        invariant Valid() == true
        invariant LowBitsFrom(Step, State(), i, st, v) == ReadLowBits(Step, old(State()), e, st)
      {
        i := i - 1;
        var b := Next(st);
        if b {
          v := v + Pow2(i);
        }
      }
    }

    method LargeMagnitude(st: nat, e: nat) returns (m: nat, v: nat, ok: bool)
      requires Valid() && e <= 14 && st + 28 < BINS
      modifies coder, coder.stats
      ensures Valid() == true
      ensures Magnitude(State(), m, v, ok) == ReadMagnitude(Step, old(State()), st, e)
    {
      var exp, stop;
      exp, stop, ok := CategoryLoop(st, e);
      m, v := 0x8000, 0;
      if ok {
        v := LowBitsLoop(exp, stop + 14);
        m, v := Pow2(exp), Pow2(exp) + v + 1;
      }
    }

    method DcMagnitudeAt(tbl: nat, i: nat) returns (m: nat, v: nat, ok: bool)
      requires Valid() && tbl < NUM_ARITH_TBLS && i < 20
      modifies coder, coder.stats
      ensures Valid() == true
      ensures Magnitude(State(), m, v, ok) == ReadDcMagnitude(Step, old(State()), tbl, i)
    {
      var more := Next(DcBin(tbl, i));
      m, v, ok := 0, 1, true;
      if more {
        m, v, ok := LargeMagnitude(DcBin(tbl, 20), 0);
      }
    }

    /** Figures F.21 and F.22. */
    method NonzeroDifference(t: DcTable, ctx: nat) returns (v: int, m: nat, ok: bool)
      requires Valid() && t.Valid() && ctx <= 16
      modifies coder, coder.stats
      ensures Valid() == true
      ensures Difference(State(), v, m, ok) == ReadNonzero(Step, old(State()), t, ctx)
    {
      var negative := Next(DcBin(t.tbl, ctx + 1));
      var mag;
      m, mag, ok := DcMagnitudeAt(t.tbl, ctx + (if negative then 3 else 2));
      v := Signed(mag, negative);
    }

    /** Figure F.19: the prediction and context after one difference. */
    method DcDifference(t: DcTable, st: DcState) returns (next: DcState, ok: bool)
      requires Valid() && t.Valid() && st.Valid()
      modifies coder, coder.stats
      ensures Valid() == true
      ensures DcRead(State(), next, ok) == ReadDc(Step, old(State()), t, st)
    {
      var differs := Next(DcBin(t.tbl, st.ctx));
      next, ok := DcState(st.last, 0), true;
      if differs {
        var v, m;
        v, m, ok := NonzeroDifference(t, st.ctx);
        next := if ok then AfterDifference(t, st, v, m) else st;
      }
    }

    method AcMagnitudeAt(t: Band, k: nat) returns (m: nat, v: nat, ok: bool)
      requires Valid() && t.Valid() && 1 <= k < DCTSIZE2
      modifies coder, coder.stats
      ensures Valid() == true
      ensures Magnitude(State(), m, v, ok) == ReadAcMagnitude(Step, old(State()), t, k)
    {
      var st := t.EobBin(k) + 2;
      m, v, ok := 0, 1, true;
      var more := Next(st);
      if more {
        m, v := 1, 2;
        var large := Next(st);
        if large {
          m, v, ok := LargeMagnitude(t.LargeBin(k), 1);
        }
      }
    }

    /** A nonzero coefficient, scaled back by the point transform. */
    method Value(t: Band, k: nat) returns (value: Coef, ok: bool)
      requires Valid() && t.Valid() && 1 <= k <= t.se
      modifies coder, coder.stats
      ensures Valid() == true
      ensures (value, State(), ok) == ReadValue(Step, old(State()), t, k)
    {
      var negative := Next(FIXED_BIN);
      var m, v;
      m, v, ok := AcMagnitudeAt(t, k);
      value := ToCoef(ShiftUp(Signed(v, negative), t.al));
    }

    /** The run of zeros from `first`, up to a nonzero coefficient. */
    method Zeros(t: Band, ghost b: Block, first: nat) returns (k: nat, ok: bool)
      requires Valid() && t.Valid() && 1 <= first <= t.se
      modifies coder, coder.stats
      ensures Valid() == true
      ensures first <= k <= t.se
      ensures RunRest(Step, State(), t, b, k, true, ok) == ReadRun(Step, old(State()), t, b, first)
    {
      hide Step, ReadRun;
      k, ok := first, true;
      var nonzero := Next(t.EobBin(k) + 1);
      RunRestFirst(Step, old(State()), t, b, k);
      while !nonzero && ok
        invariant Valid() == true
        invariant first <= k <= t.se
        invariant RunRest(Step, State(), t, b, k, nonzero, ok) == ReadRun(Step, old(State()), t, b, first)
        decreases t.se - k, ok
      {
        RunRestNext(Step, State(), t, b, k);
        if k == t.se {
          ok := false;
        } else {
          k := k + 1;
          RunRestFirst(Step, State(), t, b, k);
          nonzero := Next(t.EobBin(k) + 1);
        }
      }
    }

    /** A run of zeros and the coefficient that ends it. */
    method Coefficient(t: Band, known: Block, first: nat) returns (b: Block, k: nat, ok: bool)
      requires Valid() && t.Valid() && 1 <= first <= t.se
      modifies coder, coder.stats
      ensures Valid() == true
      ensures first < k <= t.se + 1
      ensures BandRest(Step, State(), t, b, k, ok) == ReadRun(Step, old(State()), t, known, first)
    {
      hide Step, ReadRun, ReadValue, ToCoef;
      b := known;
      k, ok := Zeros(t, known, first);
      if ok {
        var value;
        value, ok := Value(t, k);
        if ok {
          b := b[k := value];
        }
      }
      k := k + 1;
    }

    /** Figure F.20: a band's coefficients. */
    method DecodeAc(t: Band, known: Block) returns (b: Block, ok: bool)
      requires Valid() && t.Valid()
      modifies coder, coder.stats
      ensures Valid() == true
      ensures BlockRead(State(), b, ok) == ReadAc(Step, old(State()), t, known, t.ss)
    {
      b, ok := known, true;
      var k := t.ss;
      while k <= t.se && ok
        invariant Valid() == true
        invariant 1 <= k <= t.se + 1
        invariant BandRest(Step, State(), t, b, k, ok) == ReadAc(Step, old(State()), t, known, t.ss)
        decreases t.se + 1 - k
      {
        var eob := Next(t.EobBin(k));
        if eob {
          return;
        }
        b, k, ok := Coefficient(t, b, k);
      }
    }

    /** The last nonzero position up to `k` of what is known. */
    static method FindKnown(b: Block, k: nat) returns (kex: nat)
      requires k < DCTSIZE2
      ensures kex == LastKnown(b, k)
    {
      kex := k;
      while kex > 0 && b[kex] == 0
        invariant LastKnown(b, kex) == LastKnown(b, k)
      {
        kex := kex - 1;
      }
    }

    /** Positions from `first` up to one that is or becomes nonzero. */
    method RefineRunAt(t: Band, known: Block, first: nat, ghost kex: nat) returns (b: Block, k: nat, ok: bool)
      requires Valid() && t.Valid() && 1 <= first <= t.se
      modifies coder, coder.stats
      ensures Valid() == true
      ensures first < k <= t.se + 1
      ensures RefineRest(Step, State(), t, b, k, kex, ok) == ReadRefineRun(Step, old(State()), t, known, first, kex)
    {
      hide Step, ReadRefine, ToCoef, Away, ShiftUp;
      b, k, ok := known, first, true;
      while b[k] == 0
        invariant Valid() == true
        invariant first <= k <= t.se && b == known
        invariant ReadRefineRun(Step, State(), t, b, k, kex) == ReadRefineRun(Step, old(State()), t, known, first, kex)
        decreases t.se - k
      {
        var nonzero := Next(t.EobBin(k) + 1);
        if nonzero {
          b := NewlyNonzero(t, b, k, kex);
          k := k + 1;
          return;
        }
        if k == t.se {
          ok, k := false, k + 1;
          return;
        }
        k := k + 1;
      }
      b := Correct(t, b, k, kex);
      k := k + 1;
    }

    method NewlyNonzero(t: Band, known: Block, k: nat, ghost kex: nat) returns (b: Block)
      requires Valid() && t.Valid() && 1 <= k <= t.se
      modifies coder, coder.stats
      ensures Valid() == true
      ensures ReadRefine(Step, State(), t, b, k + 1, kex) == AfterRefineBit(Step, true, old(State()), t, known, k, kex)
    {
      var negative := Next(FIXED_BIN);
      b := known[k := ToCoef(Signed(ShiftUp(1, t.al), negative))];
    }

    method Correct(t: Band, known: Block, k: nat, ghost kex: nat) returns (b: Block)
      requires Valid() && t.Valid() && 1 <= k <= t.se && known[k] != 0
      modifies coder, coder.stats
      ensures Valid() == true
      ensures ReadRefine(Step, State(), t, b, k + 1, kex) == ReadRefineRun(Step, old(State()), t, known, k, kex)
    {
      var bit := Next(t.EobBin(k) + 2);
      b := if bit then known[k := Away(known[k], t.al)] else known;
    }

    /** One refinement of a band of AC coefficients. */
    method DecodeAcRefine(t: Band, known: Block) returns (b: Block, ok: bool)
      requires Valid() && t.Valid()
      modifies coder, coder.stats
      ensures Valid() == true
      ensures BlockRead(State(), b, ok) == ReadRefine(Step, old(State()), t, known, t.ss, LastKnown(known, t.se))
    {
      b, ok := known, true;
      var kex := FindKnown(known, t.se);
      var k := t.ss;
      while k <= t.se && ok
        invariant Valid() == true
        invariant 1 <= k <= t.se + 1
        invariant RefineRest(Step, State(), t, b, k, kex, ok) == ReadRefine(Step, old(State()), t, known, t.ss, kex)
        decreases t.se + 1 - k
      {
        if k > kex {
          var eob := Next(t.EobBin(k));
          if eob {
            return;
          }
        }
        b, k, ok := RefineRunAt(t, b, k, kex);
      }
    }

    /** One block in the mode start_pass selected. */
    method DecodeBlock(scan: Scan, t: Tables, ci: nat, known: Block) returns (b: Block, ok: bool)
      requires Valid() && ValidScan(scan) && ValidStates(t, dc) && ci < |dc|
      modifies this`dc, coder, coder.stats
      ensures Valid() == true
      ensures ValidStates(t, dc) && |dc| == |old(dc)|
      ensures UnitRead(State(), b, dc, ok) == ReadBlock(Step, old(State()), scan, t, old(dc), ci, known)
    {
      b, ok := known, true;
      match scan
      case Sequential =>
        var next;
        next, ok := DcDifference(t.dc[ci], dc[ci]);
        if ok {
          dc := dc[ci := next];
          b, ok := DecodeAc(t.ac[ci], known[0 := ToCoef(next.last)]);
        }
      case DcFirst(al) =>
        var next;
        next, ok := DcDifference(t.dc[ci], dc[ci]);
        if ok {
          dc := dc[ci := next];
          b := known[0 := ToCoef(ShiftUp(next.last, al))];
        }
      case AcFirst(band) => b, ok := DecodeAc(band, known);
      case DcRefine(al) =>
        var bit := Next(FIXED_BIN);
        if bit {
          b := known[0 := SetBit(known[0], al)];
        }
      case AcRefine(band) => b, ok := DecodeAcRefine(band, known);
    }

    /** The blocks of any number of MCUs; after an error, nothing more is read. */
    method DecodeBlocks(scan: Scan, t: Tables, known: seq<Unit>) returns (blocks: seq<Block>)
      requires Valid() && ValidScan(scan) && ValidStates(t, dc) && ValidUnits(known, |dc|) && !failed
      modifies this, coder, coder.stats
      ensures Valid() == true
      ensures ScanRead(State(), blocks, !failed) == ReadScan(Step, old(State()), scan, t, old(dc), known)
    {
      hide Step, ReadScan, ReadBlock, ScanRest;
      blocks := [];
      ScanRestWhole(Step, State(), scan, t, dc, known);
      for i := 0 to |known|
        invariant Valid() == true
        invariant |dc| == |old(dc)| && ValidUnits(known[i..], |dc|)
        invariant ValidStates(t, dc) == true
        invariant ScanRest(Step, State(), scan, t, dc, known[i..], blocks, !failed)
               == ReadScan(Step, old(State()), scan, t, old(dc), known)
      {
        if failed {
          blocks := blocks + [known[i].block];
          StepFailed(Step, State(), scan, t, dc, known, i, blocks);
        } else {
          ghost var before, states := State(), dc;
          ghost var done := blocks;
          var b, ok := DecodeBlock(scan, t, known[i].ci, known[i].block);
          blocks, failed := blocks + [b], !ok;
          ScanRestStep(Step, before, scan, t, states, known, i, done);
        }
      }
      ScanRestDone(Step, State(), scan, t, dc, known[|known|..], blocks, !failed);
    }
  }

  /** What is left of a scan whose blocks `done` have been read. */
  ghost function ScanRest<D>(ch: Channel<D>, d: D, scan: Scan, t: Tables, st: seq<DcState>, known: seq<Unit>,
                             done: seq<Block>, ok: bool): ScanRead<D>
    requires ValidScan(scan) && ValidStates(t, st) && ValidUnits(known, |st|)
  {
    if ok then
      var r := ReadScan(ch, d, scan, t, st, known);
      ScanRead(r.dec, done + r.blocks, r.ok)
    else ScanRead(d, done + Blocks(known), false)
  }

  lemma ScanRestWhole<D>(ch: Channel<D>, d: D, scan: Scan, t: Tables, st: seq<DcState>, known: seq<Unit>)
    requires ValidScan(scan) && ValidStates(t, st) && ValidUnits(known, |st|)
    ensures known[0..] == known && ScanRest(ch, d, scan, t, st, known, [], true) == ReadScan(ch, d, scan, t, st, known)
  {
    assert [] + ReadScan(ch, d, scan, t, st, known).blocks == ReadScan(ch, d, scan, t, st, known).blocks;
  }

  lemma ScanRestDone<D>(ch: Channel<D>, d: D, scan: Scan, t: Tables, st: seq<DcState>, known: seq<Unit>,
                        done: seq<Block>, ok: bool)
    requires ValidScan(scan) && ValidStates(t, st) && known == []
    ensures ScanRest(ch, d, scan, t, st, known, done, ok) == ScanRead(d, done, ok)
  {
  }

  lemma StepFailed<D>(ch: Channel<D>, d: D, scan: Scan, t: Tables, st: seq<DcState>, known: seq<Unit>, i: nat,
                      done: seq<Block>)
    requires ValidScan(scan) && ValidStates(t, st) && i < |known| && ValidUnits(known[i..], |st|)
    requires done != [] && done[|done| - 1] == known[i].block
    ensures ValidUnits(known[i + 1..], |st|)
    ensures ScanRest(ch, d, scan, t, st, known[i + 1..], done, false)
         == ScanRest(ch, d, scan, t, st, known[i..], done[..|done| - 1], false)
  {
    var rest, next := known[i..], known[i + 1..];
    assert forall j :: 0 <= j < |next| ==> next[j] == rest[j + 1];
    assert done + Blocks(known[i + 1..]) == done[..|done| - 1] + Blocks(known[i..]);
  }

  lemma ScanRestStep<D>(ch: Channel<D>, d: D, scan: Scan, t: Tables, st: seq<DcState>, known: seq<Unit>, i: nat,
                        done: seq<Block>)
    requires ValidScan(scan) && ValidStates(t, st) && i < |known| && ValidUnits(known[i..], |st|)
    ensures ValidUnits(known[i + 1..], |st|) && known[i].ci < |st|
    ensures var u := ReadBlock(ch, d, scan, t, st, known[i].ci, known[i].block);
            && |u.st| == |st|
            && ScanRest(ch, u.dec, scan, t, u.st, known[i + 1..], done + [u.block], u.ok)
               == ScanRest(ch, d, scan, t, st, known[i..], done, true)
  {
    var rest := known[i..];
    assert rest[0] == known[i] && rest[1..] == known[i + 1..];
    assert forall j :: 1 <= j < |rest| ==> rest[j] == rest[1..][j - 1];
    assert ValidUnits(rest[1..], |st|);
    var u := ReadBlock(ch, d, scan, t, st, known[i].ci, known[i].block);
    var r := ReadScan(ch, d, scan, t, st, rest);
    if u.ok {
      var r' := ReadScan(ch, u.dec, scan, t, u.st, rest[1..]);
      assert done + ([u.block] + r'.blocks) == (done + [u.block]) + r'.blocks;
    } else {
      assert done + ([u.block] + Blocks(rest[1..])) == (done + [u.block]) + Blocks(rest[1..]);
    }
  }

  /** What is left of a refinement at `k`. */
  ghost function RefineRest<D>(ch: Channel<D>, d: D, t: Band, b: Block, k: nat, kex: nat, ok: bool): BlockRead<D>
    requires t.Valid() && 1 <= k <= t.se + 1
  {
    if ok then ReadRefine(ch, d, t, b, k, kex) else BlockRead(d, b, false)
  }

  /** What is left of a run once `nonzero` has been read at `k`. */
  ghost function RunRest<D>(ch: Channel<D>, d: D, t: Band, b: Block, k: nat, nonzero: bool, ok: bool): BlockRead<D>
    requires t.Valid() && 1 <= k <= t.se
  {
    if ok then AfterRunBit(ch, nonzero, d, t, b, k) else BlockRead(d, b, false)
  }

  lemma RunRestFirst<D>(ch: Channel<D>, d: D, t: Band, b: Block, k: nat)
    requires t.Valid() && 1 <= k <= t.se
    ensures var (nonzero, d') := ch(d, t.EobBin(k) + 1);
            RunRest(ch, d', t, b, k, nonzero, true) == ReadRun(ch, d, t, b, k)
  {
  }

  lemma RunRestNext<D>(ch: Channel<D>, d: D, t: Band, b: Block, k: nat)
    requires t.Valid() && 1 <= k <= t.se
    ensures RunRest(ch, d, t, b, k, false, true)
         == if k == t.se then RunRest(ch, d, t, b, k, false, false) else ReadRun(ch, d, t, b, k + 1)
  {
  }

  /** What is left of a band at `k`. */
  ghost function BandRest<D>(ch: Channel<D>, d: D, t: Band, b: Block, k: nat, ok: bool): BlockRead<D>
    requires t.Valid() && 1 <= k <= t.se + 1
  {
    if ok then ReadAc(ch, d, t, b, k) else BlockRead(d, b, false)
  }
}
