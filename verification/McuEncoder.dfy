/** The arithmetic encoder's MCU routines (jcarith.c: encode_mcu and the four
    progressive routines) on the register-level coder of ArithEncoder.
 */
module McuEncoder {
  import opened ProbabilityTable
  import opened IdealCoder
  import opened CodeBytes
  import opened Coefficients
  import opened Binarization
  import opened DcSyntax
  import opened AcSyntax
  import opened RefineSyntax
  import opened ScanCoding
  import opened BinAreas
  import opened ArithEncoder
  import opened ArithRoundTrip

  /** Contracts below say `Valid() == true` so that the invariant is carried
      from call to call as one fact and not split into its conjuncts.
   */
  class McuEncoder {
    const coder: ArithEncoder
    var dc: seq<DcState>          // last_dc_val and dc_context
    ghost const start: Encoder    // the coder's state when the scan began
    ghost var log: seq<Decision>  // decisions coded since

    ghost predicate Valid()
      reads this`log, coder, coder.stats
    {
      && coder.Valid() && coder.stats.Length == BINS
      && start.iv.Normalized() && |start.stats| == BINS && Codable(log, BINS)
      && coder.State() == EncodeAll(start, log)
    }

    constructor (coder: ArithEncoder, slots: nat)
      requires coder.Valid() && coder.stats.Length == BINS
      ensures Valid() && this.coder == coder && log == [] && start == coder.State()
      ensures dc == seq(slots, _ => DcState(0, 0))
    {
      this.coder, dc := coder, seq(slots, _ => DcState(0, 0));
      start, log := coder.State(), [];
    }

    method Put(st: nat, val: bool)
      requires Valid() && st < BINS
      modifies this`log, coder, coder.stats
      ensures Valid() == true
      ensures log == old(log) + [Decision(st, val)]
    {
      EncodeAllAppend(start, log, Decision(st, val));
      coder.Encode(st, val);
      log := log + [Decision(st, val)];
    }

    /** Figure F.8's loop on the magnitude category of `v`. */
    method CategoryLoop(v: nat, st: nat) returns (stop: nat)
      requires Valid() && v >= 1 && st + Log(v) < BINS
      modifies this`log, coder, coder.stats
      ensures Valid() == true
      ensures log == old(log) + Category(v, st) && stop == st + Log(v)
    {
      hide McuEncoder.Valid;
      var v2 := v;
      stop := st;
      while v2 >= 2
        invariant Valid() == true
        invariant v2 >= 1 && stop + Log(v2) == st + Log(v)
        invariant log + Category(v2, stop) == old(log) + Category(v, st)
      {
        Put(stop, true);
        v2, stop := v2 / 2, stop + 1;
      }
      Put(stop, false);
    }

    /** Figure F.9's loop on the bits of `v` below bit `e`. */
    method LowBitsLoop(v: nat, e: nat, st: nat)
      requires Valid() && st < BINS
      modifies this`log, coder, coder.stats
      ensures Valid() == true
      ensures log == old(log) + LowBits(v, e, st)
    {
      hide McuEncoder.Valid;
      var i: nat := e;
      while i > 0
        invariant Valid() == true
        invariant log + LowBits(v, i, st) == old(log) + LowBits(v, e, st)
      {
        i := i - 1;
        Put(st, Bit(v, i));
      }
    }

    /** Category and bits of `v`, whose category is known to be at least 2^e. */
    method LargeMagnitude(v: nat, st: nat, e: nat)
      requires Valid() && Shr(v, e) >= 1 && v < 0x10000 && st + 29 < BINS
      modifies this`log, coder, coder.stats
      ensures Valid() == true
      ensures log == old(log) + MagnitudeBits(v, st, e)
    {
      hide McuEncoder.Valid, Category, LowBits, Shr;
      LogShr(v, e);
      LogBound(v, 16);
      Pow2Add(8, 8);
      assert Pow2(8) == 0x100;
      var stop := CategoryLoop(Shr(v, e), st);
      LowBitsLoop(v, Log(v), stop + 14);
      Move(old(log), Category(Shr(v, e), st), LowBits(v, Log(v), st + Log(v) - e + 14));
    }

    method DcMagnitudeAt(tbl: nat, i: nat, v: nat)
      requires Valid() && tbl < NUM_ARITH_TBLS && i < 20 && v < 0x10000
      modifies this`log, coder, coder.stats
      ensures Valid() == true
      ensures log == old(log) + DcMagnitude(tbl, i, v)
    {
      hide McuEncoder.Valid;
      if v != 0 {
        Put(DcBin(tbl, i), true);
        LargeMagnitude(v, DcBin(tbl, 20), 0);
        Move(old(log), [Decision(DcBin(tbl, i), true)], MagnitudeBits(v, DcBin(tbl, 20), 0));
      } else {
        Put(DcBin(tbl, i), false);
      }
    }

    /** Figures F.6 and F.7. */
    method NonzeroDifference(t: DcTable, ctx: nat, v: int)
      requires Valid() && t.Valid() && ctx <= 16 && v != 0 && Abs(v) <= 0x10000
      modifies this`log, coder, coder.stats
      ensures Valid() == true
      ensures log == old(log) + NonzeroDecisions(t, ctx, v)
    {
      hide McuEncoder.Valid, DcMagnitude;
      var i := ctx + (if v < 0 then 3 else 2);
      Put(DcBin(t.tbl, ctx + 1), v < 0);
      DcMagnitudeAt(t.tbl, i, Abs(v) - 1);
      Move(old(log), [Decision(DcBin(t.tbl, ctx + 1), v < 0)], DcMagnitude(t.tbl, i, Abs(v) - 1));
    }

    /** Figure F.4 for component `ci` of the scan. */
    method EncodeDc(t: DcTable, ci: nat, m: int)
      requires Valid() && t.Valid() && ci < |dc| && dc[ci].Valid() && Abs(m - dc[ci].last) <= 0x10000
      modifies this`log, this`dc, coder, coder.stats
      ensures Valid() == true
      ensures log == old(log) + DcDecisions(t, old(dc)[ci], m)
      ensures dc == old(dc)[ci := DcNext(t, old(dc)[ci], m)]
    {
      hide McuEncoder.Valid, NonzeroDecisions;
      var st := dc[ci].ctx;
      var v := m - dc[ci].last;
      if v == 0 {
        Put(DcBin(t.tbl, st), false);
        dc := dc[ci := DcState(m, 0)];
      } else {
        Put(DcBin(t.tbl, st), true);
        NonzeroDifference(t, st, v);
        Move(old(log), [Decision(DcBin(t.tbl, st), true)], NonzeroDecisions(t, st, v));
        dc := dc[ci := DcState(m, NextContext(t, v < 0, CategoryOf(Abs(v) - 1)))];
      }
    }

    method AcMagnitudeAt(t: Band, k: nat, v: nat)
      requires Valid() && t.Valid() && 1 <= k < DCTSIZE2 && v < 0x8000
      modifies this`log, coder, coder.stats
      ensures Valid() == true
      ensures log == old(log) + AcMagnitude(t, k, v)
    {
      hide McuEncoder.Valid;
      var st := t.EobBin(k) + 2;
      if v == 0 {
        Put(st, false);
      } else {
        Put(st, true);
        if v / 2 != 0 {
          Put(st, true);
          assert Shr(v, 1) == Shr(v / 2, 0) == v / 2;
          LargeMagnitude(v, t.LargeBin(k), 1);
          var bits := MagnitudeBits(v, t.LargeBin(k), 1);
          Move(old(log) + [Decision(st, true)], [Decision(st, true)], bits);
          Move(old(log), [Decision(st, true)], [Decision(st, true)] + bits);
        } else {
          Put(st, false);
          Move(old(log), [Decision(st, true)], [Decision(st, false)]);
        }
      }
    }

    /** The end-of-block search: down from `k` to a coefficient that survives. */
    static method FindLast(b: Block, k: nat, al: nat) returns (ke: nat)
      requires k < DCTSIZE2
      ensures ke == LastNonzero(b, k, al)
    {
      ke := k;
      while ke > 0 && Mag(b[ke], al) == 0
        invariant LastNonzero(b, ke, al) == LastNonzero(b, k, al)
      {
        ke := ke - 1;
      }
    }

    /** Figure F.5: one band of AC coefficients. */
    method EncodeAc(t: Band, b: Block)
      requires Valid() && t.Valid()
      modifies this`log, coder, coder.stats
      ensures Valid() == true
      ensures log == old(log) + BandDecisions(t, b)
    {
      hide McuEncoder.Valid;
      ghost var goal := old(log) + BandDecisions(t, b);
      var ke := FindLast(b, t.se, t.al);
      var k := t.ss;
      while k <= ke
        invariant Valid() == true
        invariant t.ss <= k <= t.se + 1
        invariant log + AcDecisions(t, b, k, ke) == goal
      {
        Move(log, [Decision(t.EobBin(k), false)], RunDecisions(t, b, k, ke));
        Put(t.EobBin(k), false);
        k := EncodeZeros(t, b, k, ke, goal);
        EncodeSurvivor(t, b, k, ke, goal);
        k := k + 1;
      }
      if k <= t.se {
        Put(t.EobBin(k), true);
      }
    }

    /** Zero coefficients from `first` on. */
    method EncodeZeros(t: Band, b: Block, first: nat, ke: nat, ghost goal: seq<Decision>) returns (k: nat)
      requires Valid() && t.Valid() && 1 <= first <= ke <= t.se && Mag(b[ke], t.al) != 0
      requires log + RunDecisions(t, b, first, ke) == goal
      modifies this`log, coder, coder.stats
      ensures Valid() == true
      ensures first <= k <= ke && Mag(b[k], t.al) != 0
      ensures log + RunDecisions(t, b, k, ke) == goal
    {
      hide McuEncoder.Valid, RunDecisions, Mag;
      k := first;
      while Mag(b[k], t.al) == 0
        invariant Valid() == true
        invariant first <= k <= ke
        invariant log + RunDecisions(t, b, k, ke) == goal
        decreases ke - k
      {
        ZeroDecisions(log, t, b, k, ke);
        Put(t.EobBin(k) + 1, false);
        k := k + 1;
      }
    }

    method EncodeSurvivor(t: Band, b: Block, k: nat, ghost ke: nat, ghost goal: seq<Decision>)
      requires Valid() && t.Valid() && 1 <= k <= ke <= t.se && Mag(b[ke], t.al) != 0 && Mag(b[k], t.al) != 0
      requires log + RunDecisions(t, b, k, ke) == goal
      modifies this`log, coder, coder.stats
      ensures Valid() == true
      ensures log + AcDecisions(t, b, k + 1, ke) == goal
    {
      hide McuEncoder.Valid;
      ValueDecisions(log, t, b, k, ke);
      EncodeValue(t, b[k], k);
    }

    /** A coefficient `x` at `k` that survives the point transform. */
    method EncodeValue(t: Band, x: Coef, k: nat)
      requires Valid() && t.Valid() && 1 <= k <= t.se && Mag(x, t.al) != 0
      modifies this`log, coder, coder.stats
      ensures Valid() == true
      ensures log == old(log) + [Decision(t.EobBin(k) + 1, true)] + [Decision(FIXED_BIN, x < 0)]
                     + AcMagnitude(t, k, Mag(x, t.al) - 1)
    {
      hide McuEncoder.Valid;
      Put(t.EobBin(k) + 1, true);
      Put(FIXED_BIN, x < 0);
      AcMagnitudeAt(t, k, Mag(x, t.al) - 1);
    }

    /** Figure G.10: one refinement of a band of AC coefficients. */
    method EncodeAcRefine(t: Band, b: Block)
      requires Valid() && t.Valid()
      modifies this`log, coder, coder.stats
      ensures Valid() == true
      ensures log == old(log) + BandRefinement(t, b)
    {
      hide McuEncoder.Valid;
      ghost var goal := old(log) + BandRefinement(t, b);
      var ke := FindLast(b, t.se, t.al);
      var kex := FindLast(b, ke, t.al + 1);
      var k := t.ss;
      while k <= ke
        invariant Valid() == true
        invariant t.ss <= k <= t.se + 1
        invariant log + RefineDecisions(t, b, k, ke, kex) == goal
      {
        if k > kex {
          Move(log, [Decision(t.EobBin(k), false)], RefineRun(t, b, k, ke, kex));
          Put(t.EobBin(k), false);
        }
        k := EncodeRefineRun(t, b, k, ke, kex, goal);
      }
      if k <= t.se {
        Put(t.EobBin(k), true);
      }
    }

    method EncodeRefineRun(t: Band, b: Block, first: nat, ke: nat, ghost kex: nat, ghost goal: seq<Decision>)
        returns (k: nat)
      requires Valid() && t.Valid() && 1 <= first <= ke <= t.se && Mag(b[ke], t.al) != 0
      requires log + RefineRun(t, b, first, ke, kex) == goal
      modifies this`log, coder, coder.stats
      ensures Valid() == true
      ensures first < k <= t.se + 1
      ensures log + RefineDecisions(t, b, k, ke, kex) == goal
    {
      hide McuEncoder.Valid, RefineRun, Mag;
      k := first;
      while Mag(b[k], t.al) == 0
        invariant Valid() == true
        invariant first <= k <= ke
        invariant log + RefineRun(t, b, k, ke, kex) == goal
        decreases ke - k
      {
        RefineZero(log, t, b, k, ke, kex);
        Put(t.EobBin(k) + 1, false);
        k := k + 1;
      }
      RefineValue(t, b, k, ke, kex, goal);
      k := k + 1;
    }

    /** A correction bit, or a coefficient that becomes nonzero in this scan. */
    method RefineValue(t: Band, b: Block, k: nat, ghost ke: nat, ghost kex: nat, ghost goal: seq<Decision>)
      requires Valid() && t.Valid() && 1 <= k <= ke <= t.se && Mag(b[ke], t.al) != 0 && Mag(b[k], t.al) != 0
      requires log + RefineRun(t, b, k, ke, kex) == goal
      modifies this`log, coder, coder.stats
      ensures Valid() == true
      ensures log + RefineDecisions(t, b, k + 1, ke, kex) == goal
    {
      hide McuEncoder.Valid, RefineDecisions;
      var v := Mag(b[k], t.al);
      ghost var rest := RefineDecisions(t, b, k + 1, ke, kex);
      if v / 2 != 0 {
        Move(log, [Decision(t.EobBin(k) + 2, v % 2 == 1)], rest);
        Put(t.EobBin(k) + 2, v % 2 == 1);
      } else {
        Move(log, [Decision(t.EobBin(k) + 1, true)], [Decision(FIXED_BIN, b[k] < 0)] + rest);
        Put(t.EobBin(k) + 1, true);
        Move(log, [Decision(FIXED_BIN, b[k] < 0)], rest);
        Put(FIXED_BIN, b[k] < 0);
      }
    }

    /** One block in the mode start_pass selected. */
    method EncodeBlock(scan: Scan, t: Tables, u: Unit)
      requires Valid() && ValidScan(scan) && ValidStates(t, dc) && u.ci < |dc| && CoefStates(dc)
      modifies this`log, this`dc, coder, coder.stats
      ensures Valid() == true
      ensures log == old(log) + CodeBlock(scan, t, old(dc), u)
      ensures dc == NextStates(scan, t, old(dc), u) && CoefStates(dc)
    {
      hide McuEncoder.Valid;
      BlockCodable(scan, t, dc, u);
      match scan
      case Sequential =>
        EncodeDc(t.dc[u.ci], u.ci, u.block[0]);
        EncodeAc(t.ac[u.ci], u.block);
        Move(old(log), DcDecisions(t.dc[u.ci], old(dc)[u.ci], u.block[0]), BandDecisions(t.ac[u.ci], u.block));
      case DcFirst(al) => EncodeDc(t.dc[u.ci], u.ci, Shr(u.block[0], al));
      case AcFirst(band) => EncodeAc(band, u.block);
      case DcRefine(al) => Put(FIXED_BIN, Shr(u.block[0], al) % 2 == 1);
      case AcRefine(band) => EncodeAcRefine(band, u.block);
    }

    /** The blocks of any number of MCUs, in coding order. */
    method EncodeBlocks(scan: Scan, t: Tables, us: seq<Unit>)
      requires Valid() && ValidScan(scan) && ValidStates(t, dc) && ValidUnits(us, |dc|) && CoefStates(dc)
      modifies this`log, this`dc, coder, coder.stats
      ensures Valid() == true
      ensures log == old(log) + CodeScan(scan, t, old(dc), us)
    {
      hide McuEncoder.Valid;
      ghost var goal := old(log) + CodeScan(scan, t, dc, us);
      for i := 0 to |us|
        invariant Valid() == true
        invariant |dc| == |old(dc)| && ValidUnits(us[i..], |dc|)
        invariant ValidStates(t, dc) == true && CoefStates(dc) == true
        invariant log + CodeScan(scan, t, dc, us[i..]) == goal
      {
        ScanStep(scan, t, dc, us, i, log);
        EncodeBlock(scan, t, us[i]);
      }
    }
  }

  /** Concatenation is associative, read in either direction. */
  lemma Move(done: seq<Decision>, first: seq<Decision>, rest: seq<Decision>)
    ensures done + (first + rest) == (done + first) + rest
  {
  }

  lemma ScanStep(scan: Scan, t: Tables, st: seq<DcState>, us: seq<Unit>, i: nat, done: seq<Decision>)
    requires ValidScan(scan) && ValidStates(t, st) && ValidUnits(us, |st|) && i < |us|
    ensures ValidUnits(us[i..], |st|) && ValidUnits(us[i + 1..], |st|)
    ensures done + CodeScan(scan, t, st, us[i..])
         == done + CodeBlock(scan, t, st, us[i]) + CodeScan(scan, t, NextStates(scan, t, st, us[i]), us[i + 1..])
  {
    assert us[i..][0] == us[i] && us[i..][1..] == us[i + 1..];
    Move(done, CodeBlock(scan, t, st, us[i]), CodeScan(scan, t, NextStates(scan, t, st, us[i]), us[i + 1..]));
  }

  lemma ZeroDecisions(done: seq<Decision>, t: Band, b: Block, k: nat, ke: nat)
    requires t.Valid() && 1 <= k <= ke <= t.se && Mag(b[ke], t.al) != 0 && Mag(b[k], t.al) == 0
    ensures k < ke
    ensures done + RunDecisions(t, b, k, ke)
         == done + [Decision(t.EobBin(k) + 1, false)] + RunDecisions(t, b, k + 1, ke)
  {
    Move(done, [Decision(t.EobBin(k) + 1, false)], RunDecisions(t, b, k + 1, ke));
  }

  lemma RefineZero(done: seq<Decision>, t: Band, b: Block, k: nat, ke: nat, kex: nat)
    requires t.Valid() && 1 <= k <= ke <= t.se && Mag(b[ke], t.al) != 0 && Mag(b[k], t.al) == 0
    ensures k < ke
    ensures done + RefineRun(t, b, k, ke, kex)
         == done + [Decision(t.EobBin(k) + 1, false)] + RefineRun(t, b, k + 1, ke, kex)
  {
    Move(done, [Decision(t.EobBin(k) + 1, false)], RefineRun(t, b, k + 1, ke, kex));
  }

  lemma ValueDecisions(done: seq<Decision>, t: Band, b: Block, k: nat, ke: nat)
    requires t.Valid() && 1 <= k <= ke <= t.se && Mag(b[ke], t.al) != 0 && Mag(b[k], t.al) != 0
    ensures done + RunDecisions(t, b, k, ke)
         == done + [Decision(t.EobBin(k) + 1, true)] + [Decision(FIXED_BIN, b[k] < 0)]
            + AcMagnitude(t, k, Mag(b[k], t.al) - 1) + AcDecisions(t, b, k + 1, ke)
  {
    hide AcMagnitude, AcDecisions, Mag;
    var value := AcMagnitude(t, k, Mag(b[k], t.al) - 1) + AcDecisions(t, b, k + 1, ke);
    Move(done, [Decision(t.EobBin(k) + 1, true)], [Decision(FIXED_BIN, b[k] < 0)] + value);
    Move(done + [Decision(t.EobBin(k) + 1, true)], [Decision(FIXED_BIN, b[k] < 0)], value);
    Move(done + [Decision(t.EobBin(k) + 1, true)] + [Decision(FIXED_BIN, b[k] < 0)],
         AcMagnitude(t, k, Mag(b[k], t.al) - 1), AcDecisions(t, b, k + 1, ke));
  }

  lemma EncodeAllAppend(e: Encoder, ds: seq<Decision>, d: Decision)
    requires e.iv.Normalized() && Codable(ds, |e.stats|) && d.bin < |e.stats|
    ensures Codable(ds + [d], |e.stats|)
    ensures EncodeAll(e, ds + [d]) == EncodeOne(EncodeAll(e, ds), d)
  {
    EncodeAllConcat(e, ds, [d]);
    EncodeAllOne(EncodeAll(e, ds), d);
  }
}
