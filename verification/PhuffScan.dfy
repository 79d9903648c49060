/** A progressive scan with optimized tables: gather, build the tables, send, and
    read back (jcphuff.c: start_pass_phuff to finish_pass_gather_phuff; jdphuff.c).
 */
module PhuffScan {
  import opened CodeBytes
  import opened Coefficients
  import opened AcSyntax
  import opened RefineSyntax
  import opened ScanCoding
  import opened CanonicalCode
  import opened HuffmanForest
  import opened HuffmanTree
  import opened HuffmanDepth
  import opened DerivedTable
  import opened HuffmanTable
  import opened HuffTokens
  import opened HuffSyntax
  import opened HuffAcFirst
  import opened HuffAcRefine
  import opened HuffDecode
  import opened BitPacking
  import opened HuffEncoder
  import opened HuffScan
  import HB = HuffBlocks
  import Enc = PhuffEncoder

  type TablePair = HB.TablePair

  ghost predicate ProgressiveMode(scan: Scan) {
    ValidScan(scan) && !scan.Sequential?
  }

  function IsAc(scan: Scan): bool {
    scan.AcFirst? || scan.AcRefine?
  }

  // ----- What is sent ------------------------------------------------------------------------------

  /** Differences that encode_mcu_DC_first does not reject. */
  ghost predicate DcInRange(al: nat, last: seq<int>, us: seq<Unit>, maxBits: nat)
    requires ValidUnits(us, |last|)
    decreases |us|
  {
    us == [] ||
    (NBits(Abs(Shr(us[0].block[0], al) - last[us[0].ci])) <= maxBits + 1
     && DcInRange(al, last[us[0].ci := Shr(us[0].block[0], al)], us[1..], maxBits))
  }

  /** Coefficients that encode_mcu_AC_first does not reject. */
  ghost predicate FirstInRange(t: Band, bs: seq<Block>, maxBits: nat)
    requires t.Valid()
  {
    forall i :: 0 <= i < |bs| ==> BandInRange(bs[i], t.ss, t.se, t.al, maxBits)
  }

  /** The scan meets no coefficient out of range. */
  ghost predicate Acceptable(scan: Scan, slots: nat, us: seq<Unit>, maxBits: nat)
    requires ProgressiveMode(scan) && ValidUnits(us, slots)
  {
    match scan
    case DcFirst(al) => DcInRange(al, Zeros(slots), us, maxBits)
    case AcFirst(t) => FirstInRange(t, Blocks(us), maxBits)
    case _ => true
  }

  function Zeros(n: nat): (s: seq<int>)
    ensures |s| == n
  {
    seq(n, _ => 0)
  }

  lemma FirstWithin(t: Band, bs: seq<Block>, maxBits: nat)
    requires t.Valid() && maxBits <= 14 && FirstInRange(t, bs, maxBits)
    ensures HuffAcFirst.AllInRange(t, bs) && FirstInRange(t, bs, 14)
  {
    hide NBits, Mag;
    forall i | 0 <= i < |bs| ensures BandInRange(bs[i], t.ss, t.se, t.al, 14) && HuffAcFirst.InRange(t, bs[i]) {
      Enc.WiderRange(bs[i], t.ss, t.se, t.al, maxBits, 14);
      Enc.WiderRange(bs[i], t.ss, t.se, t.al, maxBits, 15);
    }
  }

  lemma {:induction false} DcSendable(al: nat, last: seq<int>, us: seq<Unit>, maxBits: nat)
    requires ValidUnits(us, |last|) && maxBits <= 14 && DcInRange(al, last, us, maxBits)
    ensures HB.AllSendable(DcFirst(al), last, us)
    decreases |us|
  {
    hide NBits, Shr;
    if us != [] { DcSendable(al, last[us[0].ci := Shr(us[0].block[0], al)], us[1..], maxBits); }
  }

  lemma {:induction false} RefineSendable(al: nat, last: seq<int>, us: seq<Unit>)
    requires ValidUnits(us, |last|)
    ensures HB.AllSendable(DcRefine(al), last, us)
    decreases |us|
  {
    if us != [] { RefineSendable(al, last[us[0].ci := last[us[0].ci]], us[1..]); }
  }

  /** The tokens of the whole scan. */
  ghost function PassTokens(scan: Scan, tabs: seq<TablePair>, us: seq<Unit>, maxBits: nat): seq<Token>
    requires ProgressiveMode(scan) && ValidUnits(us, |tabs|) && maxBits <= 14 && Acceptable(scan, |tabs|, us, maxBits)
  {
    match scan
    case DcFirst(al) => DcSendable(al, Zeros(|tabs|), us, maxBits); HB.UnitTokens(scan, tabs, Zeros(|tabs|), us)
    case DcRefine(al) => RefineSendable(al, Zeros(|tabs|), us); HB.UnitTokens(scan, tabs, Zeros(|tabs|), us)
    case AcFirst(t) => FirstWithin(t, Blocks(us), maxBits); ScanTokens(t, Blocks(us), 0)
    case AcRefine(t) => RefinementTokens(t, Blocks(us), Held(0, []))
  }

  /** The tables the scan uses are among the `n` there are. */
  ghost predicate TableNumbers(scan: Scan, tabs: seq<TablePair>, n: nat) {
    && n > 0
    && (scan.DcFirst? ==> forall i :: 0 <= i < |tabs| ==> tabs[i].dc < n)
    && (IsAc(scan) ==> scan.band.tbl < n)
  }

  // ----- Running the encoder over a scan ---------------------------------------------------------

  /** The encoder as start_pass_phuff leaves it. */
  ghost predicate Started(enc: Enc.PhuffEncoder, scan: Scan, tabs: seq<TablePair>)
    reads enc
  {
    && enc.EOBRUN == 0 == enc.BE && enc.lastDcVal == Zeros(|tabs|) && enc.sent == []
    && TableNumbers(scan, tabs, |enc.tables|) && (IsAc(scan) ==> scan.band.tbl == enc.tbl)
  }

  lemma UnitsAt(scan: Scan, tabs: seq<TablePair>, last: seq<int>, us: seq<Unit>, j: nat, done: seq<Token>)
    requires HB.BlockScan(scan) && j < |us| && HB.TablesFor(tabs, last, us[j..]) && HB.AllSendable(scan, last, us[j..])
    ensures us[j].ci < |tabs| && HB.Sendable(scan, last[us[j].ci], us[j].block)
    ensures var ci := us[j].ci;
            var next := last[ci := HB.NextLast(scan, last[ci], us[j].block)];
            && HB.TablesFor(tabs, next, us[j + 1..]) && HB.AllSendable(scan, next, us[j + 1..])
            && done + HB.UnitTokens(scan, tabs, last, us[j..])
               == (done + HB.BlockTokens(scan, tabs[ci], last[ci], us[j].block))
                     + HB.UnitTokens(scan, tabs, next, us[j + 1..])
  {
    hide HB.BlockTokens, HB.Sendable, HB.NextLast;
    var rest, more, ci := us[j..], us[j + 1..], us[j..][0].ci;
    assert rest[0] == us[j] && rest[1..] == more;
    forall i | 0 <= i < |more| ensures more[i].ci < |tabs| { assert more[i] == rest[i + 1]; }
    var next := last[ci := HB.NextLast(scan, last[ci], us[j].block)];
    var own := HB.BlockTokens(scan, tabs[ci], last[ci], us[j].block);
    assert done + (own + HB.UnitTokens(scan, tabs, next, more)) == (done + own) + HB.UnitTokens(scan, tabs, next, more);
  }

  /** The rest of a scan is in range exactly if the whole is, and the tokens are
      then those done and those of the rest.
   */
  ghost predicate DcAhead(al: nat, tabs: seq<TablePair>, last: seq<int>, us: seq<Unit>, maxBits: nat, good: bool,
                          done: seq<Token>, all: seq<Token>) {
    && al <= 13 && HB.TablesFor(tabs, last, us) && (DcInRange(al, last, us, maxBits) <==> good)
    && (good ==> HB.AllSendable(DcFirst(al), last, us) && done + HB.UnitTokens(DcFirst(al), tabs, last, us) == all)
  }

  lemma DcAheadStart(al: nat, tabs: seq<TablePair>, us: seq<Unit>, maxBits: nat, all: seq<Token>)
    requires al <= 13 && ValidUnits(us, |tabs|) && maxBits <= 14
    requires Acceptable(DcFirst(al), |tabs|, us, maxBits) ==> all == PassTokens(DcFirst(al), tabs, us, maxBits)
    ensures DcAhead(al, tabs, Zeros(|tabs|), us, maxBits, Acceptable(DcFirst(al), |tabs|, us, maxBits), [], all)
  {
    hide DcInRange;
    if Acceptable(DcFirst(al), |tabs|, us, maxBits) { DcSendable(al, Zeros(|tabs|), us, maxBits); }
    assert [] + all == all;
  }

  lemma DcAheadNext(al: nat, tabs: seq<TablePair>, last: seq<int>, us: seq<Unit>, j: nat, maxBits: nat, good: bool,
                    done: seq<Token>, all: seq<Token>)
    requires j < |us| && DcAhead(al, tabs, last, us[j..], maxBits, good, done, all)
    ensures us[j].ci < |tabs| == |last|
    ensures var ci, m := us[j].ci, Shr(us[j].block[0], al);
            if NBits(Abs(m - last[ci])) > maxBits + 1 then !good
            else maxBits <= 14 ==>
              DcAhead(al, tabs, last[ci := m], us[j + 1..], maxBits, good,
                      done + HB.DcTokens(tabs[ci].dc, m - last[ci]), all)
  {
    hide NBits, Shr, DcInRange, HB.UnitTokens, HB.DcTokens, HB.AllSendable;
    assert us[j..][0] == us[j];
    DcRangeAt(al, last, us, j, maxBits);
    if good { UnitsAt(DcFirst(al), tabs, last, us, j, done); }
  }

  lemma DcAheadEnd(al: nat, tabs: seq<TablePair>, last: seq<int>, maxBits: nat, good: bool, done: seq<Token>,
                   all: seq<Token>)
    requires DcAhead(al, tabs, last, [], maxBits, good, done, all)
    ensures good && done == all
  {
    assert done + [] == done;
  }

  lemma DcRangeAt(al: nat, last: seq<int>, us: seq<Unit>, j: nat, maxBits: nat)
    requires j < |us| && ValidUnits(us[j..], |last|)
    ensures us[j].ci < |last| && ValidUnits(us[j + 1..], |last|)
    ensures DcInRange(al, last, us[j..], maxBits)
        <==> NBits(Abs(Shr(us[j].block[0], al) - last[us[j].ci])) <= maxBits + 1
             && DcInRange(al, last[us[j].ci := Shr(us[j].block[0], al)], us[j + 1..], maxBits)
  {
    hide NBits, Shr;
    var rest, more := us[j..], us[j + 1..];
    assert rest[0] == us[j] && rest[1..] == more;
    forall i | 0 <= i < |more| ensures more[i].ci < |last| { assert more[i] == rest[i + 1]; }
  }

  method EncodeDcFirst(enc: Enc.PhuffEncoder, scan: Scan, tabs: seq<TablePair>, us: seq<Unit>) returns (ok: bool)
    requires enc.Valid() && ProgressiveMode(scan) && scan.DcFirst? && Started(enc, scan, tabs) && ValidUnits(us, |tabs|)
    modifies enc, enc.bits, enc.counts
    ensures enc.Valid() == true && enc.maxBits <= 14 && (ok <==> Acceptable(scan, |tabs|, us, enc.maxBits))
    ensures ok ==> enc.sent == PassTokens(scan, tabs, us, enc.maxBits)
  {
    hide CountedUp, Put, Fits, Tabled, AllCoded, NBits, Shr, Acceptable, PassTokens, DcAhead, HB.DcTokens,
         Enc.PhuffEncoder.Valid;
    enc.MaxBitsSmall();
    ghost var good := Acceptable(scan, |tabs|, us, enc.maxBits);
    ghost var all, done := if good then PassTokens(scan, tabs, us, enc.maxBits) else [], [];
    DcAheadStart(scan.al, tabs, us, enc.maxBits, all);
    assert us[0..] == us;
    for j := 0 to |us|
      invariant enc.Valid() == true && |enc.lastDcVal| == |tabs|
      invariant enc.sent == done && DcAhead(scan.al, tabs, enc.lastDcVal, us[j..], enc.maxBits, good, done, all)
    {
      ghost var last, ci, m := enc.lastDcVal, us[j].ci, Shr(us[j].block[0], scan.al);
      DcAheadNext(scan.al, tabs, last, us, j, enc.maxBits, good, done, all);
      ok := enc.EncodeDcFirst(us[j].ci, tabs[us[j].ci].dc, us[j].block, scan.al);
      if !ok { return; }
      done := done + HB.DcTokens(tabs[ci].dc, m - last[ci]);
    }
    assert us[|us|..] == [];
    DcAheadEnd(scan.al, tabs, enc.lastDcVal, enc.maxBits, good, done, all);
    ok := true;
  }

  method EncodeDcRefine(enc: Enc.PhuffEncoder, scan: Scan, tabs: seq<TablePair>, us: seq<Unit>)
    requires enc.Valid() && ProgressiveMode(scan) && scan.DcRefine? && Started(enc, scan, tabs)
             && ValidUnits(us, |tabs|)
    modifies enc, enc.bits, enc.counts
    ensures enc.Valid() == true && enc.maxBits <= 14 && enc.sent == PassTokens(scan, tabs, us, enc.maxBits)
  {
    hide CountedUp, Put, Fits, Tabled, AllCoded, NBits, Shr, HB.AllSendable, Enc.PhuffEncoder.Valid;
    enc.MaxBitsSmall();
    ghost var last := Zeros(|tabs|);
    RefineSendable(scan.al, last, us);
    ghost var all, done := PassTokens(scan, tabs, us, enc.maxBits), [];
    assert us[0..] == us && [] + all == all;
    for j := 0 to |us|
      invariant enc.Valid() == true && enc.sent == done && HB.TablesFor(tabs, last, us[j..])
      invariant HB.AllSendable(scan, last, us[j..]) && done + HB.UnitTokens(scan, tabs, last, us[j..]) == all
    {
      UnitsAt(scan, tabs, last, us, j, done);
      ghost var ci := us[j].ci;
      assert last[ci := last[ci]] == last;
      enc.EncodeDcRefine(us[j].block, scan.al);
      done := done + HB.BlockTokens(scan, tabs[ci], last[ci], us[j].block);
    }
    assert us[|us|..] == [] && done + [] == done;
  }

  method EncodeAcFirst(enc: Enc.PhuffEncoder, scan: Scan, tabs: seq<TablePair>, us: seq<Unit>) returns (ok: bool)
    requires enc.Valid() && ProgressiveMode(scan) && scan.AcFirst? && Started(enc, scan, tabs) && ValidUnits(us, |tabs|)
    modifies enc, enc.bits, enc.counts
    ensures enc.Valid() == true && enc.maxBits <= 14 && (ok <==> Acceptable(scan, |tabs|, us, enc.maxBits))
    ensures ok ==> enc.sent == PassTokens(scan, tabs, us, enc.maxBits)
  {
    hide CountedUp, Put, Fits, Tabled, AllCoded, BlockTokens, NextRun, InRange, BandInRange, ScanTokens, EobTokens,
         HuffAcFirst.AllInRange, FirstInRange, Enc.PhuffEncoder.Valid;
    enc.MaxBitsSmall();
    ghost var t, bs := scan.band, Blocks(us);
    ghost var good := FirstInRange(t, bs, enc.maxBits);
    FirstInRangeNext(t, bs, 0, enc.maxBits);
    if good { FirstWithin(t, bs, enc.maxBits); }
    ghost var all, done := if good then ScanTokens(t, bs, 0) else [], [];
    assert [] + all == all && bs[0..] == bs;
    for j := 0 to |us|
      invariant enc.Valid() == true && enc.EOBRUN < MAX_EOBRUN && enc.BE == 0 && enc.sent == done
      invariant FirstInRange(t, bs[..j], enc.maxBits)
      invariant good ==> HuffAcFirst.AllInRange(t, bs[j..]) && done + ScanTokens(t, bs[j..], enc.EOBRUN) == all
    {
      ghost var e := enc.EOBRUN;
      FirstInRangeNext(t, bs, j, enc.maxBits);
      if good { FirstStep(t, bs, j, e, done); }
      ok := enc.EncodeMcuAcFirst(scan.band, us[j].block);
      if !ok { return; }
      done := done + BlockTokens(t, bs[j], e);
    }
    assert bs[..|us|] == bs && bs[|us|..] == [];
    FirstEnd(t, enc.EOBRUN);
    enc.EmitPlainRun();
    ok := true;
  }

  /** One block further through a first scan. */
  lemma FirstStep(t: Band, bs: seq<Block>, j: nat, e: nat, done: seq<Token>)
    requires t.Valid() && j < |bs| && HuffAcFirst.AllInRange(t, bs[j..]) && e < MAX_EOBRUN
    ensures HuffAcFirst.InRange(t, bs[j]) && HuffAcFirst.AllInRange(t, bs[j + 1..])
    ensures done + ScanTokens(t, bs[j..], e)
         == (done + BlockTokens(t, bs[j], e)) + ScanTokens(t, bs[j + 1..], NextRun(t, bs[j], e))
  {
    hide BlockTokens, NextRun, InRange;
    var rest, more := bs[j..], bs[j + 1..];
    assert rest[0] == bs[j] && rest[1..] == more;
    forall i | 0 <= i < |more| ensures InRange(t, more[i]) { assert more[i] == rest[i + 1]; }
    assert done + (BlockTokens(t, bs[j], e) + ScanTokens(t, more, NextRun(t, bs[j], e)))
        == (done + BlockTokens(t, bs[j], e)) + ScanTokens(t, more, NextRun(t, bs[j], e));
  }

  lemma FirstEnd(t: Band, e: nat)
    requires t.Valid() && e < MAX_EOBRUN
    ensures HuffAcFirst.AllInRange(t, []) && ScanTokens(t, [], e) == EobTokens(t.tbl, e)
  {
  }

  lemma FirstInRangeNext(t: Band, bs: seq<Block>, j: nat, maxBits: nat)
    requires t.Valid() && (j < |bs| || bs == [])
    ensures FirstInRange(t, bs[..0], maxBits)
    ensures j < |bs| && !BandInRange(bs[j], t.ss, t.se, t.al, maxBits) ==> !FirstInRange(t, bs, maxBits)
    ensures j < |bs| && FirstInRange(t, bs[..j], maxBits) && BandInRange(bs[j], t.ss, t.se, t.al, maxBits) ==>
              FirstInRange(t, bs[..j + 1], maxBits)
  {
    hide BandInRange;
  }

  method EncodeAcRefine(enc: Enc.PhuffEncoder, scan: Scan, tabs: seq<TablePair>, us: seq<Unit>)
    requires enc.Valid() && ProgressiveMode(scan) && scan.AcRefine? && Started(enc, scan, tabs)
             && ValidUnits(us, |tabs|)
    modifies enc, enc.bits, enc.counts, enc.bitBuffer
    ensures enc.Valid() == true && enc.maxBits <= 14 && enc.sent == PassTokens(scan, tabs, us, enc.maxBits)
  {
    hide CountedUp, Put, Fits, Tabled, AllCoded, BlockRefinement, NextHeld, Flush, RefinementTokens,
         Enc.PhuffEncoder.Valid;
    enc.MaxBitsSmall();
    enc.BufferLength();
    ghost var t, bs := scan.band, Blocks(us);
    ghost var all, done := RefinementTokens(t, bs, Held(0, [])), [];
    assert [] + all == all && bs[0..] == bs && enc.bitBuffer[..0] == [];
    for j := 0 to |us|
      invariant enc.Valid() == true
      invariant enc.EOBRUN < MAX_EOBRUN && enc.BE <= MAX_CORR_BITS - DCTSIZE2 + 1
      invariant enc.sent == done
      invariant done + RefinementTokens(t, bs[j..], Held(enc.EOBRUN, enc.bitBuffer[..enc.BE])) == all
    {
      ghost var h := Held(enc.EOBRUN, enc.bitBuffer[..enc.BE]);
      RefineStep(t, bs, j, h, done);
      enc.EncodeMcuAcRefine(scan.band, us[j].block);
      done := done + BlockRefinement(t, bs[j], h);
    }
    assert bs[|us|..] == [];
    RefineEnd(t, Held(enc.EOBRUN, enc.bitBuffer[..enc.BE]));
    enc.EmitEobrun();
  }

  lemma RefineStep(t: Band, bs: seq<Block>, j: nat, h: Held, done: seq<Token>)
    requires t.Valid() && j < |bs| && h.e < MAX_EOBRUN
    ensures done + RefinementTokens(t, bs[j..], h)
         == (done + BlockRefinement(t, bs[j], h)) + RefinementTokens(t, bs[j + 1..], NextHeld(t, bs[j], h))
  {
    hide BlockRefinement, NextHeld;
    var rest, more := bs[j..], bs[j + 1..];
    assert rest[0] == bs[j] && rest[1..] == more;
    assert done + (BlockRefinement(t, bs[j], h) + RefinementTokens(t, more, NextHeld(t, bs[j], h)))
        == (done + BlockRefinement(t, bs[j], h)) + RefinementTokens(t, more, NextHeld(t, bs[j], h));
  }

  lemma RefineEnd(t: Band, h: Held)
    requires t.Valid() && h.e < MAX_EOBRUN
    ensures RefinementTokens(t, [], h) == Flush(t.tbl, h.e, h.be)
  {
  }

  /** encode_mcu over a scan in the mode start_pass_phuff selects, and the end of
      finish_pass_phuff: an error exactly for a coefficient out of range.
   */
  method EncodePass(enc: Enc.PhuffEncoder, scan: Scan, tabs: seq<TablePair>, us: seq<Unit>) returns (ok: bool)
    requires enc.Valid() && ProgressiveMode(scan) && Started(enc, scan, tabs) && ValidUnits(us, |tabs|)
    modifies enc, enc.bits, enc.counts, enc.bitBuffer
    ensures enc.Valid() == true && enc.maxBits <= 14 && (ok <==> Acceptable(scan, |tabs|, us, enc.maxBits))
    ensures ok ==> enc.sent == PassTokens(scan, tabs, us, enc.maxBits)
  {
    hide PassTokens, DcInRange, FirstInRange, Enc.PhuffEncoder.Valid;
    match scan
    case DcFirst(_) => ok := EncodeDcFirst(enc, scan, tabs, us);
    case AcFirst(_) => ok := EncodeAcFirst(enc, scan, tabs, us);
    case DcRefine(_) =>
      EncodeDcRefine(enc, scan, tabs, us);
      ok := true;
    case AcRefine(_) =>
      EncodeAcRefine(enc, scan, tabs, us);
      ok := true;
  }

  // ----- Two symbols never sent --------------------------------------------------------------------

  /** No symbol has size 15, and all are sent by the table `tbl`. */
  ghost predicate Sizes(ts: seq<Token>, tbl: nat) {
    forall i :: 0 <= i < |ts| && ts[i].Symbol? ==> ts[i].tbl == tbl && ts[i].s as nat % 16 != 15
  }

  lemma SizesConcat(a: seq<Token>, b: seq<Token>, tbl: nat)
    requires Sizes(a, tbl) && Sizes(b, tbl)
    ensures Sizes(a + b, tbl)
  {
  }

  lemma SizesEob(tbl: nat, e: nat)
    requires e <= MAX_EOBRUN
    ensures Sizes(EobTokens(tbl, e), tbl)
  {
    hide NBits;
    EobCategory(e);
    if e > 1 {
      var n := NBits(e) - 1;
      assert (16 * n) % 16 == 0;
      assert EobTokens(tbl, e)[0].s as nat == 16 * n;
    }
  }

  lemma {:induction false} SizesRuns(tbl: nat, q: nat)
    ensures Sizes(LongRuns(tbl, q), tbl)
    decreases q
  {
    if q > 0 { SizesRuns(tbl, q - 1); }
  }

  lemma SizesCoded(tbl: nat, r: nat, x: int)
    requires r < 16 && NBits(Abs(x)) <= 14
    ensures Sizes(Coded(tbl, r, x), tbl)
  {
    hide NBits;
    var n := NBits(Abs(x));
    assert (16 * r + n) % 16 == n;
    assert Coded(tbl, r, x)[0].s as nat == 16 * r + n;
  }

  lemma {:induction false} SizesBand(tbl: nat, b: Block, k: nat, r: nat, se: nat, al: nat)
    requires se < DCTSIZE2 && BandInRange(b, k, se, al, 15) && BandInRange(b, k, se, al, 14)
    ensures Sizes(BandTokens(tbl, b, k, r, se, al), tbl)
    decreases se + 1 - k
  {
    hide NBits, Mag, LongRuns, Coded, Sizes;
    if k > se {
      NoSizes(tbl);
    } else {
      TransformedValue(b, k, al);
      var x := Transformed(b, k, al);
      if x == 0 {
        SizesBand(tbl, b, k + 1, r + 1, se, al);
      } else {
        SizesBand(tbl, b, k + 1, 0, se, al);
        SizesRuns(tbl, r / 16);
        SizesCoded(tbl, r % 16, x);
        SizesConcat(Coded(tbl, r % 16, x), BandTokens(tbl, b, k + 1, 0, se, al), tbl);
        SizesConcat(LongRuns(tbl, r / 16), Coded(tbl, r % 16, x) + BandTokens(tbl, b, k + 1, 0, se, al), tbl);
      }
    }
  }

  lemma NoSizes(tbl: nat)
    ensures Sizes([], tbl)
  {
  }

  lemma {:induction false} SizesFirst(t: Band, bs: seq<Block>, e: nat)
    requires t.Valid() && HuffAcFirst.AllInRange(t, bs) && e < MAX_EOBRUN && FirstInRange(t, bs, 14)
    ensures Sizes(ScanTokens(t, bs, e), t.tbl)
    decreases |bs|
  {
    hide NBits, Mag, BandTokens, EobTokens, Sizes, NextRun, Waiting, AnyNonzero;
    SizesEob(t.tbl, e);
    SizesEob(t.tbl, MAX_EOBRUN);
    NoSizes(t.tbl);
    if bs != [] {
      var band := BandTokens(t.tbl, bs[0], t.ss, 0, t.se, t.al);
      SizesBand(t.tbl, bs[0], t.ss, 0, t.se, t.al);
      var pre := if AnyNonzero(t, bs[0]) then EobTokens(t.tbl, e) else [];
      var post := if Waiting(t, bs[0], e) == MAX_EOBRUN then EobTokens(t.tbl, MAX_EOBRUN) else [];
      SizesConcat(pre, band, t.tbl);
      SizesConcat(pre + band, post, t.tbl);
      SizesFirst(t, bs[1..], NextRun(t, bs[0], e));
      SizesConcat(BlockTokens(t, bs[0], e), ScanTokens(t, bs[1..], NextRun(t, bs[0], e)), t.tbl);
    }
  }

  lemma {:induction false} SizesBits(tbl: nat, bits: seq<bool>)
    ensures Sizes(BitTokens(bits), tbl)
    decreases |bits|
  {
    if bits != [] { SizesBits(tbl, bits[1..]); }
  }

  lemma SizesFlush(tbl: nat, e: nat, be: seq<bool>)
    requires e <= MAX_EOBRUN
    ensures Sizes(Flush(tbl, e, be), tbl)
  {
    hide Sizes, EobTokens;
    SizesEob(tbl, e);
    SizesBits(tbl, be);
    SizesConcat(EobTokens(tbl, e), BitTokens(be), tbl);
  }

  lemma SizesZrl(tbl: nat, br: seq<bool>)
    ensures Sizes([Symbol(tbl, ZRL)] + BitTokens(br), tbl)
  {
    SizesBits(tbl, br);
    SizesConcat([Symbol(tbl, ZRL)], BitTokens(br), tbl);
  }

  lemma SizesNew(tbl: nat, r: nat, negative: bool, br: seq<bool>)
    requires r <= 15
    ensures Sizes(NewTokens(tbl, r, negative, br), tbl)
  {
    SizesBits(tbl, br);
    assert (16 * r + 1) % 16 == 1;
    SizesConcat([BitToken(!negative)], BitTokens(br), tbl);
    SizesConcat([Symbol(tbl, 16 * r + 1)], [BitToken(!negative)] + BitTokens(br), tbl);
  }

  lemma {:induction false} SizesRefine(t: Band, b: Block, k: nat, last: nat, e: nat, be: seq<bool>, r: nat,
                                       br: seq<bool>)
    requires t.Valid() && e <= MAX_EOBRUN && NoNew(b, last + 1, t.se + 1, t.al)
    ensures Sizes(Refine(t, b, k, last, e, be, r, br).tokens, t.tbl)
    decreases t.se + 1 - k, r
  {
    hide Mag, Sizes, Flush, NewTokens;
    if k > t.se {
      NoSizes(t.tbl);
    } else if Mag(b[k], t.al) == 0 {
      SizesRefine(t, b, k + 1, last, e, be, r + 1, br);
    } else if r > 15 && k <= last {
      SizesFlush(t.tbl, e, be);
      SizesZrl(t.tbl, br);
      SizesConcat(Flush(t.tbl, e, be), [Symbol(t.tbl, ZRL)] + BitTokens(br), t.tbl);
      SizesRefine(t, b, k, last, 0, [], r - 16, []);
      SizesConcat(Flush(t.tbl, e, be) + ([Symbol(t.tbl, ZRL)] + BitTokens(br)),
                  Refine(t, b, k, last, 0, [], r - 16, []).tokens, t.tbl);
    } else if Mag(b[k], t.al) > 1 {
      SizesRefine(t, b, k + 1, last, e, be, r, br + [Mag(b[k], t.al) % 2 == 1]);
    } else {
      SizesFlush(t.tbl, e, be);
      SizesNew(t.tbl, r, b[k] < 0, br);
      SizesConcat(Flush(t.tbl, e, be), NewTokens(t.tbl, r, b[k] < 0, br), t.tbl);
      SizesRefine(t, b, k + 1, last, 0, [], 0, []);
      SizesConcat(Flush(t.tbl, e, be) + NewTokens(t.tbl, r, b[k] < 0, br),
                  Refine(t, b, k + 1, last, 0, [], 0, []).tokens, t.tbl);
    }
  }

  lemma {:induction false} SizesRefinement(t: Band, bs: seq<Block>, h: Held)
    requires t.Valid() && h.e < MAX_EOBRUN
    ensures Sizes(RefinementTokens(t, bs, h), t.tbl)
    decreases |bs|
  {
    hide Mag, Sizes, Flush, Refine, NextHeld, Overflows;
    SizesFlush(t.tbl, h.e, h.be);
    if bs != [] {
      var x := RefineBlock(t, bs[0], h.e, h.be);
      SizesRefine(t, bs[0], t.ss, LastNew(t, bs[0], t.se), h.e, h.be, 0, []);
      NoSizes(t.tbl);
      if EndsEarly(x) && Overflows(Ended(x).e, Ended(x).be) {
        SizesFlush(t.tbl, Ended(x).e, Ended(x).be);
        SizesConcat(x.tokens, Flush(t.tbl, Ended(x).e, Ended(x).be), t.tbl);
      } else {
        assert x.tokens + [] == x.tokens;
      }
      SizesRefinement(t, bs[1..], NextHeld(t, bs[0], h));
      SizesConcat(BlockRefinement(t, bs[0], h), RefinementTokens(t, bs[1..], NextHeld(t, bs[0], h)), t.tbl);
    }
  }

  lemma SizesUnsent(ts: seq<Token>, tbl: nat, n: nat)
    requires Sizes(ts, tbl) && tbl < n
    ensures Unsent(ts, n, 0x1F, 0x2F)
  {
  }

  lemma {:induction false} DcUnsent(al: nat, tabs: seq<TablePair>, last: seq<int>, us: seq<Unit>, n: nat)
    requires al <= 13 && HB.TablesFor(tabs, last, us) && HB.AllSendable(DcFirst(al), last, us)
    requires forall i :: 0 <= i < |tabs| ==> tabs[i].dc < n
    ensures Unsent(HB.UnitTokens(DcFirst(al), tabs, last, us), n, 0x1F, 0x2F)
    decreases |us|
  {
    hide NBits, Shr;
    if us != [] {
      var next := last[us[0].ci := HB.NextLast(DcFirst(al), last[us[0].ci], us[0].block)];
      DcUnsent(al, tabs, next, us[1..], n);
      UnsentConcat(HB.BlockTokens(DcFirst(al), tabs[us[0].ci], last[us[0].ci], us[0].block),
                   HB.UnitTokens(DcFirst(al), tabs, next, us[1..]), n);
    }
  }

  lemma UnsentConcat(a: seq<Token>, b: seq<Token>, n: nat)
    requires Unsent(a, n, 0x1F, 0x2F) && Unsent(b, n, 0x1F, 0x2F)
    ensures Unsent(a + b, n, 0x1F, 0x2F)
  {
  }

  /** A refinement scan of DC coefficients sends no symbols. */
  lemma {:induction false} RefineBitsOnly(al: nat, tabs: seq<TablePair>, last: seq<int>, us: seq<Unit>)
    requires al <= 13 && HB.TablesFor(tabs, last, us) && HB.AllSendable(DcRefine(al), last, us)
    ensures forall i :: 0 <= i < |HB.UnitTokens(DcRefine(al), tabs, last, us)| ==>
              HB.UnitTokens(DcRefine(al), tabs, last, us)[i].Raw?
    decreases |us|
  {
    hide Shr;
    if us != [] { RefineBitsOnly(al, tabs, last[us[0].ci := last[us[0].ci]], us[1..]); }
  }

  lemma PassUnsent(scan: Scan, tabs: seq<TablePair>, us: seq<Unit>, n: nat, maxBits: nat)
    requires ProgressiveMode(scan) && ValidUnits(us, |tabs|) && maxBits <= 14 && Acceptable(scan, |tabs|, us, maxBits)
    requires TableNumbers(scan, tabs, n)
    ensures Unsent(PassTokens(scan, tabs, us, maxBits), n, 0x1F, 0x2F)
  {
    hide Sizes, Unsent, ScanTokens, RefinementTokens, DcInRange;
    match scan
    case DcFirst(al) =>
      DcSendable(al, Zeros(|tabs|), us, maxBits);
      DcUnsent(al, tabs, Zeros(|tabs|), us, n);
    case DcRefine(al) =>
      RefineSendable(al, Zeros(|tabs|), us);
      RefineBitsOnly(al, tabs, Zeros(|tabs|), us);
      RawUnsent(HB.UnitTokens(scan, tabs, Zeros(|tabs|), us), n);
    case AcFirst(t) =>
      FirstWithin(t, Blocks(us), maxBits);
      SizesFirst(t, Blocks(us), 0);
      SizesUnsent(ScanTokens(t, Blocks(us), 0), t.tbl, n);
    case AcRefine(t) =>
      SizesRefinement(t, Blocks(us), Held(0, []));
      SizesUnsent(RefinementTokens(t, Blocks(us), Held(0, [])), t.tbl, n);
  }

  lemma RawUnsent(ts: seq<Token>, n: nat)
    requires forall i :: 0 <= i < |ts| ==> ts[i].Raw?
    ensures Unsent(ts, n, 0x1F, 0x2F)
  {
  }

  // ----- Reading a scan back -----------------------------------------------------------------------

  /** decode_mcu in the mode of the scan, over all its blocks. */
  ghost function ReadPass<D>(src: Source<D>, d: D, scan: Scan, tabs: seq<TablePair>,
                             known: seq<Unit>): (r: HB.AllReadBack<D>)
    requires ProgressiveMode(scan) && ValidUnits(known, |tabs|)
    ensures |r.blocks| == |known|
  {
    match scan
    case AcFirst(t) =>
      var r := ReadBlocks(src, d, t, Blocks(known), 0);
      HB.AllReadBack(r.dec, r.blocks)
    case AcRefine(t) =>
      var r := ReadRefinements(src, d, t, Blocks(known), 0);
      HB.AllReadBack(r.dec, r.blocks)
    case DcFirst(_) => HB.ReadUnits(src, d, scan, tabs, Zeros(|tabs|), known)
    case DcRefine(_) => HB.ReadUnits(src, d, scan, tabs, Zeros(|tabs|), known)
  }

  /** The scan's tokens, read back from any source that delivers them. */
  lemma PassRoundTrips<D>(src: Source<D>, d: D, scan: Scan, tabs: seq<TablePair>, us: seq<Unit>, known: seq<Unit>,
                          maxBits: nat, d': D)
    requires ProgressiveMode(scan) && ValidUnits(us, |tabs|) && maxBits <= 14 && Acceptable(scan, |tabs|, us, maxBits)
    requires ValidUnits(known, |tabs|) && AllBefore(scan, known, us)
    requires Delivers(src, d, PassTokens(scan, tabs, us, maxBits), d')
    ensures var r := ReadPass(src, d, scan, tabs, known); r.dec == d' && AllAfter(scan, r.blocks, known, us)
  {
    hide Delivers, ReadBlocks, ReadRefinements, HB.ReadUnits, DcInRange, BandRead, KnownFrom, ZeroFrom, ScanTokens,
         RefinementTokens,
         HB.UnitTokens;
    var orig, kept := Blocks(us), Blocks(known);
    match scan
    case DcFirst(al) =>
      DcSendable(al, Zeros(|tabs|), us, maxBits);
      HB.UnitsRoundTrip(src, d, scan, tabs, Zeros(|tabs|), us, known, d');
    case DcRefine(al) =>
      RefineSendable(al, Zeros(|tabs|), us);
      HB.UnitsRoundTrip(src, d, scan, tabs, Zeros(|tabs|), us, known, d');
    case AcFirst(t) =>
      FirstWithin(t, orig, maxBits);
      assert orig[0..] == orig;
      RoundTrips(src, d, t, kept, orig, 0, d');
    case AcRefine(t) =>
      assert orig[..0] == [] && orig[0..] == orig;
      NothingHeld(t, orig);
      RefinementsRoundTrip(src, d, t, kept, orig, 0, d');
  }

  /** A scan's entropy-coded data and the tables sent with it. */
  datatype CodedScan = CodedScan(data: seq<byte>, built: seq<Built>)

  ghost predicate GoodTables(built: seq<Built>) {
    forall i :: 0 <= i < |built| ==> GoodTable(built[i])
  }

  /** What a decoder with these tables makes of the bytes. */
  ghost function ReadBytes(built: seq<Built>, data: seq<byte>, scan: Scan, tabs: seq<TablePair>,
                           known: seq<Unit>): (r: seq<Block>)
    requires GoodTables(built) && ProgressiveMode(scan) && ValidUnits(known, |tabs|)
    ensures |r| == |known|
  {
    GoodUsable(built);
    ReadPass(BitSource(TablesOf(built)), BitsOf(Unstuff(data)), scan, tabs, known).blocks
  }

  /** Whatever is behind the data, after a marker, the scan's blocks are decoded. */
  ghost predicate ReadsBack(c: CodedScan, scan: Scan, tabs: seq<TablePair>, us: seq<Unit>)
    requires ProgressiveMode(scan) && ValidUnits(us, |tabs|)
  {
    && GoodTables(c.built)
    && forall tail: seq<byte>, known: seq<Unit> ::
         StartsWithMarker(tail) && ValidUnits(known, |tabs|) && AllBefore(scan, known, us) ==>
           AllAfter(scan, ReadBytes(c.built, c.data + tail, scan, tabs, known), known, us)
  }

  ghost predicate StartsWithMarker(tail: seq<byte>) {
    |tail| >= 2 && tail[0] == 0xFF && tail[1] != 0 && tail[1] != 0xFF
  }

  lemma SentReadsBack(c: CodedScan, codes: seq<SymbolCodes>, scan: Scan, tabs: seq<TablePair>, us: seq<Unit>,
                      maxBits: nat)
    requires ProgressiveMode(scan) && ValidUnits(us, |tabs|) && maxBits <= 14 && Acceptable(scan, |tabs|, us, maxBits)
    requires GoodTables(c.built) && |codes| == |c.built|
             && forall i :: 0 <= i < |codes| ==> codes[i] == c.built[i].codes
    requires var ts := PassTokens(scan, tabs, us, maxBits);
             AllCoded(codes, ts) && c.data == Stuff(WholeBytes(Padded(AllBits(codes, ts))))
    ensures ReadsBack(c, scan, tabs, us)
  {
    hide AllBits, WholeBytes, AllCoded, GoodTable, PassTokens, ReadPass, AllBefore, AllAfter, Unstuff, Padded,
         Acceptable;
    var ts := PassTokens(scan, tabs, us, maxBits);
    GoodUsable(c.built);
    forall tail: seq<byte>, known: seq<Unit> |
      StartsWithMarker(tail) && ValidUnits(known, |tabs|) && AllBefore(scan, known, us)
      ensures AllAfter(scan, ReadBytes(c.built, c.data + tail, scan, tabs, known), known, us)
    {
      MarkerStops(tail);
      var padding := BytesDeliver(c.built, codes, ts, c.data, tail);
      PassRoundTrips(BitSource(TablesOf(c.built)), BitsOf(Unstuff(c.data + tail)), scan, tabs, us, known, maxBits,
                     padding);
    }
  }

  lemma MarkerStops(tail: seq<byte>)
    requires StartsWithMarker(tail)
    ensures Unstuff(tail) == []
  {
    MarkerEndsCode(0, tail[1], tail[2..]);
    assert tail == Repeat(0xFF, 1) + [tail[1]] + tail[2..];
  }

  // ----- The passes of a scan ----------------------------------------------------------------------

  /** Codes no symbol has, for a pass that needs none. */
  function NoCodes(n: nat): (codes: seq<SymbolCodes>)
    ensures |codes| == n && forall i :: 0 <= i < n ==> Fits(codes[i])
  {
    var none := SymbolCodes(seq(256, _ => 0), seq(256, _ => 0));
    assert Fits(none);
    seq(n, _ => none)
  }

  function AcTable(scan: Scan): nat {
    if IsAc(scan) then scan.band.tbl else 0
  }

  /** The gathering pass. */
  method GatherPass(scan: Scan, tabs: seq<TablePair>, us: seq<Unit>, n: nat, maxBits: nat)
      returns (counts: seq<array<nat>>, ok: bool)
    requires ProgressiveMode(scan) && ValidUnits(us, |tabs|) && maxBits <= 14 && TableNumbers(scan, tabs, n)
    ensures Arrays(counts) && |counts| == n && forall i :: 0 <= i < n ==> fresh(counts[i])
    ensures ok <==> Acceptable(scan, |tabs|, us, maxBits)
    ensures ok ==> CountsOfTokens(counts, PassTokens(scan, tabs, us, maxBits))
  {
    hide PassTokens, CountedUp, Put, Fits, Tabled, AllCoded, Acceptable;
    var enc := new Enc.PhuffEncoder(true, NoCodes(n), AcTable(scan), |tabs|, maxBits);
    ok := EncodePass(enc, scan, tabs, us);
    counts := enc.counts;
  }

  /** The output pass, with codes for all symbols. */
  method OutputPass(scan: Scan, tabs: seq<TablePair>, us: seq<Unit>, codes: seq<SymbolCodes>, maxBits: nat)
      returns (data: seq<byte>, ok: bool)
    requires ProgressiveMode(scan) && ValidUnits(us, |tabs|) && maxBits <= 14 && TableNumbers(scan, tabs, |codes|)
    requires forall i :: 0 <= i < |codes| ==> Fits(codes[i])
    requires Acceptable(scan, |tabs|, us, maxBits) ==> AllCoded(codes, PassTokens(scan, tabs, us, maxBits))
    ensures ok <==> Acceptable(scan, |tabs|, us, maxBits)
    ensures ok ==> var ts := PassTokens(scan, tabs, us, maxBits);
                   Tabled(codes, ts) && data == Stuff(WholeBytes(Padded(AllBits(codes, ts))))
  {
    hide PassTokens, CountedUp, Put, Fits, Tabled, AllCoded, Padded, WholeBytes, AllBits, Acceptable;
    var enc := new Enc.PhuffEncoder(false, codes, AcTable(scan), |tabs|, maxBits);
    data := [];
    ok := EncodePass(enc, scan, tabs, us);
    if ok {
      PutAll(codes, PassTokens(scan, tabs, us, maxBits));
      enc.bits.FlushBits();
      data := enc.bits.output;
    }
  }

  /** Optimized progressive coding of a scan from the blocks to the bytes and back:
      gather, build the tables, send, and read what was sent with them; a
      refinement scan of DC coefficients needs no table and is sent at once.  It
      fails if a coefficient is out of range, and otherwise only if some best
      code has a length over 32.
   */
  method OptimizedPass(scan: Scan, tabs: seq<TablePair>, us: seq<Unit>, n: nat, maxBits: nat)
      returns (c: CodedScan, ok: bool)
    requires ProgressiveMode(scan) && ValidUnits(us, |tabs|) && maxBits <= 14 && TableNumbers(scan, tabs, n)
    requires Acceptable(scan, |tabs|, us, maxBits) ==> |PassTokens(scan, tabs, us, maxBits)| < 1000000000
    ensures ok ==> Acceptable(scan, |tabs|, us, maxBits) && ReadsBack(c, scan, tabs, us)
    ensures Acceptable(scan, |tabs|, us, maxBits) ==>
              var ts := PassTokens(scan, tabs, us, maxBits);
              (!ok ==> SomeOverlong(ts, n)) && (|ts| + 1 < LONG_CODE_COUNT ==> ok)
  {
    hide PassTokens, SomeOverlong, CountedUp, Fits, GoodTable, Covers, AllCoded, Tabled, Padded, WholeBytes, AllBits,
         Acceptable, Unsent, ReadsBack;
    c := CodedScan([], []);
    if scan.DcRefine? {
      var data;
      data, ok := SendBits(scan, tabs, us, n, maxBits);
      c := CodedScan(data, []);
      return;
    }
    var counts;
    counts, ok := GatherPass(scan, tabs, us, n, maxBits);
    if !ok { return; }
    ghost var ts := PassTokens(scan, tabs, us, maxBits);
    PassUnsent(scan, tabs, us, n, maxBits);
    var built;
    built, ok := BuildTables(counts, ts, 0x1F, 0x2F);
    if ok {
      var codes := seq(n, i requires 0 <= i < n => built[i].codes);
      forall i | 0 <= i < n ensures Fits(codes[i]) { GoodFits(built[i]); }
      UnsentTabled(ts, n);
      CoveredCoded(built, codes, ts);
      var data;
      data, ok := OutputPass(scan, tabs, us, codes, maxBits);
      c := CodedScan(data, built);
      SentReadsBack(c, codes, scan, tabs, us, maxBits);
    }
  }

  lemma UnsentTabled(ts: seq<Token>, n: nat)
    requires Unsent(ts, n, 0x1F, 0x2F)
    ensures forall i :: 0 <= i < |ts| && ts[i].Symbol? ==> ts[i].tbl < n
  {
  }

  /** A refinement scan of DC coefficients. */
  method SendBits(scan: Scan, tabs: seq<TablePair>, us: seq<Unit>, n: nat, maxBits: nat)
      returns (data: seq<byte>, ok: bool)
    requires ProgressiveMode(scan) && scan.DcRefine? && ValidUnits(us, |tabs|) && maxBits <= 14
             && TableNumbers(scan, tabs, n)
    ensures ok && Acceptable(scan, |tabs|, us, maxBits) && ReadsBack(CodedScan(data, []), scan, tabs, us)
  {
    hide Fits, AllCoded, Tabled, Padded, WholeBytes, AllBits, ReadsBack;
    ghost var ts := PassTokens(scan, tabs, us, maxBits);
    RefineSendable(scan.al, Zeros(|tabs|), us);
    RefineBitsOnly(scan.al, tabs, Zeros(|tabs|), us);
    RawCoded(NoCodes(n), ts);
    RawCoded([], ts);
    data, ok := OutputPass(scan, tabs, us, NoCodes(n), maxBits);
    RawBits(NoCodes(n), [], ts);
    SentReadsBack(CodedScan(data, []), [], scan, tabs, us, maxBits);
  }

  lemma RawCoded(codes: seq<SymbolCodes>, ts: seq<Token>)
    requires forall i :: 0 <= i < |ts| ==> ts[i].Raw?
    ensures AllCoded(codes, ts) && Tabled(codes, ts)
  {
  }

  lemma {:induction false} RawBits(a: seq<SymbolCodes>, b: seq<SymbolCodes>, ts: seq<Token>)
    requires (forall i :: 0 <= i < |ts| ==> ts[i].Raw?) && Tabled(a, ts) && Tabled(b, ts)
    ensures AllBits(a, ts) == AllBits(b, ts)
    decreases |ts|
  {
    if ts != [] { RawBits(a, b, ts[1..]); }
  }
}
