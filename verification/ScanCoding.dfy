/** One entropy-coded scan in each of the five modes of jcarith.c and jdarith.c:
    sequential, first and refinement scans of DC and of AC coefficients.
 */
module ScanCoding {
  import opened IdealCoder
  import opened CodeBytes
  import opened Coefficients
  import opened Binarization
  import opened DcSyntax
  import opened AcSyntax
  import opened RefineSyntax

  /** What start_pass selects the MCU routine by. */
  datatype Scan =
    | Sequential
    | DcFirst(al: nat)
    | AcFirst(band: Band)
    | DcRefine(al: nat)
    | AcRefine(band: Band)

  /** Tables of each component in the scan; `ac` serves sequential scans. */
  datatype Tables = Tables(dc: seq<DcTable>, ac: seq<Band>) {
    ghost predicate Valid() {
      && |dc| == |ac|
      && (forall i :: 0 <= i < |dc| ==> dc[i].Valid())
      && (forall i :: 0 <= i < |ac| ==> ac[i].Valid() && ac[i].ss == 1 && ac[i].se == 63 && ac[i].al == 0)
    }
  }

  ghost predicate ValidScan(scan: Scan) {
    match scan
    case Sequential => true
    case DcFirst(al) => al <= 13
    case AcFirst(band) => band.Valid() && band.al <= 13
    case DcRefine(al) => al <= 13
    case AcRefine(band) => band.Valid() && band.al <= 13
  }

  ghost predicate ValidStates(t: Tables, st: seq<DcState>) {
    t.Valid() && |st| == |t.dc| && forall i :: 0 <= i < |st| ==> st[i].Valid()
  }

  /** A block of the scan and the index, in the scan, of its component. */
  datatype Unit = Unit(ci: nat, block: Block)

  // ----- Encoder side ----------------------------------------------------------

  /** The DC value the scan codes differences of. */
  function Predicted(scan: Scan, b: Block): int {
    if scan.DcFirst? then Shr(b[0], scan.al) else b[0]
  }

  ghost function CodeBlock(scan: Scan, t: Tables, st: seq<DcState>, u: Unit): seq<Decision>
    requires ValidScan(scan) && ValidStates(t, st) && u.ci < |st|
  {
    match scan
    case Sequential => DcDecisions(t.dc[u.ci], st[u.ci], u.block[0]) + BandDecisions(t.ac[u.ci], u.block)
    case DcFirst(al) => DcDecisions(t.dc[u.ci], st[u.ci], Shr(u.block[0], al))
    case AcFirst(band) => BandDecisions(band, u.block)
    case DcRefine(al) => [DcRefineDecision(u.block[0], al)]
    case AcRefine(band) => BandRefinement(band, u.block)
  }

  ghost function NextStates(scan: Scan, t: Tables, st: seq<DcState>, u: Unit): (r: seq<DcState>)
    requires ValidStates(t, st) && u.ci < |st|
    ensures ValidStates(t, r)
  {
    if scan.Sequential? || scan.DcFirst? then
      st[u.ci := DcNext(t.dc[u.ci], st[u.ci], Predicted(scan, u.block))]
    else st
  }

  ghost predicate ValidUnits(us: seq<Unit>, slots: nat) {
    forall i :: 0 <= i < |us| ==> us[i].ci < slots
  }

  ghost function CodeScan(scan: Scan, t: Tables, st: seq<DcState>, us: seq<Unit>): seq<Decision>
    requires ValidScan(scan) && ValidStates(t, st) && ValidUnits(us, |st|)
    decreases |us|
  {
    if us == [] then []
    else CodeBlock(scan, t, st, us[0]) + CodeScan(scan, t, NextStates(scan, t, st, us[0]), us[1..])
  }

  // ----- Decoder side ----------------------------------------------------------

  datatype UnitRead<D> = UnitRead(dec: D, block: Block, st: seq<DcState>, ok: bool)

  /** The block `known` so far, updated from one block's worth of decisions. */
  ghost function ReadBlock<D>(ch: Channel<D>, d: D, scan: Scan, t: Tables, st: seq<DcState>, ci: nat,
                              known: Block): (r: UnitRead<D>)
    requires ValidScan(scan) && ValidStates(t, st) && ci < |st|
    ensures ValidStates(t, r.st)
  {
    match scan
    case Sequential =>
      var dc := ReadDc(ch, d, t.dc[ci], st[ci]);
      if !dc.ok then UnitRead(dc.dec, known, st, false)
      else
        var ac := ReadAc(ch, dc.dec, t.ac[ci], known[0 := ToCoef(dc.st.last)], 1);
        UnitRead(ac.dec, ac.block, st[ci := dc.st], ac.ok)
    case DcFirst(al) =>
      var dc := ReadDc(ch, d, t.dc[ci], st[ci]);
      if !dc.ok then UnitRead(dc.dec, known, st, false)
      else UnitRead(dc.dec, known[0 := ToCoef(ShiftUp(dc.st.last, al))], st[ci := dc.st], true)
    case AcFirst(band) =>
      var ac := ReadAc(ch, d, band, known, band.ss);
      UnitRead(ac.dec, ac.block, st, ac.ok)
    case DcRefine(al) =>
      var (bit, d1) := ch(d, FIXED_BIN);
      UnitRead(d1, if bit then known[0 := SetBit(known[0], al)] else known, st, true)
    case AcRefine(band) =>
      var ac := ReadRefine(ch, d, band, known, band.ss, LastKnown(known, band.se));
      UnitRead(ac.dec, ac.block, st, ac.ok)
  }

  datatype ScanRead<D> = ScanRead(dec: D, blocks: seq<Block>, ok: bool)

  /** All blocks in turn; after an error the rest is left as it was. */
  ghost function ReadScan<D>(ch: Channel<D>, d: D, scan: Scan, t: Tables, st: seq<DcState>,
                             known: seq<Unit>): (r: ScanRead<D>)
    requires ValidScan(scan) && ValidStates(t, st) && ValidUnits(known, |st|)
    ensures |r.blocks| == |known|
    decreases |known|
  {
    if known == [] then ScanRead(d, [], true)
    else
      var u := ReadBlock(ch, d, scan, t, st, known[0].ci, known[0].block);
      if !u.ok then ScanRead(u.dec, [u.block] + Blocks(known[1..]), false)
      else
        var rest := ReadScan(ch, u.dec, scan, t, u.st, known[1..]);
        ScanRead(rest.dec, [u.block] + rest.blocks, rest.ok)
  }

  ghost function Blocks(us: seq<Unit>): seq<Block> {
    seq(|us|, i requires 0 <= i < |us| => us[i].block)
  }

  // ----- Round trip --------------------------------------------------------------

  /** What the scan takes for granted of a block the decoder has so far. */
  ghost predicate Before(scan: Scan, known: Block, orig: Block)
    requires ValidScan(scan)
  {
    match scan
    case Sequential => ZeroFrom(known, 1, 63)
    case DcFirst(_) => true
    case AcFirst(band) => ZeroFrom(known, band.ss, band.se)
    case DcRefine(al) => known[0] == DcApprox(orig[0], al + 1)
    case AcRefine(band) => KnownFrom(known, orig, band.ss, band.se, band.al)
  }

  /** What the scan makes of it. */
  ghost predicate After(scan: Scan, r: Block, known: Block, orig: Block)
    requires ValidScan(scan)
  {
    match scan
    case Sequential => r == orig
    case DcFirst(al) => r[0] == DcApprox(orig[0], al) && r[1..] == known[1..]
    case AcFirst(band) => BandRead(r, known, orig, band.ss, band.se, band.al)
    case DcRefine(al) => r[0] == DcApprox(orig[0], al) && r[1..] == known[1..]
    case AcRefine(band) => BandRead(r, known, orig, band.ss, band.se, band.al)
  }

  /** The decoder keeps each prediction modulo 2^16 and the same context. */
  ghost predicate SameStates(enc: seq<DcState>, dec: seq<DcState>) {
    |enc| == |dec| &&
    forall i :: 0 <= i < |enc| ==> dec[i] == DcState(enc[i].last % 0x10000, enc[i].ctx)
  }

  /** The block's DC difference is one the decoder accepts. */
  ghost predicate Readable(scan: Scan, st: seq<DcState>, u: Unit)
    requires u.ci < |st|
  {
    scan.Sequential? || scan.DcFirst? ==>
      Abs(Predicted(scan, u.block) - st[u.ci].last) <= MAX_DIFFERENCE
  }

  ghost predicate ReadableScan(scan: Scan, t: Tables, st: seq<DcState>, us: seq<Unit>)
    requires ValidStates(t, st) && ValidUnits(us, |st|)
    decreases |us|
  {
    us == [] || (Readable(scan, st, us[0]) && ReadableScan(scan, t, NextStates(scan, t, st, us[0]), us[1..]))
  }

  lemma DcFirstRoundTrips<D>(ch: Channel<D>, d: D, scan: Scan, t: Tables, enc: seq<DcState>, dec: seq<DcState>, u: Unit,
                             known: Block, d': D)
    requires scan.DcFirst? && ValidScan(scan) && ValidStates(t, enc) && ValidStates(t, dec) && SameStates(enc, dec)
             && u.ci < |enc|
    requires Reads(ch, d, CodeBlock(scan, t, enc, u), d')
    ensures var r := ReadBlock(ch, d, scan, t, dec, u.ci, known);
            && (r.ok <==> Readable(scan, enc, u))
            && (r.ok ==>
                  r.dec == d' && After(scan, r.block, known, u.block) && SameStates(NextStates(scan, t, enc, u), r.st))
  {
    var m := Shr(u.block[0], scan.al);
    var ds := CodeBlock(scan, t, enc, u);
    assert ds + [] == ds;
    ReadDcInverts(ch, d, t.dc[u.ci], enc[u.ci], dec[u.ci], m, [], d');
    StoredDc(u.block[0], scan.al);
  }

  lemma SequentialRoundTrips<D>(ch: Channel<D>, d: D, t: Tables, enc: seq<DcState>, dec: seq<DcState>, u: Unit,
                                known: Block, d': D)
    requires ValidStates(t, enc) && ValidStates(t, dec) && SameStates(enc, dec) && u.ci < |enc|
    requires Before(Sequential, known, u.block)
    requires Reads(ch, d, CodeBlock(Sequential, t, enc, u), d')
    ensures var r := ReadBlock(ch, d, Sequential, t, dec, u.ci, known);
            && (r.ok <==> Readable(Sequential, enc, u))
            && (r.ok ==> r.dec == d' && r.block == u.block && SameStates(NextStates(Sequential, t, enc, u), r.st))
  {
    ReadDcInverts(ch, d, t.dc[u.ci], enc[u.ci], dec[u.ci], u.block[0], BandDecisions(t.ac[u.ci], u.block), d');
    if Readable(Sequential, enc, u) {
      StoredWhole(u.block[0]);
      WholeBlockRoundTrips(ch, ReadDc(ch, d, t.dc[u.ci], dec[u.ci]).dec, t.ac[u.ci], known, u.block, d');
    }
  }

  lemma StoredWhole(x: Coef)
    ensures ToCoef(x as int % 0x10000) == x
  {
  }

  /** The AC part of a sequential block, once its DC value is known. */
  lemma WholeBlockRoundTrips<D>(ch: Channel<D>, d: D, band: Band, known: Block, orig: Block, d': D)
    requires band.Valid() && band.ss == 1 && band.se == 63 && band.al == 0 && ZeroFrom(known, 1, 63)
    requires Reads(ch, d, BandDecisions(band, orig), d')
    ensures ReadAc(ch, d, band, known[0 := orig[0]], 1) == BlockRead(d', orig, true)
  {
    var b := known[0 := orig[0]];
    BandRoundTrips(ch, d, band, b, orig, d');
    WholeBlock(ReadAc(ch, d, band, b, 1).block, b, orig);
  }

  lemma WholeBlock(r: Block, before: Block, orig: Block)
    requires before[0] == orig[0] && BandRead(r, before, orig, 1, 63, 0)
    ensures r == orig
  {
    forall j | 0 <= j < DCTSIZE2 ensures r[j] == orig[j] {
      ApproxZero(orig[j]);
    }
  }

  lemma DcRefineRoundTrips<D>(ch: Channel<D>, d: D, al: nat, orig: Block, known: Block, d': D)
    requires al <= 13 && known[0] == DcApprox(orig[0], al + 1)
    requires Reads(ch, d, [DcRefineDecision(orig[0], al)], d')
    ensures var (bit, d1) := ch(d, FIXED_BIN);
            && d1 == d'
            && DcApprox(orig[0], al) == if bit then SetBit(known[0], al) else known[0]
  {
    var x := DcRefineDecision(orig[0], al);
    assert [x] + [] == [x];
    ReadsFirst(ch, d, x, [], d');
    DcRefinementRoundTrips(orig[0], al);
  }

  lemma BlockRoundTrips<D>(ch: Channel<D>, d: D, scan: Scan, t: Tables, enc: seq<DcState>, dec: seq<DcState>, u: Unit,
                           known: Block, d': D)
    requires ValidScan(scan) && ValidStates(t, enc) && ValidStates(t, dec) && SameStates(enc, dec) && u.ci < |enc|
    requires Before(scan, known, u.block)
    requires Reads(ch, d, CodeBlock(scan, t, enc, u), d')
    ensures var r := ReadBlock(ch, d, scan, t, dec, u.ci, known);
            && (r.ok <==> Readable(scan, enc, u))
            && (r.ok ==>
                  r.dec == d' && After(scan, r.block, known, u.block) && SameStates(NextStates(scan, t, enc, u), r.st))
  {
    match scan
    case Sequential => SequentialRoundTrips(ch, d, t, enc, dec, u, known, d');
    case DcFirst(al) => DcFirstRoundTrips(ch, d, scan, t, enc, dec, u, known, d');
    case AcFirst(band) => BandRoundTrips(ch, d, band, known, u.block, d');
    case DcRefine(al) => DcRefineRoundTrips(ch, d, al, u.block, known, d');
    case AcRefine(band) => RefinementRoundTrips(ch, d, band, known, u.block, d');
  }

  ghost predicate AllBefore(scan: Scan, known: seq<Unit>, us: seq<Unit>)
    requires ValidScan(scan)
  {
    |known| == |us| &&
    forall i :: 0 <= i < |us| ==> known[i].ci == us[i].ci && Before(scan, known[i].block, us[i].block)
  }

  ghost predicate AllAfter(scan: Scan, r: seq<Block>, known: seq<Unit>, us: seq<Unit>)
    requires ValidScan(scan)
  {
    |r| == |known| == |us| &&
    forall i :: 0 <= i < |us| ==> After(scan, r[i], known[i].block, us[i].block)
  }

  lemma NothingAfter(scan: Scan, known: seq<Unit>, us: seq<Unit>)
    requires ValidScan(scan) && us == [] && AllBefore(scan, known, us)
    ensures known == [] && AllAfter(scan, [], known, us)
  {
  }

  lemma AllBeforeRest(scan: Scan, known: seq<Unit>, us: seq<Unit>)
    requires ValidScan(scan) && us != [] && AllBefore(scan, known, us)
    ensures known != [] && known[0].ci == us[0].ci && Before(scan, known[0].block, us[0].block)
    ensures AllBefore(scan, known[1..], us[1..])
  {
    hide Before;
  }

  lemma AllAfterFirst(scan: Scan, b: Block, bs: seq<Block>, known: seq<Unit>, us: seq<Unit>)
    requires ValidScan(scan) && us != [] && known != []
    requires After(scan, b, known[0].block, us[0].block) && AllAfter(scan, bs, known[1..], us[1..])
    ensures AllAfter(scan, [b] + bs, known, us)
  {
    hide After;
  }

  /** A scan coded and read back over any channel that delivers the coded
      decisions: the decoder succeeds exactly when every DC difference is at
      most 2^15 in magnitude, and then every block is what the scan promises.
   */
  lemma {:induction false} ScanRoundTrips<D>(ch: Channel<D>, d: D, scan: Scan, t: Tables, enc: seq<DcState>,
                                             dec: seq<DcState>, us: seq<Unit>, known: seq<Unit>, d': D)
    requires ValidScan(scan) && ValidStates(t, enc) && ValidStates(t, dec) && SameStates(enc, dec)
    requires ValidUnits(us, |enc|) && ValidUnits(known, |enc|) && AllBefore(scan, known, us)
    requires Reads(ch, d, CodeScan(scan, t, enc, us), d')
    ensures var r := ReadScan(ch, d, scan, t, dec, known);
            && (r.ok <==> ReadableScan(scan, t, enc, us))
            && (r.ok ==> r.dec == d' && AllAfter(scan, r.blocks, known, us))
    decreases |us|
  {
    hide Reads, CodeBlock, ReadBlock, AllBefore, AllAfter, After, Before;
    if us == [] {
      ReadsNothing(ch, d, d');
      NothingAfter(scan, known, us);
    } else {
      AllBeforeRest(scan, known, us);
      var rest := CodeScan(scan, t, NextStates(scan, t, enc, us[0]), us[1..]);
      var mid := ReadsConcat(ch, d, CodeBlock(scan, t, enc, us[0]), rest, d');
      BlockRoundTrips(ch, d, scan, t, enc, dec, us[0], known[0].block, mid);
      if Readable(scan, enc, us[0]) {
        var u := ReadBlock(ch, d, scan, t, dec, us[0].ci, known[0].block);
        ScanRoundTrips(ch, mid, scan, t, NextStates(scan, t, enc, us[0]), u.st, us[1..], known[1..], d');
        if ReadableScan(scan, t, enc, us) {
          AllAfterFirst(scan, u.block, ReadScan(ch, mid, scan, t, u.st, known[1..]).blocks, known, us);
        }
      }
    }
  }
}
