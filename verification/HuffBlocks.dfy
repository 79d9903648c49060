/** Huffman coding of whole blocks and of DC coefficients (sections F.1.2,
    F.2.2, G.1.2.1 of ITU-T T.81), as jchuff.c and jcphuff.c send them and
    jdhuff.c and jdphuff.c read them back.
 */
module HuffBlocks {
  import opened CodeBytes
  import opened Coefficients
  import opened AcSyntax
  import opened RefineSyntax
  import opened ScanCoding
  import opened HuffTokens
  import opened HuffSyntax

  /** The table numbers of a component. */
  datatype TablePair = TablePair(dc: nat, ac: nat)

  // ----- DC differences ----------------------------------------------------------------------

  function DcTokens(tbl: nat, x: int): seq<Token>
    requires NBits(Abs(x)) <= 15
  {
    if x == 0 then [Symbol(tbl, 0)]
    else [Symbol(tbl, NBits(Abs(x)))] + [Raw(ValueBits(x), NBits(Abs(x)))]
  }

  function ReadDiff<D>(src: Source<D>, d: D, tbl: nat): (int, D) {
    var (s, d1) := src.symbol(d, tbl);
    if s == 0 then (0, d1)
    else
      var (v, d2) := src.raw(d1, s as nat);
      (Extend(v, s as nat), d2)
  }

  lemma ReadDiffInverts<D>(src: Source<D>, d: D, tbl: nat, x: int, rest: seq<Token>, d': D) returns (mid: D)
    requires NBits(Abs(x)) <= 15 && Delivers(src, d, DcTokens(tbl, x) + rest, d')
    ensures Delivers(src, mid, rest, d') && ReadDiff(src, d, tbl) == (x, mid)
  {
    hide Delivers, ValueBits, Extend, NBits;
    if x == 0 {
      DeliversSymbol(src, d, tbl, 0, rest, d');
      mid := src.symbol(d, tbl).1;
    } else {
      var n := NBits(Abs(x));
      ExtendInverts(x);
      assert DcTokens(tbl, x) + rest == [Symbol(tbl, n)] + ([Raw(ValueBits(x), n)] + rest);
      DeliversSymbol(src, d, tbl, n, [Raw(ValueBits(x), n)] + rest, d');
      DeliversRaw(src, src.symbol(d, tbl).1, ValueBits(x), n, rest, d');
      mid := src.raw(src.symbol(d, tbl).1, n).1;
    }
  }

  // ----- One block --------------------------------------------------------------------------

  /** The scans whose blocks are coded one by one. */
  ghost predicate BlockScan(scan: Scan) {
    ValidScan(scan) && (scan.Sequential? || scan.DcFirst? || scan.DcRefine?)
  }

  /** Coefficients and differences the encoder does not reject. */
  ghost predicate Sendable(scan: Scan, last: int, b: Block) {
    && (scan.Sequential? || scan.DcFirst? ==> NBits(Abs(Predicted(scan, b) - last)) <= 15)
    && (scan.Sequential? ==> BandInRange(b, 1, 63, 0, 15))
  }

  function EndOfBlock(tbl: nat, b: Block): seq<Token> {
    if Mag(b[63], 0) == 0 then [Symbol(tbl, 0)] else []
  }

  /** encode_one_block; for DC scans, the DC part alone. */
  ghost function BlockTokens(scan: Scan, t: TablePair, last: int, b: Block): seq<Token>
    requires BlockScan(scan) && Sendable(scan, last, b)
  {
    match scan
    case Sequential => DcTokens(t.dc, b[0] - last) + (BandTokens(t.ac, b, 1, 0, 63, 0) + EndOfBlock(t.ac, b))
    case DcFirst(al) => DcTokens(t.dc, Shr(b[0], al) - last)
    case DcRefine(al) => [Raw(if Shr(b[0], al) % 2 == 1 then 1 else 0, 1)]
  }

  datatype OneRead<D> = OneRead(dec: D, block: Block, last: int)

  ghost function ReadBlock<D>(src: Source<D>, d: D, scan: Scan, t: TablePair, last: int, known: Block): OneRead<D>
    requires BlockScan(scan)
  {
    match scan
    case Sequential =>
      var (x, d1) := ReadDiff(src, d, t.dc);
      var r := ReadBand(src, d1, t.ac, known[0 := ToCoef(last + x)], 1, 63, 0, false);
      OneRead(r.dec, r.block, last + x)
    case DcFirst(al) =>
      var (x, d1) := ReadDiff(src, d, t.dc);
      OneRead(d1, known[0 := ToCoef(ShiftUp(last + x, al))], last + x)
    case DcRefine(al) =>
      var (bit, d1) := src.raw(d, 1);
      OneRead(d1, if bit != 0 then known[0 := SetBit(known[0], al)] else known, last)
  }

  function NextLast(scan: Scan, last: int, b: Block): int {
    if scan.DcRefine? then last else Predicted(scan, b)
  }

  lemma SequentialAc<D>(src: Source<D>, d: D, tbl: nat, b: Block, orig: Block, rest: seq<Token>, d': D) returns (mid: D)
    requires BandInRange(orig, 1, 63, 0, 15) && ZeroFrom(b, 1, 63) && b[0] == orig[0]
    requires Delivers(src, d, (BandTokens(tbl, orig, 1, 0, 63, 0) + EndOfBlock(tbl, orig)) + rest, d')
    ensures Delivers(src, mid, rest, d')
    ensures var r := ReadBand(src, d, tbl, b, 1, 63, 0, false); r.dec == mid && r.block == orig
  {
    hide Delivers, BandTokens, Mag, Approx, BandRead;
    var eob := EndOfBlock(tbl, orig);
    assert (BandTokens(tbl, orig, 1, 0, 63, 0) + eob) + rest == BandTokens(tbl, orig, 1, 0, 63, 0) + (eob + rest);
    var d1, b1, end := ReadBandInverts(src, d, tbl, b, orig, 1, 1, 63, 0, false, eob + rest, d');
    WholeBlock(b1, b, orig);
    if Mag(orig[63], 0) == 0 {
      DeliversSymbol(src, d1, tbl, 0, rest, d');
      mid := src.symbol(d1, tbl).1;
    } else {
      assert [] + rest == rest;
      mid := d1;
    }
  }

  lemma BlockRoundTrips<D>(src: Source<D>, d: D, scan: Scan, t: TablePair, last: int, known: Block, orig: Block,
                           rest: seq<Token>, d': D)
    returns (mid: D)
    requires BlockScan(scan) && Sendable(scan, last, orig) && Before(scan, known, orig)
    requires Delivers(src, d, BlockTokens(scan, t, last, orig) + rest, d')
    ensures Delivers(src, mid, rest, d')
    ensures var r := ReadBlock(src, d, scan, t, last, known);
            r.dec == mid && r.last == NextLast(scan, last, orig) && After(scan, r.block, known, orig)
  {
    hide Delivers, BandTokens, DcTokens, ReadDiff, ReadBand, Mag, ShiftUp, Shr;
    match scan
    case Sequential =>
      var ac := BandTokens(t.ac, orig, 1, 0, 63, 0) + EndOfBlock(t.ac, orig);
      assert BlockTokens(scan, t, last, orig) + rest == DcTokens(t.dc, orig[0] - last) + (ac + rest);
      var d1 := ReadDiffInverts(src, d, t.dc, orig[0] - last, ac + rest, d');
      CoefIsItself(orig[0]);
      mid := SequentialAc(src, d1, t.ac, known[0 := orig[0]], orig, rest, d');
    case DcFirst(al) =>
      mid := ReadDiffInverts(src, d, t.dc, Shr(orig[0], al) - last, rest, d');
      DcApproxIsCoef(orig[0], al);
      CoefIsItself(DcApprox(orig[0], al));
    case DcRefine(al) =>
      var bit := if Shr(orig[0], al) % 2 == 1 then 1 else 0;
      DeliversRaw(src, d, bit, 1, rest, d');
      LowBit(bit);
      mid := src.raw(d, 1).1;
      DcRefinementRoundTrips(orig[0], al);
  }

  lemma LowBit(bit: nat)
    requires bit <= 1
    ensures LowPart(bit, 1) == bit
  {
  }

  lemma CoefIsItself(x: Coef)
    ensures ToCoef(x) == x
  {
  }

  // ----- Any number of blocks -----------------------------------------------------------------

  ghost predicate TablesFor(tabs: seq<TablePair>, last: seq<int>, us: seq<Unit>) {
    |last| == |tabs| && ValidUnits(us, |tabs|)
  }

  /** Every block can be sent, with the prediction its component then has. */
  ghost predicate AllSendable(scan: Scan, last: seq<int>, us: seq<Unit>)
    requires ValidUnits(us, |last|)
    decreases |us|
  {
    us == [] ||
    (Sendable(scan, last[us[0].ci], us[0].block)
     && AllSendable(scan, last[us[0].ci := NextLast(scan, last[us[0].ci], us[0].block)], us[1..]))
  }

  ghost function UnitTokens(scan: Scan, tabs: seq<TablePair>, last: seq<int>, us: seq<Unit>): seq<Token>
    requires BlockScan(scan) && TablesFor(tabs, last, us) && AllSendable(scan, last, us)
    decreases |us|
  {
    if us == [] then []
    else
      var ci := us[0].ci;
      BlockTokens(scan, tabs[ci], last[ci], us[0].block)
      + UnitTokens(scan, tabs, last[ci := NextLast(scan, last[ci], us[0].block)], us[1..])
  }

  datatype AllReadBack<D> = AllReadBack(dec: D, blocks: seq<Block>)

  ghost function ReadUnits<D>(src: Source<D>, d: D, scan: Scan, tabs: seq<TablePair>, last: seq<int>,
                              known: seq<Unit>): (r: AllReadBack<D>)
    requires BlockScan(scan) && TablesFor(tabs, last, known)
    ensures |r.blocks| == |known|
    decreases |known|
  {
    if known == [] then AllReadBack(d, [])
    else
      var ci := known[0].ci;
      var r := ReadBlock(src, d, scan, tabs[ci], last[ci], known[0].block);
      var rest := ReadUnits(src, r.dec, scan, tabs, last[ci := r.last], known[1..]);
      AllReadBack(rest.dec, [r.block] + rest.blocks)
  }

  /** A scan's blocks sent and read back: what the scan promises of each. */
  lemma {:induction false} UnitsRoundTrip<D>(src: Source<D>, d: D, scan: Scan, tabs: seq<TablePair>, last: seq<int>,
                                             us: seq<Unit>, known: seq<Unit>, d': D)
    requires BlockScan(scan) && TablesFor(tabs, last, us) && TablesFor(tabs, last, known)
    requires AllSendable(scan, last, us) && AllBefore(scan, known, us)
    requires Delivers(src, d, UnitTokens(scan, tabs, last, us), d')
    ensures var r := ReadUnits(src, d, scan, tabs, last, known);
            r.dec == d' && AllAfter(scan, r.blocks, known, us)
    decreases |us|
  {
    hide Delivers, BlockTokens, ReadBlock, Before, After, AllBefore, AllAfter, Sendable;
    if us == [] {
      NothingAfter(scan, known, us);
      DeliversNothing(src, d, d');
    } else {
      AllBeforeRest(scan, known, us);
      var ci := us[0].ci;
      var next := last[ci := NextLast(scan, last[ci], us[0].block)];
      var mid := BlockRoundTrips(src, d, scan, tabs[ci], last[ci], known[0].block, us[0].block,
                                 UnitTokens(scan, tabs, next, us[1..]), d');
      UnitsRoundTrip(src, mid, scan, tabs, next, us[1..], known[1..], d');
      AllAfterFirst(scan, ReadBlock(src, d, scan, tabs[ci], last[ci], known[0].block).block,
                    ReadUnits(src, mid, scan, tabs, next, known[1..]).blocks, known, us);
    }
  }
}
