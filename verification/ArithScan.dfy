/** A whole arithmetic-coded scan: blocks to bytes by jcarith.c, bytes back to
    blocks by jdarith.c.
 */
module ArithScan {
  import opened ProbabilityTable
  import opened IdealCoder
  import opened CodeBytes
  import opened Coefficients
  import opened Binarization
  import opened DcSyntax
  import opened AcSyntax
  import opened RefineSyntax
  import opened ScanCoding
  import opened BinAreas
  import opened ArithRoundTrip
  import Enc = ArithEncoder
  import Dec = ArithDecoder
  import ME = McuEncoder
  import MD = McuDecoder

  /** start_pass clears the statistics areas; the fixed bin keeps its state. */
  function FreshStats(): (s: seq<Stat>)
    ensures |s| == BINS
  {
    seq(BINS, i => if i == FIXED_BIN then FIXED_STAT else 0)
  }

  function FreshStates(slots: nat): seq<DcState> {
    seq(slots, _ => DcState(0, 0))
  }

  /** A scan starts with all statistics at state 0, except the fixed bin's, and with
      predictions 0 not yet conditioned by any difference.
   */
  lemma ScanStartAt(i: nat, slots: nat, c: nat)
    requires i < BINS && c < slots
    ensures FreshStats()[i] == if i == 5120 then 113 else 0
    ensures FreshStates(slots)[c].last == 0 && FreshStates(slots)[c].ctx == 0
  {
  }

  /** The decisions of a scan from its first block on. */
  ghost function WholeScan(scan: Scan, t: Tables, us: seq<Unit>): seq<Decision>
    requires ValidScan(scan) && t.Valid() && ValidUnits(us, |t.dc|)
  {
    CodeScan(scan, t, FreshStates(|t.dc|), us)
  }

  ghost predicate DifferencesReadable(scan: Scan, t: Tables, us: seq<Unit>)
    requires t.Valid() && ValidUnits(us, |t.dc|)
  {
    ReadableScan(scan, t, FreshStates(|t.dc|), us)
  }

  /** start_pass, the MCU routine over the scan's blocks, finish_pass. */
  method EncodeScan(scan: Scan, t: Tables, us: seq<Unit>) returns (data: seq<byte>, ghost code: seq<byte>)
    requires ValidScan(scan) && t.Valid() && ValidUnits(us, |t.dc|)
    ensures data == Stuff(code) && Codable(WholeScan(scan, t, us), BINS)
    ensures Inside(Fraction(code), EncodeAll(Encoder(JPEG_ARITAB, WHOLE, FreshStats()), WholeScan(scan, t, us)).iv)
  {
    var init := FreshStats();
    var stats := new Stat[BINS](i requires 0 <= i < BINS => init[i]);
    assert stats[..] == init;
    var coder := new Enc.ArithEncoder(stats);
    var mcu := new ME.McuEncoder(coder, |t.dc|);
    assert mcu.dc == FreshStates(|t.dc|);
    mcu.EncodeBlocks(scan, t, us);
    assert mcu.log == WholeScan(scan, t, us);
    ghost var picked := coder.Finish();
    data, code := coder.output, coder.emitted;
  }

  /** The decoder's state at the start of a scan whose bytes are `data`. */
  ghost function ScanStart(data: seq<byte>): Decoder {
    FirstDecoder(JPEG_ARITAB, FreshStats(), data)
  }

  method StartDecoder(data: seq<byte>, slots: nat) returns (mcu: MD.McuDecoder)
    ensures mcu.Valid() && fresh(mcu) && fresh(mcu.coder) && fresh(mcu.coder.stats)
    ensures mcu.State() == ScanStart(data) && mcu.dc == FreshStates(slots) && !mcu.failed
  {
    var init := FreshStats();
    var stats := new Stat[BINS](i requires 0 <= i < BINS => init[i]);
    assert stats[..] == init;
    var coder := new Dec.ArithDecoder(stats, data);
    mcu := new MD.McuDecoder(coder, slots);
  }

  /** start_pass and the MCU routine; `known` is what earlier scans delivered. */
  method DecodeScan(scan: Scan, t: Tables, known: seq<Unit>, data: seq<byte>) returns (blocks: seq<Block>, ok: bool)
    requires ValidScan(scan) && t.Valid() && ValidUnits(known, |t.dc|)
    ensures var r := ReadScan(MD.Step, ScanStart(data), scan, t, FreshStates(|t.dc|), known);
            blocks == r.blocks && ok == r.ok
  {
    var mcu := StartDecoder(data, |t.dc|);
    blocks := mcu.DecodeBlocks(scan, t, known);
    ok := !mcu.failed;
  }

  /** A decoder that yields `ds` delivers them over its channel. */
  lemma {:induction false} YieldsReads(d: Decoder, ds: seq<Decision>)
    requires MD.ReadyToStep(d) && Codable(ds, BINS) && Yields(d, ds)
    ensures Reads(MD.Step, d, ds, DecodeAll(d, ds))
    decreases |ds|
  {
    if ds != [] {
      YieldsReads(DecodeOne(d, ds[0].bin).1, ds[1..]);
    }
  }

  /** The decoder of the encoder's bytes succeeds exactly when every DC
      difference is at most 2^15 in magnitude, and then delivers every block as
      the scan promises it.
   */
  lemma ScanThroughBytes(scan: Scan, t: Tables, us: seq<Unit>, known: seq<Unit>, code: seq<byte>, tail: seq<byte>)
    requires ValidScan(scan) && t.Valid() && ValidUnits(us, |t.dc|) && ValidUnits(known, |t.dc|)
    requires AllBefore(scan, known, us) && Unstuff(tail) == []
    requires Codable(WholeScan(scan, t, us), BINS)
    requires Inside(Fraction(code), EncodeAll(Encoder(JPEG_ARITAB, WHOLE, FreshStats()), WholeScan(scan, t, us)).iv)
    ensures var r := ReadScan(MD.Step, ScanStart(Stuff(code) + tail), scan, t, FreshStates(|t.dc|), known);
            && (r.ok <==> DifferencesReadable(scan, t, us))
            && (r.ok ==> AllAfter(scan, r.blocks, known, us))
  {
    hide JPEG_ARITAB, AllRows, CodeScan, ReadScan, EncodeAll, DecodeAll, Unstuff, Stuff, Yields, Reads;
    var ds := WholeScan(scan, t, us);
    var d := ScanStart(Stuff(code) + tail);
    CodeRoundTrips(JPEG_ARITAB, FreshStats(), ds, code, tail);
    YieldsReads(d, ds);
    var init := FreshStates(|t.dc|);
    ScanRoundTrips(MD.Step, d, scan, t, init, init, us, known, DecodeAll(d, ds));
  }

  /** The smallest DC value followed by the largest: 16-bit coefficients alone
      do not keep the decoder from its error exit.
   */
  lemma LargeDifference(t: Tables, low: Block, high: Block)
    requires t.Valid() && |t.dc| == 1 && low[0] == -0x8000 && high[0] == 0x7FFF
    ensures !DifferencesReadable(Sequential, t, [Unit(0, low), Unit(0, high)])
  {
    hide JPEG_ARITAB, AllRows, CodeScan, ReadScan, DcNext;
    var us, st := [Unit(0, low), Unit(0, high)], FreshStates(|t.dc|);
    var next := NextStates(Sequential, t, st, us[0]);
    assert next[0].last == -0x8000 by { LastIsSent(t.dc[0], st[0], low[0]); }
    assert us[1..] == [us[1]];
    assert !Readable(Sequential, next, us[1]);
    assert !ReadableScan(Sequential, t, next, us[1..]);
  }

  lemma LastIsSent(t: DcTable, st: DcState, m: int)
    requires t.Valid() && st.Valid()
    ensures DcNext(t, st, m).last == m
  {
  }

  /** Encoder and decoder one after the other, with the next marker between. */
  method ScanRoundTrip(scan: Scan, t: Tables, us: seq<Unit>, known: seq<Unit>, marker: byte, rest: seq<byte>)
      returns (blocks: seq<Block>, ok: bool)
    requires ValidScan(scan) && t.Valid() && ValidUnits(us, |t.dc|) && ValidUnits(known, |t.dc|)
    requires AllBefore(scan, known, us) && marker != 0 && marker != 0xFF
    ensures ok <==> DifferencesReadable(scan, t, us)
    ensures ok ==> AllAfter(scan, blocks, known, us)
  {
    hide JPEG_ARITAB, AllRows, CodeScan, ReadScan, ReadableScan, EncodeAll, DecodeAll, Unstuff, Stuff;
    var data, code := EncodeScan(scan, t, us);
    var tail := [0xFF, marker] + rest;
    MarkerEndsCode(0, marker, rest);
    assert tail == Repeat(0xFF, 1) + [marker] + rest;
    ScanThroughBytes(scan, t, us, known, code, tail);
    blocks, ok := DecodeScan(scan, t, known, data + tail);
  }
}
