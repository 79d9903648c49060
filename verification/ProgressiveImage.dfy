/** Successive approximation across the scans of a legal script: after each
    scan the decoder holds every coefficient at its point transform by the last
    Al sent for it.
 */
module ProgressiveImage {
  import opened CodeBytes
  import opened Coefficients
  import opened Binarization
  import opened DcSyntax
  import opened AcSyntax
  import opened RefineSyntax
  import opened ScanCoding
  import opened ScanScript
  import opened ArithScan

  /** Coefficient blocks by component. */
  type Image = seq<seq<Block>>

  /** Where an MCU block comes from: component index in the scan, block number. */
  datatype Place = Place(ci: nat, index: nat)

  ghost predicate InImage(order: seq<Place>, comps: seq<int>, img: Image) {
    forall i :: 0 <= i < |order| ==>
      && order[i].ci < |comps| && 0 <= comps[order[i].ci] < |img|
      && order[i].index < |img[comps[order[i].ci]]|
  }

  /** Every block of the scan's components is coded, and none twice. */
  ghost predicate Covers(order: seq<Place>, comps: seq<int>, img: Image) {
    && InImage(order, comps, img)
    && (forall i, j :: 0 <= i < j < |order| ==> order[i] != order[j])
    && (forall ci, b :: 0 <= ci < |comps| && 0 <= comps[ci] < |img| && 0 <= b < |img[comps[ci]]| ==>
          Place(ci, b) in order)
  }

  function Gather(img: Image, comps: seq<int>, order: seq<Place>): (us: seq<Unit>)
    requires InImage(order, comps, img)
    ensures |us| == |order|
  {
    seq(|order|, i requires 0 <= i < |order| => Unit(order[i].ci, img[comps[order[i].ci]][order[i].index]))
  }

  function Scatter(img: Image, comps: seq<int>, order: seq<Place>, blocks: seq<Block>): (r: Image)
    requires InImage(order, comps, img) && |blocks| == |order|
    ensures SameShape(r, img)
    decreases |order|
  {
    if order == [] then img
    else
      var c := comps[order[0].ci];
      var img' := img[c := img[c][order[0].index := blocks[0]]];
      assert InImage(order[1..], comps, img');
      Scatter(img', comps, order[1..], blocks[1..])
  }

  ghost predicate SameShape(x: Image, y: Image) {
    |x| == |y| && forall c :: 0 <= c < |x| ==> |x[c]| == |y[c]|
  }

  /** Components of a scan are distinct. */
  ghost predicate Distinct(comps: seq<int>) {
    forall i, j :: 0 <= i < j < |comps| ==> comps[i] != comps[j]
  }

  /** A block the scan does not touch is left alone. */
  lemma {:induction false} ScatterMisses(img: Image, comps: seq<int>, order: seq<Place>, blocks: seq<Block>, c: nat,
                                         b: nat)
    requires InImage(order, comps, img) && |blocks| == |order|
    requires c < |img| && b < |img[c]|
    requires forall i :: 0 <= i < |order| ==> comps[order[i].ci] != c || order[i].index != b
    ensures Scatter(img, comps, order, blocks)[c][b] == img[c][b]
    decreases |order|
  {
    if order != [] {
      var c0 := comps[order[0].ci];
      var img' := img[c0 := img[c0][order[0].index := blocks[0]]];
      assert InImage(order[1..], comps, img');
      ScatterMisses(img', comps, order[1..], blocks[1..], c, b);
    }
  }

  lemma {:induction false} ScatterHits(img: Image, comps: seq<int>, order: seq<Place>, blocks: seq<Block>, i: nat)
    requires InImage(order, comps, img) && |blocks| == |order| && i < |order| && Distinct(comps)
    requires forall i, j :: 0 <= i < j < |order| ==> order[i] != order[j]
    ensures Scatter(img, comps, order, blocks)[comps[order[i].ci]][order[i].index] == blocks[i]
    decreases |order|
  {
    var c0 := comps[order[0].ci];
    var img' := img[c0 := img[c0][order[0].index := blocks[0]]];
    assert InImage(order[1..], comps, img');
    if i == 0 {
      forall j | 0 <= j < |order[1..]|
        ensures comps[order[1..][j].ci] != c0 || order[1..][j].index != order[0].index
      {
        assert order[1..][j] == order[j + 1] != order[0];
      }
      ScatterMisses(img', comps, order[1..], blocks[1..], c0, order[0].index);
    } else {
      ScatterHits(img', comps, order[1..], blocks[1..], i - 1);
    }
  }

  // ----- What the decoder knows ------------------------------------------------

  /** A coefficient whose bits down to `last` have been sent, or none of them. */
  function KnownValue(x: Coef, k: nat, last: int): int {
    if last < 0 then 0 else if k == 0 then DcApprox(x, last) else Approx(x, last)
  }

  ghost predicate KnownBlock(b: Block, orig: Block, row: seq<int>)
    requires |row| == DCTSIZE2
  {
    forall k :: 0 <= k < DCTSIZE2 ==> b[k] == KnownValue(orig[k], k, row[k])
  }

  ghost predicate KnownImage(img: Image, orig: Image, p: Progress) {
    && SameShape(img, orig) && |p| == |orig|
    && forall c, b :: 0 <= c < |orig| && 0 <= b < |orig[c]| ==> KnownBlock(img[c][b], orig[c][b], p[c])
  }

  /** The mode of one scan of a progressive script. */
  function ModeOf(s: ScanInfo, tbl: nat, kx: nat): Scan
    requires 0 <= s.ss && 0 <= s.se && 0 <= s.al
  {
    if s.ss == 0 then if s.ah == 0 then DcFirst(s.al) else DcRefine(s.al)
    else
      var band := Band(tbl, kx, s.ss, s.se, s.al);
      if s.ah == 0 then AcFirst(band) else AcRefine(band)
  }

  /** A legal scan finds each block as it expects it. */
  lemma BlockReady(b: Block, orig: Block, row: seq<int>, s: ScanInfo, tbl: nat, kx: nat)
    requires |row| == DCTSIZE2 && tbl < NUM_ARITH_TBLS && LegalParameters(s, 13) && LegalFor(row, s)
    requires KnownBlock(b, orig, row)
    ensures ValidScan(ModeOf(s, tbl, kx)) && Before(ModeOf(s, tbl, kx), b, orig)
  {
    assert LegalBit(row[s.ss], s);
    if s.ss != 0 {
      forall k | s.ss <= k <= s.se
        ensures if s.ah == 0 then b[k] == 0 else b[k] == Approx(orig[k], s.al + 1)
      {
        assert LegalBit(row[k], s);
      }
    }
  }

  /** And leaves it known down to the scan's Al. */
  lemma BlockKnown(r: Block, b: Block, orig: Block, row: seq<int>, s: ScanInfo, tbl: nat, kx: nat)
    requires |row| == DCTSIZE2 && tbl < NUM_ARITH_TBLS && LegalParameters(s, 13)
    requires KnownBlock(b, orig, row) && ValidScan(ModeOf(s, tbl, kx))
    requires ScanCoding.After(ModeOf(s, tbl, kx), r, b, orig)
    ensures KnownBlock(r, orig, RowAfter(row, s))
  {
    if s.ss == 0 {
      forall k | 0 <= k < DCTSIZE2 ensures r[k] == KnownValue(orig[k], k, RowAfter(row, s)[k]) {
        if k > 0 {
          assert r[k] == r[1..][k - 1] == b[1..][k - 1] == b[k];
        }
      }
    }
  }

  /** DC values within 15 bits never meet the decoder's error exit. */
  ghost predicate SmallDc(img: Image) {
    forall c, b :: 0 <= c < |img| && 0 <= b < |img[c]| ==> -0x4000 <= img[c][b][0] < 0x4000
  }

  lemma {:induction false} ShrSmall(x: int, al: nat)
    requires -0x4000 <= x < 0x4000
    ensures -0x4000 <= Shr(x, al) < 0x4000
  {
  }

  lemma {:induction false} SmallIsReadable(scan: Scan, t: Tables, st: seq<DcState>, us: seq<Unit>)
    requires ValidStates(t, st) && ValidUnits(us, |st|)
    requires forall i :: 0 <= i < |us| ==> -0x4000 <= us[i].block[0] < 0x4000
    requires forall i :: 0 <= i < |st| ==> -0x4000 <= st[i].last < 0x4000
    ensures ReadableScan(scan, t, st, us)
    decreases |us|
  {
    if us != [] {
      if scan.DcFirst? { ShrSmall(us[0].block[0], scan.al); }
      SmallIsReadable(scan, t, NextStates(scan, t, st, us[0]), us[1..]);
    }
  }

  // ----- One scan ----------------------------------------------------------------

  lemma ScanReady(img: Image, orig: Image, p: Progress, s: ScanInfo, order: seq<Place>, tbl: nat, kx: nat)
    requires KnownImage(img, orig, p) && LegalScan(p, s, 13) && tbl < NUM_ARITH_TBLS
    requires InImage(order, s.comps, orig) && InImage(order, s.comps, img)
    ensures ValidScan(ModeOf(s, tbl, kx))
    ensures AllBefore(ModeOf(s, tbl, kx), Gather(img, s.comps, order), Gather(orig, s.comps, order))
  {
    BandValid(p, s, tbl, kx);
    var known, us := Gather(img, s.comps, order), Gather(orig, s.comps, order);
    forall i | 0 <= i < |order|
      ensures known[i].ci == us[i].ci && Before(ModeOf(s, tbl, kx), known[i].block, us[i].block)
    {
      var c := s.comps[order[i].ci];
      assert KnownBlock(img[c][order[i].index], orig[c][order[i].index], p[c]);
      BlockReady(known[i].block, us[i].block, p[c], s, tbl, kx);
    }
  }

  lemma BandValid(p: Progress, s: ScanInfo, tbl: nat, kx: nat)
    requires LegalScan(p, s, 13) && tbl < NUM_ARITH_TBLS
    ensures ValidScan(ModeOf(s, tbl, kx))
  {
  }

  lemma ScanKnown(img: Image, orig: Image, p: Progress, s: ScanInfo, order: seq<Place>, tbl: nat, kx: nat,
                  blocks: seq<Block>)
    requires KnownImage(img, orig, p) && LegalScan(p, s, 13) && tbl < NUM_ARITH_TBLS
    requires Covers(order, s.comps, orig) && Covers(order, s.comps, img) && Distinct(s.comps)
    requires ValidScan(ModeOf(s, tbl, kx))
    requires AllAfter(ModeOf(s, tbl, kx), blocks, Gather(img, s.comps, order), Gather(orig, s.comps, order))
    ensures KnownImage(Scatter(img, s.comps, order, blocks), orig, ScanScript.After(p, s))
  {
    var r := Scatter(img, s.comps, order, blocks);
    forall c, b | 0 <= c < |orig| && 0 <= b < |orig[c]|
      ensures KnownBlock(r[c][b], orig[c][b], ScanScript.After(p, s)[c])
    {
      assert KnownBlock(img[c][b], orig[c][b], p[c]);
      if c in s.comps {
        var ci :| 0 <= ci < |s.comps| && s.comps[ci] == c;
        assert Place(ci, b) in order;
        var i :| 0 <= i < |order| && order[i] == Place(ci, b);
        ScatterHits(img, s.comps, order, blocks, i);
        BlockKnown(blocks[i], img[c][b], orig[c][b], p[c], s, tbl, kx);
      } else {
        ScatterMisses(img, s.comps, order, blocks, c, b);
      }
    }
  }

  // ----- The whole script ----------------------------------------------------------

  /** Arithmetic coding tables of one component. */
  datatype CompTables = CompTables(dc: DcTable, acTbl: nat, kx: nat) {
    predicate Valid() {
      dc.Valid() && acTbl < NUM_ARITH_TBLS
    }
  }

  function TablesOf(s: ScanInfo, tabs: seq<CompTables>): (t: Tables)
    requires forall i :: 0 <= i < |s.comps| ==> 0 <= s.comps[i] < |tabs|
    requires forall c :: 0 <= c < |tabs| ==> tabs[c].Valid()
    ensures t.Valid() && |t.dc| == |s.comps|
  {
    var own := seq(|s.comps|, i requires 0 <= i < |s.comps| => tabs[s.comps[i]]);
    assert forall i :: 0 <= i < |own| ==> own[i] == tabs[s.comps[i]];
    assert forall i :: 0 <= i < |own| ==> own[i].Valid();
    Tables(seq(|own|, i requires 0 <= i < |own| => own[i].dc),
           seq(|own|, i requires 0 <= i < |own| => Band(own[i].acTbl, own[i].kx, 1, 63, 0)))
  }

  lemma {:induction false} ComponentsDistinct(s: ScanInfo, n: nat)
    requires LegalComponents(s, n)
    ensures Distinct(s.comps)
  {
    forall i, j | 0 <= i < j < |s.comps| ensures s.comps[i] != s.comps[j] {
      IncreasingIsDistinct(s, n, j);
    }
  }

  lemma GatheredSmall(orig: Image, comps: seq<int>, order: seq<Place>)
    requires InImage(order, comps, orig) && SmallDc(orig)
    ensures forall i :: 0 <= i < |order| ==> -0x4000 <= Gather(orig, comps, order)[i].block[0] < 0x4000
  {
  }

  ghost predicate LegalPlan(orig: Image, s: ScanInfo, order: seq<Place>, tabs: seq<CompTables>) {
    && LegalComponents(s, |orig|) && LegalParameters(s, 13)
    && |tabs| == |orig| && (forall c :: 0 <= c < |tabs| ==> tabs[c].Valid())
    && Covers(order, s.comps, orig)
  }

  /** No DC difference of the scan exceeds 2^15 in magnitude. */
  ghost predicate ScanReadable(orig: Image, s: ScanInfo, order: seq<Place>, tabs: seq<CompTables>)
    requires LegalPlan(orig, s, order, tabs)
  {
    DifferencesReadable(ModeOf(s, tabs[s.comps[0]].acTbl, tabs[s.comps[0]].kx), TablesOf(s, tabs),
                        Gather(orig, s.comps, order))
  }

  /** DC values within 15 bits make every scan readable. */
  lemma SmallDcReadable(orig: Image, s: ScanInfo, order: seq<Place>, tabs: seq<CompTables>)
    requires LegalPlan(orig, s, order, tabs) && SmallDc(orig)
    ensures ScanReadable(orig, s, order, tabs)
  {
    var t := TablesOf(s, tabs);
    GatheredSmall(orig, s.comps, order);
    SmallIsReadable(ModeOf(s, tabs[s.comps[0]].acTbl, tabs[s.comps[0]].kx), t, FreshStates(|t.dc|),
                    Gather(orig, s.comps, order));
  }

  /** One scan through encoder, bytes and decoder: the decoder succeeds exactly
      when the scan is readable.
   */
  method TransmitScan(orig: Image, img: Image, ghost p: Progress, s: ScanInfo, order: seq<Place>, tabs: seq<CompTables>,
                      marker: byte, rest: seq<byte>)
      returns (r: Image, ok: bool)
    requires KnownImage(img, orig, p) && LegalScan(p, s, 13)
    requires LegalPlan(orig, s, order, tabs) && marker != 0 && marker != 0xFF
    ensures ok <==> ScanReadable(orig, s, order, tabs)
    ensures ok ==> KnownImage(r, orig, ScanScript.After(p, s))
  {
    var first := tabs[s.comps[0]];
    var scan := ModeOf(s, first.acTbl, first.kx);
    var t := TablesOf(s, tabs);
    assert Covers(order, s.comps, img);
    ScanReady(img, orig, p, s, order, first.acTbl, first.kx);
    var us, known := Gather(orig, s.comps, order), Gather(img, s.comps, order);
    var blocks;
    blocks, ok := ScanRoundTrip(scan, t, us, known, marker, rest);
    r := img;
    if ok {
      ComponentsDistinct(s, |p|);
      ScanKnown(img, orig, p, s, order, first.acTbl, first.kx, blocks);
      r := Scatter(img, s.comps, order, blocks);
    }
  }

  function Blank(orig: Image): (img: Image)
    ensures SameShape(img, orig)
  {
    seq(|orig|, c requires 0 <= c < |orig| => seq(|orig[c]|, _ => seq(DCTSIZE2, _ => 0)))
  }

  /** Before the first scan nothing is known of any coefficient. */
  lemma BlankKnown(orig: Image)
    ensures KnownImage(Blank(orig), orig, Unsent(|orig|))
  {
  }

  lemma {:induction false} LegalWidens(p: Progress, scans: seq<ScanInfo>, maxAl: nat, i: nat)
    requires LegalFrom(p, scans, maxAl) && maxAl <= 13 && i < |scans|
    ensures LegalScan(AfterAll(p, scans[..i]), scans[i], 13)
    decreases i
  {
    if i > 0 {
      assert scans[..i][0] == scans[0] && scans[..i][1..] == scans[1..][..i - 1];
      LegalWidens(ScanScript.After(p, scans[0]), scans[1..], maxAl, i - 1);
    }
  }

  /** Every scan of a legal script in order: the decoder meets no error exactly
      when every scan is readable, and then ends up with each coefficient at its
      point transform by the last Al sent for it.
   */
  method TransmitScript(orig: Image, scans: seq<ScanInfo>, orders: seq<seq<Place>>, tabs: seq<CompTables>,
                        precision: nat, marker: byte, rest: seq<byte>)
      returns (img: Image, ok: bool)
    requires LegalProgressive(|orig|, scans, MaxAl(precision)) && |orders| == |scans|
    requires forall i :: 0 <= i < |scans| ==> LegalPlan(orig, scans[i], orders[i], tabs)
    requires marker != 0 && marker != 0xFF
    ensures ok <==> forall i :: 0 <= i < |scans| ==> ScanReadable(orig, scans[i], orders[i], tabs)
    ensures ok ==> KnownImage(img, orig, AfterAll(Unsent(|orig|), scans))
    ensures ok
            && (forall c, k :: 0 <= c < |orig| && 0 <= k < DCTSIZE2 ==> AfterAll(Unsent(|orig|), scans)[c][k] == 0)
            ==> img == orig
  {
    hide KnownImage, KnownBlock, LegalScan, LegalPlan, ScanReadable, LegalFrom, Covers, ScanScript.After;
    img := Blank(orig);
    ghost var p := Unsent(|orig|);
    BlankKnown(orig);
    for i := 0 to |scans|
      invariant p == AfterAll(Unsent(|orig|), scans[..i])
      invariant KnownImage(img, orig, p)
      invariant forall j :: 0 <= j < i ==> ScanReadable(orig, scans[j], orders[j], tabs)
    {
      LegalFromSnoc(Unsent(|orig|), scans, MaxAl(precision), i);
      LegalWidens(Unsent(|orig|), scans, MaxAl(precision), i);
      img, ok := TransmitScan(orig, img, p, scans[i], orders[i], tabs, marker, rest);
      if !ok { return; }
      p := ScanScript.After(p, scans[i]);
    }
    ok := true;
    assert scans[..|scans|] == scans;
    if forall c, k :: 0 <= c < |orig| && 0 <= k < DCTSIZE2 ==> p[c][k] == 0 {
      KnownExactly(img, orig, p);
    }
  }

  /** A coefficient sent down to bit 0 is known exactly. */
  lemma KnownExactly(img: Image, orig: Image, p: Progress)
    requires KnownImage(img, orig, p)
    requires forall c, k :: 0 <= c < |orig| && 0 <= k < DCTSIZE2 ==> p[c][k] == 0
    ensures img == orig
  {
    forall c | 0 <= c < |orig| ensures img[c] == orig[c] {
      forall b | 0 <= b < |orig[c]| ensures img[c][b] == orig[c][b] {
        assert KnownBlock(img[c][b], orig[c][b], p[c]);
        forall k | 0 <= k < DCTSIZE2 ensures img[c][b][k] == orig[c][b][k] {
          ApproxZero(orig[c][b][k]);
        }
      }
    }
  }
}
