/** A whole progressive script in Huffman coding (jcphuff.c, jdphuff.c): every
    scan gathered, given its tables, sent and decoded on top of what the decoder
    has, up to the image itself.
 */
module PhuffImage {
  import opened CodeBytes
  import opened Coefficients
  import opened AcSyntax
  import opened CanonicalCode
  import opened ScanCoding
  import opened ScanScript
  import opened ProgressiveImage
  import opened HuffmanDepth
  import opened HuffTokens
  import opened HuffSyntax
  import opened PhuffScan
  import HuffScan

  const NUM_HUFF_TBLS := 4

  // ----- One scan ----------------------------------------------------------------------------------

  /** A legal scan, the order of its blocks, and the table numbers of each component. */
  ghost predicate Plan(img: Image, s: ScanInfo, order: seq<Place>, tabs: seq<TablePair>) {
    && LegalComponents(s, |img|) && LegalParameters(s, 13)
    && |tabs| == |img| && (forall c :: 0 <= c < |tabs| ==> tabs[c].dc < NUM_HUFF_TBLS && tabs[c].ac < NUM_HUFF_TBLS)
    && Covers(order, s.comps, img)
  }

  function ModeFor(s: ScanInfo, tabs: seq<TablePair>): Scan
    requires 0 <= s.ss && 0 <= s.se && 0 <= s.al && |s.comps| >= 1 && 0 <= s.comps[0] < |tabs|
  {
    ModeOf(s, tabs[s.comps[0]].ac, 0)
  }

  function ScanTables(s: ScanInfo, tabs: seq<TablePair>): (t: seq<TablePair>)
    requires forall i :: 0 <= i < |s.comps| ==> 0 <= s.comps[i] < |tabs|
    ensures |t| == |s.comps|
  {
    seq(|s.comps|, i requires 0 <= i < |s.comps| => tabs[s.comps[i]])
  }

  lemma PlanFits(img: Image, s: ScanInfo, order: seq<Place>, tabs: seq<TablePair>)
    requires Plan(img, s, order, tabs)
    ensures ProgressiveMode(ModeFor(s, tabs)) && ValidUnits(Gather(img, s.comps, order), |s.comps|)
    ensures TableNumbers(ModeFor(s, tabs), ScanTables(s, tabs), NUM_HUFF_TBLS)
  {
  }

  /** The encoder meets no coefficient out of range in this scan. */
  ghost predicate ScanAcceptable(orig: Image, s: ScanInfo, order: seq<Place>, tabs: seq<TablePair>, maxBits: nat)
    requires Plan(orig, s, order, tabs)
  {
    PlanFits(orig, s, order, tabs);
    Acceptable(ModeFor(s, tabs), |s.comps|, Gather(orig, s.comps, order), maxBits)
  }

  ghost function TokensOf(orig: Image, s: ScanInfo, order: seq<Place>, tabs: seq<TablePair>, maxBits: nat): seq<Token>
    requires Plan(orig, s, order, tabs) && maxBits <= 14 && ScanAcceptable(orig, s, order, tabs, maxBits)
  {
    PlanFits(orig, s, order, tabs);
    PassTokens(ModeFor(s, tabs), ScanTables(s, tabs), Gather(orig, s.comps, order), maxBits)
  }

  /** The scan's data decode to its blocks. */
  ghost predicate ScanSent(c: CodedScan, orig: Image, s: ScanInfo, order: seq<Place>, tabs: seq<TablePair>)
    requires Plan(orig, s, order, tabs)
  {
    PlanFits(orig, s, order, tabs);
    ReadsBack(c, ModeFor(s, tabs), ScanTables(s, tabs), Gather(orig, s.comps, order))
  }

  /** The decoder's image after one more scan. */
  ghost function ReadScan(img: Image, c: CodedScan, tail: seq<byte>, s: ScanInfo, order: seq<Place>,
                          tabs: seq<TablePair>): (r: Image)
    requires WellTabled(c) && Plan(img, s, order, tabs)
    ensures SameShape(r, img)
  {
    PlanFits(img, s, order, tabs);
    Scatter(img, s.comps, order, ReadBytes(c.built, c.data + tail, ModeFor(s, tabs), ScanTables(s, tabs),
                                           Gather(img, s.comps, order)))
  }

  ghost predicate WellTabled(c: CodedScan) {
    GoodTables(c.built)
  }

  /** What is known of every coefficient after a legal scan. */
  lemma ScanAdds(orig: Image, img: Image, p: Progress, c: CodedScan, tail: seq<byte>, s: ScanInfo, order: seq<Place>,
                 tabs: seq<TablePair>)
    requires KnownImage(img, orig, p) && LegalScan(p, s, 13) && Plan(orig, s, order, tabs) && Plan(img, s, order, tabs)
    requires ScanSent(c, orig, s, order, tabs) && StartsWithMarker(tail)
    ensures WellTabled(c) && KnownImage(ReadScan(img, c, tail, s, order, tabs), orig, ScanScript.After(p, s))
  {
    hide KnownImage, LegalScan, Covers, ScanScript.After, ReadBytes, AllBefore, AllAfter, GoodTables, StartsWithMarker;
    var tbl, scan := tabs[s.comps[0]].ac, ModeFor(s, tabs);
    PlanFits(orig, s, order, tabs);
    PlanFits(img, s, order, tabs);
    CoversInside(img, s, order);
    CoversInside(orig, s, order);
    ScanReady(img, orig, p, s, order, tbl, 0);
    ComponentsDistinct(s, |img|);
    var known, us := Gather(img, s.comps, order), Gather(orig, s.comps, order);
    ScanKnown(img, orig, p, s, order, tbl, 0, ReadBytes(c.built, c.data + tail, scan, ScanTables(s, tabs), known));
  }

  lemma CoversInside(img: Image, s: ScanInfo, order: seq<Place>)
    requires Covers(order, s.comps, img)
    ensures InImage(order, s.comps, img)
  {
  }

  lemma PlanKept(a: Image, b: Image, s: ScanInfo, order: seq<Place>, tabs: seq<TablePair>)
    requires SameShape(a, b) && Plan(b, s, order, tabs)
    ensures Plan(a, s, order, tabs)
  {
    forall ci, i | 0 <= ci < |s.comps| && 0 <= s.comps[ci] < |a| && 0 <= i < |a[s.comps[ci]]|
      ensures Place(ci, i) in order
    {
      assert i < |b[s.comps[ci]]|;
    }
  }

  // ----- The whole script --------------------------------------------------------------------------

  ghost predicate Plans(img: Image, scans: seq<ScanInfo>, orders: seq<seq<Place>>, tabs: seq<TablePair>) {
    |orders| == |scans| && forall i :: 0 <= i < |scans| ==> Plan(img, scans[i], orders[i], tabs)
  }

  /** The decoder's image after the first `k` scans. */
  ghost function ReadScript(blank: Image, coded: seq<CodedScan>, tails: seq<seq<byte>>, scans: seq<ScanInfo>,
                            orders: seq<seq<Place>>,
                            tabs: seq<TablePair>, k: nat): (r: Image)
    requires k <= |scans| == |coded| == |tails| && Plans(blank, scans, orders, tabs)
    requires forall i :: 0 <= i < |coded| ==> WellTabled(coded[i])
    ensures SameShape(r, blank)
    decreases k
  {
    if k == 0 then blank
    else
      var img := ReadScript(blank, coded, tails, scans, orders, tabs, k - 1);
      PlanKept(img, blank, scans[k - 1], orders[k - 1], tabs);
      ReadScan(img, coded[k - 1], tails[k - 1], scans[k - 1], orders[k - 1], tabs)
  }

  ghost predicate AllSent(coded: seq<CodedScan>, orig: Image, scans: seq<ScanInfo>, orders: seq<seq<Place>>,
                          tabs: seq<TablePair>)
    requires Plans(orig, scans, orders, tabs)
  {
    |coded| == |scans| && forall i :: 0 <= i < |coded| ==> ScanSent(coded[i], orig, scans[i], orders[i], tabs)
  }

  ghost predicate AllMarked(tails: seq<seq<byte>>, n: nat) {
    |tails| == n && forall i :: 0 <= i < n ==> StartsWithMarker(tails[i])
  }

  lemma AllGood(coded: seq<CodedScan>, orig: Image, scans: seq<ScanInfo>, orders: seq<seq<Place>>, tabs: seq<TablePair>)
    requires Plans(orig, scans, orders, tabs) && AllSent(coded, orig, scans, orders, tabs)
    ensures forall i :: 0 <= i < |coded| ==> WellTabled(coded[i])
  {
    hide GoodTables, Plan;
    forall i | 0 <= i < |coded| ensures WellTabled(coded[i]) {
      assert ScanSent(coded[i], orig, scans[i], orders[i], tabs);
    }
  }

  lemma BlankPlans(orig: Image, scans: seq<ScanInfo>, orders: seq<seq<Place>>, tabs: seq<TablePair>)
    requires Plans(orig, scans, orders, tabs)
    ensures Plans(Blank(orig), scans, orders, tabs)
  {
    hide Plan;
    forall i | 0 <= i < |scans| ensures Plan(Blank(orig), scans[i], orders[i], tabs) {
      PlanKept(Blank(orig), orig, scans[i], orders[i], tabs);
    }
  }

  /** After each scan every coefficient is known down to the last Al sent for it. */
  lemma {:induction false} ScriptKnown(orig: Image, coded: seq<CodedScan>, tails: seq<seq<byte>>, scans: seq<ScanInfo>,
                                       orders: seq<seq<Place>>, tabs: seq<TablePair>, maxAl: nat, k: nat)
    requires k <= |scans| && LegalFrom(Unsent(|orig|), scans, maxAl) && maxAl <= 13
    requires Plans(orig, scans, orders, tabs) && AllSent(coded, orig, scans, orders, tabs) && AllMarked(tails, |scans|)
    ensures Plans(Blank(orig), scans, orders, tabs) && forall i :: 0 <= i < |coded| ==> WellTabled(coded[i])
    ensures KnownImage(ReadScript(Blank(orig), coded, tails, scans, orders, tabs, k), orig,
                       AfterAll(Unsent(|orig|), scans[..k]))
    decreases k
  {
    hide KnownImage, LegalScan, LegalFrom, Plan, ScanSent, WellTabled, ReadScan, ScanScript.After, StartsWithMarker;
    AllGood(coded, orig, scans, orders, tabs);
    BlankPlans(orig, scans, orders, tabs);
    if k == 0 {
      BlankKnown(orig);
      assert scans[..0] == [];
    } else {
      var i := k - 1;
      ScriptKnown(orig, coded, tails, scans, orders, tabs, maxAl, i);
      LegalFromSnoc(Unsent(|orig|), scans, maxAl, i);
      LegalWidens(Unsent(|orig|), scans, maxAl, i);
      var img := ReadScript(Blank(orig), coded, tails, scans, orders, tabs, i);
      PlanKept(img, Blank(orig), scans[i], orders[i], tabs);
      ScanAdds(orig, img, AfterAll(Unsent(|orig|), scans[..i]), coded[i], tails[i], scans[i], orders[i], tabs);
    }
  }

  /** The script ends with every bit of every coefficient sent. */
  ghost predicate Complete(n: nat, scans: seq<ScanInfo>) {
    forall c, k :: 0 <= c < n && 0 <= k < DCTSIZE2 ==> AfterAll(Unsent(n), scans)[c][k] == 0
  }

  /** Some scan has counts whose best code is too long. */
  ghost predicate ScriptOverlong(orig: Image, scans: seq<ScanInfo>, orders: seq<seq<Place>>, tabs: seq<TablePair>,
                                 maxBits: nat)
    requires Plans(orig, scans, orders, tabs) && maxBits <= 14
  {
    exists i :: 0 <= i < |scans| && ScanAcceptable(orig, scans[i], orders[i], tabs, maxBits)
                && HuffScan.SomeOverlong(TokensOf(orig, scans[i], orders[i], tabs, maxBits), NUM_HUFF_TBLS)
  }

  /** Every scan of an accepted script coded with tables of its own.  It fails if a
      coefficient is out of range in some scan, and otherwise only for counts
      whose best code has a length over 32.
   */
  method SendScript(orig: Image, scans: seq<ScanInfo>, orders: seq<seq<Place>>, tabs: seq<TablePair>, maxBits: nat)
      returns (coded: seq<CodedScan>, ok: bool)
    requires Plans(orig, scans, orders, tabs) && maxBits <= 14
    requires forall i :: 0 <= i < |scans| && ScanAcceptable(orig, scans[i], orders[i], tabs, maxBits) ==>
               |TokensOf(orig, scans[i], orders[i], tabs, maxBits)| < 1000000000
    ensures ok ==> AllSent(coded, orig, scans, orders, tabs)
    ensures ok ==> forall i :: 0 <= i < |scans| ==> ScanAcceptable(orig, scans[i], orders[i], tabs, maxBits)
    ensures (forall i :: 0 <= i < |scans| ==> ScanAcceptable(orig, scans[i], orders[i], tabs, maxBits)) && !ok ==>
              ScriptOverlong(orig, scans, orders, tabs, maxBits)
    ensures (forall i :: 0 <= i < |scans| ==>
               ScanAcceptable(orig, scans[i], orders[i], tabs, maxBits)
               && |TokensOf(orig, scans[i], orders[i], tabs, maxBits)| + 1 < LONG_CODE_COUNT) ==> ok
  {
    hide Acceptable, PassTokens, Covers, LegalComponents, LegalParameters, HuffScan.SomeOverlong, ReadsBack;
    coded := [];
    for i := 0 to |scans|
      invariant |coded| == i
      invariant forall j :: 0 <= j < i ==> ScanSent(coded[j], orig, scans[j], orders[j], tabs)
      invariant forall j :: 0 <= j < i ==> ScanAcceptable(orig, scans[j], orders[j], tabs, maxBits)
    {
      assert Plan(orig, scans[i], orders[i], tabs);
      var c;
      c, ok := SendOne(orig, scans[i], orders[i], tabs, maxBits);
      if !ok { return; }
      coded := coded + [c];
    }
    ok := true;
  }

  method SendOne(orig: Image, s: ScanInfo, order: seq<Place>, tabs: seq<TablePair>, maxBits: nat)
      returns (c: CodedScan, ok: bool)
    requires Plan(orig, s, order, tabs) && maxBits <= 14
    requires ScanAcceptable(orig, s, order, tabs, maxBits) ==> |TokensOf(orig, s, order, tabs, maxBits)| < 1000000000
    ensures ok ==> ScanAcceptable(orig, s, order, tabs, maxBits) && ScanSent(c, orig, s, order, tabs)
    ensures ScanAcceptable(orig, s, order, tabs, maxBits) ==>
              var ts := TokensOf(orig, s, order, tabs, maxBits);
              (!ok ==> HuffScan.SomeOverlong(ts, NUM_HUFF_TBLS)) && (|ts| + 1 < LONG_CODE_COUNT ==> ok)
  {
    hide Acceptable, PassTokens, HuffScan.SomeOverlong, ReadsBack;
    PlanFits(orig, s, order, tabs);
    c, ok := OptimizedPass(ModeFor(s, tabs), ScanTables(s, tabs), Gather(orig, s.comps, order), NUM_HUFF_TBLS, maxBits);
  }

  /** What was sent, read by any decoder with whatever markers follow each scan,
      leaves each coefficient at its point transform by the last Al sent for it;
      a complete script gives the image.
   */
  lemma ScriptRoundTrips(orig: Image, coded: seq<CodedScan>, tails: seq<seq<byte>>, scans: seq<ScanInfo>,
                         orders: seq<seq<Place>>,
                         tabs: seq<TablePair>, precision: nat)
    requires LegalProgressive(|orig|, scans, MaxAl(precision))
    requires Plans(orig, scans, orders, tabs) && AllSent(coded, orig, scans, orders, tabs) && AllMarked(tails, |scans|)
    ensures Plans(Blank(orig), scans, orders, tabs) && forall i :: 0 <= i < |coded| ==> WellTabled(coded[i])
    ensures var r := ReadScript(Blank(orig), coded, tails, scans, orders, tabs, |scans|);
            KnownImage(r, orig, AfterAll(Unsent(|orig|), scans)) && (Complete(|orig|, scans) ==> r == orig)
  {
    hide KnownImage, Plan, ScanSent, WellTabled, ReadScan, StartsWithMarker, LegalFrom;
    ScriptKnown(orig, coded, tails, scans, orders, tabs, MaxAl(precision), |scans|);
    assert scans[..|scans|] == scans;
    if Complete(|orig|, scans) {
      KnownExactly(ReadScript(Blank(orig), coded, tails, scans, orders, tabs, |scans|), orig,
                   AfterAll(Unsent(|orig|), scans));
    }
  }

  // ----- Images no scan rejects --------------------------------------------------------------------

  /** Coefficients of at most `maxBits` bits, DC values of as many and a sign. */
  ghost predicate ImageInRange(orig: Image, maxBits: nat) {
    forall c, b :: 0 <= c < |orig| && 0 <= b < |orig[c]| ==> CoefsInRange(orig[c][b], maxBits)
  }

  ghost predicate CoefsInRange(b: Block, maxBits: nat) {
    0 <= b[0] + Pow2(maxBits) < 2 * Pow2(maxBits) && forall k :: 1 <= k < DCTSIZE2 ==> Abs(b[k]) < Pow2(maxBits)
  }

  lemma BandWithin(b: Block, ss: nat, se: nat, al: nat, maxBits: nat)
    requires CoefsInRange(b, maxBits) && 1 <= ss && se < DCTSIZE2
    ensures BandInRange(b, ss, se, al, maxBits)
  {
    forall k | ss <= k <= se ensures NBits(Mag(b[k], al)) <= maxBits {
      NBitsBound(Mag(b[k], al), maxBits);
    }
  }

  lemma {:induction false} DcWithin(al: nat, last: seq<int>, us: seq<Unit>, maxBits: nat)
    requires ValidUnits(us, |last|) && forall i :: 0 <= i < |us| ==> CoefsInRange(us[i].block, maxBits)
    requires forall i :: 0 <= i < |last| ==> 0 <= last[i] + Pow2(maxBits) < 2 * Pow2(maxBits)
    ensures DcInRange(al, last, us, maxBits)
    decreases |us|
  {
    hide NBits, Shr;
    if us != [] {
      var ci, m := us[0].ci, Shr(us[0].block[0], al);
      assert CoefsInRange(us[0].block, maxBits);
      assert Pow2(maxBits + 1) == 2 * Pow2(maxBits);
      hide CoefsInRange, Pow2;
      assert 0 <= m + Pow2(maxBits) < 2 * Pow2(maxBits) by { ShrBetween(us[0].block, al, maxBits); }
      NBitsBound(Abs(m - last[ci]), maxBits + 1);
      DcWithin(al, last[ci := m], us[1..], maxBits);
    }
  }

  lemma ShrBetween(b: Block, al: nat, maxBits: nat)
    requires CoefsInRange(b, maxBits)
    ensures 0 <= Shr(b[0], al) + Pow2(maxBits) < 2 * Pow2(maxBits)
  {
  }

  /** An image in range has no scan that is rejected. */
  lemma InRangeAcceptable(orig: Image, s: ScanInfo, order: seq<Place>, tabs: seq<TablePair>, maxBits: nat)
    requires Plan(orig, s, order, tabs) && ImageInRange(orig, maxBits)
    ensures ScanAcceptable(orig, s, order, tabs, maxBits)
  {
    hide CoefsInRange, DcInRange, BandInRange;
    PlanFits(orig, s, order, tabs);
    var us := Gather(orig, s.comps, order);
    forall i | 0 <= i < |us| ensures CoefsInRange(us[i].block, maxBits) {
      assert us[i].block == orig[s.comps[order[i].ci]][order[i].index];
    }
    match ModeFor(s, tabs)
    case DcFirst(al) => DcWithin(al, Zeros(|s.comps|), us, maxBits);
    case AcFirst(t) =>
      forall i | 0 <= i < |us| ensures BandInRange(Blocks(us)[i], t.ss, t.se, t.al, maxBits) {
        BandWithin(us[i].block, t.ss, t.se, t.al, maxBits);
      }
    case _ =>
  }
}
