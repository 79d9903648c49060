/** The recommended scan scripts (jpeg_simple_progression, jcparam.c): all of them
    keep validate_script's rules and send every bit of every coefficient.
 */
module SimpleScript {
  import opened Coefficients
  import opened ScanScript
  import opened ScriptRows
  import opened SearchScript
  import opened ScanChoice

  function Fill(n: nat, ss: int, se: int, ah: int, al: int): seq<ScanInfo> {
    seq(n, c => Ac(c, ss, se, ah, al))
  }

  /** For color spaces other than YCbCr. */
  function AllPurpose(n: nat, maxCompression: bool): seq<ScanInfo> {
    if maxCompression then
      DcScans(n, 0, 0).1 + (Fill(n, 1, 8, 0, 2)
                            + (Fill(n, 9, 63, 0, 2) + (Fill(n, 1, 63, 2, 1) + Fill(n, 1, 63, 1, 0))))
    else
      DcScans(n, 0, 1).1 + (Fill(n, 1, 5, 0, 2) + (Fill(n, 6, 63, 0, 2)
                            + (Fill(n, 1, 63, 2, 1) + (DcScans(n, 1, 0).1 + Fill(n, 1, 63, 1, 0)))))
  }

  // ----- All components alike -----------------------------------------------------------------

  /** The first `i` components at one row, the others at another. */
  ghost function Mixed(n: nat, i: nat, done: seq<int>, todo: seq<int>): (p: Progress)
    requires |done| == |todo| == DCTSIZE2
    ensures |p| == n
  {
    seq(n, c => if c < i then done else todo)
  }

  /** One scan for each component. */
  lemma {:induction false} FillSends(n: nat, i: nat, ss: nat, se: nat, ah: nat, al: nat, before: seq<int>,
                                     after: seq<int>, maxAl: nat)
    requires i <= n && |before| == |after| == DCTSIZE2 && ss <= se < DCTSIZE2 && ah <= maxAl && al <= maxAl
    requires if ss == 0 then se == 0 else before[0] >= 0
    requires forall c: int, k :: ss <= k <= se ==> LegalBit(before[k], Ac(c, ss, se, ah, al))
    requires forall k :: 0 <= k < DCTSIZE2 ==> after[k] == if ss <= k <= se then al else before[k]
    ensures Sends(Mixed(n, 0, after, before), Fill(i, ss, se, ah, al), Mixed(n, i, after, before), maxAl)
    decreases i
  {
    hide Sends;
    if i == 0 {
      SendsNothing(Mixed(n, 0, after, before), maxAl);
    } else {
      var c := i - 1;
      var p, q := Mixed(n, c, after, before), Mixed(n, i, after, before);
      FillSends(n, c, ss, se, ah, al, before, after, maxAl);
      assert q == p[c := after];
      if ss == 0 {
        SendDc(p, [c], ah, al, q, maxAl);
      } else {
        SendAc(p, c, ss, se, ah, al, after, maxAl);
      }
      assert Fill(i, ss, se, ah, al) == Fill(c, ss, se, ah, al) + [Ac(c, ss, se, ah, al)];
      SendsMore(Mixed(n, 0, after, before), Fill(c, ss, se, ah, al), p, [Ac(c, ss, se, ah, al)], q, maxAl);
    }
  }

  ghost function Alike(n: nat, row: seq<int>): (p: Progress)
    requires |row| == DCTSIZE2
    ensures |p| == n
  {
    Mixed(n, n, row, row)
  }

  lemma AllSend(n: nat, ss: nat, se: nat, ah: nat, al: nat, before: seq<int>, after: seq<int>, maxAl: nat)
    requires |before| == |after| == DCTSIZE2 && 1 <= ss <= se < DCTSIZE2 && ah <= maxAl && al <= maxAl && before[0] >= 0
    requires forall c: int, k :: ss <= k <= se ==> LegalBit(before[k], Ac(c, ss, se, ah, al))
    requires forall k :: 0 <= k < DCTSIZE2 ==> after[k] == if ss <= k <= se then al else before[k]
    ensures Sends(Alike(n, before), Fill(n, ss, se, ah, al), Alike(n, after), maxAl)
  {
    hide Sends;
    FillSends(n, n, ss, se, ah, al, before, after, maxAl);
    assert Mixed(n, 0, after, before) == Alike(n, before) && Mixed(n, n, after, before) == Alike(n, after);
  }

  /** The DC scans, interleaved or not. */
  lemma DcAllSend(n: nat, ah: nat, al: nat, before: seq<int>, after: seq<int>, maxAl: nat)
    requires n >= 1 && |before| == DCTSIZE2 && after == before[0 := al] && ah <= maxAl && al <= maxAl
    requires if before[0] < 0 then ah == 0 else ah == before[0] && al == ah - 1
    ensures Sends(Alike(n, before), DcScans(n, ah, al).1, Alike(n, after), maxAl)
  {
    hide Sends;
    var p, q := Alike(n, before), Alike(n, after);
    if n <= MAX_COMPS_IN_SCAN {
      var comps := seq(n, c => c);
      EveryComponent(n);
      forall c | 0 <= c < n ensures c in comps {
        assert comps[c] == c;
      }
      SendDc(p, comps, ah, al, q, maxAl);
    } else {
      FillSends(n, n, 0, 0, ah, al, before, after, maxAl);
      assert Mixed(n, 0, after, before) == p && Mixed(n, n, after, before) == q;
      assert Fill(n, 0, 0, ah, al) == DcScans(n, ah, al).1;
    }
  }

  lemma EveryComponent(n: nat)
    requires 1 <= n <= MAX_COMPS_IN_SCAN
    ensures LegalComponents(ScanInfo(seq(n, c => c), 0, 0, 0, 0), n)
  {
  }

  lemma Nothing(n: nat)
    ensures Unsent(n) == Alike(n, Even(-1, -1))
  {
    var u := Unsent(n);
    forall c | 0 <= c < n ensures u[c] == Even(-1, -1) {
    }
  }

  /** The scripts for any number of components. */
  lemma AllPurposeSends(n: nat, maxCompression: bool, maxAl: nat)
    requires n >= 1 && maxAl >= 3
    ensures Sends(Unsent(n), AllPurpose(n, maxCompression), Alike(n, Even(0, 0)), maxAl)
  {
    hide Sends, Alike;
    Nothing(n);
    var start, end := Alike(n, Even(-1, -1)), Alike(n, Even(0, 0));
    if maxCompression {
      var r0, r1, r2, r3, r4 := Even(0, -1), Bands(0, 8, 2, -1), Even(0, 2), Even(0, 1), Even(0, 0);
      DcAllSend(n, 0, 0, Even(-1, -1), r0, maxAl);
      AllSend(n, 1, 8, 0, 2, r0, r1, maxAl);
      AllSend(n, 9, 63, 0, 2, r1, r2, maxAl);
      AllSend(n, 1, 63, 2, 1, r2, r3, maxAl);
      AllSend(n, 1, 63, 1, 0, r3, r4, maxAl);
      var d, a, b, c, e := DcScans(n, 0, 0).1, Fill(n, 1, 8, 0, 2), Fill(n, 9, 63, 0, 2), Fill(n, 1, 63, 2, 1),
                           Fill(n, 1, 63, 1, 0);
      SendsMore(Alike(n, r2), c, Alike(n, r3), e, end, maxAl);
      SendsMore(Alike(n, r1), b, Alike(n, r2), c + e, end, maxAl);
      SendsMore(Alike(n, r0), a, Alike(n, r1), b + (c + e), end, maxAl);
      SendsMore(start, d, Alike(n, r0), a + (b + (c + e)), end, maxAl);
    } else {
      var r0, r1, r2, r3, r4 := Even(1, -1), Bands(1, 5, 2, -1), Even(1, 2), Even(1, 1), Even(0, 1);
      DcAllSend(n, 0, 1, Even(-1, -1), r0, maxAl);
      AllSend(n, 1, 5, 0, 2, r0, r1, maxAl);
      AllSend(n, 6, 63, 0, 2, r1, r2, maxAl);
      AllSend(n, 1, 63, 2, 1, r2, r3, maxAl);
      DcAllSend(n, 1, 0, r3, r4, maxAl);
      AllSend(n, 1, 63, 1, 0, r4, Even(0, 0), maxAl);
      var d, a, b, c, f, e := DcScans(n, 0, 1).1, Fill(n, 1, 5, 0, 2), Fill(n, 6, 63, 0, 2), Fill(n, 1, 63, 2, 1),
                              DcScans(n, 1, 0).1, Fill(n, 1, 63, 1, 0);
      SendsMore(Alike(n, r3), f, Alike(n, r4), e, end, maxAl);
      SendsMore(Alike(n, r2), c, Alike(n, r3), f + e, end, maxAl);
      SendsMore(Alike(n, r1), b, Alike(n, r2), c + (f + e), end, maxAl);
      SendsMore(Alike(n, r0), a, Alike(n, r1), b + (c + (f + e)), end, maxAl);
      SendsMore(start, d, Alike(n, r0), a + (b + (c + (f + e))), end, maxAl);
    }
  }

  // ----- YCbCr ---------------------------------------------------------------------------------

  function YccDc(dcMode: int): seq<ScanInfo> {
    if dcMode == 0 then [ScanInfo([0, 1, 2], 0, 0, 0, 0)]
    else if dcMode == 1 then [Ac(0, 0, 0, 0, 0)] + ([Ac(1, 0, 0, 0, 0)] + [Ac(2, 0, 0, 0, 0)])
    else [Ac(0, 0, 0, 0, 0)] + [ScanInfo([1, 2], 0, 0, 0, 0)]
  }

  /** The AC scans for maximum compression. */
  function YccAc(): seq<ScanInfo> {
    [Ac(0, 1, 8, 0, 2)] + ([Ac(1, 1, 8, 0, 0)] + ([Ac(2, 1, 8, 0, 0)] + ([Ac(0, 9, 63, 0, 2)]
      + ([Ac(0, 1, 63, 2, 1)] + ([Ac(0, 1, 63, 1, 0)] + ([Ac(1, 9, 63, 0, 0)] + [Ac(2, 9, 63, 0, 0)]))))))
  }

  function YccFast(): seq<ScanInfo> {
    [ScanInfo([0, 1, 2], 0, 0, 0, 1)]
          + ([Ac(0, 1, 5, 0, 2)] + ([Ac(2, 1, 63, 0, 1)] + ([Ac(1, 1, 63, 0, 1)] + ([Ac(0, 6, 63, 0, 2)]
      + ([Ac(0, 1, 63, 2, 1)] + ([ScanInfo([0, 1, 2], 0, 0, 1, 0)]
        + ([Ac(2, 1, 63, 1, 0)] + ([Ac(1, 1, 63, 1, 0)] + [Ac(0, 1, 63, 1, 0)]))))))))
  }

  function Three(a: seq<int>, b: seq<int>, c: seq<int>): (p: Progress)
    requires |a| == |b| == |c| == DCTSIZE2
    ensures |p| == 3 && p[0] == a && p[1] == b && p[2] == c
  {
    [a, b, c]
  }

  lemma YccDcSends(dcMode: int, maxAl: nat)
    requires maxAl >= 3
    ensures Sends(Unsent(3), YccDc(dcMode), Three(Even(0, -1), Even(0, -1), Even(0, -1)), maxAl)
  {
    hide Sends, Coded, ChromaDc, Even;
    var ch := Choice(true, dcMode, dcMode, true, 0, 0, 0, 0);
    DcScansLead(ch, maxAl);
    DcStates(ch);
    SameDc(dcMode);
  }

  lemma SameDc(dcMode: int)
    ensures var ch := Choice(true, dcMode, dcMode, true, 0, 0, 0, 0); CodedAll(ch, [0] + ChromaDc(ch)) == YccDc(dcMode)
  {
    var ch := Choice(true, dcMode, dcMode, true, 0, 0, 0, 0);
    InOrder(3);
    if dcMode == 0 {
      assert [0] + ChromaDc(ch) == [0];
    } else {
      assert Coded(ch, 0) == Ac(0, 0, 0, 0, 0) && Coded(ch, 23) == ScanInfo([1, 2], 0, 0, 0, 0);
      assert Coded(ch, 24) == Ac(1, 0, 0, 0, 0) && Coded(ch, 25) == Ac(2, 0, 0, 0, 0);
    }
  }

  lemma YccAcSends(maxAl: nat)
    requires maxAl >= 3
    ensures Sends(Three(Even(0, -1), Even(0, -1), Even(0, -1)), YccAc(), Three(Even(0, 0), Even(0, 0), Even(0, 0)),
                  maxAl)
  {
    hide Sends, Even, Bands;
    var low, all := Bands(0, 8, 0, -1), Even(0, 0);
    var p0 := Three(Even(0, -1), Even(0, -1), Even(0, -1));
    var p1 := p0[0 := Bands(0, 8, 2, -1)];
    var p2 := p1[1 := low];
    var p3 := p2[2 := low];
    var p4 := p3[0 := Even(0, 2)];
    var p5 := p4[0 := Even(0, 1)];
    var p6 := p5[0 := all];
    var p7 := p6[1 := all];
    var end := p7[2 := all];
    assert end == Three(all, all, all);
    SendLow(p0, 0, 8, 0, 2, maxAl);
    SendLow(p1, 1, 8, 0, 0, maxAl);
    SendLow(p2, 2, 8, 0, 0, maxAl);
    SendHigh(p3, 0, 8, 0, 2, maxAl);
    SendRefine(p4, 0, 0, 1, maxAl);
    SendRefine(p5, 0, 0, 0, maxAl);
    SendHigh(p6, 1, 8, 0, 0, maxAl);
    SendHigh(p7, 2, 8, 0, 0, maxAl);
    var s7 := [Ac(2, 9, 63, 0, 0)];
    SendsMore(p6, [Ac(1, 9, 63, 0, 0)], p7, s7, end, maxAl);
    var s6 := [Ac(1, 9, 63, 0, 0)] + s7;
    SendsMore(p5, [Ac(0, 1, 63, 1, 0)], p6, s6, end, maxAl);
    var s5 := [Ac(0, 1, 63, 1, 0)] + s6;
    SendsMore(p4, [Ac(0, 1, 63, 2, 1)], p5, s5, end, maxAl);
    var s4 := [Ac(0, 1, 63, 2, 1)] + s5;
    SendsMore(p3, [Ac(0, 9, 63, 0, 2)], p4, s4, end, maxAl);
    var s3 := [Ac(0, 9, 63, 0, 2)] + s4;
    SendsMore(p2, [Ac(2, 1, 8, 0, 0)], p3, s3, end, maxAl);
    var s2 := [Ac(2, 1, 8, 0, 0)] + s3;
    SendsMore(p1, [Ac(1, 1, 8, 0, 0)], p2, s2, end, maxAl);
    SendsMore(p0, [Ac(0, 1, 8, 0, 2)], p1, [Ac(1, 1, 8, 0, 0)] + s2, end, maxAl);
  }

  /** DC scans of all three components. */
  lemma AllDc(p: Progress, q: Progress, ah: nat, al: nat, maxAl: nat)
    requires |p| == |q| == 3 && ah <= maxAl && al <= maxAl
    requires forall c :: 0 <= c < 3 ==> q[c] == p[c][0 := al] && LegalBit(p[c][0], ScanInfo([0, 1, 2], 0, 0, ah, al))
    ensures Sends(p, [ScanInfo([0, 1, 2], 0, 0, ah, al)], q, maxAl)
  {
    hide Sends;
    SendDc(p, [0, 1, 2], ah, al, q, maxAl);
  }

  lemma YccFastSends(maxAl: nat)
    requires maxAl >= 3
    ensures Sends(Unsent(3), YccFast(), Three(Even(0, 0), Even(0, 0), Even(0, 0)), maxAl)
  {
    hide Sends;
    var un, half, all := Even(1, -1), Even(1, 1), Even(0, 0);
    var start, p0 := Unsent(3), Three(un, un, un);
    var p1, p2, p3 := Three(Bands(1, 5, 2, -1), un, un), Three(Bands(1, 5, 2, -1), un, half),
                      Three(Bands(1, 5, 2, -1), half, half);
    var p4, p5, p6 := Three(Even(1, 2), half, half), Three(half, half, half), Three(Even(0, 1), Even(0, 1), Even(0, 1));
    AllDc(start, p0, 0, 1, maxAl);
    AllDc(p5, p6, 1, 0, maxAl);
    YccFastMiddle(p0, p1, p2, p3, p4, p5, maxAl);
    YccFastEnd(p6, maxAl);
    var mid := [Ac(0, 1, 5, 0, 2)]
          + ([Ac(2, 1, 63, 0, 1)] + ([Ac(1, 1, 63, 0, 1)] + ([Ac(0, 6, 63, 0, 2)] + [Ac(0, 1, 63, 2, 1)])));
    var last := [Ac(2, 1, 63, 1, 0)] + ([Ac(1, 1, 63, 1, 0)] + [Ac(0, 1, 63, 1, 0)]);
    var end := Three(all, all, all);
    SendsMore(p5, [ScanInfo([0, 1, 2], 0, 0, 1, 0)], p6, last, end, maxAl);
    SendsMore(p0, mid, p5, [ScanInfo([0, 1, 2], 0, 0, 1, 0)] + last, end, maxAl);
    SendsMore(start, [ScanInfo([0, 1, 2], 0, 0, 0, 1)], p0, mid + ([ScanInfo([0, 1, 2], 0, 0, 1, 0)] + last), end,
              maxAl);
    assert [ScanInfo([0, 1, 2], 0, 0, 0, 1)] + (mid + ([ScanInfo([0, 1, 2], 0, 0, 1, 0)] + last)) == YccFast();
  }

  lemma YccFastMiddle(p0: Progress, p1: Progress, p2: Progress, p3: Progress, p4: Progress, p5: Progress, maxAl: nat)
    requires maxAl >= 3 && p0 == Three(Even(1, -1), Even(1, -1), Even(1, -1)) && p1 == p0[0 := Bands(1, 5, 2, -1)]
    requires p2 == p1[2 := Even(1, 1)] && p3 == p2[1 := Even(1, 1)] && p4 == p3[0 := Even(1, 2)]
             && p5 == p4[0 := Even(1, 1)]
    ensures Sends(p0, [Ac(0, 1, 5, 0, 2)] + ([Ac(2, 1, 63, 0, 1)]
                      + ([Ac(1, 1, 63, 0, 1)] + ([Ac(0, 6, 63, 0, 2)] + [Ac(0, 1, 63, 2, 1)]))), p5, maxAl)
  {
    hide Sends, Even, Bands;
    SendLow(p0, 0, 5, 1, 2, maxAl);
    SendFull(p1, 2, 1, 1, maxAl);
    SendFull(p2, 1, 1, 1, maxAl);
    SendHigh(p3, 0, 5, 1, 2, maxAl);
    SendRefine(p4, 0, 1, 1, maxAl);
    SendsMore(p3, [Ac(0, 6, 63, 0, 2)], p4, [Ac(0, 1, 63, 2, 1)], p5, maxAl);
    SendsMore(p2, [Ac(1, 1, 63, 0, 1)], p3, [Ac(0, 6, 63, 0, 2)] + [Ac(0, 1, 63, 2, 1)], p5, maxAl);
    SendsMore(p1, [Ac(2, 1, 63, 0, 1)], p2, [Ac(1, 1, 63, 0, 1)] + ([Ac(0, 6, 63, 0, 2)] + [Ac(0, 1, 63, 2, 1)]), p5,
              maxAl);
    SendsMore(p0, [Ac(0, 1, 5, 0, 2)], p1,
              [Ac(2, 1, 63, 0, 1)] + ([Ac(1, 1, 63, 0, 1)] + ([Ac(0, 6, 63, 0, 2)] + [Ac(0, 1, 63, 2, 1)])), p5, maxAl);
  }

  lemma YccFastEnd(p6: Progress, maxAl: nat)
    requires maxAl >= 3 && p6 == Three(Even(0, 1), Even(0, 1), Even(0, 1))
    ensures Sends(p6, [Ac(2, 1, 63, 1, 0)] + ([Ac(1, 1, 63, 1, 0)] + [Ac(0, 1, 63, 1, 0)]),
                  Three(Even(0, 0), Even(0, 0), Even(0, 0)), maxAl)
  {
    hide Sends, Even;
    var p7 := p6[2 := Even(0, 0)];
    var p8 := p7[1 := Even(0, 0)];
    var end := p8[0 := Even(0, 0)];
    SendRefine(p6, 2, 0, 0, maxAl);
    SendRefine(p7, 1, 0, 0, maxAl);
    SendRefine(p8, 0, 0, 0, maxAl);
    SendsMore(p7, [Ac(1, 1, 63, 1, 0)], p8, [Ac(0, 1, 63, 1, 0)], end, maxAl);
    SendsMore(p6, [Ac(2, 1, 63, 1, 0)], p7, [Ac(1, 1, 63, 1, 0)] + [Ac(0, 1, 63, 1, 0)], end, maxAl);
    assert end == Three(Even(0, 0), Even(0, 0), Even(0, 0));
  }

  // ----- jpeg_simple_progression -----------------------------------------------------------------

  function Recommended(n: nat, ycc: bool, maxCompression: bool, dcMode: int): seq<ScanInfo> {
    if n == 3 && ycc then (if maxCompression then YccDc(dcMode) + YccAc() else YccFast())
         else AllPurpose(n, maxCompression)
  }

  /** Every recommended script is legal and leaves nothing out. */
  lemma RecommendedIsLegal(n: nat, ycc: bool, maxCompression: bool, dcMode: int, maxAl: nat)
    requires n >= 1 && maxAl >= 3
    ensures LegalProgressive(n, Recommended(n, ycc, maxCompression, dcMode), maxAl)
    ensures FullySent(AfterAll(Unsent(n), Recommended(n, ycc, maxCompression, dcMode)))
  {
    hide LegalFrom, AfterAll, AllPurpose, YccDc, YccAc, YccFast;
    var script := Recommended(n, ycc, maxCompression, dcMode);
    var end: Progress;
    if n == 3 && ycc {
      end := Three(Even(0, 0), Even(0, 0), Even(0, 0));
      if maxCompression {
        YccDcSends(dcMode, maxAl);
        YccAcSends(maxAl);
        SendsMore(Unsent(3), YccDc(dcMode), Three(Even(0, -1), Even(0, -1), Even(0, -1)), YccAc(), end, maxAl);
      } else {
        YccFastSends(maxAl);
      }
    } else {
      end := Alike(n, Even(0, 0));
      AllPurposeSends(n, maxCompression, maxAl);
    }
    NotEmpty(n, ycc, maxCompression, dcMode);
    SendsLegal(n, script, end, maxAl);
  }

  lemma NotEmpty(n: nat, ycc: bool, maxCompression: bool, dcMode: int)
    requires n >= 1
    ensures Recommended(n, ycc, maxCompression, dcMode) != []
  {
  }

  // ----- Filling the script ----------------------------------------------------------------------

  /** The scans filled in so far. */
  ghost predicate Filled(script: seq<ScanInfo>, at: nat, done: seq<ScanInfo>) {
    at <= |script| && script[..at] == done
  }

  method AddScan(script: array<ScanInfo>, at: nat, c: int, ss: int, se: int, ah: int, al: int,
                 ghost done: seq<ScanInfo>) returns (next: nat)
    requires at < script.Length && Filled(script[..], at, done)
    modifies script
    ensures next == at + 1 && Filled(script[..], next, done + [Ac(c, ss, se, ah, al)])
  {
    ghost var before := script[..];
    next := FillAScan(script, at, c, ss, se, ah, al);
    assert script[..next] == before[..at] + [Ac(c, ss, se, ah, al)];
  }

  method AddScans(script: array<ScanInfo>, at: nat, n: nat, ss: int, se: int, ah: int, al: int,
                  ghost done: seq<ScanInfo>) returns (next: nat)
    requires at + n <= script.Length && Filled(script[..], at, done)
    modifies script
    ensures next == at + n && Filled(script[..], next, done + Fill(n, ss, se, ah, al))
  {
    ghost var before := script[..];
    next := FillScans(script, at, n, ss, se, ah, al);
    assert Fill(n, ss, se, ah, al) == seq(n, c => Ac(c, ss, se, ah, al));
    assert script[..next] == before[..at] + Fill(n, ss, se, ah, al);
  }

  method AddDc(script: array<ScanInfo>, at: nat, n: nat, ah: int, al: int, ghost done: seq<ScanInfo>)
      returns (next: nat)
    requires at + DcScans(n, ah, al).0 <= script.Length && Filled(script[..], at, done)
    modifies script
    ensures next == at + DcScans(n, ah, al).0 && Filled(script[..], next, done + DcScans(n, ah, al).1)
  {
    hide DcScans;
    ghost var before := script[..];
    next := FillDcScans(script, at, n, ah, al);
    assert script[..next] == before[..at] + DcScans(n, ah, al).1;
  }

  lemma DcCount(n: nat, ah: int, al: int)
    ensures DcScans(n, ah, al).0 == if n <= 4 then 1 else n
  {
  }

  lemma FilledNone(script: seq<ScanInfo>)
    ensures Filled(script, 0, [])
  {
  }

  lemma Five(d: seq<ScanInfo>, a: seq<ScanInfo>, b: seq<ScanInfo>, c: seq<ScanInfo>, e: seq<ScanInfo>)
    ensures (((([] + d) + a) + b) + c) + e == d + (a + (b + (c + e)))
  {
  }

  method FillTwoPasses(script: array<ScanInfo>, n: nat) returns (at: nat)
    requires script.Length >= if n > 4 then 5 * n else 1 + 4 * n
    modifies script
    ensures at == (if n > 4 then 5 * n else 1 + 4 * n) && Filled(script[..], at, AllPurpose(n, true))
  {
    hide Fill, DcScans, Filled;
    DcCount(n, 0, 0);
    FilledNone(script[..]);
    ghost var d, a, b, c := DcScans(n, 0, 0).1, Fill(n, 1, 8, 0, 2), Fill(n, 9, 63, 0, 2), Fill(n, 1, 63, 2, 1);
    at := AddDc(script, 0, n, 0, 0, []);
    at := AddScans(script, at, n, 1, 8, 0, 2, [] + d);
    at := AddScans(script, at, n, 9, 63, 0, 2, ([] + d) + a);
    at := AddScans(script, at, n, 1, 63, 2, 1, (([] + d) + a) + b);
    at := AddScans(script, at, n, 1, 63, 1, 0, ((([] + d) + a) + b) + c);
    Five(d, a, b, c, Fill(n, 1, 63, 1, 0));
  }

  method FillStandard(script: array<ScanInfo>, n: nat) returns (at: nat)
    requires script.Length >= if n > 4 then 6 * n else 2 + 4 * n
    modifies script
    ensures at == (if n > 4 then 6 * n else 2 + 4 * n) && Filled(script[..], at, AllPurpose(n, false))
  {
    hide Fill, DcScans, Filled;
    DcCount(n, 0, 1);
    DcCount(n, 1, 0);
    FilledNone(script[..]);
    ghost var d, a, b, c, f, e := DcScans(n, 0, 1).1, Fill(n, 1, 5, 0, 2), Fill(n, 6, 63, 0, 2), Fill(n, 1, 63, 2, 1),
                                  DcScans(n, 1, 0).1, Fill(n, 1, 63, 1, 0);
    at := AddDc(script, 0, n, 0, 1, []);
    at := AddScans(script, at, n, 1, 5, 0, 2, [] + d);
    at := AddScans(script, at, n, 6, 63, 0, 2, ([] + d) + a);
    at := AddScans(script, at, n, 1, 63, 2, 1, (([] + d) + a) + b);
    at := AddDc(script, at, n, 1, 0, ((([] + d) + a) + b) + c);
    at := AddScans(script, at, n, 1, 63, 1, 0, (((([] + d) + a) + b) + c) + f);
    Five(d, a, b, c, f + e);
    assert ((((([] + d) + a) + b) + c) + f) + e == (((([] + d) + a) + b) + c) + (f + e);
  }

  method FillYccDc(script: array<ScanInfo>, dcMode: int) returns (at: nat)
    requires script.Length >= 3
    modifies script
    ensures at == |YccDc(dcMode)| && Filled(script[..], at, YccDc(dcMode))
  {
    hide Filled;
    FilledNone(script[..]);
    if dcMode == 0 {
      InOrder(3);
      at := AddDc(script, 0, 3, 0, 0, []);
      assert [] + DcScans(3, 0, 0).1 == YccDc(0);
    } else if dcMode == 1 {
      at := AddScan(script, 0, 0, 0, 0, 0, 0, []);
      at := AddScan(script, at, 1, 0, 0, 0, 0, [] + [Ac(0, 0, 0, 0, 0)]);
      at := AddScan(script, at, 2, 0, 0, 0, 0, ([] + [Ac(0, 0, 0, 0, 0)]) + [Ac(1, 0, 0, 0, 0)]);
      assert (([] + [Ac(0, 0, 0, 0, 0)]) + [Ac(1, 0, 0, 0, 0)]) + [Ac(2, 0, 0, 0, 0)] == YccDc(1);
    } else {
      InOrder(1);
      at := AddDc(script, 0, 1, 0, 0, []);
      assert [] + DcScans(1, 0, 0).1 == [Ac(0, 0, 0, 0, 0)];
      at := AddPair(script, at, [Ac(0, 0, 0, 0, 0)]);
    }
  }

  method AddPair(script: array<ScanInfo>, at: nat, ghost done: seq<ScanInfo>) returns (next: nat)
    requires at < script.Length && Filled(script[..], at, done)
    modifies script
    ensures next == at + 1 && Filled(script[..], next, done + [ScanInfo([1, 2], 0, 0, 0, 0)])
  {
    ghost var before := script[..];
    next := FillAScanPair(script, at, 1, 0, 0, 0, 0);
    assert script[..next] == before[..at] + [ScanInfo([1, 2], 0, 0, 0, 0)];
  }

  /** The scans of a list one after the other, each for one component. */
  method AddEach(script: array<ScanInfo>, at: nat, scans: seq<ScanInfo>, ghost done: seq<ScanInfo>) returns (next: nat)
    requires at + |scans| <= script.Length && Filled(script[..], at, done)
             && forall i :: 0 <= i < |scans| ==> |scans[i].comps| == 1
    modifies script
    ensures next == at + |scans| && Filled(script[..], next, done + scans)
  {
    hide Filled;
    next := at;
    assert done + scans[..0] == done;
    for i := 0 to |scans|
      invariant next == at + i && Filled(script[..], next, done + scans[..i])
    {
      var s := scans[i];
      assert [s.comps[0]] == s.comps;
      next := AddScan(script, next, s.comps[0], s.ss, s.se, s.ah, s.al, done + scans[..i]);
      assert (done + scans[..i]) + [s] == done + scans[..i + 1];
    }
    assert scans[..|scans|] == scans;
  }

  method FillYccMax(script: array<ScanInfo>, dcMode: int) returns (at: nat)
    requires script.Length >= 11
    modifies script
    ensures at == (if dcMode == 0 then 9 else if dcMode == 1 then 11 else 10)
            && Filled(script[..], at, YccDc(dcMode) + YccAc())
  {
    hide Filled;
    at := FillYccDc(script, dcMode);
    at := AddEach(script, at, YccAc(), YccDc(dcMode));
  }

  function NumScans(n: nat, ycc: bool, maxCompression: bool, dcMode: int): nat {
    if n == 3 && ycc then (if !maxCompression || (dcMode != 0 && dcMode != 1) then 10 else if dcMode == 0 then 9
                           else 11)
    else if maxCompression then (if n > 4 then 5 * n else 1 + 4 * n)
    else if n > 4 then 6 * n else 2 + 4 * n
  }

  /** jpeg_simple_progression: the number of scans computed beforehand is right. */
  method SimpleProgression(script: array<ScanInfo>, n: nat, ycc: bool, maxCompression: bool, dcMode: int)
      returns (nscans: nat)
    requires n >= 1 && script.Length >= (if n > 4 then 6 * n else 2 + 4 * n)
    modifies script
    ensures nscans == NumScans(n, ycc, maxCompression, dcMode) <= script.Length
    ensures Filled(script[..], nscans, Recommended(n, ycc, maxCompression, dcMode))
  {
    hide AllPurpose, YccFast, YccDc, YccAc, Filled;
    nscans := NumScans(n, ycc, maxCompression, dcMode);
    var at;
    if n == 3 && ycc {
      if maxCompression {
        at := FillYccMax(script, dcMode);
      } else {
        at := FillYccFast(script);
      }
    } else if maxCompression {
      at := FillTwoPasses(script, n);
    } else {
      at := FillStandard(script, n);
    }
  }

  method FillYccFast(script: array<ScanInfo>) returns (at: nat)
    requires script.Length >= 10
    modifies script
    ensures at == 10 && Filled(script[..], at, YccFast())
  {
    hide Filled;
    FilledNone(script[..]);
    InOrder(3);
    at := AddDc(script, 0, 3, 0, 1, []);
    ghost var first := [ScanInfo([0, 1, 2], 0, 0, 0, 1)];
    assert [] + DcScans(3, 0, 1).1 == first;
    var mid := [Ac(0, 1, 5, 0, 2), Ac(2, 1, 63, 0, 1), Ac(1, 1, 63, 0, 1), Ac(0, 6, 63, 0, 2), Ac(0, 1, 63, 2, 1)];
    at := AddEach(script, at, mid, first);
    at := AddDc(script, at, 3, 1, 0, first + mid);
    ghost var dc := [ScanInfo([0, 1, 2], 0, 0, 1, 0)];
    assert DcScans(3, 1, 0).1 == dc;
    var last := [Ac(2, 1, 63, 1, 0), Ac(1, 1, 63, 1, 0), Ac(0, 1, 63, 1, 0)];
    at := AddEach(script, at, last, (first + mid) + dc);
    assert ((first + mid) + dc) + last == YccFast();
  }
}
