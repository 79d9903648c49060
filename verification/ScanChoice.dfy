/** The scans the search puts together in the end (the copying part of
    select_scans, jcmaster.c): whatever the search chose, they form a legal
    progressive script that sends every bit of every coefficient once.
 */
module ScanChoice {
  import opened Coefficients
  import opened ScanScript
  import opened ScriptRows
  import opened SearchScript

  /** What the search decides: for luma and chroma the point transform of the
      first AC scans and where the band is split, and whether the chroma DC
      coefficients share a scan; and dc_scan_opt_mode, once when the list is made
      and once when scans are copied.
   */
  datatype Choice = Choice(color: bool, listMode: int, copyMode: int, interleave: bool, alLuma: nat, splitLuma: nat,
                           alChroma: nat, splitChroma: nat)

  predicate InRange(ch: Choice) {
    && ch.alLuma <= 3 && ch.splitLuma <= 5
    && if ch.color then ch.alChroma <= 2 && ch.splitChroma <= 5 else ch.alChroma == 0
  }

  function Comps(ch: Choice): nat {
    if ch.color then 3 else 1
  }

  /** A scan of the list as it was coded: the frequency split scans use the point
      transform found before.
   */
  function Coded(ch: Choice, i: nat): ScanInfo {
    var s := TrialScan(i, Comps(ch), ch.listMode);
    if 12 <= i < 23 then s.(al := ch.alLuma) else if 42 <= i < 64 then s.(al := ch.alChroma) else s
  }

  function CodedAll(ch: Choice, scans: seq<nat>): seq<ScanInfo> {
    seq(|scans|, i requires 0 <= i < |scans| => Coded(ch, scans[i]))
  }

  // ----- The copied scans ----------------------------------------------------------------------

  function MinAl(ch: Choice): nat {
    if ch.alLuma < ch.alChroma then ch.alLuma else ch.alChroma
  }

  /** The chroma DC scans, unless scan 0 holds all DC coefficients. */
  function ChromaDc(ch: Choice): seq<nat> {
    if !ch.color || ch.copyMode == 0 then [] else if ch.interleave && ch.copyMode != 1 then [23] else [24] + [25]
  }

  function LumaParts(ch: Choice): seq<nat>
  {
    if ch.splitLuma == 0 then [12] else [12 + 2 * (ch.splitLuma - 1) + 1] + [12 + 2 * (ch.splitLuma - 1) + 2]
  }

  function ChromaSplits(ch: Choice): seq<nat> {
    if ch.splitChroma == 0 then [42] + [43]
    else
      var at := 42 + 4 * (ch.splitChroma - 1);
      ([at + 2] + [at + 3]) + ([at + 4] + [at + 5])
  }

  /** The refinement scans from bit `from - 1` down to bit `to`. */
  function LumaBits(from: nat, to: nat): seq<nat> {
    if from <= to then [] else [3 + 3 * (from - 1)] + LumaBits(from - 1, to)
  }

  function ChromaBits(from: nat, to: nat): seq<nat> {
    if from <= to then [] else ([26 + 6 * (from - 1) + 4] + [26 + 6 * (from - 1) + 5]) + ChromaBits(from - 1, to)
  }

  function SharedBits(color: bool, from: nat): seq<nat> {
    if from == 0 then []
    else
      var al := from - 1;
      ([3 + 3 * al] + if color then [26 + 6 * al + 4] + [26 + 6 * al + 5] else []) + SharedBits(color, al)
  }

  /** The scans copied, in order. */
  function Copied(ch: Choice): seq<nat> {
    [0] + (ChromaDc(ch) + (LumaParts(ch) + (LumaBits(ch.alLuma, MinAl(ch))
      + ((if ch.color then ChromaSplits(ch) + ChromaBits(ch.alChroma, MinAl(ch)) else [])
         + SharedBits(ch.color, MinAl(ch))))))
  }

  /** The list and the copying agree on whether scan 0 holds all DC coefficients. */
  predicate SameDcPlan(ch: Choice) {
    ch.color ==> (ch.listMode == 0 <==> ch.copyMode == 0)
  }

  // ----- What they send ---------------------------------------------------------------------------

  /** All DC coefficients sent; the AC coefficients of luma and chroma alike. */
  function State(color: bool, luma: int, chroma: int): (p: Progress)
    ensures |p| == if color then 3 else 1
  {
    if color then [Even(0, luma), Even(0, chroma), Even(0, chroma)] else [Even(0, luma)]
  }

  ghost predicate Leads(ch: Choice, p: Progress, scans: seq<nat>, q: Progress, maxAl: nat) {
    Sends(p, CodedAll(ch, scans), q, maxAl)
  }

  lemma LeadsNowhere(ch: Choice, p: Progress, maxAl: nat)
    ensures Leads(ch, p, [], p, maxAl)
  {
    SendsNothing(p, maxAl);
  }

  lemma LeadsOn(ch: Choice, p: Progress, a: seq<nat>, q: Progress, b: seq<nat>, r: Progress, maxAl: nat)
    requires Leads(ch, p, a, q, maxAl) && Leads(ch, q, b, r, maxAl)
    ensures Leads(ch, p, a + b, r, maxAl)
  {
    hide Sends, Coded;
    assert CodedAll(ch, a + b) == CodedAll(ch, a) + CodedAll(ch, b);
    SendsMore(p, CodedAll(ch, a), q, CodedAll(ch, b), r, maxAl);
  }

  lemma LeadsOne(ch: Choice, p: Progress, i: nat, s: ScanInfo, q: Progress, maxAl: nat)
    requires Coded(ch, i) == s && Sends(p, [s], q, maxAl)
    ensures Leads(ch, p, [i], q, maxAl)
  {
    hide Sends, Coded;
    assert CodedAll(ch, [i]) == [s];
  }

  /** Both parts of a split band. */
  lemma LeadsSplit(ch: Choice, p: Progress, i: nat, c: nat, f: nat, al: nat, maxAl: nat)
    requires Coded(ch, i) == Ac(c, 1, f, 0, al) && Coded(ch, i + 1) == Ac(c, f + 1, 63, 0, al)
    requires c < |p| && 1 <= f < 63 && p[c] == Even(0, -1) && al <= maxAl
    ensures Leads(ch, p, [i] + [i + 1], p[c := Even(0, al)], maxAl)
  {
    hide Sends, Coded, Even;
    SendSplit(p, c, f, 0, al, maxAl);
    assert CodedAll(ch, [i] + [i + 1]) == [Ac(c, 1, f, 0, al)] + [Ac(c, f + 1, 63, 0, al)];
  }

  lemma LumaPartsLead(ch: Choice, maxAl: nat)
    requires InRange(ch) && maxAl >= 3
    ensures Leads(ch, State(ch.color, -1, -1), LumaParts(ch), State(ch.color, ch.alLuma, -1), maxAl)
  {
    hide Sends, Leads, Even;
    var p, q := State(ch.color, -1, -1), State(ch.color, ch.alLuma, -1);
    assert p[0 := Even(0, ch.alLuma)] == q;
    if ch.splitLuma == 0 {
      SendFull(p, 0, 0, ch.alLuma, maxAl);
      LeadsOne(ch, p, 12, Ac(0, 1, 63, 0, ch.alLuma), q, maxAl);
    } else {
      LeadsSplit(ch, p, 13 + 2 * (ch.splitLuma - 1), 0, FrequencySplit(ch.splitLuma - 1), ch.alLuma, maxAl);
    }
  }

  lemma ChromaPartsCoded(ch: Choice, split: nat)
    requires ch.color && split <= 4
    ensures var i, f := 44 + 4 * split, FrequencySplit(split);
            && Coded(ch, i) == Ac(1, 1, f, 0, ch.alChroma) && Coded(ch, i + 1) == Ac(1, f + 1, 63, 0, ch.alChroma)
            && Coded(ch, i + 2) == Ac(2, 1, f, 0, ch.alChroma) && Coded(ch, i + 3) == Ac(2, f + 1, 63, 0, ch.alChroma)
    ensures Coded(ch, 42) == Ac(1, 1, 63, 0, ch.alChroma) && Coded(ch, 43) == Ac(2, 1, 63, 0, ch.alChroma)
  {
    hide FrequencySplit;
  }

  lemma ChromaSplitsLead(ch: Choice, luma: int, maxAl: nat)
    requires InRange(ch) && ch.color && maxAl >= 3
    ensures Leads(ch, State(true, luma, -1), ChromaSplits(ch), State(true, luma, ch.alChroma), maxAl)
  {
    hide Sends, Leads, Even, Coded, FrequencySplit;
    ChromaPartsCoded(ch, if ch.splitChroma == 0 then 0 else ch.splitChroma - 1);
    var p, q := State(true, luma, -1), State(true, luma, ch.alChroma);
    var mid := p[1 := Even(0, ch.alChroma)];
    assert mid[2 := Even(0, ch.alChroma)] == q;
    if ch.splitChroma == 0 {
      SendFull(p, 1, 0, ch.alChroma, maxAl);
      LeadsOne(ch, p, 42, Ac(1, 1, 63, 0, ch.alChroma), mid, maxAl);
      SendFull(mid, 2, 0, ch.alChroma, maxAl);
      LeadsOne(ch, mid, 43, Ac(2, 1, 63, 0, ch.alChroma), q, maxAl);
      LeadsOn(ch, p, [42], mid, [43], q, maxAl);
    } else {
      var i, f := 44 + 4 * (ch.splitChroma - 1), FrequencySplit(ch.splitChroma - 1);
      LeadsSplit(ch, p, i, 1, f, ch.alChroma, maxAl);
      LeadsSplit(ch, mid, i + 2, 2, f, ch.alChroma, maxAl);
      LeadsOn(ch, p, [i] + [i + 1], mid, [i + 2] + [i + 2 + 1], q, maxAl);
    }
  }

  lemma LumaBitLeads(ch: Choice, al: nat, chroma: int, maxAl: nat)
    requires al < 3 <= maxAl
    ensures Leads(ch, State(ch.color, al + 1, chroma), [3 + 3 * al], State(ch.color, al, chroma), maxAl)
  {
    hide Sends, Leads, Even;
    var p, q := State(ch.color, al + 1, chroma), State(ch.color, al, chroma);
    SendRefine(p, 0, 0, al, maxAl);
    assert p[0 := Even(0, al)] == q;
    LeadsOne(ch, p, 3 + 3 * al, Ac(0, 1, 63, al + 1, al), q, maxAl);
  }

  lemma ChromaBitLeads(ch: Choice, al: nat, luma: int, maxAl: nat)
    requires al < 2 && 3 <= maxAl && ch.color
    ensures Leads(ch, State(true, luma, al + 1), [26 + 6 * al + 4] + [26 + 6 * al + 5], State(true, luma, al), maxAl)
  {
    hide Sends, Leads, Even;
    var p, q := State(true, luma, al + 1), State(true, luma, al);
    var mid := p[1 := Even(0, al)];
    assert mid[2 := Even(0, al)] == q;
    SendRefine(p, 1, 0, al, maxAl);
    LeadsOne(ch, p, 30 + 6 * al, Ac(1, 1, 63, al + 1, al), mid, maxAl);
    SendRefine(mid, 2, 0, al, maxAl);
    LeadsOne(ch, mid, 31 + 6 * al, Ac(2, 1, 63, al + 1, al), q, maxAl);
    LeadsOn(ch, p, [30 + 6 * al], mid, [31 + 6 * al], q, maxAl);
  }

  lemma {:induction false} LumaBitsLead(ch: Choice, from: nat, to: nat, chroma: int, maxAl: nat)
    requires to <= from <= 3 <= maxAl
    ensures Leads(ch, State(ch.color, from, chroma), LumaBits(from, to), State(ch.color, to, chroma), maxAl)
    decreases from
  {
    hide Leads, State;
    if from == to {
      LeadsNowhere(ch, State(ch.color, from, chroma), maxAl);
    } else {
      var p, mid, q := State(ch.color, from, chroma), State(ch.color, from - 1, chroma), State(ch.color, to, chroma);
      LumaBitLeads(ch, from - 1, chroma, maxAl);
      LumaBitsLead(ch, from - 1, to, chroma, maxAl);
      LeadsOn(ch, p, [3 + 3 * (from - 1)], mid, LumaBits(from - 1, to), q, maxAl);
    }
  }

  lemma {:induction false} ChromaBitsLead(ch: Choice, from: nat, to: nat, luma: int, maxAl: nat)
    requires to <= from <= 2 && 3 <= maxAl && ch.color
    ensures Leads(ch, State(true, luma, from), ChromaBits(from, to), State(true, luma, to), maxAl)
    decreases from
  {
    hide Leads, State;
    if from == to {
      LeadsNowhere(ch, State(true, luma, from), maxAl);
    } else {
      var p, mid, q := State(true, luma, from), State(true, luma, from - 1), State(true, luma, to);
      ChromaBitLeads(ch, from - 1, luma, maxAl);
      ChromaBitsLead(ch, from - 1, to, luma, maxAl);
      LeadsOn(ch, p, [26 + 6 * (from - 1) + 4] + [26 + 6 * (from - 1) + 5], mid, ChromaBits(from - 1, to), q, maxAl);
    }
  }

  lemma {:induction false} SharedBitsLead(ch: Choice, from: nat, chroma: int, maxAl: nat)
    requires from <= (if ch.color then 2 else 3) && 3 <= maxAl && (ch.color ==> chroma == from)
    ensures Leads(ch, State(ch.color, from, chroma), SharedBits(ch.color, from),
                  State(ch.color, 0, if ch.color then 0 else chroma), maxAl)
    decreases from
  {
    hide Leads, State;
    var p, q := State(ch.color, from, chroma), State(ch.color, 0, if ch.color then 0 else chroma);
    if from == 0 {
      LeadsNowhere(ch, p, maxAl);
    } else {
      var al := from - 1;
      var m1 := State(ch.color, al, chroma);
      LumaBitLeads(ch, al, chroma, maxAl);
      if ch.color {
        var m2 := State(true, al, al);
        ChromaBitLeads(ch, al, al, maxAl);
        var cs := [26 + 6 * al + 4] + [26 + 6 * al + 5];
        LeadsOn(ch, p, [3 + 3 * al], m1, cs, m2, maxAl);
        SharedBitsLead(ch, al, al, maxAl);
        LeadsOn(ch, p, [3 + 3 * al] + cs, m2, SharedBits(true, al), q, maxAl);
      } else {
        SharedBitsLead(ch, al, chroma, maxAl);
        assert [3 + 3 * al] + [] == [3 + 3 * al];
        LeadsOn(ch, p, [3 + 3 * al], m1, SharedBits(false, al), q, maxAl);
      }
    }
  }

  // ----- DC scans -------------------------------------------------------------------------------------

  /** The DC coefficients of the first `n` components sent. */
  function DcState(ch: Choice, n: nat): (p: Progress)
    ensures |p| == Comps(ch)
  {
    if ch.color then [DcRow(0 < n), DcRow(1 < n), DcRow(2 < n)] else [DcRow(0 < n)]
  }

  function DcRow(sent: bool): (row: seq<int>)
    ensures |row| == DCTSIZE2
  {
    Even(if sent then 0 else -1, -1)
  }

  lemma InOrder(n: nat)
    requires n == 1 || n == 3
    ensures seq(n, i => i) == if n == 1 then [0] else [0, 1, 2]
  {
  }

  lemma DcLeads(ch: Choice, i: nat, comps: seq<int>, n: nat, n': nat, maxAl: nat)
    requires n <= n' <= Comps(ch) && Coded(ch, i) == ScanInfo(comps, 0, 0, 0, 0)
    requires LegalComponents(ScanInfo(comps, 0, 0, 0, 0), Comps(ch)) && forall c :: c in comps <==> n <= c < n'
    ensures Leads(ch, DcState(ch, n), [i], DcState(ch, n'), maxAl)
  {
    hide Coded, Sends;
    var p, q := DcState(ch, n), DcState(ch, n');
    forall c | 0 <= c < |p| ensures q[c] == if c in comps then p[c][0 := 0] else p[c] {
      assert Even(-1, -1)[0 := 0] == Even(0, -1);
      assert c == 0 || c == 1 || c == 2;
    }
    SendDc(p, comps, 0, 0, q, maxAl);
    LeadsOne(ch, p, i, ScanInfo(comps, 0, 0, 0, 0), q, maxAl);
  }

  lemma DcScansLead(ch: Choice, maxAl: nat)
    requires maxAl >= 3 && SameDcPlan(ch)
    ensures Leads(ch, DcState(ch, 0), [0] + ChromaDc(ch), DcState(ch, Comps(ch)), maxAl)
  {
    hide Leads, DcState, Coded;
    var n := Comps(ch);
    assert Coded(ch, 0) == TrialScan(0, n, ch.listMode)
           && Coded(ch, 23) == TrialScan(23, n, ch.listMode) by { NotSplit(ch, 0); NotSplit(ch, 23); }
    NotSplit(ch, 24);
    NotSplit(ch, 25);
    if ch.listMode == 0 || !ch.color {
      InOrder(n);
      DcLeads(ch, 0, if ch.color then [0, 1, 2] else [0], 0, n, maxAl);
      assert [0] + ChromaDc(ch) == [0];
    } else {
      DcLeads(ch, 0, [0], 0, 1, maxAl);
      if ch.interleave && ch.copyMode != 1 {
        DcLeads(ch, 23, [1, 2], 1, 3, maxAl);
        LeadsOn(ch, DcState(ch, 0), [0], DcState(ch, 1), [23], DcState(ch, 3), maxAl);
      } else {
        DcLeads(ch, 24, [1], 1, 2, maxAl);
        DcLeads(ch, 25, [2], 2, 3, maxAl);
        LeadsOn(ch, DcState(ch, 1), [24], DcState(ch, 2), [25], DcState(ch, 3), maxAl);
        LeadsOn(ch, DcState(ch, 0), [0], DcState(ch, 1), [24] + [25], DcState(ch, 3), maxAl);
      }
    }
  }

  lemma DcStates(ch: Choice)
    ensures Unsent(Comps(ch)) == DcState(ch, 0) && DcState(ch, Comps(ch)) == State(ch.color, -1, -1)
  {
    var u := Unsent(Comps(ch));
    forall c | 0 <= c < |u| ensures u[c] == Even(-1, -1) {
    }
  }

  lemma NotSplit(ch: Choice, i: nat)
    requires i < 12 || 23 <= i < 42
    ensures Coded(ch, i) == TrialScan(i, Comps(ch), ch.listMode)
  {
  }

  /** Every coefficient is known to its last bit. */
  ghost predicate FullySent(p: Progress) {
    forall c, k :: 0 <= c < |p| && 0 <= k < DCTSIZE2 ==> p[c][k] == 0
  }

  // ----- The whole script --------------------------------------------------------------------------------

  lemma AcScansLead(ch: Choice, maxAl: nat)
    requires InRange(ch) && maxAl >= 3
    ensures Leads(ch, State(ch.color, -1, -1),
              LumaParts(ch) + (LumaBits(ch.alLuma, MinAl(ch))
                + ((if ch.color then ChromaSplits(ch) + ChromaBits(ch.alChroma, MinAl(ch)) else [])
                   + SharedBits(ch.color, MinAl(ch)))),
              State(ch.color, 0, if ch.color then 0 else -1), maxAl)
  {
    hide Leads, LumaParts, ChromaSplits, LumaBits, ChromaBits, SharedBits, State;
    var m := MinAl(ch);
    var p0, p1, p2 := State(ch.color, -1, -1), State(ch.color, ch.alLuma, -1), State(ch.color, m, -1);
    var end := State(ch.color, 0, if ch.color then 0 else -1);
    LumaPartsLead(ch, maxAl);
    LumaBitsLead(ch, ch.alLuma, m, -1, maxAl);
    var chroma := if ch.color then ChromaSplits(ch) + ChromaBits(ch.alChroma, m) else [];
    if ch.color {
      var p3, p4 := State(true, m, ch.alChroma), State(true, m, m);
      ChromaSplitsLead(ch, m, maxAl);
      ChromaBitsLead(ch, ch.alChroma, m, m, maxAl);
      LeadsOn(ch, p2, ChromaSplits(ch), p3, ChromaBits(ch.alChroma, m), p4, maxAl);
      SharedBitsLead(ch, m, m, maxAl);
      LeadsOn(ch, p2, chroma, p4, SharedBits(true, m), end, maxAl);
    } else {
      SharedBitsLead(ch, m, -1, maxAl);
      assert [] + SharedBits(false, m) == SharedBits(false, m);
    }
    LeadsOn(ch, p1, LumaBits(ch.alLuma, m), p2, chroma + SharedBits(ch.color, m), end, maxAl);
    LeadsOn(ch, p0, LumaParts(ch), p1, LumaBits(ch.alLuma, m) + (chroma + SharedBits(ch.color, m)), end, maxAl);
  }

  lemma ChoiceSendsAll(ch: Choice, maxAl: nat)
    requires InRange(ch) && maxAl >= 3 && SameDcPlan(ch)
    ensures LegalProgressive(Comps(ch), CodedAll(ch, Copied(ch)), maxAl)
    ensures FullySent(AfterAll(Unsent(Comps(ch)), CodedAll(ch, Copied(ch))))
  {
    hide LumaParts, ChromaSplits, LumaBits, ChromaBits, SharedBits, LegalFrom, AfterAll, SameDcPlan;
    var n := Comps(ch);
    var rest := LumaParts(ch) + (LumaBits(ch.alLuma, MinAl(ch))
                + ((if ch.color then ChromaSplits(ch) + ChromaBits(ch.alChroma, MinAl(ch)) else [])
                   + SharedBits(ch.color, MinAl(ch))));
    var end := State(ch.color, 0, if ch.color then 0 else -1);
    DcStates(ch);
    DcScansLead(ch, maxAl);
    AcScansLead(ch, maxAl);
    LeadsOn(ch, Unsent(n), [0] + ChromaDc(ch), DcState(ch, n), rest, end, maxAl);
    assert ([0] + ChromaDc(ch)) + rest == [0] + (ChromaDc(ch) + rest);
    SendsLegal(n, CodedAll(ch, Copied(ch)), end, maxAl);
  }

  // ----- A mode changed between listing and copying ---------------------------------------------------

  /** Scan 0 holds all DC coefficients and the chroma ones are sent again. */
  lemma DcSentTwice(ch: Choice, maxAl: nat)
    requires ch.color && ch.listMode == 0 && ch.copyMode != 0
    ensures !LegalFrom(Unsent(3), CodedAll(ch, Copied(ch)), maxAl)
  {
    hide LumaParts, ChromaSplits, LumaBits, ChromaBits, SharedBits;
    var scans, p := CodedAll(ch, Copied(ch)), Unsent(3);
    InOrder(3);
    assert Copied(ch)[0] == 0 && Copied(ch)[1] == ChromaDc(ch)[0];
    var first, second, q := scans[0], scans[1], After(p, scans[0]);
    assert first.comps == [0, 1, 2] && scans[1..][0] == second;
    assert q[1] == RowAfter(p[1], first) && q[1][0] == 0;
    assert second.comps[0] == 1 && second.ss == 0 == second.se && second.ah == 0;
    assert !LegalBit(q[1][0], second);
    assert !LegalFor(q[second.comps[0]], second);
  }

  /** Scans that leave a component's DC coefficient alone. */
  lemma {:induction false} DcUntouched(p: Progress, scans: seq<ScanInfo>, c: nat)
    requires c < |p| && forall i :: 0 <= i < |scans| ==> scans[i].ss >= 1 || c !in scans[i].comps
    ensures AfterAll(p, scans)[c][0] == p[c][0]
    decreases |scans|
  {
    if scans != [] {
      DcUntouched(After(p, scans[0]), scans[1..], c);
    }
  }

  lemma {:induction false} LumaBitsPlaces(from: nat, to: nat)
    requires from <= 3
    ensures forall i :: i in LumaBits(from, to) ==> 3 <= i <= 11
    decreases from
  {
    if from > to { LumaBitsPlaces(from - 1, to); }
  }

  lemma {:induction false} ChromaBitsPlaces(from: nat, to: nat)
    requires from <= 2
    ensures forall i :: i in ChromaBits(from, to) ==> 26 <= i <= 41
    decreases from
  {
    if from > to { ChromaBitsPlaces(from - 1, to); }
  }

  lemma {:induction false} SharedBitsPlaces(color: bool, from: nat)
    requires from <= 2
    ensures forall i :: i in SharedBits(color, from) ==> 3 <= i <= 11 || 26 <= i <= 41
    decreases from
  {
    if from > 0 { SharedBitsPlaces(color, from - 1); }
  }

  lemma PartsPlaces(ch: Choice)
    requires InRange(ch) && ch.color
    ensures forall i :: i in LumaParts(ch) ==> 12 <= i <= 22
    ensures forall i :: i in ChromaSplits(ch) ==> 42 <= i < 64
  {
  }

  /** Without chroma DC scans, the only DC scan copied is the first. */
  lemma CopiedPlaces(ch: Choice)
    requires InRange(ch) && ch.color && ch.copyMode == 0
    ensures forall i :: i in Copied(ch) ==> i <= 22 || 26 <= i < 64
  {
    hide LumaBits, ChromaBits, SharedBits, LumaParts, ChromaSplits;
    LumaBitsPlaces(ch.alLuma, MinAl(ch));
    ChromaBitsPlaces(ch.alChroma, MinAl(ch));
    SharedBitsPlaces(ch.color, MinAl(ch));
    PartsPlaces(ch);
  }

  lemma OnlyAc(ch: Choice, i: nat)
    requires ch.color && ch.listMode != 0 && (i <= 22 || 26 <= i < 64)
    ensures Coded(ch, i).ss >= 1 || 1 !in Coded(ch, i).comps
  {
  }

  /** Scan 0 holds the luma DC coefficients alone and no other DC scan is copied. */
  lemma DcNeverSent(ch: Choice)
    requires InRange(ch) && ch.color && ch.listMode != 0 && ch.copyMode == 0
    ensures AfterAll(Unsent(3), CodedAll(ch, Copied(ch)))[1][0] < 0
  {
    hide Copied, Coded, InRange;
    var scans := CodedAll(ch, Copied(ch));
    CopiedPlaces(ch);
    forall j | 0 <= j < |scans| ensures scans[j].ss >= 1 || 1 !in scans[j].comps {
      assert Copied(ch)[j] in Copied(ch);
      OnlyAc(ch, Copied(ch)[j]);
    }
    DcUntouched(Unsent(3), scans, 1);
  }

  /** The script the search ends with is accepted by validate_script's rules for
      progressive scripts, with every coefficient of every component known to its
      last bit, exactly if the list was made with the DC mode in force when scans
      are copied, as far as that mode separates the chroma DC scans.
   */
  lemma ChoiceIsLegal(ch: Choice, maxAl: nat)
    requires InRange(ch) && maxAl >= 3
    ensures SameDcPlan(ch) <==>
              && LegalProgressive(Comps(ch), CodedAll(ch, Copied(ch)), maxAl)
              && FullySent(AfterAll(Unsent(Comps(ch)), CodedAll(ch, Copied(ch))))
  {
    hide Copied, CodedAll, InRange, LegalFrom, AfterAll;
    if SameDcPlan(ch) {
      ChoiceSendsAll(ch, maxAl);
    } else if ch.listMode == 0 {
      DcSentTwice(ch, maxAl);
    } else {
      DcNeverSent(ch);
    }
  }
}
