/** What makes a progressive script acceptable, told from the scans themselves
    (section G.1.1.1 of ITU-T T.81) and not from validate_script's table of bit
    positions: the two say the same.
 */
module ScriptHistory {
  import opened Coefficients
  import opened ScanScript

  /** The last of the first `i` scans that sends a bit of the coefficient, or -1. */
  function LastSender(scans: seq<ScanInfo>, i: nat, c: nat, k: nat): (j: int)
    requires i <= |scans|
    ensures -1 <= j < i && (j >= 0 ==> SendsBit(scans[j], c, k))
    ensures forall m :: j < m < i ==> !SendsBit(scans[m], c, k)
  {
    if i == 0 then -1 else if SendsBit(scans[i - 1], c, k) then i - 1 else LastSender(scans, i - 1, c, k)
  }

  /** One to four components in increasing order, and either DC coefficients alone or
      a band of AC coefficients of one component.
   */
  ghost predicate WellFormed(s: ScanInfo, n: nat, maxAl: nat) {
    && 1 <= |s.comps| <= 4 && (forall i :: 0 <= i < |s.comps| ==> 0 <= s.comps[i] < n)
    && (forall i, j :: 0 <= i < j < |s.comps| ==> s.comps[i] < s.comps[j])
    && 0 <= s.ss <= s.se <= 63 && (s.ss == 0 ==> s.se == 0) && (s.ss > 0 ==> |s.comps| == 1)
    && 0 <= s.ah <= maxAl && 0 <= s.al <= maxAl
  }

  /** A coefficient is sent first with Ah zero and then one bit at a time, and AC
      coefficients only after the component's DC coefficient.
   */
  ghost predicate Follows(scans: seq<ScanInfo>, n: nat, maxAl: nat, i: nat)
    requires i < |scans|
  {
    var s := scans[i];
    && WellFormed(s, n, maxAl)
    && (s.ss > 0 ==> s.comps[0] >= 0 && LastSender(scans, i, s.comps[0], 0) >= 0)
    && forall c: nat, k: nat :: c < n && SendsBit(s, c, k) ==>
         var j := LastSender(scans, i, c, k);
         if j < 0 then s.ah == 0 else s.ah == scans[j].al && s.al == s.ah - 1
  }

  ghost predicate AllFollow(scans: seq<ScanInfo>, n: nat, maxAl: nat, i: nat)
    requires i <= |scans|
  {
    forall m :: 0 <= m < i ==> Follows(scans, n, maxAl, m)
  }

  /** The table holds Al of the last scan that sent a coefficient. */
  lemma TableIs(scans: seq<ScanInfo>, n: nat, i: nat, c: nat, k: nat)
    requires i <= |scans| && c < n && k < DCTSIZE2
    ensures var j := LastSender(scans, i, c, k);
            AfterAll(Unsent(n), scans[..i])[c][k] == if j < 0 then -1 else scans[j].al
  {
    hide AfterAll, LastSender, SendsBit;
    var j := LastSender(scans, i, c, k);
    if j < 0 {
      NeverSent(Unsent(n), scans, i, c, k);
    } else {
      LastSent(Unsent(n), scans, j, i, c, k);
    }
  }

  lemma {:induction false} Increasing(s: ScanInfo, n: nat, i: nat, j: nat)
    requires LegalComponents(s, n) && i < j < |s.comps|
    ensures s.comps[i] < s.comps[j]
    decreases j
  {
    if i < j - 1 { Increasing(s, n, i, j - 1); }
  }

  lemma SameForm(s: ScanInfo, n: nat, maxAl: nat)
    ensures WellFormed(s, n, maxAl) <==> LegalComponents(s, n) && LegalParameters(s, maxAl)
  {
    if LegalComponents(s, n) {
      forall i, j | 0 <= i < j < |s.comps| ensures s.comps[i] < s.comps[j] { Increasing(s, n, i, j); }
    }
  }

  /** One scan after others whose Al are not negative. */
  lemma SameRule(scans: seq<ScanInfo>, n: nat, maxAl: nat, i: nat)
    requires i < |scans| && forall m :: 0 <= m < i ==> scans[m].al >= 0
    ensures Follows(scans, n, maxAl, i) <==> LegalScan(AfterAll(Unsent(n), scans[..i]), scans[i], maxAl)
  {
    hide AfterAll, LastSender, LegalComponents, LegalParameters, WellFormed;
    var s, p := scans[i], AfterAll(Unsent(n), scans[..i]);
    SameForm(s, n, maxAl);
    if WellFormed(s, n, maxAl) {
      InFrame(s, n, maxAl);
      forall c: nat, k: nat | c < n && k < DCTSIZE2
        ensures var j := LastSender(scans, i, c, k); p[c][k] == if j < 0 then -1 else scans[j].al
      {
        TableIs(scans, n, i, c, k);
      }
      if Follows(scans, n, maxAl, i) {
        forall m | 0 <= m < |s.comps| ensures LegalFor(p[s.comps[m]], s) { RuleForRow(scans, n, maxAl, i, m); }
      }
      if LegalScan(p, s, maxAl) {
        forall c: nat, k: nat | c < n && SendsBit(s, c, k)
          ensures var j := LastSender(scans, i, c, k);
                  if j < 0 then s.ah == 0 else s.ah == scans[j].al && s.al == s.ah - 1
        {
          var m :| 0 <= m < |s.comps| && s.comps[m] == c;
          assert LegalFor(p[s.comps[m]], s);
          assert LegalBit(p[c][k], s);
        }
        if s.ss > 0 { assert LegalFor(p[s.comps[0]], s); }
      }
    }
  }

  lemma InFrame(s: ScanInfo, n: nat, maxAl: nat)
    requires WellFormed(s, n, maxAl)
    ensures 0 <= s.ss <= s.se < DCTSIZE2 && 1 <= |s.comps| && forall i :: 0 <= i < |s.comps| ==> 0 <= s.comps[i] < n
    ensures s.ss > 0 ==> |s.comps| == 1
  {
  }

  lemma RuleForRow(scans: seq<ScanInfo>, n: nat, maxAl: nat, i: nat, m: nat)
    requires i < |scans| && Follows(scans, n, maxAl, i) && m < |scans[i].comps| && 0 <= scans[i].comps[m] < n
    requires 0 <= scans[i].ss <= scans[i].se < DCTSIZE2 && forall h :: 0 <= h < i ==> scans[h].al >= 0
    requires scans[i].ss > 0 ==> |scans[i].comps| == 1
    ensures LegalFor(AfterAll(Unsent(n), scans[..i])[scans[i].comps[m]], scans[i])
  {
    hide AfterAll, LastSender, WellFormed;
    var s, c := scans[i], scans[i].comps[m];
    var row := AfterAll(Unsent(n), scans[..i])[c];
    TableIs(scans, n, i, c, 0);
    forall k | s.ss <= k <= s.se ensures LegalBit(row[k], s) {
      TableIs(scans, n, i, c, k);
      assert SendsBit(s, c, k);
    }
  }

  lemma {:induction false} SamePrefixes(scans: seq<ScanInfo>, n: nat, maxAl: nat, i: nat)
    requires i <= |scans|
    ensures AllFollow(scans, n, maxAl, i) <==> LegalFrom(Unsent(n), scans[..i], maxAl)
    ensures AllFollow(scans, n, maxAl, i) ==> forall m :: 0 <= m < i ==> scans[m].al >= 0
    decreases i
  {
    hide Follows, LegalScan;
    if i > 0 {
      SamePrefixes(scans, n, maxAl, i - 1);
      LegalFromSnoc(Unsent(n), scans, maxAl, i - 1);
      if AllFollow(scans, n, maxAl, i - 1) {
        SameRule(scans, n, maxAl, i - 1);
        if Follows(scans, n, maxAl, i - 1) { AlNotNegative(scans, n, maxAl, i - 1); }
      }
    }
  }

  lemma AlNotNegative(scans: seq<ScanInfo>, n: nat, maxAl: nat, i: nat)
    requires i < |scans| && Follows(scans, n, maxAl, i)
    ensures scans[i].al >= 0
  {
  }

  ghost predicate DcSent(scans: seq<ScanInfo>, c: nat) {
    exists i :: 0 <= i < |scans| && SendsBit(scans[i], c, 0)
  }

  /** validate_script accepts exactly the progressive scripts in which every scan
      follows the rules, with Ah and Al up to 10 or, for 12-bit samples, 13, and
      every component's DC coefficient is sent.
   */
  lemma LegalByHistory(scans: seq<ScanInfo>, n: nat, precision: nat)
    ensures LegalProgressive(n, scans, MaxAl(precision)) <==>
              && scans != []
              && AllFollow(scans, n, if precision == 12 then 13 else 10, |scans|)
              && forall c: nat :: c < n ==> DcSent(scans, c)
  {
    hide Follows, AfterAll, LegalFrom, LastSender, SendsBit;
    var maxAl := MaxAl(precision);
    assert scans[..|scans|] == scans;
    SamePrefixes(scans, n, maxAl, |scans|);
    if AllFollow(scans, n, maxAl, |scans|) {
      forall c: nat | c < n ensures AfterAll(Unsent(n), scans)[c][0] >= 0 <==> DcSent(scans, c) {
        TableIs(scans, n, |scans|, c, 0);
      }
    }
  }

  /** The first scan tells the mode: no first scan of a progressive script looks like
      a sequential one, which has all 64 coefficients, or a lossless one.
   */
  lemma FirstScanTells(scans: seq<ScanInfo>, n: nat, maxAl: nat)
    requires LegalProgressive(n, scans, maxAl)
    ensures scans[0].ss == 0 == scans[0].se && scans[0].ah == 0 && StartsProgressive(scans[0])
    ensures forall s: ScanInfo :: StartsProgressive(s) <==>
              !(s.ss == 0 && s.se == 63) && !(s.ss != 0 && s.se == 0)
  {
    hide LegalFor, After, LegalFrom;
    LegalAtStart(scans, n, maxAl);
  }

  lemma LegalAtStart(scans: seq<ScanInfo>, n: nat, maxAl: nat)
    requires LegalFrom(Unsent(n), scans, maxAl) && scans != []
    ensures scans[0].ss == 0 == scans[0].se && scans[0].ah == 0
  {
    var s := scans[0];
    assert LegalFor(Unsent(n)[s.comps[0]], s);
    if s.ss == 0 { assert LegalBit(Unsent(n)[s.comps[0]][0], s); }
  }
}
