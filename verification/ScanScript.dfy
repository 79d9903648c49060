/** Scan scripts and the rules validate_script holds them to (jcmaster.c). */
module ScanScript {
  import opened Coefficients

  /** jpeg_scan_info. */
  datatype ScanInfo = ScanInfo(comps: seq<int>, ss: int, se: int, ah: int, al: int)

  const MAX_COMPS_IN_SCAN := 4

  /** For each component and coefficient the last Al sent, or -1. */
  type Progress = p: seq<seq<int>> | forall c :: 0 <= c < |p| ==> |p[c]| == DCTSIZE2

  function Unsent(n: nat): (p: Progress)
    ensures |p| == n && forall c, k :: 0 <= c < n && 0 <= k < DCTSIZE2 ==> p[c][k] == -1
  {
    seq(n, _ => seq(DCTSIZE2, _ => -1))
  }

  /** The largest Ah or Al for the sample precision. */
  function MaxAl(precision: nat): nat {
    if precision == 12 then 13 else 10
  }

  /** Components exist and appear in frame order. */
  ghost predicate LegalComponents(s: ScanInfo, n: nat) {
    && 1 <= |s.comps| <= MAX_COMPS_IN_SCAN
    && (forall i :: 0 <= i < |s.comps| ==> 0 <= s.comps[i] < n)
    && (forall i :: 1 <= i < |s.comps| ==> s.comps[i - 1] < s.comps[i])
  }

  /** Spectral selection and bit positions are in range for a progressive scan. */
  predicate LegalParameters(s: ScanInfo, maxAl: nat) {
    && 0 <= s.ss <= s.se < DCTSIZE2 && 0 <= s.ah <= maxAl && 0 <= s.al <= maxAl
    && (if s.ss == 0 then s.se == 0 else |s.comps| == 1)
  }

  /** A first scan of a coefficient, or the next bit of one sent before. */
  predicate LegalBit(last: int, s: ScanInfo) {
    if last < 0 then s.ah == 0 else s.ah == last && s.al == s.ah - 1
  }

  /** The scan may follow what component `c` has been sent so far. */
  ghost predicate LegalFor(row: seq<int>, s: ScanInfo)
    requires |row| == DCTSIZE2 && 0 <= s.ss <= s.se < DCTSIZE2
  {
    && (s.ss != 0 ==> row[0] >= 0)
    && forall k :: s.ss <= k <= s.se ==> LegalBit(row[k], s)
  }

  ghost predicate LegalScan(p: Progress, s: ScanInfo, maxAl: nat) {
    && LegalComponents(s, |p|)
    && LegalParameters(s, maxAl)
    && forall i :: 0 <= i < |s.comps| ==> LegalFor(p[s.comps[i]], s)
  }

  function RowAfter(row: seq<int>, s: ScanInfo): (r: seq<int>)
    requires |row| == DCTSIZE2
    ensures |r| == DCTSIZE2
  {
    seq(DCTSIZE2, k requires 0 <= k < DCTSIZE2 => if s.ss <= k <= s.se then s.al else row[k])
  }

  function After(p: Progress, s: ScanInfo): (r: Progress)
    ensures |r| == |p|
  {
    seq(|p|, c requires 0 <= c < |p| => if c in s.comps then RowAfter(p[c], s) else p[c])
  }

  /** Every scan is legal after the ones before it. */
  ghost predicate LegalFrom(p: Progress, scans: seq<ScanInfo>, maxAl: nat)
    decreases |scans|
  {
    scans == [] || (LegalScan(p, scans[0], maxAl) && LegalFrom(After(p, scans[0]), scans[1..], maxAl))
  }

  ghost function AfterAll(p: Progress, scans: seq<ScanInfo>): (r: Progress)
    ensures |r| == |p|
    decreases |scans|
  {
    if scans == [] then p else AfterAll(After(p, scans[0]), scans[1..])
  }

  /** A progressive script: every component gets at least some DC data. */
  ghost predicate LegalProgressive(n: nat, scans: seq<ScanInfo>, maxAl: nat) {
    && scans != []
    && LegalFrom(Unsent(n), scans, maxAl)
    && forall c :: 0 <= c < n ==> AfterAll(Unsent(n), scans)[c][0] >= 0
  }

  lemma {:induction false} LegalFromSnoc(p: Progress, scans: seq<ScanInfo>, maxAl: nat, i: nat)
    requires i < |scans|
    ensures LegalFrom(p, scans[..i + 1], maxAl) <==>
              LegalFrom(p, scans[..i], maxAl) && LegalScan(AfterAll(p, scans[..i]), scans[i], maxAl)
    ensures AfterAll(p, scans[..i + 1]) == After(AfterAll(p, scans[..i]), scans[i])
    decreases i
  {
    if i == 0 {
      assert scans[..1][1..] == [] && scans[..1][0] == scans[0];
    } else {
      assert scans[..i + 1][1..] == scans[1..][..i] && scans[..i][1..] == scans[1..][..i - 1];
      assert scans[..i + 1][0] == scans[0] == scans[..i][0];
      LegalFromSnoc(After(p, scans[0]), scans[1..], maxAl, i - 1);
    }
  }

  /** Once a scan is illegal the script is. */
  lemma {:induction false} LegalFromPrefix(p: Progress, scans: seq<ScanInfo>, maxAl: nat, i: nat)
    requires i <= |scans| && LegalFrom(p, scans, maxAl)
    ensures LegalFrom(p, scans[..i], maxAl)
    decreases |scans|
  {
    if i > 0 {
      assert scans[..i][0] == scans[0] && scans[..i][1..] == scans[1..][..i - 1];
      LegalFromPrefix(After(p, scans[0]), scans[1..], maxAl, i - 1);
    }
  }

  /** The scan sends a bit of coefficient `k` of component `c`. */
  predicate SendsBit(s: ScanInfo, c: nat, k: nat) {
    c in s.comps && s.ss <= k <= s.se
  }

  lemma {:induction false} LastSent(p: Progress, scans: seq<ScanInfo>, i: nat, j: nat, c: nat, k: nat)
    requires i < j <= |scans| && c < |p| && k < DCTSIZE2 && SendsBit(scans[i], c, k)
    requires forall m :: i < m < j ==> !SendsBit(scans[m], c, k)
    ensures AfterAll(p, scans[..j])[c][k] == scans[i].al
    decreases j
  {
    AfterSnoc(p, scans, j - 1);
    if j > i + 1 { LastSent(p, scans, i, j - 1, c, k); }
  }

  lemma {:induction false} AfterSnoc(p: Progress, scans: seq<ScanInfo>, i: nat)
    requires i < |scans|
    ensures AfterAll(p, scans[..i + 1]) == After(AfterAll(p, scans[..i]), scans[i])
  {
    LegalFromSnoc(p, scans, 0, i);
  }

  lemma {:induction false} NeverSent(p: Progress, scans: seq<ScanInfo>, j: nat, c: nat, k: nat)
    requires j <= |scans| && c < |p| && k < DCTSIZE2 && forall m :: 0 <= m < j ==> !SendsBit(scans[m], c, k)
    ensures AfterAll(p, scans[..j])[c][k] == p[c][k]
    decreases j
  {
    if j > 0 {
      AfterSnoc(p, scans, j - 1);
      NeverSent(p, scans, j - 1, c, k);
    }
  }

  lemma LegalAt(n: nat, scans: seq<ScanInfo>, maxAl: nat, j: nat, c: nat, k: nat)
    requires LegalFrom(Unsent(n), scans, maxAl) && j < |scans| && c < n && k < DCTSIZE2 && SendsBit(scans[j], c, k)
    ensures LegalBit(AfterAll(Unsent(n), scans[..j])[c][k], scans[j])
  {
    hide LegalComponents;
    LegalFromPrefix(Unsent(n), scans, maxAl, j + 1);
    LegalFromSnoc(Unsent(n), scans, maxAl, j);
    var p, s := AfterAll(Unsent(n), scans[..j]), scans[j];
    assert LegalScan(p, s, maxAl);
    var i :| 0 <= i < |s.comps| && s.comps[i] == c;
    assert LegalFor(p[s.comps[i]], s);
  }

  /** In an accepted script the scans that send a given coefficient start with Ah
      zero, and each later one sends the one bit below the scan before it.
   */
  lemma BitsInOrder(n: nat, scans: seq<ScanInfo>, maxAl: nat, i: nat, j: nat, c: nat, k: nat)
    requires LegalProgressive(n, scans, maxAl) && j < |scans| && c < n && k < DCTSIZE2 && SendsBit(scans[j], c, k)
    ensures (forall m :: 0 <= m < j ==> !SendsBit(scans[m], c, k)) ==> scans[j].ah == 0 && 0 <= scans[j].al <= maxAl
    ensures i < j && SendsBit(scans[i], c, k) && (forall m :: i < m < j ==> !SendsBit(scans[m], c, k)) ==>
              scans[j].ah == scans[i].al && scans[j].al == scans[i].al - 1
  {
    hide LegalFrom, AfterAll, SendsBit;
    LegalFromPrefix(Unsent(n), scans, maxAl, j + 1);
    LegalFromSnoc(Unsent(n), scans, maxAl, j);
    LegalAt(n, scans, maxAl, j, c, k);
    if forall m :: 0 <= m < j ==> !SendsBit(scans[m], c, k) {
      NeverSent(Unsent(n), scans, j, c, k);
    }
    if i < j && SendsBit(scans[i], c, k) && forall m :: i < m < j ==> !SendsBit(scans[m], c, k) {
      LastSent(Unsent(n), scans, i, j, c, k);
      LegalFromPrefix(Unsent(n), scans, maxAl, i + 1);
      LegalFromSnoc(Unsent(n), scans, maxAl, i);
    }
  }

  // ----- validate_script -------------------------------------------------------

  datatype Verdict = BadScript | Progressive | NotProgressive

  /** The mode is decided by the first scan alone. */
  predicate StartsProgressive(s: ScanInfo) {
    !(s.ss != 0 && s.se == 0) && (s.ss != 0 || s.se != DCTSIZE2 - 1)
  }

  /** The checks on the component list of one scan. */
  method CheckComponents(s: ScanInfo, n: nat) returns (ok: bool)
    ensures ok <==> LegalComponents(s, n)
  {
    if |s.comps| == 0 || |s.comps| > MAX_COMPS_IN_SCAN {
      return false;
    }
    for ci := 0 to |s.comps|
      invariant forall i :: 0 <= i < ci ==> 0 <= s.comps[i] < n
      invariant forall i :: 1 <= i < ci ==> s.comps[i - 1] < s.comps[i]
    {
      if s.comps[ci] < 0 || s.comps[ci] >= n {
        return false;
      }
      if ci > 0 && s.comps[ci] <= s.comps[ci - 1] {
        return false;
      }
    }
    ok := true;
  }

  /** The checks and updates on one component's row of last_bitpos. */
  method CheckRow(row: seq<int>, s: ScanInfo) returns (ok: bool, next: seq<int>)
    requires |row| == DCTSIZE2 && 0 <= s.ss <= s.se < DCTSIZE2
    ensures ok <==> LegalFor(row, s)
    ensures ok ==> next == RowAfter(row, s)
  {
    next := row;
    if s.ss != 0 && row[0] < 0 {
      return false, row;
    }
    var coefi := s.ss;
    while coefi <= s.se
      invariant s.ss <= coefi <= s.se + 1 && |next| == DCTSIZE2
      invariant forall k :: s.ss <= k < coefi ==> LegalBit(row[k], s) && next[k] == s.al
      invariant forall k :: 0 <= k < DCTSIZE2 && !(s.ss <= k < coefi) ==> next[k] == row[k]
    {
      if next[coefi] < 0 {
        if s.ah != 0 {
          return false, row;
        }
      } else {
        if s.ah != next[coefi] || s.al != s.ah - 1 {
          return false, row;
        }
      }
      next := next[coefi := s.al];
      coefi := coefi + 1;
    }
    ok := true;
  }

  /** All checks of one progressive scan. */
  method CheckScan(p: Progress, s: ScanInfo, maxAl: nat) returns (ok: bool, next: Progress)
    ensures ok <==> LegalScan(p, s, maxAl)
    ensures ok ==> next == After(p, s)
  {
    next := p;
    ok := CheckComponents(s, |p|);
    if !ok || !LegalParameters(s, maxAl) {
      return false, p;
    }
    for ci := 0 to |s.comps|
      invariant |next| == |p|
      invariant forall i :: 0 <= i < ci ==> LegalFor(p[s.comps[i]], s)
      invariant forall c :: 0 <= c < |p| ==> next[c] == if c in s.comps[..ci] then RowAfter(p[c], s) else p[c]
    {
      var c := s.comps[ci];
      if c in s.comps[..ci] {
        IncreasingIsDistinct(s, |p|, ci);
      }
      var row;
      ok, row := CheckRow(next[c], s);
      if !ok {
        return false, p;
      }
      next := next[c := row];
      assert s.comps[..ci + 1] == s.comps[..ci] + [c];
    }
    assert s.comps[..|s.comps|] == s.comps;
    ok := true;
  }

  lemma {:induction false} IncreasingIsDistinct(s: ScanInfo, n: nat, ci: nat)
    requires LegalComponents(s, n) && ci < |s.comps|
    ensures s.comps[ci] !in s.comps[..ci]
    ensures forall i :: 0 <= i < ci ==> s.comps[i] < s.comps[ci]
    decreases ci
  {
    if ci > 0 { IncreasingIsDistinct(s, n, ci - 1); }
  }

  /** validate_script, as far as progressive scripts are concerned. */
  method ValidateScript(n: nat, scans: seq<ScanInfo>, precision: nat) returns (v: Verdict)
    ensures v.Progressive? <==>
              scans != [] && StartsProgressive(scans[0]) && LegalProgressive(n, scans, MaxAl(precision))
    ensures v.NotProgressive? <==> scans != [] && !StartsProgressive(scans[0])
  {
    if scans == [] {
      return BadScript;
    }
    if !StartsProgressive(scans[0]) {
      return NotProgressive;
    }
    var maxAl := MaxAl(precision);
    var p := Unsent(n);
    for scanno := 0 to |scans|
      invariant |p| == n && p == AfterAll(Unsent(n), scans[..scanno])
      invariant LegalFrom(Unsent(n), scans[..scanno], maxAl)
    {
      LegalFromSnoc(Unsent(n), scans, maxAl, scanno);
      var ok, next := CheckScan(p, scans[scanno], maxAl);
      if !ok {
        if LegalFrom(Unsent(n), scans, maxAl) {
          LegalFromPrefix(Unsent(n), scans, maxAl, scanno + 1);
        }
        return BadScript;
      }
      p := next;
    }
    assert scans[..|scans|] == scans;
    for ci := 0 to n
      invariant forall c :: 0 <= c < ci ==> p[c][0] >= 0
    {
      if p[ci][0] < 0 {
        return BadScript;
      }
    }
    v := Progressive;
  }
}
