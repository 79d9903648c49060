/** Pieces of scan scripts: what each legally adds to what has been sent. */
module ScriptRows {
  import opened Coefficients
  import opened ScanScript

  /** A component's row when its DC coefficient was last sent with `dc`, the
      coefficients 1..f with `lo` and the others with `hi`.
   */
  function Bands(dc: int, f: nat, lo: int, hi: int): (row: seq<int>)
    ensures |row| == DCTSIZE2
  {
    seq(DCTSIZE2, k requires 0 <= k < DCTSIZE2 => if k == 0 then dc else if k <= f then lo else hi)
  }

  /** All AC coefficients alike. */
  function Even(dc: int, ac: int): (row: seq<int>)
    ensures |row| == DCTSIZE2
  {
    seq(DCTSIZE2, k requires 0 <= k < DCTSIZE2 => if k == 0 then dc else ac)
  }

  function Ac(c: int, ss: int, se: int, ah: int, al: int): ScanInfo {
    ScanInfo([c], ss, se, ah, al)
  }

  /** The scans are legal after `p` and lead to `q`. */
  ghost predicate Sends(p: Progress, scans: seq<ScanInfo>, q: Progress, maxAl: nat) {
    LegalFrom(p, scans, maxAl) && AfterAll(p, scans) == q
  }

  lemma SendsNothing(p: Progress, maxAl: nat)
    ensures Sends(p, [], p, maxAl)
  {
  }

  lemma SendsOne(p: Progress, s: ScanInfo, maxAl: nat)
    requires LegalScan(p, s, maxAl)
    ensures Sends(p, [s], After(p, s), maxAl)
  {
    hide LegalScan, After;
    assert [s][1..] == [];
    assert LegalFrom(After(p, s), [], maxAl) && AfterAll(After(p, s), []) == After(p, s);
    assert AfterAll(p, [s]) == AfterAll(After(p, s), [s][1..]);
  }

  lemma {:induction false} SendsMore(p: Progress, a: seq<ScanInfo>, q: Progress, b: seq<ScanInfo>, r: Progress,
                                     maxAl: nat)
    requires Sends(p, a, q, maxAl) && Sends(q, b, r, maxAl)
    ensures Sends(p, a + b, r, maxAl)
    decreases |a|
  {
    hide LegalScan, After;
    if a == [] {
      assert a + b == b;
    } else {
      assert (a + b)[0] == a[0] && (a + b)[1..] == a[1..] + b;
      SendsMore(After(p, a[0]), a[1..], q, b, r, maxAl);
    }
  }

  // ----- One component -----------------------------------------------------------------------

  /** A first AC scan of part of a component's band, or one more bit of it. */
  lemma SendAc(p: Progress, c: nat, ss: nat, se: nat, ah: nat, al: nat, row: seq<int>, maxAl: nat)
    requires c < |p| && 1 <= ss <= se < DCTSIZE2 && ah <= maxAl && al <= maxAl && p[c][0] >= 0
    requires forall k :: ss <= k <= se ==> LegalBit(p[c][k], Ac(c, ss, se, ah, al))
    requires |row| == DCTSIZE2 && forall k :: 0 <= k < DCTSIZE2 ==> row[k] == if ss <= k <= se then al else p[c][k]
    ensures Sends(p, [Ac(c, ss, se, ah, al)], p[c := row], maxAl)
  {
    var s := Ac(c, ss, se, ah, al);
    assert RowAfter(p[c], s) == row;
    assert After(p, s) == p[c := row];
    SendsOne(p, s, maxAl);
  }

  lemma SendFull(p: Progress, c: nat, dc: nat, al: nat, maxAl: nat)
    requires c < |p| && p[c] == Even(dc, -1) && al <= maxAl
    ensures Sends(p, [Ac(c, 1, 63, 0, al)], p[c := Even(dc, al)], maxAl)
  {
    hide Sends;
    SendAc(p, c, 1, 63, 0, al, Even(dc, al), maxAl);
  }

  lemma SendRefine(p: Progress, c: nat, dc: nat, al: nat, maxAl: nat)
    requires c < |p| && p[c] == Even(dc, al + 1) && al + 1 <= maxAl
    ensures Sends(p, [Ac(c, 1, 63, al + 1, al)], p[c := Even(dc, al)], maxAl)
  {
    hide Sends;
    SendAc(p, c, 1, 63, al + 1, al, Even(dc, al), maxAl);
  }

  lemma SendLow(p: Progress, c: nat, f: nat, dc: nat, al: nat, maxAl: nat)
    requires c < |p| && 1 <= f < 63 && p[c] == Even(dc, -1) && al <= maxAl
    ensures Sends(p, [Ac(c, 1, f, 0, al)], p[c := Bands(dc, f, al, -1)], maxAl)
  {
    hide Sends;
    SendAc(p, c, 1, f, 0, al, Bands(dc, f, al, -1), maxAl);
  }

  lemma SendHigh(p: Progress, c: nat, f: nat, dc: nat, al: nat, maxAl: nat)
    requires c < |p| && 1 <= f < 63 && p[c] == Bands(dc, f, al, -1) && al <= maxAl
    ensures Sends(p, [Ac(c, f + 1, 63, 0, al)], p[c := Even(dc, al)], maxAl)
  {
    hide Sends;
    SendAc(p, c, f + 1, 63, 0, al, Even(dc, al), maxAl);
  }

  lemma SendSplit(p: Progress, c: nat, f: nat, dc: nat, al: nat, maxAl: nat)
    requires c < |p| && 1 <= f < 63 && p[c] == Even(dc, -1) && al <= maxAl
    ensures Sends(p, [Ac(c, 1, f, 0, al)] + [Ac(c, f + 1, 63, 0, al)], p[c := Even(dc, al)], maxAl)
  {
    hide Sends;
    var mid := p[c := Bands(dc, f, al, -1)];
    SendLow(p, c, f, dc, al, maxAl);
    SendHigh(mid, c, f, dc, al, maxAl);
    assert mid[c := Even(dc, al)] == p[c := Even(dc, al)];
    SendsMore(p, [Ac(c, 1, f, 0, al)], mid, [Ac(c, f + 1, 63, 0, al)], p[c := Even(dc, al)], maxAl);
  }

  // ----- DC coefficients ------------------------------------------------------------------------

  /** A DC scan of several components. */
  lemma SendDc(p: Progress, comps: seq<int>, ah: nat, al: nat, q: Progress, maxAl: nat)
    requires LegalComponents(ScanInfo(comps, 0, 0, ah, al), |p|) && ah <= maxAl && al <= maxAl && |q| == |p|
    requires forall c :: 0 <= c < |p| && c in comps ==> LegalBit(p[c][0], ScanInfo(comps, 0, 0, ah, al))
    requires forall c :: 0 <= c < |p| ==> q[c] == if c in comps then p[c][0 := al] else p[c]
    ensures Sends(p, [ScanInfo(comps, 0, 0, ah, al)], q, maxAl)
  {
    var s := ScanInfo(comps, 0, 0, ah, al);
    forall c | 0 <= c < |p| && c in comps ensures RowAfter(p[c], s) == p[c][0 := al] {
    }
    assert After(p, s) == q;
    SendsOne(p, s, maxAl);
  }

  /** A script that leads from nothing to a state in which every DC coefficient
      was sent is one that validate_script accepts.
   */
  lemma SendsLegal(n: nat, scans: seq<ScanInfo>, q: Progress, maxAl: nat)
    requires scans != [] && Sends(Unsent(n), scans, q, maxAl) && |q| == n && forall c :: 0 <= c < n ==> q[c][0] >= 0
    ensures LegalProgressive(n, scans, maxAl)
  {
  }
}
