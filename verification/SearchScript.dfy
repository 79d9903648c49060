/** The list of scans tried when the scan script is searched for
    (jpeg_search_progression and the fill routines in jcparam.c).
 */
module SearchScript {
  import opened Coefficients
  import opened ScanScript
  import opened ScriptRows

  /** The sizes of the parts of the list. */
  datatype SearchPlan = SearchPlan(numScans: nat, numScansLuma: nat, numScansLumaDc: nat, numScansChromaDc: nat,
                                   numFrequencySplits: nat, alMaxLuma: nat, alMaxChroma: nat)

  function Plan(ncomps: nat): SearchPlan {
    if ncomps == 1 then SearchPlan(23, 23, 1, 0, 5, 3, 0) else SearchPlan(64, 23, 1, 3, 5, 3, 2)
  }

  /** The places at which the parts of the list begin and end, as select_scans
      computes them from the plan: the luma splits at 12, the chroma scans at 23,
      their point transforms at 26 and their splits at 42.
   */
  lemma PlanPlaces(ncomps: nat)
    ensures var p := Plan(ncomps);
            && p.numScansLumaDc + 3 * p.alMaxLuma + 2 == 12
            && p.numScansLuma == 12 + (2 * p.numFrequencySplits + 1) == 23
            && (ncomps == 1 ==> p.numScans == p.numScansLuma)
            && (ncomps > 1 ==>
                  && p.numScansLuma + p.numScansChromaDc == 26 && 26 + (6 * p.alMaxChroma + 4) == 42
                  && p.numScans == 42 + (4 * p.numFrequencySplits + 2))
  {
  }

  function FrequencySplit(i: nat): (f: nat)
    ensures 1 <= f < 63
  {
    if i == 0 then 2 else if i == 1 then 8 else if i == 2 then 5 else if i == 3 then 12 else 18
  }

  /** The scan tried at each place of the list: for luma the point transforms,
      then the frequency splits; after the chroma DC scans the same for both
      chroma components.
   */
  function TrialScan(i: nat, ncomps: nat, dcMode: int): ScanInfo {
    if i == 0 then ScanInfo(if dcMode == 0 then seq(ncomps, c => c) else [0], 0, 0, 0, 0)
    else if i <= 2 then Part(0, 8, i == 1, 0)
    else if i <= 11 then
      var al, r := (i - 3) / 3, (i - 3) % 3;
      if r == 0 then Ac(0, 1, 63, al + 1, al) else Part(0, 8, r == 1, al + 1)
    else if i == 12 then Ac(0, 1, 63, 0, 0)
    else if i <= 22 then Part(0, FrequencySplit((i - 13) / 2), (i - 13) % 2 == 0, 0)
    else if i == 23 then ScanInfo([1, 2], 0, 0, 0, 0)
    else if i <= 25 then Ac(i - 23, 0, 0, 0, 0)
    else if i <= 29 then Part(1 + (i - 26) / 2, 8, (i - 26) % 2 == 0, 0)
    else if i <= 41 then
      var al, r := (i - 30) / 6, (i - 30) % 6;
      if r <= 1 then Ac(1 + r, 1, 63, al + 1, al) else Part(1 + (r - 2) / 2, 8, r % 2 == 0, al + 1)
    else if i <= 43 then Ac(i - 41, 1, 63, 0, 0)
    else
      var split, r := (i - 44) / 4, (i - 44) % 4;
      Part(1 + r / 2, FrequencySplit(split), r % 2 == 0, 0)
  }

  /** The coefficients up to `f` of a component, or those above. */
  function Part(c: int, f: nat, low: bool, al: nat): ScanInfo {
    if low then Ac(c, 1, f, 0, al) else Ac(c, f + 1, 63, 0, al)
  }

  ghost predicate Listed(script: seq<ScanInfo>, n: nat, ncomps: nat, dcMode: int) {
    n <= |script| && forall i :: 0 <= i < n ==> script[i] == TrialScan(i, ncomps, dcMode)
  }

  /** The list written out: with a point transform, luma in two parts split at 8,
      and the bit below; without one, whole or split at 2, 8, 5, 12 or 18.
   */
  lemma LumaTrials(al: nat, i: nat, ncomps: nat, dcMode: int)
    requires al <= 3 && i < 5
    ensures TrialScan(3 * al + 1, ncomps, dcMode) == ScanInfo([0], 1, 8, 0, al)
    ensures TrialScan(3 * al + 2, ncomps, dcMode) == ScanInfo([0], 9, 63, 0, al)
    ensures al < 3 ==> TrialScan(3 * al + 3, ncomps, dcMode) == ScanInfo([0], 1, 63, al + 1, al)
    ensures TrialScan(12, ncomps, dcMode) == ScanInfo([0], 1, 63, 0, 0)
    ensures var f := [2, 8, 5, 12, 18][i];
            && TrialScan(13 + 2 * i, ncomps, dcMode) == ScanInfo([0], 1, f, 0, 0)
            && TrialScan(14 + 2 * i, ncomps, dcMode) == ScanInfo([0], f + 1, 63, 0, 0)
  {
  }

  /** The same for chroma component `c`, behind three DC scans. */
  lemma ChromaTrials(c: nat, al: nat, ncomps: nat, dcMode: int)
    requires 1 <= c <= 2 && al <= 2
    ensures TrialScan(23, ncomps, dcMode) == ScanInfo([1, 2], 0, 0, 0, 0)
    ensures TrialScan(23 + c, ncomps, dcMode) == ScanInfo([c], 0, 0, 0, 0)
    ensures TrialScan(6 * al + 2 * c + 24, ncomps, dcMode) == ScanInfo([c], 1, 8, 0, al)
    ensures TrialScan(6 * al + 2 * c + 25, ncomps, dcMode) == ScanInfo([c], 9, 63, 0, al)
    ensures al < 2 ==> TrialScan(6 * al + c + 29, ncomps, dcMode) == ScanInfo([c], 1, 63, al + 1, al)
    ensures TrialScan(41 + c, ncomps, dcMode) == ScanInfo([c], 1, 63, 0, 0)
  {
  }

  lemma ChromaSplitTrials(c: nat, i: nat, ncomps: nat, dcMode: int)
    requires 1 <= c <= 2 && i < 5
    ensures var f := [2, 8, 5, 12, 18][i];
            && TrialScan(42 + 4 * i + 2 * c, ncomps, dcMode) == ScanInfo([c], 1, f, 0, 0)
            && TrialScan(43 + 4 * i + 2 * c, ncomps, dcMode) == ScanInfo([c], f + 1, 63, 0, 0)
  {
  }

  // ----- Filling the list ------------------------------------------------------------------------

  /** fill_a_scan. */
  method FillAScan(script: array<ScanInfo>, at: nat, c: int, ss: int, se: int, ah: int, al: int) returns (next: nat)
    requires at < script.Length
    modifies script
    ensures script[..] == old(script[..])[at := Ac(c, ss, se, ah, al)] && next == at + 1
  {
    script[at] := ScanInfo([c], ss, se, ah, al);
    next := at + 1;
  }

  /** fill_a_scan_pair. */
  method FillAScanPair(script: array<ScanInfo>, at: nat, c: int, ss: int, se: int, ah: int, al: int) returns (next: nat)
    requires at < script.Length
    modifies script
    ensures script[..] == old(script[..])[at := ScanInfo([c, c + 1], ss, se, ah, al)] && next == at + 1
  {
    script[at] := ScanInfo([c, c + 1], ss, se, ah, al);
    next := at + 1;
  }

  /** fill_scans: one scan for each component. */
  method FillScans(script: array<ScanInfo>, at: nat, ncomps: nat, ss: int, se: int, ah: int, al: int)
      returns (next: nat)
    requires at + ncomps <= script.Length
    modifies script
    ensures next == at + ncomps
    ensures script[..] == old(script[..at]) + seq(ncomps, c => Ac(c, ss, se, ah, al)) + old(script[at + ncomps..])
  {
    next := at;
    for ci := 0 to ncomps
      invariant next == at + ci
      invariant forall i :: 0 <= i < script.Length ==>
                  script[i] == if at <= i < next then Ac(i - at, ss, se, ah, al) else old(script[i])
    {
      script[next] := ScanInfo([ci], ss, se, ah, al);
      next := next + 1;
    }
  }

  /** fill_dc_scans: an interleaved scan if there are few enough components. */
  method FillDcScans(script: array<ScanInfo>, at: nat, ncomps: nat, ah: int, al: int) returns (next: nat)
    requires at + DcScans(ncomps, ah, al).0 <= script.Length
    modifies script
    ensures next == at + DcScans(ncomps, ah, al).0
    ensures script[..] == old(script[..at]) + DcScans(ncomps, ah, al).1 + old(script[next..])
  {
    if ncomps <= MAX_COMPS_IN_SCAN {
      var comps := [];
      for ci := 0 to ncomps
        invariant comps == seq(ci, c => c)
      {
        comps := comps + [ci];
      }
      script[at] := ScanInfo(comps, 0, 0, ah, al);
      next := at + 1;
    } else {
      next := FillScans(script, at, ncomps, 0, 0, ah, al);
    }
  }

  /** The DC scans and how many they are. */
  function DcScans(ncomps: nat, ah: int, al: int): (r: (nat, seq<ScanInfo>))
    ensures |r.1| == r.0
  {
    if ncomps <= MAX_COMPS_IN_SCAN then (1, [ScanInfo(seq(ncomps, c => c), 0, 0, ah, al)])
    else (ncomps, seq(ncomps, c => Ac(c, 0, 0, ah, al)))
  }

  /** One more place of the list filled. */
  method Try(script: array<ScanInfo>, at: nat, c: int, ss: int, se: int, ah: int, al: int, ghost ncomps: nat,
             ghost dcMode: int) returns (next: nat)
    requires at < script.Length && Listed(script[..], at, ncomps, dcMode)
             && TrialScan(at, ncomps, dcMode) == Ac(c, ss, se, ah, al)
    modifies script
    ensures next == at + 1 && Listed(script[..], next, ncomps, dcMode)
  {
    hide TrialScan;
    next := FillAScan(script, at, c, ss, se, ah, al);
  }

  /** jpeg_search_progression: for gray and YCbCr images a list; for all others none. */
  method SearchProgression(ncomps: nat, ycc: bool, dcMode: int, script: array<ScanInfo>)
      returns (ok: bool, plan: SearchPlan)
    requires script.Length >= 64
    modifies script
    ensures ok <==> (ncomps == 3 && ycc) || ncomps == 1
    ensures ok ==> plan == Plan(ncomps) && Listed(script[..], plan.numScans, ncomps, dcMode)
  {
    hide Listed, TrialScan;
    if !(ncomps == 3 && ycc) && ncomps != 1 {
      return false, SearchPlan(0, 0, 0, 0, 0, 0, 0);
    }
    ok := true;
    var nscans := if ncomps == 3 then 64 else 23;
    var dcs := if dcMode == 0 then ncomps else 1;
    var at := FillDcScans(script, 0, dcs, 0, 0);
    FirstListed(script[..], ncomps, dcMode, dcs);
    at := LumaScans(script, at, ncomps, dcMode);
    if ncomps == 1 {
      plan := SearchPlan(nscans, 1 + (3 * 3 + 2) + (2 * 5 + 1), 1, 0, 5, 3, 0);
    } else {
      ghost var before := script[..];
      at := FillAScanPair(script, at, 1, 0, 0, 0, 0);
      PairListed(before, script[..], ncomps, dcMode);
      at := ChromaScans(script, at, ncomps, dcMode);
      plan := SearchPlan(nscans, 1 + (3 * 3 + 2) + (2 * 5 + 1), 1, 3, 5, 3, 2);
    }
  }

  lemma FirstListed(script: seq<ScanInfo>, ncomps: nat, dcMode: int, dcs: nat)
    requires 1 <= ncomps <= 3 && dcs == (if dcMode == 0 then ncomps else 1) && |script| >= 1
    requires script[0] == DcScans(dcs, 0, 0).1[0]
    ensures Listed(script, 1, ncomps, dcMode)
  {
    assert dcMode != 0 ==> seq(dcs, c => c) == [0];
  }

  lemma PairListed(before: seq<ScanInfo>, script: seq<ScanInfo>, ncomps: nat, dcMode: int)
    requires |before| >= 64 && Listed(before, 23, ncomps, dcMode)
             && script == before[23 := ScanInfo([1, 2], 0, 0, 0, 0)]
    ensures Listed(script, 24, ncomps, dcMode)
  {
    assert TrialScan(23, ncomps, dcMode) == ScanInfo([1, 2], 0, 0, 0, 0);
    hide TrialScan;
  }

  method LumaScans(script: array<ScanInfo>, start: nat, ncomps: nat, dcMode: int) returns (at: nat)
    requires script.Length >= 64 && start == 1 && Listed(script[..], 1, ncomps, dcMode)
    modifies script
    ensures at == 23 && Listed(script[..], 23, ncomps, dcMode)
  {
    hide Listed;
    at := Try(script, start, 0, 1, 8, 0, 0, ncomps, dcMode);
    at := Try(script, at, 0, 9, 63, 0, 0, ncomps, dcMode);
    for al := 0 to 3
      invariant at == 3 + 3 * al && Listed(script[..], at, ncomps, dcMode)
    {
      at := Try(script, at, 0, 1, 63, al + 1, al, ncomps, dcMode);
      at := Try(script, at, 0, 1, 8, 0, al + 1, ncomps, dcMode);
      at := Try(script, at, 0, 9, 63, 0, al + 1, ncomps, dcMode);
    }
    at := Try(script, at, 0, 1, 63, 0, 0, ncomps, dcMode);
    for i := 0 to 5
      invariant at == 13 + 2 * i && Listed(script[..], at, ncomps, dcMode)
    {
      at := Try(script, at, 0, 1, FrequencySplit(i), 0, 0, ncomps, dcMode);
      at := Try(script, at, 0, FrequencySplit(i) + 1, 63, 0, 0, ncomps, dcMode);
    }
  }

  method ChromaScans(script: array<ScanInfo>, start: nat, ncomps: nat, dcMode: int) returns (at: nat)
    requires script.Length >= 64 && start == 24 && Listed(script[..], 24, ncomps, dcMode)
    modifies script
    ensures at == 64 && Listed(script[..], 64, ncomps, dcMode)
  {
    hide Listed;
    at := Try(script, start, 1, 0, 0, 0, 0, ncomps, dcMode);
    at := Try(script, at, 2, 0, 0, 0, 0, ncomps, dcMode);
    at := ChromaParts(script, at, 0, ncomps, dcMode);
    for al := 0 to 2
      invariant at == 30 + 6 * al && Listed(script[..], at, ncomps, dcMode)
    {
      at := Try(script, at, 1, 1, 63, al + 1, al, ncomps, dcMode);
      at := Try(script, at, 2, 1, 63, al + 1, al, ncomps, dcMode);
      at := ChromaParts(script, at, al + 1, ncomps, dcMode);
    }
    at := Try(script, at, 1, 1, 63, 0, 0, ncomps, dcMode);
    at := Try(script, at, 2, 1, 63, 0, 0, ncomps, dcMode);
    for i := 0 to 5
      invariant at == 44 + 4 * i && Listed(script[..], at, ncomps, dcMode)
    {
      var f := FrequencySplit(i);
      at := Try(script, at, 1, 1, f, 0, 0, ncomps, dcMode);
      at := Try(script, at, 1, f + 1, 63, 0, 0, ncomps, dcMode);
      at := Try(script, at, 2, 1, f, 0, 0, ncomps, dcMode);
      at := Try(script, at, 2, f + 1, 63, 0, 0, ncomps, dcMode);
    }
  }

  /** Both chroma components split at 8. */
  method ChromaParts(script: array<ScanInfo>, start: nat, al: nat, ncomps: nat, dcMode: int) returns (at: nat)
    requires script.Length >= 64 && al <= 2 && start == 26 + 6 * al && Listed(script[..], start, ncomps, dcMode)
    modifies script
    ensures at == start + 4 && Listed(script[..], at, ncomps, dcMode)
  {
    hide Listed;
    at := Try(script, start, 1, 1, 8, 0, al, ncomps, dcMode);
    at := Try(script, at, 1, 9, 63, 0, al, ncomps, dcMode);
    at := Try(script, at, 2, 1, 8, 0, al, ncomps, dcMode);
    at := Try(script, at, 2, 9, 63, 0, al, ncomps, dcMode);
  }
}
