/** The passes the compressor makes (jcmaster.c), as they are numbered: which pass
    a number calls for, and what a record of passes in the right order implies.
 */
module PassLog {
  import opened Arithmetic
  import opened Coefficients
  import opened ScanScript

  datatype PassType = MainPass | HuffOptPass | OutputPass | TrellisPass

  /** Components, script and trellis parameters. */
  datatype Setup = Setup(ncomps: nat, script: seq<ScanInfo>, trellis: bool, useScansInTrellis: bool, freqSplit: nat,
                         loops: nat)

  predicate ValidSetup(u: Setup) {
    u.ncomps >= 1 && |u.script| >= 1
  }

  /** Passes per component and loop. */
  function Round(u: Setup): nat {
    if u.useScansInTrellis then 4 else 2
  }

  /** pass_number_scan_opt_base. */
  function Base(u: Setup): nat {
    if u.trellis then Round(u) * u.ncomps * u.loops else 0
  }

  function TotalPasses(u: Setup): nat {
    2 * |u.script| + Base(u)
  }

  /** The component and band of a pass before the scans: as many passes for each
      component as there are loops, alternating between the two bands if there
      are two.
   */
  function TrellisScan(u: Setup, pass: nat, cur: ScanInfo): ScanInfo
    requires u.loops >= 1
  {
    var low := !u.useScansInTrellis || pass % 4 < 2;
    cur.(comps := [pass / (Round(u) * u.loops)],
         ss := if low then 1 else u.freqSplit + 1,
         se := if low && u.useScansInTrellis then u.freqSplit else DCTSIZE2 - 1)
  }

  /** A trellis pass is asked for but no passes are set aside for it. */
  predicate Stray(u: Setup) {
    u.trellis && u.loops == 0
  }

  // ----- What happened -----------------------------------------------------------------------

  datatype Kind = Gather | Requantize | Output

  /** A pass that was made: its number, the scan it belongs to, its parameters. */
  datatype Event = Event(kind: Kind, pass: nat, scan: nat, params: ScanInfo)

  predicate SameBand(a: ScanInfo, b: ScanInfo) {
    a.comps == b.comps && a.ss == b.ss && a.se == b.se
  }

  /** The pass has its number, or is two late because of a stray trellis pass. */
  predicate OnTime(u: Setup, pass: nat, n: nat) {
    pass == n || (Stray(u) && pass == n + 2)
  }

  /** The kind of pass that its number calls for. */
  ghost predicate RightPass(u: Setup, e: Event) {
    if e.pass < Base(u) then
      && e.kind == (if e.pass % 2 == 0 then Gather else Requantize)
      && (u.loops >= 1 ==> SameBand(e.params, TrellisScan(u, e.pass, e.params)))
    else
      && e.scan < |u.script| && e.params == u.script[e.scan].(al := e.params.al)
      && match e.kind
         case Gather => OnTime(u, e.pass, Base(u) + 2 * e.scan)
         case Output => OnTime(u, e.pass, Base(u) + 2 * e.scan + 1)
         case Requantize => Stray(u) && e.pass == 1 && e.scan == 0
  }

  /** A scan whose statistics need not be gathered. */
  predicate DcRefinement(s: ScanInfo) {
    s.ss == 0 && s.ah != 0
  }

  /** The pass before the last one gathered its statistics. */
  ghost predicate Gathered(log: seq<Event>, e: Event) {
    log != [] &&
    var g := log[|log| - 1];
    g.kind.Gather? && g.pass + 1 == e.pass && g.scan == e.scan && SameBand(g.params, e.params)
  }

  /** The pass comes after those made, unless a stray one has upset the numbers. */
  ghost predicate Later(u: Setup, log: seq<Event>, pass: nat) {
    log != [] && !Stray(u) ==> log[|log| - 1].pass < pass
  }

  /** Every pass is where its number says, after all earlier ones; statistics for
      a pass are gathered in the pass before it.
   */
  ghost predicate RightLog(u: Setup, log: seq<Event>)
    decreases |log|
  {
    log == [] ||
    var before, e := log[..|log| - 1], log[|log| - 1];
    && RightLog(u, before) && RightPass(u, e)
    && (e.pass < Base(u) ==> |before| == e.pass)
    && (e.kind.Requantize? ==> Gathered(before, e))
    && (e.kind.Output? ==> Gathered(before, e) || DcRefinement(e.params))
    && Later(u, before, e.pass)
  }

  /** The scans whose output passes were made. */
  ghost function Outputs(log: seq<Event>): seq<nat>
    decreases |log|
  {
    if log == [] then []
    else Outputs(log[..|log| - 1]) + if log[|log| - 1].kind.Output? then [log[|log| - 1].scan] else []
  }

  lemma LogMore(u: Setup, log: seq<Event>, e: Event)
    requires RightLog(u, log) && RightPass(u, e) && (e.pass < Base(u) ==> |log| == e.pass)
    requires e.kind.Requantize? ==> Gathered(log, e)
    requires e.kind.Output? ==> Gathered(log, e) || DcRefinement(e.params)
    requires Later(u, log, e.pass)
    ensures RightLog(u, log + [e])
    ensures Outputs(log + [e]) == Outputs(log) + if e.kind.Output? then [e.scan] else []
  {
    var all := log + [e];
    assert all[..|all| - 1] == log && all[|all| - 1] == e;
  }

  // ----- Between passes -------------------------------------------------------------------------

  /** The passes before number `n` that are set aside for the trellis were made. */
  ghost predicate Warm(u: Setup, log: seq<Event>, n: nat) {
    && (if n < Base(u) then n else Base(u)) <= |log|
    && forall i :: 0 <= i < Base(u) && i < n ==> log[i].pass == i
  }

  lemma WarmAt(u: Setup, log: seq<Event>, n: nat, i: nat)
    requires Warm(u, log, n) && i < n && i < Base(u)
    ensures i < |log| && log[i].pass == i
  {
    hide Base;
  }

  lemma WarmMore(u: Setup, log: seq<Event>, e: Event)
    requires Warm(u, log, e.pass) && (e.pass < Base(u) ==> |log| == e.pass)
    ensures Warm(u, log + [e], e.pass + 1)
  {
    hide Base;
  }

  lemma AllWarm(u: Setup, log: seq<Event>, n: nat, m: nat)
    requires Warm(u, log, n) && n >= Base(u)
    ensures Warm(u, log, m)
  {
    hide Base;
  }

  ghost predicate LateBy(u: Setup, late: nat) {
    late == 0 || (late == 2 && Stray(u))
  }

  /** The state before a pass: type and number fit together and the log is right so
      far; `late` is how far passes are behind their numbers.
   */
  ghost predicate ReadyFor(u: Setup, late: nat, t: PassType, pass: nat, scan: nat, cur: ScanInfo, log: seq<Event>) {
    && RightLog(u, log) && Later(u, log, pass) && pass < TotalPasses(u) && scan < |u.script|
    && (pass <= Base(u) ==> |log| == pass) && Warm(u, log, pass) && LateBy(u, late)
    && match t
       case MainPass => pass == 0 && scan == 0
       case HuffOptPass => if pass < Base(u) then pass % 2 == 0 && scan == 0 else pass == Base(u) + 2 * scan + late
       case TrellisPass =>
         && pass % 2 == 1 && scan == 0 && (pass < Base(u) || (Stray(u) && pass == 1 && late == 2))
         && Gathered(log, Event(Requantize, pass, scan, cur)) && (pass >= Base(u) ==> cur == u.script[0].(al := cur.al))
       case OutputPass => pass == Base(u) + 2 * scan + 1 + late && Gathered(log, Event(Output, pass, scan, cur))
  }

  function KindOf(t: PassType): Kind {
    match t case MainPass => Gather case HuffOptPass => Gather case OutputPass => Output case TrellisPass => Requantize
  }

  /** The state during a pass: the pass is in the log. */
  ghost predicate InPass(u: Setup, late: nat, t: PassType, pass: nat, scan: nat, cur: ScanInfo, log: seq<Event>) {
    && RightLog(u, log) && log != [] && log[|log| - 1] == Event(KindOf(t), pass, scan, cur)
    && pass < TotalPasses(u) && scan < |u.script| && (pass < Base(u) ==> |log| == pass + 1 && scan == 0)
    && Warm(u, log, pass + 1) && LateBy(u, late)
    && match t
       case MainPass => pass == 0 && scan == 0
       case HuffOptPass => pass >= Base(u) ==> pass == Base(u) + 2 * scan + late
       case TrellisPass => scan == 0 && (pass < Base(u) || (Stray(u) && pass == 1 && late == 2))
       case OutputPass => pass == Base(u) + 2 * scan + 1 + late
  }

  lemma Positive(a: nat, b: nat)
    requires a >= 1 && b >= 1
    ensures a * b >= 1
  {
  }

  lemma EvenTimes(r: nat, a: nat)
    requires r == 2 || r == 4
    ensures (r * a) % 2 == 0
  {
    assert r * a == 2 * ((r / 2) * a);
  }

  /** The passes before the scans come in pairs. */
  lemma BaseFacts(u: Setup)
    requires ValidSetup(u)
    ensures Base(u) % 2 == 0 && (Base(u) > 0 <==> u.trellis && u.loops >= 1)
  {
    if u.trellis {
      var r := Round(u);
      assert r * u.ncomps * u.loops == r * (u.ncomps * u.loops);
      EvenTimes(r, u.ncomps * u.loops);
      if u.loops >= 1 { Positive(u.ncomps, u.loops); Positive(r, u.ncomps * u.loops); }
    }
  }

  lemma QuotientOfNext(p: nat, d: nat)
    requires d >= 1 && d % 2 == 0 && p % 2 == 0
    ensures (p + 1) / d == p / d && p / d >= 0
  {
    var m, h, q := p / 2, d / 2, p / d;
    Remainder(p, d);
    Associate(2, h, q);
    var t := m - h * q;
    assert p == d * q + 2 * t && 2 * t < d;
    assert q * d <= p + 1 < q * d + d;
    Distribute(d, q, 1);
    QuotientIs(p + 1, d, q);
  }

  lemma Remainder(p: nat, d: nat)
    requires d >= 1
    ensures p / d >= 0 && d * (p / d) <= p < d * (p / d) + d && d * (p / d) == (p / d) * d
  {
  }

  /** A gathering pass and the pass after it are for the same component and band. */
  lemma TrellisPair(u: Setup, pass: nat, a: ScanInfo, b: ScanInfo)
    requires u.loops >= 1 && pass % 2 == 0
    ensures SameBand(TrellisScan(u, pass, a), TrellisScan(u, pass + 1, b))
  {
    var d := Round(u) * u.loops;
    EvenTimes(Round(u), u.loops);
    Positive(Round(u), u.loops);
    QuotientOfNext(pass, d);
    BandOfNext(pass);
    assert TrellisScan(u, pass, a).comps == [pass / d] && TrellisScan(u, pass + 1, b).comps == [(pass + 1) / d];
  }

  lemma BandOfNext(pass: nat)
    requires pass % 2 == 0
    ensures pass % 4 < 2 <==> (pass + 1) % 4 < 2
  {
    var q, m := pass / 4, pass / 2;
    assert pass == 2 * m;
    Rest(pass, 4, q, 2 * (m - 2 * q));
    Rest(pass + 1, 4, q, 2 * (m - 2 * q) + 1);
  }

  lemma Rest(p: nat, d: nat, q: nat, r: int)
    requires d >= 1 && p == d * q + r && 0 <= r < d
    ensures p % d == r && p / d == q
  {
    Distribute(d, q, 1);
    QuotientIs(p, d, q);
    Remainder(p, d);
  }

  /** After a gathering pass. */
  lemma AfterGather(u: Setup, late: nat, t: PassType, pass: nat, scan: nat, cur: ScanInfo, log: seq<Event>)
    requires ValidSetup(u) && InPass(u, late, t, pass, scan, cur, log) && (t.MainPass? || t.HuffOptPass?)
    requires t.MainPass? && Stray(u) ==> late == 2
    ensures pass + 1 < Base(u) <==> pass < Base(u)
    ensures var next := if pass + 1 < Base(u) || (t.MainPass? && Stray(u)) then TrellisPass else OutputPass;
            ReadyFor(u, late, next, pass + 1, scan, cur, log)
  {
    hide Base, TrellisScan, RightLog;
    BaseFacts(u);
    LastRight(u, log);
  }

  /** After a trellis pass. */
  lemma AfterTrellis(u: Setup, late: nat, pass: nat, scan: nat, cur: ScanInfo, log: seq<Event>)
    requires ValidSetup(u) && InPass(u, late, TrellisPass, pass, scan, cur, log) && pass + 1 < TotalPasses(u)
    ensures ReadyFor(u, late, HuffOptPass, pass + 1, scan, cur, log)
  {
    hide Base, TrellisScan, RightLog;
    BaseFacts(u);
    LastRight(u, log);
  }

  /** After an output pass: on to the next scan, or, with the pass number set anew,
      to any later one.
   */
  lemma AfterOutput(u: Setup, late: nat, pass: nat, scan: nat, cur: ScanInfo, log: seq<Event>, late': nat, next: nat)
    requires ValidSetup(u) && InPass(u, late, OutputPass, pass, scan, cur, log) && scan < next < |u.script|
    requires if late' == late then next == scan + 1 || late == 0 else late' == 0
    requires Base(u) + 2 * next + late' < TotalPasses(u)
    requires Stray(u) || pass < Base(u) + 2 * next + late'
    ensures ReadyFor(u, late', HuffOptPass, Base(u) + 2 * next + late', next, cur, log)
  {
    hide Base, TrellisScan, RightLog;
    BaseFacts(u);
  }

  lemma GatherRight(u: Setup, late: nat, t: PassType, pass: nat, scan: nat, last: ScanInfo, cur: ScanInfo,
                    log: seq<Event>)
    requires ValidSetup(u) && ReadyFor(u, late, t, pass, scan, last, log) && (t.MainPass? || t.HuffOptPass?)
    requires pass < Base(u) && u.loops >= 1 ==> SameBand(cur, TrellisScan(u, pass, cur))
    requires pass >= Base(u) ==> cur == u.script[scan].(al := cur.al)
    ensures RightPass(u, Event(Gather, pass, scan, cur))
  {
    hide Base, TrellisScan, RightLog, Warm, SameBand, Later;
    BaseFacts(u);
  }

  /** A gathering pass begun. */
  lemma BeginGather(u: Setup, late: nat, t: PassType, pass: nat, scan: nat, last: ScanInfo, cur: ScanInfo,
                    log: seq<Event>)
    requires ValidSetup(u) && ReadyFor(u, late, t, pass, scan, last, log) && (t.MainPass? || t.HuffOptPass?)
    requires pass < Base(u) && u.loops >= 1 ==> SameBand(cur, TrellisScan(u, pass, cur))
    requires pass >= Base(u) ==> cur == u.script[scan].(al := cur.al)
    ensures InPass(u, late, t, pass, scan, cur, log + [Event(Gather, pass, scan, cur)])
    ensures Outputs(log + [Event(Gather, pass, scan, cur)]) == Outputs(log)
  {
    hide Base, TrellisScan, RightLog, RightPass, Outputs, Warm, SameBand, Later, Gathered, LateBy;
    BaseFacts(u);
    var e := Event(Gather, pass, scan, cur);
    GatherRight(u, late, t, pass, scan, last, cur, log);
    WarmMore(u, log, e);
    LogMore(u, log, e);
    assert (log + [e])[|log|] == e && Outputs(log) + [] == Outputs(log);
  }

  lemma BeginTrellis(u: Setup, late: nat, pass: nat, scan: nat, cur: ScanInfo, log: seq<Event>)
    requires ValidSetup(u) && ReadyFor(u, late, TrellisPass, pass, scan, cur, log)
    ensures InPass(u, late, TrellisPass, pass, scan, cur, log + [Event(Requantize, pass, scan, cur)])
    ensures Outputs(log + [Event(Requantize, pass, scan, cur)]) == Outputs(log)
  {
    hide Base, TrellisScan, RightLog, Outputs;
    BaseFacts(u);
    LastRight(u, log);
    var g := log[|log| - 1];
    if u.loops >= 1 { TrellisPair(u, g.pass, g.params, cur); }
    WarmMore(u, log, Event(Requantize, pass, scan, cur));
    LogMore(u, log, Event(Requantize, pass, scan, cur));
  }

  lemma LastRight(u: Setup, log: seq<Event>)
    requires RightLog(u, log) && log != []
    ensures RightPass(u, log[|log| - 1])
  {
  }

  /** An output pass begun, perhaps without gathering. */
  lemma BeginOutput(u: Setup, late: nat, pass: nat, scan: nat, cur: ScanInfo, log: seq<Event>)
    requires ValidSetup(u) && RightLog(u, log) && Later(u, log, pass) && Warm(u, log, pass)
    requires pass == Base(u) + 2 * scan + 1 + late && scan < |u.script| && pass < TotalPasses(u) && LateBy(u, late)
    requires Gathered(log, Event(Output, pass, scan, cur)) || DcRefinement(cur)
    requires cur == u.script[scan].(al := cur.al)
    ensures InPass(u, late, OutputPass, pass, scan, cur, log + [Event(Output, pass, scan, cur)])
    ensures Outputs(log + [Event(Output, pass, scan, cur)]) == Outputs(log) + [scan]
  {
    hide Base, TrellisScan, RightLog, Outputs;
    BaseFacts(u);
    WarmMore(u, log, Event(Output, pass, scan, cur));
    LogMore(u, log, Event(Output, pass, scan, cur));
  }

  /** Only an output pass is the last one, or a stray trellis pass of a single scan. */
  lemma LastPass(u: Setup, late: nat, t: PassType, pass: nat, scan: nat, cur: ScanInfo, log: seq<Event>)
    requires ValidSetup(u) && InPass(u, late, t, pass, scan, cur, log)
    ensures TotalPasses(u) == Base(u) + 2 * |u.script|
    ensures pass == TotalPasses(u) - 1 ==> t.OutputPass? || (t.TrellisPass? && Stray(u) && |u.script| == 1)
    ensures t.OutputPass? ==> pass == Base(u) + 2 * scan + 1 + late && log != [] && log[|log| - 1].kind.Output?
    ensures t.OutputPass? ==> (pass == TotalPasses(u) - 1 <==> 2 * scan + late == 2 * |u.script| - 2)
    ensures LateBy(u, late) && RightLog(u, log) && Warm(u, log, pass + 1) && scan < |u.script| && pass < TotalPasses(u)
    ensures t.TrellisPass? && pass != TotalPasses(u) - 1 ==> pass + 1 < TotalPasses(u)
  {
    hide Base, TrellisScan, RightLog;
    BaseFacts(u);
    LastRight(u, log);
  }

  // ----- The passes of the trellis --------------------------------------------------------------------

  /** The parameters are those of a component's whole band, or of its lower or
      upper part.
   */
  predicate ForBand(u: Setup, s: ScanInfo, c: nat, low: bool) {
    && s.comps == [c] && s.ss == (if low then 1 else u.freqSplit + 1)
    && s.se == if low && u.useScansInTrellis then u.freqSplit else DCTSIZE2 - 1
  }

  /** How often a component's band was requantized. */
  ghost function Requantized(u: Setup, log: seq<Event>, c: nat, low: bool): nat
    decreases |log|
  {
    if log == [] then 0
    else
      var e := log[|log| - 1];
      Requantized(u, log[..|log| - 1], c, low) + if e.kind.Requantize? && ForBand(u, e.params, c, low) then 1 else 0
  }

  lemma RequantizedMore(u: Setup, log: seq<Event>, n: nat, c: nat, low: bool)
    requires n < |log|
    ensures Requantized(u, log[..n + 1], c, low)
         == Requantized(u, log[..n], c, low)
               + if log[n].kind.Requantize? && ForBand(u, log[n].params, c, low) then 1 else 0
  {
    assert log[..n + 1][..n] == log[..n];
  }

  lemma {:induction false} RightAt(u: Setup, log: seq<Event>, i: nat)
    requires RightLog(u, log) && i < |log|
    ensures RightPass(u, log[i])
    ensures i > 0 && !Stray(u) ==> log[i - 1].pass < log[i].pass
    ensures log[i].kind.Requantize? ==> i > 0 && Gathered(log[..i], log[i])
    decreases |log|
  {
    hide RightPass;
    if i < |log| - 1 {
      RightAt(u, log[..|log| - 1], i);
      assert log[..|log| - 1][..i] == log[..i];
    }
  }

  /** The component and band of the passes of one round. */
  lemma RoundScan(u: Setup, n: nat, r: nat, cur: ScanInfo)
    requires u.loops >= 1 && r < Round(u)
    ensures n / u.loops >= 0
    ensures var s := TrellisScan(u, Round(u) * n + r, cur);
            forall c: nat, low: bool :: low || u.useScansInTrellis ==>
              (ForBand(u, s, c, low) <==> c == n / u.loops && (low <==> r < 2))
  {
    var d, q := Round(u) * u.loops, n / u.loops;
    Positive(Round(u), u.loops);
    Remainder(n, u.loops);
    var t := n - u.loops * q;
    Associate(Round(u), u.loops, q);
    SumBelow(Round(u), t, u.loops, r);
    assert Round(u) * n + r == d * q + (Round(u) * t + r);
    Rest(Round(u) * n + r, d, q, Round(u) * t + r);
    if u.useScansInTrellis { Rest(4 * n + r, 4, n, r); }
  }

  lemma SumBelow(a: nat, t: nat, m: nat, r: nat)
    requires t < m && r < a
    ensures 0 <= a * t + r < a * m
  {
    Distribute(a, t, 1);
    LessTimes(t + 1, m, a);
    Associate(a, m, 1);
    assert a * (t + 1) <= a * m;
  }

  function Share(n: nat, c: nat, loops: nat): nat {
    if n < c * loops then 0 else if n < c * loops + loops then n - c * loops else loops
  }

  lemma ShareOfNext(n: nat, c: nat, loops: nat)
    requires loops >= 1
    ensures n / loops >= 0 && Share(n + 1, c, loops) == Share(n, c, loops) + if c == n / loops then 1 else 0
  {
    var q := n / loops;
    Remainder(n, loops);
    assert q * loops == loops * q;
    if c < q { TimesGap(c, q, loops); } else if c > q { TimesGap(q, c, loops); }
  }

  lemma TimesGap(a: nat, b: nat, m: nat)
    requires a < b
    ensures a * m + m <= b * m
  {
    Distribute(m, a, 1);
    LessTimes(a + 1, b, m);
  }

  /** `n` whole rounds of passes. */
  lemma {:induction false} RoundsMade(u: Setup, log: seq<Event>, n: nat, c: nat, low: bool)
    requires u.trellis && u.loops >= 1 && RightLog(u, log) && Warm(u, log, Base(u)) && (low || u.useScansInTrellis)
    requires 0 <= Round(u) * n <= Base(u)
    ensures Round(u) * n <= |log| && Requantized(u, log[..Round(u) * n], c, low) == Share(n, c, u.loops)
    decreases n
  {
    hide RightLog, RightPass, Base, TrellisScan, Share, Requantized;
    if n == 0 {
      FirstRound(u, log, c, low);
    } else {
      var at := Round(u) * (n - 1);
      assert Round(u) * n == at + Round(u);
      RoundsMade(u, log, n - 1, c, low);
      PassMade(u, log, n - 1, 0, c, low);
      PassMade(u, log, n - 1, 1, c, low);
      if u.useScansInTrellis {
        PassMade(u, log, n - 1, 2, c, low);
        PassMade(u, log, n - 1, 3, c, low);
      }
      ShareOfNext(n - 1, c, u.loops);
    }
  }

  lemma FirstRound(u: Setup, log: seq<Event>, c: nat, low: bool)
    ensures Requantized(u, log[..0], c, low) == 0 == Share(0, c, u.loops)
  {
    assert c * u.loops >= 0;
  }

  /** One pass of a round. */
  lemma PassMade(u: Setup, log: seq<Event>, n: nat, r: nat, c: nat, low: bool)
    requires u.trellis && u.loops >= 1 && RightLog(u, log) && Warm(u, log, Base(u)) && (low || u.useScansInTrellis)
    requires r < Round(u) && 0 <= Round(u) * n + r < Base(u)
    ensures n / u.loops >= 0 && Round(u) * n + r < |log|
    ensures Requantized(u, log[..Round(u) * n + r + 1], c, low) == Requantized(u, log[..Round(u) * n + r], c, low)
         + if r % 2 == 1 && c == n / u.loops && (low <==> r < 2) then 1 else 0
  {
    hide RightLog, Base, Warm, TrellisScan, Requantized;
    var i := Round(u) * n + r;
    WarmAt(u, log, Base(u), i);
    RightAt(u, log, i);
    RoundScan(u, n, r, log[i].params);
    RequantizedMore(u, log, i, c, low);
    EvenTimes(Round(u), n);
    assert i % 2 == r % 2;
    var s := TrellisScan(u, i, log[i].params);
    assert ForBand(u, log[i].params, c, low) <==> ForBand(u, s, c, low);
  }

  /** The passes of the scans requantize nothing. */
  lemma {:induction false} NoMoreMade(u: Setup, log: seq<Event>, n: nat, c: nat, low: bool)
    requires ValidSetup(u) && u.trellis && u.loops >= 1 && RightLog(u, log) && Warm(u, log, Base(u))
             && Base(u) <= n <= |log|
    ensures Requantized(u, log[..n], c, low) == Requantized(u, log[..Base(u)], c, low)
    ensures n > Base(u) ==> log[n - 1].pass >= Base(u)
    decreases n
  {
    hide RightLog, Base, TrellisScan, Requantized;
    BaseFacts(u);
    if n > Base(u) {
      NoMoreMade(u, log, n - 1, c, low);
      RightAt(u, log, n - 1);
      RequantizedMore(u, log, n - 1, c, low);
    }
  }

  /** Each component, and each part of its band if there are two, is requantized as
      often as there are loops.
   */
  lemma TrellisPassesMade(u: Setup, log: seq<Event>, c: nat, low: bool)
    requires ValidSetup(u) && u.trellis && u.loops >= 1 && RightLog(u, log) && Warm(u, log, Base(u))
    requires c < u.ncomps && (low || u.useScansInTrellis)
    ensures Requantized(u, log, c, low) == u.loops
  {
    hide RightLog, RightPass, Requantized;
    var n := u.ncomps * u.loops;
    Associate(Round(u), u.ncomps, u.loops);
    BaseFacts(u);
    RoundsMade(u, log, n, c, low);
    TimesGap(c, u.ncomps, u.loops);
    NoMoreMade(u, log, |log|, c, low);
    assert log[..|log|] == log && Round(u) * n == Base(u);
  }

  /** Whatever is requantized is a component of the frame whose statistics were
      gathered, for the same band, in the pass before.
   */
  lemma OwnStatistics(u: Setup, log: seq<Event>, i: nat)
    requires ValidSetup(u) && u.loops >= 1 && RightLog(u, log) && i < |log| && log[i].kind.Requantize?
    ensures i > 0 && log[i - 1].kind.Gather? && log[i - 1].pass + 1 == log[i].pass
            && SameBand(log[i - 1].params, log[i].params)
    ensures exists c: nat, low: bool ::
              c < u.ncomps && (low || u.useScansInTrellis) && ForBand(u, log[i].params, c, low)
  {
    hide RightLog, Base;
    RightAt(u, log, i);
    assert log[..i][i - 1] == log[i - 1];
    InFrame(u, log[i].pass);
    var c: nat, low := log[i].pass / (Round(u) * u.loops), !u.useScansInTrellis || log[i].pass % 4 < 2;
    assert ForBand(u, log[i].params, c, low);
  }

  lemma InFrame(u: Setup, pass: nat)
    requires u.loops >= 1 && pass < Base(u)
    ensures Round(u) * u.loops >= 1 && 0 <= pass / (Round(u) * u.loops) < u.ncomps
  {
    var d, q := Round(u) * u.loops, u.ncomps;
    Positive(Round(u), u.loops);
    Remainder(pass, d);
    assert Round(u) * u.ncomps * u.loops == d * q by {
      Associate(Round(u), u.ncomps, u.loops);
      Associate(Round(u), u.loops, u.ncomps);
      assert u.ncomps * u.loops == u.loops * u.ncomps;
    }
    if pass / d >= q { TimesOrder(d, q, pass / d); }
  }

  lemma TimesOrder(d: nat, a: nat, b: nat)
    requires a <= b
    ensures d * a <= d * b
  {
  }

  /** Every output pass belongs to a scan of the script and has that scan's
      components and band.  Unless the scan refines DC coefficients, the pass right
      before it gathered the statistics of the same scan; without a stray trellis
      pass it is the pass with the number set aside for it.
   */
  lemma EveryOutputGathered(u: Setup, log: seq<Event>, i: nat)
    requires ValidSetup(u) && RightLog(u, log) && i < |log| && log[i].kind.Output?
    ensures log[i].scan < |u.script|
    ensures var s, e := u.script[log[i].scan], log[i];
            && e.params.comps == s.comps && e.params.ss == s.ss && e.params.se == s.se && e.params.ah == s.ah
            && (s.ss != 0 || s.ah == 0 ==>
                  && i > 0 && log[i - 1].kind.Gather? && log[i - 1].scan == e.scan && log[i - 1].pass + 1 == e.pass
                  && log[i - 1].params.comps == s.comps && log[i - 1].params.ss == s.ss
                  && log[i - 1].params.se == s.se)
            && (!u.trellis || u.loops >= 1 ==>
                  e.pass == (if u.trellis then (if u.useScansInTrellis then 4 else 2) * u.ncomps * u.loops else 0)
                            + 2 * e.scan + 1)
  {
    OutputAt(u, log, i);
    RightAt(u, log, i);
    BaseFacts(u);
    if i > 0 { assert log[..i][i - 1] == log[i - 1]; }
  }

  lemma {:induction false} OutputAt(u: Setup, log: seq<Event>, i: nat)
    requires RightLog(u, log) && i < |log| && log[i].kind.Output?
    ensures Gathered(log[..i], log[i]) || DcRefinement(log[i].params)
    decreases |log|
  {
    if i < |log| - 1 {
      OutputAt(u, log[..|log| - 1], i);
      assert log[..|log| - 1][..i] == log[..i];
    }
  }
}
