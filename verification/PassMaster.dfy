/** The pass state machine of the compressor (jcmaster.c) and the loop that
    drives it (jpeg_finish_compress, jcapimin.c), with Huffman optimization.
 */
module PassMaster {
  import opened Arithmetic
  import opened Coefficients
  import opened ScanScript
  import opened SearchScript
  import opened ScanChoice
  import opened SearchOutcome
  import opened ScanSearch
  import opened PassLog

  // ----- The master controller ---------------------------------------------------------------------

  ghost function Elements(s: seq<nat>): set<nat> {
    set i | i in s
  }

  ghost function Counting(n: nat): seq<nat> {
    seq(n, i => i)
  }

  /** The search is made over this script. */
  ghost predicate Searching(u: Setup, search: Search) {
    search.Listing() && search.script == u.script && |u.script| == NumScans(search.color)
        && u.ncomps == (if search.color then 3 else 1)
  }

  class Master {
    const setup: Setup
    const optimizeScans: bool
    const search: Search
    const passNumberScanOptBase: nat
    const totalPasses: nat
    var passType: PassType
    var passNumber: nat
    var scanNumber: nat
    var isLastPass: bool
    var cur: ScanInfo
    ghost var log: seq<Event>

    /** jinit_c_master_control, for compression with optimal Huffman tables. */
    constructor (setup: Setup, optimizeScans: bool, search: Search)
      requires ValidSetup(setup)
               && (optimizeScans ==>
                     Searching(setup, search) && search.NextIs(0) && search.ran == {} && search.dest == []
                     && !search.jumped)
      ensures this.setup == setup && this.optimizeScans == optimizeScans && this.search == search
      ensures Fixed() && Ready() && passType.MainPass? && !isLastPass && log == []
    {
      this.setup, this.optimizeScans, this.search := setup, optimizeScans, search;
      passType, scanNumber, passNumber, isLastPass, cur := MainPass, 0, 0, false, setup.script[0];
      var base := 0;
      if setup.trellis {
        base := (if setup.useScansInTrellis then 4 else 2) * setup.ncomps * setup.loops;
      }
      passNumberScanOptBase, totalPasses := base, |setup.script| * 2 + base;
      log := [];
      new;
      BaseFacts(setup);
    }

    ghost predicate Fixed() {
      && ValidSetup(setup) && passNumberScanOptBase == Base(setup) && totalPasses == TotalPasses(setup)
      && (optimizeScans ==> Searching(setup, search))
    }

    /** How far passes are behind their numbers: a stray trellis pass delays them by
        two, until a jump of the search sets the number anew.
     */
    ghost function Late(): nat
      reads this, search
    {
      if Stray(setup) && !(optimizeScans && search.jumped) then 2 else 0
    }

    /** The search stands where the passes stand. */
    ghost predicate InStep(n: nat)
      reads this, search
    {
      optimizeScans ==> search.NextIs(n) && search.ran == Elements(Outputs(log)) && search.dest == []
    }

    /** Without a search every scan so far was output once, in order. */
    ghost predicate AllSoFar(n: nat)
      reads this
    {
      !optimizeScans ==> Outputs(log) == Counting(n)
    }

    /** The parameters of the scan. */
    function Script(): ScanInfo
      requires scanNumber < |setup.script| && (optimizeScans ==> search.script == setup.script)
      reads this, search
    {
      if optimizeScans then search.Parameters(scanNumber) else setup.script[scanNumber]
    }

    /** Before a pass. */
    ghost predicate Ready()
      requires Fixed()
      reads this, search
    {
      && ReadyFor(setup, Late(), passType, passNumber, scanNumber, cur, log) && InStep(scanNumber)
         && AllSoFar(scanNumber)
      && (passType.MainPass? && Stray(setup) ==> Late() == 2)
      && (passType.OutputPass? ==> cur == Script())
    }

    /** During a pass. */
    ghost predicate Prepared()
      requires Fixed()
      reads this, search
    {
      && InPass(setup, Late(), passType, passNumber, scanNumber, cur, log)
         && (isLastPass <==> passNumber == totalPasses - 1)
      && (passNumber >= Base(setup) && !passType.TrellisPass? ==> cur == Script())
      && (passType.MainPass? && Stray(setup) ==> Late() == 2)
      && AllSoFar(if passType.OutputPass? then scanNumber + 1 else scanNumber)
      && (optimizeScans ==>
           && search.NextIs(scanNumber) && search.dest == []
           && Elements(Outputs(log)) == search.ran + if passType.OutputPass? then {scanNumber} else {})
    }

    /** select_scan_parameters. */
    method SelectScanParameters()
      requires Fixed() && scanNumber < |setup.script| && (passNumber < Base(setup) ==> setup.loops >= 1)
      modifies `cur
      ensures if passNumber < Base(setup) then cur == TrellisScan(setup, passNumber, old(cur)) else cur == Script()
      ensures passNumber < Base(setup) ==> cur.ss >= 1 && SameBand(cur, TrellisScan(setup, passNumber, cur))
    {
      hide Base, Listed, TrialScan;
      if passNumber < passNumberScanOptBase {
        if setup.useScansInTrellis {
          cur := cur.(comps := [Share(passNumber, 4 * setup.loops)],
                      ss := if passNumber % 4 < 2 then 1 else setup.freqSplit + 1,
                      se := if passNumber % 4 < 2 then setup.freqSplit else DCTSIZE2 - 1);
        } else {
          cur := cur.(comps := [Share(passNumber, 2 * setup.loops)], ss := 1, se := DCTSIZE2 - 1);
        }
      } else {
        cur := Script();
      }
    }

    static function Share(p: nat, d: nat): nat
      requires d >= 1
    {
      Remainder(p, d);
      p / d
    }

    /** The first pass, or a pass that gathers statistics unless the scan refines DC. */
    method PrepareScan()
      requires Fixed() && Ready() && !isLastPass && (passType.MainPass? || passType.HuffOptPass?)
      modifies `passType, `passNumber, `cur, `log
      ensures InPass(setup, Late(), passType, passNumber, scanNumber, cur, log) && old(passNumber) <= passNumber
      ensures (passType.MainPass? <==> old(passType).MainPass?) && !passType.TrellisPass?
      ensures passNumber >= Base(setup) ==> cur == Script()
      ensures Outputs(log) == if passType.OutputPass? then old(Outputs(log)) + [scanNumber] else old(Outputs(log))
    {
      hide Base, RightLog, Warm, Outputs, TrellisScan, Listed, Elements, Counting, RightPass, Known, TrialScan;
      BaseFacts(setup);
      ghost var last := cur;
      SelectScanParameters();
      if passType.MainPass? || cur.ss != 0 || cur.ah == 0 {
        BeginGather(setup, Late(), passType, passNumber, scanNumber, last, cur, log);
        log := log + [Event(Gather, passNumber, scanNumber, cur)];
      } else {
        passType := OutputPass;
        passNumber := passNumber + 1;
        AllWarm(setup, log, passNumber - 1, passNumber);
        BeginOutput(setup, Late(), passNumber, scanNumber, cur, log);
        log := log + [Event(Output, passNumber, scanNumber, cur)];
      }
    }

    /** prepare_for_pass. */
    method PrepareForPass()
      requires Fixed() && Ready() && !isLastPass
      modifies this
      ensures Prepared() && old(passNumber) <= passNumber && scanNumber == old(scanNumber)
              && (old(passType).MainPass? ==> passType.MainPass?)
    {
      hide Base, RightLog, Warm, Outputs, TrellisScan, Listed, Elements, Counting, RightPass, Known, TrialScan,
           ReadyFor, InPass;
      if passType.MainPass? || passType.HuffOptPass? {
        PrepareScan();
      } else {
        BeginLater();
        if passType.OutputPass? {
          log := log + [Event(Output, passNumber, scanNumber, cur)];
        } else {
          log := log + [Event(Requantize, passNumber, scanNumber, cur)];
        }
      }
      isLastPass := passNumber == totalPasses - 1;
      OneMore(old(Outputs(log)), scanNumber);
    }

    lemma BeginLater()
      requires Fixed() && Ready() && (passType.OutputPass? || passType.TrellisPass?)
      ensures var more := log + [Event(KindOf(passType), passNumber, scanNumber, cur)];
              && InPass(setup, Late(), passType, passNumber, scanNumber, cur, more)
              && Outputs(more) == if passType.OutputPass? then Outputs(log) + [scanNumber] else Outputs(log)
    {
      hide Base, RightLog, Warm, Outputs, TrellisScan, Listed, Elements, Counting, RightPass, Known, TrialScan;
      BaseFacts(setup);
      if passType.OutputPass? {
        BeginOutput(setup, Late(), passNumber, scanNumber, cur, log);
      } else {
        BeginTrellis(setup, Late(), passNumber, scanNumber, cur, log);
      }
    }

    /** After the last pass: every scan was output, or with a search the chosen
        scans are in the destination and every one of them was output.
     */
    ghost predicate Done()
      requires Fixed()
      reads this, search
    {
      && RightLog(setup, log) && Warm(setup, log, Base(setup)) && log != [] && log[|log| - 1].kind.Output?
         && passNumber == totalPasses && scanNumber == |setup.script|
      && AllSoFar(|setup.script|)
      && (optimizeScans ==>
           && InRange(search.Chosen()) && search.Holds(Copied(search.Chosen())) && search.ran == Elements(Outputs(log))
           && search.NextIs(NumScans(search.color)))
    }

    /** After the last pass with passes behind their numbers: the last scan is missing,
        and with a search nothing was copied.
     */
    ghost predicate Missed()
      requires Fixed()
      reads this, search
    {
      && RightLog(setup, log) && Stray(setup) && passNumber == totalPasses && scanNumber == |setup.script| - 1
      && AllSoFar(|setup.script| - 1)
      && (optimizeScans ==>
           && search.dest == [] && search.ran == Elements(Outputs(log)) && !search.jumped
           && search.NextIs(NumScans(search.color) - 1))
    }

    ghost predicate Ended()
      requires Fixed()
      reads this, search
    {
      if Late() == 0 then Done() else Missed()
    }

    /** The search knows the sizes of the scans that were output. */
    ghost predicate Sized(sizes: seq<nat>)
      reads this, search
    {
      optimizeScans ==>
        forall k :: k in search.ran ==> k < |sizes| && k < |search.scanSize| && search.scanSize[k] == sizes[k]
    }

    /** Whether the end was the right one depends on the settings and the sizes alone. */
    lemma HowItEnded(sizes: seq<nat>)
      requires Fixed() && Ended() && Sized(sizes) && |sizes| == |setup.script|
      ensures Late() == 0 <==> EndsRight(setup, optimizeScans, search.color, sizes)
      ensures Done() && optimizeScans ==>
                && search.Chosen() == BestChoice(search.color, search.modes, Padded(sizes))
                && forall k: nat :: k in Outputs(log) <==> Tried(search.color, Padded(sizes), k)
    {
      hide RightLog, Warm, Outputs, Base, Known, Listed, TrialScan, CodedAll, Copied, InRange, Counting, Jumps, Tried,
           BestChoice, Padded;
      if optimizeScans {
        var f, all := search.SoFar(), Padded(sizes);
        if Late() == 0 {
          KnownSizes(search.color, search.modes, f, NumScans(search.color));
          SizesDecide(search.color, search.modes, f, all);
        } else {
          KnownSizes(search.color, search.modes, f, NumScans(search.color) - 1);
          NeverJumped(search.color, search.modes, f, all);
        }
      }
    }

    lemma TrellisDone(c: nat, low: bool)
      requires Fixed() && Done() && setup.trellis && setup.loops >= 1
      requires c < setup.ncomps && (low || setup.useScansInTrellis)
      ensures Requantized(setup, log, c, low) == setup.loops
    {
      hide RightLog, Warm, Outputs, Requantized, Base;
      TrellisPassesMade(setup, log, c, low);
    }

    /** select_scans, and the number of the next pass if it jumped. */
    method SelectScans(size: nat)
      requires Fixed() && Prepared() && passType.OutputPass? && optimizeScans
      modifies `scanNumber, `passNumber, `isLastPass, search
      ensures search.ran == old(search.ran) + {old(scanNumber)} && old(scanNumber) < |old(search.scanSize)|
      ensures search.scanSize == old(search.scanSize)[old(scanNumber) := size]
      ensures old(scanNumber) <= scanNumber < |setup.script| && search.NextIs(scanNumber + 1)
      ensures if scanNumber + 1 == |setup.script| then InRange(search.Chosen()) && search.Holds(Copied(search.Chosen()))
              else search.dest == []
      ensures (scanNumber == old(scanNumber) && passNumber == old(passNumber) && isLastPass == old(isLastPass)
               && search.jumped == old(search.jumped))
           || (search.jumped && passNumber == Base(setup) + 2 * scanNumber + 1 && scanNumber + 2 != |setup.script|
               && (isLastPass == (scanNumber + 1 == |setup.script|)
                   || (isLastPass == old(isLastPass) && scanNumber + 1 < |setup.script|)))
    {
      hide Base, RightLog, Warm, Outputs, Elements, Counting, Coded, TrialScan, Listed, Copied, Known, JustRan,
           RightPass, InRange, CodedAll,
           ReadyFor, InPass, Search.Holds;
      BaseFacts(setup);
      LastPass(setup, Late(), passType, passNumber, scanNumber, cur, log);
      search.ParametersCoded(scanNumber);
      var scan, jump, last := search.SelectScans(scanNumber, cur.al, size);
      scanNumber := scan;
      if jump {
        passNumber := 2 * (scan + 1) - 1 + passNumberScanOptBase;
        if last {
          isLastPass := passNumber == totalPasses - 1;
        }
      }
    }

    /** The updates after an output pass; `size` is the size the scan came out with. */
    method FinishOutput(size: nat)
      requires Fixed() && Prepared() && passType.OutputPass?
      modifies this, search
      ensures (scanNumber == old(scanNumber) && passNumber > old(passNumber)) || scanNumber > old(scanNumber)
      ensures if isLastPass then Ended() else Ready()
      ensures optimizeScans ==>
                && search.ran == old(search.ran) + {old(scanNumber)} && old(scanNumber) < |old(search.scanSize)|
                && search.scanSize == old(search.scanSize)[old(scanNumber) := size]
    {
      hide Base, RightLog, Warm, Outputs, Elements, Counting, Coded, TrialScan, Listed, Copied, Known, JustRan,
           RightPass, InRange, CodedAll,
           ReadyFor, InPass, Search.Holds;
      BaseFacts(setup);
      LastPass(setup, Late(), passType, passNumber, scanNumber, cur, log);
      ghost var pass, scan0, late := passNumber, scanNumber, Late();
      if optimizeScans {
        SelectScans(size);
      }
      passType := HuffOptPass;
      scanNumber := scanNumber + 1;
      passNumber := passNumber + 1;
      if !isLastPass {
        AfterOutput(setup, late, pass, scan0, cur, log, Late(), scanNumber);
      } else {
        AllWarm(setup, log, pass + 1, Base(setup));
      }
    }

    /** finish_pass_master. */
    method FinishPass(size: nat)
      requires Fixed() && Prepared()
      modifies this, search
      ensures (scanNumber == old(scanNumber) && passNumber > old(passNumber)) || scanNumber > old(scanNumber)
      ensures if isLastPass then Ended() else Ready()
      ensures optimizeScans && old(passType).OutputPass? ==>
                && search.ran == old(search.ran) + {old(scanNumber)} && old(scanNumber) < |old(search.scanSize)|
                && search.scanSize == old(search.scanSize)[old(scanNumber) := size]
      ensures optimizeScans && !old(passType).OutputPass? ==>
                search.ran == old(search.ran) && search.scanSize == old(search.scanSize)
    {
      hide Base, RightLog, Warm, Outputs, Elements, Counting, Listed, TrialScan, TrellisScan, Known, Copied, CodedAll,
           InRange;
      BaseFacts(setup);
      LastPass(setup, Late(), passType, passNumber, scanNumber, cur, log);
      if passType.OutputPass? {
        FinishOutput(size);
      } else if passType.TrellisPass? {
        if !isLastPass { AfterTrellis(setup, Late(), passNumber, scanNumber, cur, log); }
        passType := HuffOptPass;
        passNumber := passNumber + 1;
      } else {
        AfterGather(setup, Late(), passType, passNumber, scanNumber, cur, log);
        if passType.MainPass? {
          passType := if setup.trellis then TrellisPass else OutputPass;
        } else {
          passType := if passNumber < passNumberScanOptBase - 1 then TrellisPass else OutputPass;
        }
        passNumber := passNumber + 1;
      }
    }
  }

  lemma OneMore(a: seq<nat>, n: nat)
    ensures Elements(a + [n]) == Elements(a) + {n} && Counting(n) + [n] == Counting(n + 1)
  {
  }

  // ----- All passes -----------------------------------------------------------------------------------

  /** Sizes for all the places of the longest list. */
  function Padded(sizes: seq<nat>): (s: seq<nat>)
    ensures |s| == 64 && forall k :: 0 <= k < |sizes| && k < 64 ==> s[k] == sizes[k]
  {
    seq(64, k requires 0 <= k < 64 => if k < |sizes| then sizes[k] else 0)
  }

  /** Passes and numbers end together: there is no stray trellis pass, or a jump of
      the search makes up for it.
   */
  ghost predicate EndsRight(u: Setup, optimizeScans: bool, color: bool, sizes: seq<nat>) {
    Stray(u) ==> optimizeScans && Jumps(color, Padded(sizes))
  }

  /** jpeg_start_compress and jpeg_finish_compress as far as passes go: the loop
      ends.  It ends right after the last output pass, with every scan output, or
      else one scan too early.  `sizes` are the sizes of the scans as they come out.
   */
  method Compress(setup: Setup, optimizeScans: bool, search: Search, sizes: seq<nat>) returns (m: Master)
    requires ValidSetup(setup) && |sizes| == |setup.script|
    requires optimizeScans ==>
               Searching(setup, search) && search.NextIs(0) && search.ran == {} && search.dest == [] && !search.jumped
    modifies search
    ensures fresh(m) && m.setup == setup && m.optimizeScans == optimizeScans && m.search == search && m.Fixed()
            && m.Sized(sizes)
    ensures if EndsRight(setup, optimizeScans, search.color, sizes) then m.Done() else m.Missed()
    ensures m.Done() && optimizeScans ==>
              && search.Chosen() == BestChoice(search.color, search.modes, Padded(sizes))
              && forall k: nat :: k in Outputs(m.log) <==> Tried(search.color, Padded(sizes), k)
    ensures setup.trellis && setup.loops >= 1 ==>
              forall c: nat, low: bool :: c < setup.ncomps && (low || setup.useScansInTrellis) ==>
              Requantized(setup, m.log, c, low) == setup.loops
  {
    hide RightLog, Warm, Outputs, Base, Known, Listed, TrialScan, CodedAll, Copied, InRange, Counting, Elements, Jumps,
         Tried, BestChoice, Padded,
         Master.Done, Master.Missed, Search.Holds, Master.Prepared, Requantized;
    m := new Master(setup, optimizeScans, search);
    m.PrepareForPass();
    m.FinishPass(sizes[m.scanNumber]);
    while !m.isLastPass
      invariant m.Fixed() && m.setup == setup && m.optimizeScans == optimizeScans && m.search == search && fresh(m)
      invariant if m.isLastPass then m.Ended() else m.Ready()
      invariant m.Sized(sizes)
      decreases |setup.script| - m.scanNumber, m.totalPasses - m.passNumber
    {
      m.PrepareForPass();
      m.FinishPass(sizes[m.scanNumber]);
    }
    m.HowItEnded(sizes);
    if setup.trellis && setup.loops >= 1 {
      forall c: nat, low: bool | c < setup.ncomps && (low || setup.useScansInTrellis)
        ensures Requantized(setup, m.log, c, low) == setup.loops
      {
        m.TrellisDone(c, low);
      }
    }
  }

  /** One scan, trellis quantization and no loops: nothing is output. */
  method OnlyScanLost(s: ScanInfo, search: Search) returns (m: Master)
    modifies search
    ensures fresh(m) && m.setup == Setup(1, [s], true, false, 8, 0) && m.Fixed() && m.Missed() && Outputs(m.log) == []
  {
    m := Compress(Setup(1, [s], true, false, 8, 0), false, search, [0]);
    assert Counting(0) == [];
  }

  lemma AllSmaller(size: seq<nat>)
    requires |size| == 64 && size[3] == size[6] == size[9] == 0
    requires size[1] + size[2] == 20 && size[4] + size[5] == 18 && size[7] + size[8] == 16 && size[10] + size[11] == 14
    ensures AlStop(LumaAlCosts(size), 1) == 4
  {
    hide AlStop, LumaAlCosts;
    var al := LumaAlCosts(size);
    LumaAlCostIs(size, 0);
    LumaAlCostIs(size, 1);
    LumaAlCostIs(size, 2);
    LumaAlCostIs(size, 3);
    assert LumaBitsCost(size, 1) == 0 && LumaBitsCost(size, 2) == 0;
    assert al[0] == 20 && al[1] == 18 && al[2] == 16 && al[3] == 14;
    AlStopIs(al, 1, 4);
  }

  lemma AllSplits(costs: seq<nat>)
    requires |costs| == 6 && costs[..5] == [10, 20, 8, 9, 7]
    ensures SplitEnd(costs, 0) == 5
  {
    hide SplitEnd;
    assert costs[0] == costs[..5][0] && costs[1] == costs[..5][1] && costs[2] == costs[..5][2];
    assert costs[3] == costs[..5][3] && costs[4] == costs[..5][4];
    assert BestSplit(costs, 1) == 0 && BestSplit(costs, 2) == 2;
    assert BestSplit(costs, 3) == 2 && BestSplit(costs, 4) == 4;
    SplitEndIs(costs, 0, 5);
  }

  /** Sizes for which the search never jumps: with a stray trellis pass it copies
      nothing.
   */
  lemma NoJumpAtAll() returns (sizes: seq<nat>)
    ensures |sizes| == NumScans(false) && !Jumps(false, Padded(sizes))
  {
    hide AlStop, SplitEnd, LumaAlCosts, LumaSplitCosts, ChromaAlCosts, ChromaSplitCosts, Padded;
    sizes := [1, 10, 10, 0, 9, 9, 0, 8, 8, 0, 7, 7, 10, 10, 10, 4, 4, 5, 4, 4, 3, 1, 1];
    var size := Padded(sizes);
    AllSmaller(size);
    var split := LumaSplitCosts(size);
    assert split[0] == 10 && split[1] == 20 && split[2] == 8 && split[3] == 9 && split[4] == 7;
    assert split[..5] == [10, 20, 8, 9, 7];
    AllSplits(split);
  }

  /** The search over whole images: jpeg_search_progression's list, every pass, and
      the scans in the destination.  They are the ones the sizes of the trial scans
      call for, or none at all if passes and numbers do not end together; they form
      a legal script that leaves nothing out exactly if passes do and the DC mode
      was not changed in between.
   */
  method CompressSearching(color: bool, modes: DcModes, trellis: bool, useScansInTrellis: bool, freqSplit: nat,
                           loops: nat, sizes: seq<nat>, maxAl: nat)
      returns (scans: seq<ScanInfo>, m: Master)
    requires |sizes| == NumScans(color) && maxAl >= 3
    ensures m.optimizeScans && m.setup.trellis == trellis && m.setup.loops == loops
    ensures m.Fixed() && if EndsRight(m.setup, true, color, sizes) then m.Done() else m.Missed()
    ensures var ch := BestChoice(color, modes, Padded(sizes));
            && scans == (if EndsRight(m.setup, true, color, sizes) then CodedAll(ch, Copied(ch)) else [])
            && (EndsRight(m.setup, true, color, sizes) && SameDcPlan(ch) <==>
                  && LegalProgressive(if color then 3 else 1, scans, maxAl)
                  && FullySent(AfterAll(Unsent(if color then 3 else 1), scans)))
  {
    hide Listed, Known, CodedAll, Copied, TrialScan, LegalFrom, AfterAll, Outputs, RightLog, Warm, InRange, SameDcPlan,
         Jumps, BestChoice, Tried, Padded;
    var n := if color then 3 else 1;
    var list := new ScanInfo[64](_ => ScanInfo([], 0, 0, 0, 0));
    var ok, plan := SearchProgression(n, color, modes.list, list);
    var script := list[..plan.numScans];
    ListPrefix(list[..], plan.numScans, n, modes.list);
    var search := new Search(script, color, modes);
    m := Compress(Setup(n, script, trellis, useScansInTrellis, freqSplit, loops), true, search, sizes);
    scans := search.dest;
    if EndsRight(m.setup, true, color, sizes) {
      ChoiceIsLegal(search.Chosen(), maxAl);
    }
  }

  lemma ListPrefix(list: seq<ScanInfo>, k: nat, n: nat, dcMode: int)
    requires k <= |list| && Listed(list, k, n, dcMode)
    ensures Listed(list[..k], k, n, dcMode)
  {
    hide TrialScan;
  }
}
