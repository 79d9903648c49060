/** The greedy search over trial scans (select_scans, jcmaster.c): after each
    trial scan it compares sizes, and may jump over scans that cannot help.
 */
module ScanSearch {
  import opened Coefficients
  import opened ScanScript
  import opened ScriptRows
  import opened SearchScript
  import opened ScanChoice
  import opened SearchOutcome

  /** The fields for scan optimization, which scans have been coded, and whether
      the pass number was set anew for a jump.
   */
  datatype Found = Found(bestCost: nat, splitLuma: nat, splitChroma: nat, alLuma: nat, alChroma: nat, interleave: bool,
                         size: seq<nat>, al: seq<int>, ran: set<nat>, jumped: bool)

  ghost predicate Ran(f: Found, lo: nat, hi: nat) {
    forall k :: lo <= k < hi ==> k in f.ran
  }

  ghost function ChoiceOf(color: bool, modes: DcModes, f: Found): Choice {
    Choice(color, modes.list, modes.copy, f.interleave, f.alLuma, f.splitLuma, f.alChroma, f.splitChroma)
  }

  // ----- What is known before scan n ---------------------------------------------------------------

  ghost predicate Recorded(color: bool, modes: DcModes, f: Found, n: nat) {
    && |f.size| == |f.al| == 64 && n <= NumScans(color)
    && forall k :: k in f.ran ==> k < n && f.al[k] == TrialOf(color, modes, f, k).al
  }

  ghost function TrialOf(color: bool, modes: DcModes, f: Found, k: nat): ScanInfo {
    Coded(ChoiceOf(color, modes, f), k)
  }

  /** Each point transform tried so far was smaller than the one before; from scan
      12 on, it is known which is the last one tried.
   */
  ghost predicate LumaAlKnown(f: Found, n: nat)
    requires |f.size| == 64
  {
    var cs := LumaAlCosts(f.size);
    && f.alLuma <= 3
    && (n < 12 ==> Ran(f, 0, n) && (n >= 3 ==> f.alLuma == n / 3 - 1 && f.bestCost == cs[f.alLuma])
                   && forall a :: 1 <= a < n / 3 ==> cs[a] < cs[a - 1])
    && (n >= 12 ==>
          f.alLuma + 1 == AlStop(cs, 1) && forall k :: 0 <= k < 12 ==> (k in f.ran <==> k / 3 <= f.alLuma + 1))
  }

  /** The best frequency split so far, none of which was the last to try; from scan
      23 on, the best of all that are tried.
   */
  ghost predicate LumaSplitKnown(f: Found, n: nat)
    requires |f.size| == 64
  {
    var cs := LumaSplitCosts(f.size);
    && (13 <= n < 23 ==>
          && Ran(f, 12, n) && f.splitLuma == BestSplit(cs, (n - 13) / 2) && f.bestCost == cs[f.splitLuma]
          && forall i :: 0 <= i <= (n - 13) / 2 ==> !StopsAt(cs, i))
    && (n >= 23 ==>
          && f.splitLuma == BestSplit(cs, SplitEnd(cs, 0)) && 12 in f.ran
          && forall k :: 13 <= k < 23 ==> (k in f.ran <==> (k - 11) / 2 <= SplitEnd(cs, 0)))
  }

  ghost predicate ChromaDcKnown(f: Found, n: nat)
    requires |f.size| == 64
  {
    && (n < 26 ==> !f.interleave) && (23 <= n < 26 ==> Ran(f, 23, n))
    && (n >= 26 ==> Ran(f, 23, 26) && (f.interleave <==> f.size[23] <= f.size[24] + f.size[25]))
  }

  ghost predicate ChromaAlKnown(f: Found, n: nat)
    requires |f.size| == 64
  {
    var cs := ChromaAlCosts(f.size);
    && f.alChroma <= 2 && (n < 30 ==> f.alChroma == 0)
    && (26 <= n < 42 ==> Ran(f, 26, n) && (n >= 30 ==> f.alChroma == (n - 30) / 6 && f.bestCost == cs[f.alChroma])
                         && forall a :: 1 <= a <= (n - 30) / 6 ==> cs[a] < cs[a - 1])
    && (n >= 42 ==>
          f.alChroma + 1 == AlStop(cs, 1)
          && forall k :: 26 <= k < 42 ==> (k in f.ran <==> (k - 24) / 6 <= f.alChroma + 1))
  }

  ghost predicate ChromaSplitKnown(f: Found, n: nat)
    requires |f.size| == 64
  {
    var cs := ChromaSplitCosts(f.size);
    && (n < 44 ==> f.splitChroma == 0) && (42 < n < 64 ==> Ran(f, 42, n))
    && (44 <= n < 64 ==>
          && f.splitChroma == BestSplit(cs, (n - 44) / 4) && f.bestCost == cs[f.splitChroma]
          && forall i :: 0 <= i <= (n - 44) / 4 ==> !StopsAt(cs, i))
    && (n >= 64 ==>
          && f.splitChroma == BestSplit(cs, SplitEnd(cs, 0)) && 42 in f.ran && 43 in f.ran
          && forall k :: 44 <= k < 64 ==> (k in f.ran <==> (k - 40) / 4 <= SplitEnd(cs, 0)))
  }

  /** A comparison before scan `n` jumped. */
  ghost predicate JumpsBefore(color: bool, size: seq<nat>, n: nat)
    requires |size| == 64
  {
    || (n >= 12 && AlStop(LumaAlCosts(size), 1) < 4)
    || (n >= 23 && SplitEnd(LumaSplitCosts(size), 0) < 5)
    || (color && n >= 42 && AlStop(ChromaAlCosts(size), 1) < 3)
    || (color && n >= 64 && SplitEnd(ChromaSplitCosts(size), 0) < 5)
  }

  /** Everything known when scan `n` is next. */
  ghost predicate Known(color: bool, modes: DcModes, f: Found, n: nat) {
    && Recorded(color, modes, f, n) && LumaAlKnown(f, n) && LumaSplitKnown(f, n)
    && ChromaAlKnown(f, n) && ChromaDcKnown(f, n) && ChromaSplitKnown(f, n)
    && (f.jumped <==> JumpsBefore(color, f.size, n))
  }

  /** What was known when scan `n` was coded. */
  ghost function Before(f: Found, n: nat): Found {
    f.(ran := f.ran - {n})
  }

  lemma BeforeRan(f: Found, n: nat)
    requires n in f.ran
    ensures forall k :: k in f.ran <==> k in Before(f, n).ran || k == n
  {
  }

  /** Scan `n` has just been coded. */
  ghost predicate JustRan(color: bool, modes: DcModes, f: Found, n: nat) {
    && Known(color, modes, Before(f, n), n) && n < NumScans(color)
    && n in f.ran && f.al[n] == TrialOf(color, modes, f, n).al
  }

  lemma KnownSizes(color: bool, modes: DcModes, f: Found, n: nat)
    requires Known(color, modes, f, n)
    ensures |f.size| == |f.al| == 64 && n !in f.ran && n <= NumScans(color)
  {
  }

  /** Costs of scans before `n` depend on their own sizes. */
  lemma SameCosts(a: seq<nat>, b: seq<nat>, n: nat)
    requires |a| == |b| == 64 && n <= 64 && forall k :: 0 <= k < n ==> a[k] == b[k]
    ensures forall al :: 0 <= al <= 3 && 3 * al + 2 < n ==> LumaAlCosts(a)[al] == LumaAlCosts(b)[al]
    ensures forall al :: 0 <= al <= 2 && 6 * al + 29 < n ==> ChromaAlCosts(a)[al] == ChromaAlCosts(b)[al]
    ensures forall i :: 0 <= i <= 5 && 12 + 2 * i < n ==> LumaSplitCosts(a)[i] == LumaSplitCosts(b)[i]
    ensures forall i :: 0 <= i <= 5 && 43 + 4 * i < n ==> ChromaSplitCosts(a)[i] == ChromaSplitCosts(b)[i]
  {
    hide LumaAlCost, ChromaAlCost, LumaAlCosts, LumaSplitCosts, ChromaAlCosts, ChromaSplitCosts;
    forall al: nat | 0 <= al <= 3 && 3 * al + 2 < n ensures LumaAlCost(a, al) == LumaAlCost(b, al) {
      SameLumaAlCost(a, b, al);
    }
    forall al: nat | 0 <= al <= 2 && 6 * al + 29 < n ensures ChromaAlCost(a, al) == ChromaAlCost(b, al) {
      SameChromaAlCost(a, b, al);
    }
  }

  /** Costs that are all known are the same lists. */
  lemma SameLists(a: seq<nat>, b: seq<nat>, n: nat)
    requires |a| == |b| == 64 && n <= 64 && forall k :: 0 <= k < n ==> a[k] == b[k]
    ensures n >= 12 ==> LumaAlCosts(a) == LumaAlCosts(b)
    ensures n >= 23 ==> LumaSplitCosts(a) == LumaSplitCosts(b)
    ensures n >= 42 ==> ChromaAlCosts(a) == ChromaAlCosts(b)
    ensures n >= 64 ==> ChromaSplitCosts(a) == ChromaSplitCosts(b)
  {
    hide LumaAlCosts, LumaSplitCosts, ChromaAlCosts, ChromaSplitCosts;
    SameCosts(a, b, n);
  }

  lemma SameJumps(color: bool, a: seq<nat>, b: seq<nat>, n: nat)
    requires |a| == |b| == 64 && n <= 64 && forall k :: 0 <= k < n ==> a[k] == b[k]
    ensures JumpsBefore(color, a, n) <==> JumpsBefore(color, b, n)
  {
    hide LumaAlCosts, LumaSplitCosts, ChromaAlCosts, ChromaSplitCosts, AlStop, SplitEnd;
    SameLists(a, b, n);
  }

  /** Coding scan `n` changes nothing known of the scans before it. */
  lemma SameBefore(color: bool, modes: DcModes, f: Found, n: nat, size: nat, al: int)
    requires Known(color, modes, f, n) && n < NumScans(color)
    requires |f.size| == |f.al| == 64 && al == TrialOf(color, modes, f, n).al
    ensures JustRan(color, modes, f.(size := f.size[n := size], al := f.al[n := al], ran := f.ran + {n}), n)
  {
    hide Coded, LumaAlKnown, LumaSplitKnown, ChromaAlKnown, ChromaDcKnown, ChromaSplitKnown, JumpsBefore,
         LumaAlCosts, LumaSplitCosts, ChromaAlCosts, ChromaSplitCosts;
    var g := f.(size := f.size[n := size], al := f.al[n := al], ran := f.ran + {n});
    assert g.ran - {n} == f.ran;
    var h := f.(size := g.size, al := g.al);
    LumaSame(color, modes, f, h, n);
    ChromaSame(color, modes, f, h, n);
    SameJumps(color, f.size, h.size, n);
    assert h == g.(ran := g.ran - {n});
  }

  /** `h` differs from `f` in what is recorded of scans from `n` on only. */
  ghost predicate AgreeBelow(f: Found, h: Found, n: nat) {
    && |f.size| == |h.size| == 64 && |f.al| == |h.al| == 64
    && (forall k :: 0 <= k < n && k < 64 ==> h.size[k] == f.size[k] && h.al[k] == f.al[k])
    && h == f.(size := h.size, al := h.al)
  }

  lemma LumaSame(color: bool, modes: DcModes, f: Found, h: Found, n: nat)
    requires Recorded(color, modes, f, n) && LumaAlKnown(f, n) && LumaSplitKnown(f, n) && AgreeBelow(f, h, n)
    ensures Recorded(color, modes, h, n) && LumaAlKnown(h, n) && LumaSplitKnown(h, n)
  {
    hide Coded, LumaAlCosts, LumaSplitCosts, AlStop, StopsAt, SplitEnd, BestSplit;
    SameCosts(f.size, h.size, n);
    SameLists(f.size, h.size, n);
    if 13 <= n < 23 { SameSplits(LumaSplitCosts(f.size), LumaSplitCosts(h.size), (n - 13) / 2); }
  }

  lemma SameSplits(a: seq<nat>, b: seq<nat>, i: nat)
    requires i < |a| == |b| && forall k :: 0 <= k <= i ==> a[k] == b[k]
    ensures BestSplit(a, i) == BestSplit(b, i) && forall k :: 0 <= k <= i ==> (StopsAt(a, k) <==> StopsAt(b, k))
  {
    hide StopsAt, BestSplit;
    forall k: nat | k <= i ensures BestSplit(a, k) == BestSplit(b, k) && (StopsAt(a, k) <==> StopsAt(b, k)) {
      BestSplitSame(a, b, k);
    }
  }

  lemma ChromaSame(color: bool, modes: DcModes, f: Found, h: Found, n: nat)
    requires Recorded(color, modes, f, n) && AgreeBelow(f, h, n)
    requires ChromaAlKnown(f, n) && ChromaDcKnown(f, n) && ChromaSplitKnown(f, n)
    ensures ChromaAlKnown(h, n) && ChromaDcKnown(h, n) && ChromaSplitKnown(h, n)
  {
    hide ChromaAlKnown, ChromaSplitKnown, Coded;
    ChromaAlSame(f, h, n);
    ChromaSplitSame(f, h, n);
  }

  lemma ChromaAlSame(f: Found, h: Found, n: nat)
    requires AgreeBelow(f, h, n) && n <= 64 && ChromaAlKnown(f, n)
    ensures ChromaAlKnown(h, n)
  {
    hide ChromaAlCosts, LumaAlCosts, LumaSplitCosts, ChromaSplitCosts, AlStop;
    SameCosts(f.size, h.size, n);
    SameLists(f.size, h.size, n);
  }

  lemma ChromaSplitSame(f: Found, h: Found, n: nat)
    requires AgreeBelow(f, h, n) && n <= 64 && ChromaSplitKnown(f, n)
    ensures ChromaSplitKnown(h, n)
  {
    hide ChromaSplitCosts, LumaAlCosts, LumaSplitCosts, ChromaAlCosts, StopsAt, SplitEnd, BestSplit;
    SameCosts(f.size, h.size, n);
    SameLists(f.size, h.size, n);
    if 44 <= n < 64 {
      var i := (n - 44) / 4;
      assert 43 + 4 * i < n && i <= 4;
      SameSplits(ChromaSplitCosts(f.size), ChromaSplitCosts(h.size), i);
    }
  }

  // ----- Decisions ------------------------------------------------------------------------------------

  /** The numbers of scans after which nothing is decided. */
  predicate Undecided(next: nat) {
    && !(3 <= next <= 12 && next % 3 == 0) && !(13 <= next <= 23 && next % 2 == 1)
    && next != 26 && !(30 <= next <= 42 && next % 6 == 0) && !(44 <= next <= 64 && next % 4 == 0)
  }

  lemma RecordedNow(color: bool, modes: DcModes, f: Found, n: nat)
    requires JustRan(color, modes, f, n)
    ensures Recorded(color, modes, f, n + 1)
  {
    hide Coded, LumaAlKnown, LumaSplitKnown, ChromaAlKnown, ChromaDcKnown, ChromaSplitKnown;
    BeforeRan(f, n);
  }

  lemma LumaUndecided(color: bool, modes: DcModes, f: Found, n: nat)
    requires JustRan(color, modes, f, n) && (Undecided(n + 1) || n >= 23)
    ensures LumaAlKnown(f, n + 1) && LumaSplitKnown(f, n + 1)
  {
    hide Coded, AlStop, StopsAt, SplitEnd, BestSplit, LumaAlCosts, LumaSplitCosts, ChromaAlKnown, ChromaDcKnown,
         ChromaSplitKnown;
    BeforeRan(f, n);
  }

  lemma ChromaUndecided(color: bool, modes: DcModes, f: Found, n: nat)
    requires JustRan(color, modes, f, n) && (Undecided(n + 1) || n < 23)
    ensures ChromaAlKnown(f, n + 1) && ChromaDcKnown(f, n + 1) && ChromaSplitKnown(f, n + 1)
  {
    hide Coded, AlStop, StopsAt, SplitEnd, BestSplit, ChromaAlCosts, ChromaSplitCosts, LumaAlKnown, LumaSplitKnown;
    BeforeRan(f, n);
  }

  /** The scans after which a comparison can jump. */
  lemma NoJump(color: bool, modes: DcModes, f: Found, n: nat)
    requires JustRan(color, modes, f, n) && !(n < 12 <= n + 1) && !(n < 23 <= n + 1) && !(n < 42 <= n + 1)
             && !(n < 64 <= n + 1)
    ensures f.jumped <==> JumpsBefore(color, f.size, n + 1)
  {
    hide Coded, LumaAlKnown, LumaSplitKnown, ChromaAlKnown, ChromaDcKnown, ChromaSplitKnown, AlStop, SplitEnd;
  }

  lemma NothingDecided(color: bool, modes: DcModes, f: Found, n: nat)
    requires JustRan(color, modes, f, n) && Undecided(n + 1)
    ensures Known(color, modes, f, n + 1)
  {
    hide Coded, LumaAlKnown, LumaSplitKnown, ChromaAlKnown, ChromaDcKnown, ChromaSplitKnown, Before, JumpsBefore;
    RecordedNow(color, modes, f, n);
    LumaUndecided(color, modes, f, n);
    ChromaUndecided(color, modes, f, n);
    NoJump(color, modes, f, n);
  }

  lemma RanBelow(color: bool, modes: DcModes, f: Found, n: nat)
    requires JustRan(color, modes, f, n)
    ensures |f.size| == 64 && (forall k :: k in f.ran ==> k <= n)
            && forall k :: k in f.ran <==> k in Before(f, n).ran || k == n
  {
    hide Coded, LumaAlKnown, LumaSplitKnown, ChromaAlKnown, ChromaDcKnown, ChromaSplitKnown, JumpsBefore;
    BeforeRan(f, n);
  }

  // What a decision for one part leaves alone.

  lemma RecordedStays(color: bool, modes: DcModes, f: Found, n: nat, g: Found, m: nat)
    requires Recorded(color, modes, f, n) && n <= m <= NumScans(color) && g.size == f.size && g.al == f.al
             && g.ran == f.ran
    requires (g.alLuma == f.alLuma || n <= 12) && (g.alChroma == f.alChroma || n <= 42)
    ensures Recorded(color, modes, g, m)
  {
    hide TrialScan;
  }

  lemma LumaStays(f: Found, n: nat, g: Found, m: nat)
    requires 23 <= n < m && n in f.ran && |f.size| == 64 && LumaAlKnown(Before(f, n), n)
             && LumaSplitKnown(Before(f, n), n)
    requires g.size == f.size && g.ran == f.ran && g.alLuma == f.alLuma && g.splitLuma == f.splitLuma
    ensures LumaAlKnown(g, m) && LumaSplitKnown(g, m)
  {
    hide LumaAlCosts, LumaSplitCosts, AlStop, SplitEnd, BestSplit, StopsAt;
    BeforeRan(f, n);
  }

  lemma LumaAlStays(f: Found, n: nat, g: Found, m: nat)
    requires 12 <= n < m && n in f.ran && |f.size| == 64 && LumaAlKnown(Before(f, n), n)
    requires g.size == f.size && g.ran == f.ran && g.alLuma == f.alLuma
    ensures LumaAlKnown(g, m)
  {
    hide LumaAlCosts, AlStop;
    BeforeRan(f, n);
  }

  lemma ChromaStays(f: Found, n: nat, g: Found, m: nat)
    requires n < m <= 23 && n in f.ran && |f.size| == 64
    requires ChromaAlKnown(Before(f, n), n) && ChromaDcKnown(Before(f, n), n) && ChromaSplitKnown(Before(f, n), n)
    requires g.size == f.size && g.ran == f.ran && g.alChroma == f.alChroma && g.interleave == f.interleave
             && g.splitChroma == f.splitChroma
    ensures ChromaAlKnown(g, m) && ChromaDcKnown(g, m) && ChromaSplitKnown(g, m)
  {
    hide ChromaAlCosts, ChromaSplitCosts, AlStop, SplitEnd, BestSplit, StopsAt;
  }

  lemma ChromaDcStays(f: Found, n: nat, g: Found, m: nat)
    requires 26 <= n < m && n in f.ran && |f.size| == 64 && ChromaDcKnown(Before(f, n), n)
    requires g.size == f.size && g.ran == f.ran && g.interleave == f.interleave
    ensures ChromaDcKnown(g, m)
  {
    BeforeRan(f, n);
  }

  lemma ChromaAlStays(f: Found, n: nat, g: Found, m: nat)
    requires 42 <= n < m && n in f.ran && |f.size| == 64 && ChromaAlKnown(Before(f, n), n)
    requires g.size == f.size && g.ran == f.ran && g.alChroma == f.alChroma
    ensures ChromaAlKnown(g, m)
  {
    hide ChromaAlCosts, AlStop;
    BeforeRan(f, n);
  }

  lemma LumaAlCostIs(size: seq<nat>, al: nat)
    requires |size| == 64 && al <= 3
    ensures LumaAlCosts(size)[al] == size[3 * al + 1] + size[3 * al + 2] + LumaBitsCost(size, al)
  {
  }

  lemma ChromaAlCostIs(size: seq<nat>, al: nat)
    requires |size| == 64 && al <= 2
    ensures ChromaAlCosts(size)[al]
         == size[6 * al + 26] + size[6 * al + 27] + size[6 * al + 28] + size[6 * al + 29] + ChromaBitsCost(size, al)
  {
  }

  /** A point transform that is smaller than the best before. */
  lemma LumaAlTaken(color: bool, modes: DcModes, f: Found, n: nat, al: nat, g: Found)
    requires JustRan(color, modes, f, n) && al <= 3 && n + 1 == 3 * al + 3
    requires al == 0 || LumaAlCosts(f.size)[al] < f.bestCost
    requires g == f.(bestCost := LumaAlCosts(f.size)[al], alLuma := al)
    ensures Known(color, modes, g, n + 1)
  {
    hide LumaAlCosts, LumaSplitCosts, ChromaAlCosts, ChromaSplitCosts, AlStop, StopsAt, SplitEnd, BestSplit,
         ChromaAlKnown, ChromaDcKnown, ChromaSplitKnown, Coded, Recorded;
    RanBelow(color, modes, f, n);
    RecordedNow(color, modes, f, n);
    RecordedStays(color, modes, f, n + 1, g, n + 1);
    ChromaStays(f, n, g, n + 1);
    if al == 3 { AlStopIs(LumaAlCosts(f.size), 1, 4); }
  }

  /** One that is not: on to the frequency splits. */
  lemma LumaAlLeft(color: bool, modes: DcModes, f: Found, n: nat, al: nat, g: Found)
    requires JustRan(color, modes, f, n) && 1 <= al <= 3 && n + 1 == 3 * al + 3
    requires LumaAlCosts(f.size)[al] >= f.bestCost && g == f.(jumped := true)
    ensures Known(color, modes, g, 12)
  {
    hide LumaAlCosts, LumaSplitCosts, ChromaAlCosts, ChromaSplitCosts, AlStop, StopsAt, SplitEnd, BestSplit,
         ChromaAlKnown, ChromaDcKnown, ChromaSplitKnown, Coded, Recorded;
    RanBelow(color, modes, f, n);
    RecordedNow(color, modes, f, n);
    RecordedStays(color, modes, f, n + 1, g, 12);
    ChromaStays(f, n, g, 12);
    AlStopIs(LumaAlCosts(f.size), 1, al);
  }

  /** The whole band in one scan. */
  lemma LumaWhole(color: bool, modes: DcModes, f: Found, g: Found)
    requires JustRan(color, modes, f, 12) && g == f.(splitLuma := 0, bestCost := f.size[12])
    ensures Known(color, modes, g, 13)
  {
    hide LumaAlCosts, ChromaAlCosts, ChromaSplitCosts, AlStop, SplitEnd, ChromaAlKnown, ChromaDcKnown, ChromaSplitKnown,
         Coded, Recorded, LumaAlKnown;
    RanBelow(color, modes, f, 12);
    RecordedNow(color, modes, f, 12);
    RecordedStays(color, modes, f, 12 + 1, g, 13);
    ChromaStays(f, 12, g, 13);
    LumaAlStays(f, 12, g, 13);
  }

  lemma NextSplit(costs: seq<nat>, i: nat)
    requires 1 <= i < |costs|
    ensures var b := BestSplit(costs, i - 1); BestSplit(costs, i) == if costs[i] < costs[b] then i else b
  {
  }

  ghost predicate LumaSplitCompared(f: Found, n: nat, i: nat, g: Found)
    requires |f.size| == 64
  {
    && 1 <= i <= 5 && n == 12 + 2 * i && n in f.ran && g.size == f.size && g.ran == f.ran
    && (var c := LumaSplitCosts(f.size)[i];
        if c < f.bestCost then g.splitLuma == i && g.bestCost == c
             else g.splitLuma == f.splitLuma && g.bestCost == f.bestCost)
  }

  lemma LumaSplitNow(f: Found, n: nat, i: nat, g: Found)
    requires |f.size| == 64 && LumaSplitCompared(f, n, i, g) && LumaSplitKnown(Before(f, n), n)
    ensures g.splitLuma == BestSplit(LumaSplitCosts(f.size), i) && g.bestCost == LumaSplitCosts(f.size)[g.splitLuma]
    ensures forall k :: 0 <= k < i ==> !StopsAt(LumaSplitCosts(f.size), k)
    ensures i < 5 && !StopsAt(LumaSplitCosts(f.size), i) ==> LumaSplitKnown(g, n + 1)
  {
    hide LumaSplitCosts, StopsAt, SplitEnd, BestSplit;
    BeforeRan(f, n);
    assert (n - 13) / 2 == i - 1 && (n + 1 - 13) / 2 == i;
    NextSplit(LumaSplitCosts(f.size), i);
  }

  lemma LumaSplitLast(f: Found, n: nat, i: nat, g: Found)
    requires |f.size| == 64 && LumaSplitCompared(f, n, i, g) && LumaSplitKnown(Before(f, n), n)
    requires (i == 5 || StopsAt(LumaSplitCosts(f.size), i)) && forall k :: k in f.ran ==> k <= n
    ensures SplitEnd(LumaSplitCosts(f.size), 0) == i && LumaSplitKnown(g, 23)
  {
    hide LumaSplitCosts, StopsAt, SplitEnd, BestSplit;
    BeforeRan(f, n);
    LumaSplitNow(f, n, i, g);
    SplitEndIs(LumaSplitCosts(f.size), 0, i);
  }

  /** A split tried that is not the last: `g` has the smaller of it and the best
      before.
   */
  lemma LumaSplitTried(color: bool, modes: DcModes, f: Found, n: nat, i: nat, g: Found)
    requires JustRan(color, modes, f, n) && 1 <= i <= 5 && n == 12 + 2 * i
    requires var c := LumaSplitCosts(f.size)[i]; g == if c < f.bestCost then f.(splitLuma := i, bestCost := c) else f
    ensures g.splitLuma == BestSplit(LumaSplitCosts(f.size), i)
    ensures i == 5 || !StopsAt(LumaSplitCosts(f.size), i) ==> Known(color, modes, g, n + 1)
  {
    hide LumaAlCosts, LumaSplitCosts, ChromaAlCosts, ChromaSplitCosts, AlStop, StopsAt, SplitEnd, BestSplit, Coded,
         Recorded,
         LumaAlKnown, LumaSplitKnown, ChromaAlKnown, ChromaDcKnown, ChromaSplitKnown;
    RanBelow(color, modes, f, n);
    RecordedNow(color, modes, f, n);
    LumaSplitNow(f, n, i, g);
    if i == 5 { LumaSplitLast(f, n, i, g); }
    RecordedStays(color, modes, f, n + 1, g, n + 1);
    ChromaStays(f, n, g, n + 1);
    LumaAlStays(f, n, g, n + 1);
  }

  /** The last split tried. */
  lemma LumaSplitsLeft(color: bool, modes: DcModes, f: Found, n: nat, i: nat, g: Found)
    requires JustRan(color, modes, f, n) && 1 <= i <= 4 && n == 12 + 2 * i && StopsAt(LumaSplitCosts(f.size), i)
    requires var c := LumaSplitCosts(f.size)[i];
             g == (if c < f.bestCost then f.(splitLuma := i, bestCost := c) else f).(jumped := true)
    ensures Known(color, modes, g, 23)
  {
    hide LumaAlCosts, LumaSplitCosts, ChromaAlCosts, ChromaSplitCosts, AlStop, StopsAt, SplitEnd, BestSplit, Coded,
         Recorded,
         LumaAlKnown, LumaSplitKnown, ChromaAlKnown, ChromaDcKnown, ChromaSplitKnown;
    RanBelow(color, modes, f, n);
    RecordedNow(color, modes, f, n);
    LumaSplitLast(f, n, i, g);
    RecordedStays(color, modes, f, n + 1, g, 23);
    ChromaStays(f, n, g, 23);
    LumaAlStays(f, n, g, 23);
  }

  lemma ChromaDcDecided(modes: DcModes, f: Found, g: Found)
    requires JustRan(true, modes, f, 25) && g == f.(interleave := f.size[23] <= f.size[24] + f.size[25])
    ensures Known(true, modes, g, 26)
  {
    hide LumaAlCosts, LumaSplitCosts, ChromaAlCosts, ChromaSplitCosts, AlStop, StopsAt, SplitEnd, BestSplit,
         LumaAlKnown, LumaSplitKnown, Coded, Recorded;
    RanBelow(true, modes, f, 25);
    RecordedNow(true, modes, f, 25);
    RecordedStays(true, modes, f, 25 + 1, g, 26);
    LumaStays(f, 25, g, 26);
  }

  lemma ChromaAlTaken(modes: DcModes, f: Found, n: nat, al: nat, g: Found)
    requires JustRan(true, modes, f, n) && al <= 2 && n + 1 == 6 * al + 30
    requires al == 0 || ChromaAlCosts(f.size)[al] < f.bestCost
    requires g == f.(bestCost := ChromaAlCosts(f.size)[al], alChroma := al)
    ensures Known(true, modes, g, n + 1)
  {
    hide LumaAlCosts, LumaSplitCosts, ChromaAlCosts, ChromaSplitCosts, AlStop, StopsAt, SplitEnd, BestSplit,
         LumaAlKnown, LumaSplitKnown, Coded, Recorded, ChromaDcKnown;
    RanBelow(true, modes, f, n);
    RecordedNow(true, modes, f, n);
    RecordedStays(true, modes, f, n + 1, g, n + 1);
    LumaStays(f, n, g, n + 1);
    ChromaDcStays(f, n, g, n + 1);
    if al == 2 { AlStopIs(ChromaAlCosts(f.size), 1, 3); }
  }

  lemma ChromaAlLeft(modes: DcModes, f: Found, n: nat, al: nat, g: Found)
    requires JustRan(true, modes, f, n) && 1 <= al <= 2 && n + 1 == 6 * al + 30
    requires ChromaAlCosts(f.size)[al] >= f.bestCost && g == f.(jumped := true)
    ensures Known(true, modes, g, 42)
  {
    hide LumaAlCosts, LumaSplitCosts, ChromaAlCosts, ChromaSplitCosts, AlStop, StopsAt, SplitEnd, BestSplit,
         LumaAlKnown, LumaSplitKnown, Coded, Recorded, ChromaDcKnown;
    RanBelow(true, modes, f, n);
    RecordedNow(true, modes, f, n);
    RecordedStays(true, modes, f, n + 1, g, 42);
    LumaStays(f, n, g, 42);
    ChromaDcStays(f, n, g, 42);
    AlStopIs(ChromaAlCosts(f.size), 1, al);
  }

  lemma ChromaWhole(modes: DcModes, f: Found, g: Found)
    requires JustRan(true, modes, f, 43) && g == f.(splitChroma := 0, bestCost := f.size[42] + f.size[43])
    ensures Known(true, modes, g, 44)
  {
    hide LumaAlCosts, LumaSplitCosts, ChromaAlCosts, AlStop, SplitEnd, LumaAlKnown, LumaSplitKnown, Coded, Recorded,
         ChromaDcKnown, ChromaAlKnown;
    RanBelow(true, modes, f, 43);
    RecordedNow(true, modes, f, 43);
    RecordedStays(true, modes, f, 43 + 1, g, 44);
    LumaStays(f, 43, g, 44);
    ChromaDcStays(f, 43, g, 44);
    ChromaAlStays(f, 43, g, 44);
  }

  ghost predicate ChromaSplitCompared(f: Found, n: nat, i: nat, g: Found)
    requires |f.size| == 64
  {
    && 1 <= i <= 5 && n == 43 + 4 * i && n in f.ran && g.size == f.size && g.ran == f.ran
    && (var c := ChromaSplitCosts(f.size)[i];
        if c < f.bestCost then g.splitChroma == i && g.bestCost == c
             else g.splitChroma == f.splitChroma && g.bestCost == f.bestCost)
  }

  lemma ChromaSplitNow(f: Found, n: nat, i: nat, g: Found)
    requires |f.size| == 64 && ChromaSplitCompared(f, n, i, g) && ChromaSplitKnown(Before(f, n), n)
    ensures g.splitChroma == BestSplit(ChromaSplitCosts(f.size), i)
            && g.bestCost == ChromaSplitCosts(f.size)[g.splitChroma]
    ensures forall k :: 0 <= k < i ==> !StopsAt(ChromaSplitCosts(f.size), k)
    ensures i < 5 && !StopsAt(ChromaSplitCosts(f.size), i) ==> ChromaSplitKnown(g, n + 1)
  {
    hide ChromaSplitCosts, StopsAt, SplitEnd, BestSplit;
    BeforeRan(f, n);
    assert (n - 44) / 4 == i - 1 && (n + 1 - 44) / 4 == i;
    NextSplit(ChromaSplitCosts(f.size), i);
  }

  lemma ChromaSplitLast(f: Found, n: nat, i: nat, g: Found)
    requires |f.size| == 64 && ChromaSplitCompared(f, n, i, g) && ChromaSplitKnown(Before(f, n), n)
    requires (i == 5 || StopsAt(ChromaSplitCosts(f.size), i)) && forall k :: k in f.ran ==> k <= n
    ensures SplitEnd(ChromaSplitCosts(f.size), 0) == i && ChromaSplitKnown(g, 64)
  {
    hide ChromaSplitCosts, StopsAt, SplitEnd, BestSplit;
    BeforeRan(f, n);
    ChromaSplitNow(f, n, i, g);
    SplitEndIs(ChromaSplitCosts(f.size), 0, i);
  }

  /** A split tried that is not the last: `g` has the smaller of it and the best
      before.
   */
  lemma ChromaSplitTried(modes: DcModes, f: Found, n: nat, i: nat, g: Found)
    requires JustRan(true, modes, f, n) && 1 <= i <= 5 && n == 43 + 4 * i
    requires var c := ChromaSplitCosts(f.size)[i]; g == if c < f.bestCost then f.(splitChroma := i, bestCost := c)
               else f
    ensures g.splitChroma == BestSplit(ChromaSplitCosts(f.size), i)
    ensures i == 5 || !StopsAt(ChromaSplitCosts(f.size), i) ==> Known(true, modes, g, n + 1)
  {
    hide LumaAlCosts, LumaSplitCosts, ChromaAlCosts, ChromaSplitCosts, AlStop, StopsAt, SplitEnd, BestSplit, Coded,
         Recorded,
         LumaAlKnown, LumaSplitKnown, ChromaAlKnown, ChromaDcKnown, ChromaSplitKnown;
    RanBelow(true, modes, f, n);
    RecordedNow(true, modes, f, n);
    ChromaSplitNow(f, n, i, g);
    if i == 5 { ChromaSplitLast(f, n, i, g); }
    RecordedStays(true, modes, f, n + 1, g, n + 1);
    LumaStays(f, n, g, n + 1);
    ChromaDcStays(f, n, g, n + 1);
    ChromaAlStays(f, n, g, n + 1);
  }

  /** The last split tried. */
  lemma ChromaSplitsLeft(modes: DcModes, f: Found, n: nat, i: nat, g: Found)
    requires JustRan(true, modes, f, n) && 1 <= i <= 4 && n == 43 + 4 * i && StopsAt(ChromaSplitCosts(f.size), i)
    requires var c := ChromaSplitCosts(f.size)[i];
             g == (if c < f.bestCost then f.(splitChroma := i, bestCost := c) else f).(jumped := true)
    ensures Known(true, modes, g, 64)
  {
    hide LumaAlCosts, LumaSplitCosts, ChromaAlCosts, ChromaSplitCosts, AlStop, StopsAt, SplitEnd, BestSplit, Coded,
         Recorded,
         LumaAlKnown, LumaSplitKnown, ChromaAlKnown, ChromaDcKnown, ChromaSplitKnown;
    RanBelow(true, modes, f, n);
    RecordedNow(true, modes, f, n);
    ChromaSplitLast(f, n, i, g);
    RecordedStays(true, modes, f, n + 1, g, 64);
    LumaStays(f, n, g, 64);
    ChromaDcStays(f, n, g, 64);
    ChromaAlStays(f, n, g, 64);
  }

  // ----- What has been coded in the end ------------------------------------------------------------

  /** In the end exactly the scans that the sizes call for were coded, and the
      choice is the one they call for.
   */
  lemma SearchEnds(color: bool, modes: DcModes, f: Found)
    requires Known(color, modes, f, NumScans(color))
    ensures |f.size| == 64 && ChoiceOf(color, modes, f) == BestChoice(color, modes, f.size)
    ensures forall k: nat :: k in f.ran <==> Tried(color, f.size, k)
    ensures f.jumped <==> Jumps(color, f.size)
  {
    hide Coded, LumaAlCosts, LumaSplitCosts, ChromaAlCosts, ChromaSplitCosts, AlStop, SplitEnd, StopsAt, BestSplit;
  }

  /** The same for the sizes of the trial scans, whether they were coded or not. */
  lemma SizesDecide(color: bool, modes: DcModes, f: Found, sizes: seq<nat>)
    requires Known(color, modes, f, NumScans(color)) && |sizes| == 64 && |f.size| == 64
    requires forall k :: k in f.ran ==> k < 64 && f.size[k] == sizes[k]
    ensures ChoiceOf(color, modes, f) == BestChoice(color, modes, sizes)
    ensures forall k: nat :: k in f.ran <==> Tried(color, sizes, k)
    ensures f.jumped <==> Jumps(color, sizes)
  {
    hide BestChoice, Tried, Jumps, Known;
    SearchEnds(color, modes, f);
    OnlyTriedCount(color, modes, f.size, sizes);
  }

  /** Without a jump every trial scan was coded, and whatever the size of the last
      one, none of the sizes calls for a jump.
   */
  lemma NeverJumped(color: bool, modes: DcModes, f: Found, sizes: seq<nat>)
    requires Known(color, modes, f, NumScans(color) - 1) && !f.jumped && |sizes| == 64 && |f.size| == 64
    requires forall k :: k in f.ran ==> k < 64 && f.size[k] == sizes[k]
    ensures !Jumps(color, sizes) && forall k :: 0 <= k < NumScans(color) - 1 ==> k in f.ran
  {
    hide Coded, LumaAlCosts, LumaSplitCosts, ChromaAlCosts, ChromaSplitCosts, AlStop, SplitEnd, StopsAt, BestSplit;
    var n := NumScans(color) - 1;
    AllCoded(color, modes, f);
    SameCosts(f.size, sizes, n);
    SameLists(f.size, sizes, n);
    if color {
      SameSplits(ChromaSplitCosts(f.size), ChromaSplitCosts(sizes), 4);
      SplitEndIs(ChromaSplitCosts(sizes), 0, 5);
    } else {
      SameSplits(LumaSplitCosts(f.size), LumaSplitCosts(sizes), 4);
      SplitEndIs(LumaSplitCosts(sizes), 0, 5);
    }
  }

  lemma AllCoded(color: bool, modes: DcModes, f: Found)
    requires Known(color, modes, f, NumScans(color) - 1) && !f.jumped && |f.size| == 64
    ensures forall k :: 0 <= k < NumScans(color) - 1 ==> k in f.ran
  {
    hide Coded, LumaAlCosts, LumaSplitCosts, ChromaAlCosts, ChromaSplitCosts, AlStop, SplitEnd, StopsAt, BestSplit;
  }

  lemma LumaRan(color: bool, modes: DcModes, f: Found)
    requires Known(color, modes, f, NumScans(color))
    ensures f.alLuma <= 3 && f.splitLuma <= 5 && 0 in f.ran && 12 in f.ran
            && forall a :: 0 <= a < f.alLuma ==> 3 + 3 * a in f.ran
    ensures f.splitLuma > 0 ==> 12 + 2 * (f.splitLuma - 1) + 1 in f.ran && 12 + 2 * (f.splitLuma - 1) + 2 in f.ran
  {
    hide Coded, AlStop, SplitEnd, StopsAt, BestSplit, LumaAlCosts, LumaSplitCosts, ChromaAlKnown, ChromaDcKnown,
         ChromaSplitKnown;
  }

  lemma ChromaRan(modes: DcModes, f: Found)
    requires Known(true, modes, f, 64)
    ensures f.alChroma <= 2 && f.splitChroma <= 5 && 23 in f.ran && 24 in f.ran && 25 in f.ran && 42 in f.ran
            && 43 in f.ran
    ensures forall a :: 0 <= a < f.alChroma ==> 26 + 6 * a + 4 in f.ran && 26 + 6 * a + 5 in f.ran
    ensures f.splitChroma > 0 ==>
              var at := 42 + 4 * (f.splitChroma - 1);
              at + 2 in f.ran && at + 3 in f.ran && at + 4 in f.ran && at + 5 in f.ran
  {
    hide Coded, AlStop, SplitEnd, StopsAt, BestSplit, ChromaAlCosts, ChromaSplitCosts, LumaAlKnown, LumaSplitKnown;
  }

  lemma NoChroma(modes: DcModes, f: Found)
    requires Known(false, modes, f, 23)
    ensures f.alChroma == 0
  {
    hide Coded, LumaAlKnown, LumaSplitKnown;
  }

  /** The buffer of a scan holds it as it was coded. */
  lemma CopiedAsCoded(color: bool, modes: DcModes, f: Found, script: seq<ScanInfo>, i: nat)
    requires Known(color, modes, f, NumScans(color)) && i in f.ran
    requires Listed(script, NumScans(color), if color then 3 else 1, modes.list)
    ensures i < |script| && i < |f.al| && script[i].(al := f.al[i]) == Coded(ChoiceOf(color, modes, f), i)
  {
    hide TrialScan, LumaAlKnown, LumaSplitKnown, ChromaAlKnown, ChromaDcKnown, ChromaSplitKnown;
  }

  // ----- The search --------------------------------------------------------------------------------------

  class Search {
    const script: seq<ScanInfo>
    const color: bool
    const modes: DcModes
    var bestCost: nat
    var bestFreqSplitIdxLuma: nat
    var bestFreqSplitIdxChroma: nat
    var bestAlLuma: nat
    var bestAlChroma: nat
    var interleaveChromaDc: bool
    var scanSize: seq<nat>
    var actualAl: seq<int>
    var dest: seq<ScanInfo>  // the scans copied to the real destination
    ghost var ran: set<nat>
    ghost var jumped: bool

    constructor (script: seq<ScanInfo>, color: bool, modes: DcModes)
      requires Listed(script, NumScans(color), if color then 3 else 1, modes.list)
      ensures this.script == script && this.color == color && this.modes == modes
      ensures Listing() && Known(color, modes, SoFar(), 0) && ran == {} && dest == [] && !jumped
    {
      this.script, this.color, this.modes := script, color, modes;
      bestCost, bestFreqSplitIdxLuma, bestFreqSplitIdxChroma, bestAlLuma, bestAlChroma := 0, 0, 0, 0, 0;
      interleaveChromaDc := false;
      scanSize, actualAl, dest, ran, jumped := seq(64, _ => 0), seq(64, _ => 0), [], {}, false;
    }

    ghost predicate Listing() {
      Listed(script, NumScans(color), if color then 3 else 1, modes.list)
    }

    ghost function SoFar(): Found
      reads this
    {
      Found(bestCost, bestFreqSplitIdxLuma, bestFreqSplitIdxChroma, bestAlLuma, bestAlChroma, interleaveChromaDc,
            scanSize, actualAl, ran, jumped)
    }

    ghost predicate NextIs(n: nat)
      reads this
    {
      Known(color, modes, SoFar(), n)
    }

    ghost predicate CodedJust(n: nat)
      reads this
    {
      JustRan(color, modes, SoFar(), n)
    }

    ghost function Chosen(): Choice
      reads this
    {
      ChoiceOf(color, modes, SoFar())
    }

    /** The scan as select_scan_parameters sets it up: frequency split scans use
        the point transform found.
     */
    function Parameters(n: nat): ScanInfo
      requires n < |script|
      reads this
    {
      if 12 <= n < 23 then script[n].(al := bestAlLuma)
      else if 42 <= n < NumScans(color) then script[n].(al := bestAlChroma)
      else script[n]
    }

    lemma ParametersCoded(n: nat)
      requires Listing() && n < NumScans(color)
      ensures n < |script| && Parameters(n) == Coded(Chosen(), n)
    {
      hide TrialScan;
    }

    /** A trial scan coded: its size and point transform are kept. */
    method Record(n: nat, al: int, size: nat)
      requires n < NumScans(color) && NextIs(n) && al == Coded(Chosen(), n).al
      modifies this
      ensures CodedJust(n) && ran == old(ran) + {n} && dest == old(dest) && jumped == old(jumped)
              && Chosen() == old(Chosen())
      ensures scanSize == old(scanSize)[n := size]
    {
      hide Coded, Known;
      ghost var f := SoFar();
      KnownSizes(color, modes, f, n);
      scanSize, actualAl, ran := scanSize[n := size], actualAl[n := al], ran + {n};
      SameBefore(color, modes, f, n, size, al);
      assert SoFar() == f.(size := f.size[n := size], al := f.al[n := al], ran := f.ran + {n});
    }

    lemma Sizes(n: nat)
      requires CodedJust(n)
      ensures |scanSize| == |actualAl| == 64 && n < NumScans(color)
    {
      hide Coded;
    }

    /** The point transform tried for luma is compared; `jump` if the pass number is
        set anew.
     */
    method LumaAl(next: nat) returns (scan: nat, jump: bool)
      requires 1 <= next <= 12 && CodedJust(next - 1)
      modifies `bestCost, `bestAlLuma, `jumped
      ensures next - 1 <= scan <= 11 && NextIs(scan + 1) && (if jump then scan == 11 else scan == next - 1)
              && (jumped <==> old(jumped) || jump)
    {
      hide Known, JustRan, LumaAlCosts, TrialScan;
      var n := next - 1;
      Sizes(n);
      scan, jump := n, false;
      if n > 0 && n % 3 == 2 {
        var al := n / 3;
        var cost := scanSize[next - 2];
        cost := cost + scanSize[next - 1];
        for i := 0 to al
          invariant cost == scanSize[next - 2] + scanSize[next - 1] + LumaBitsCost(scanSize, i)
        {
          cost := cost + scanSize[3 + 3 * i];
        }
        LumaAlCostIs(scanSize, al);
        ghost var f := SoFar();
        if al == 0 || cost < bestCost {
          LumaAlTaken(color, modes, f, n, al, f.(bestCost := cost, alLuma := al));
          bestCost, bestAlLuma := cost, al;
        } else {
          LumaAlLeft(color, modes, f, n, al, f.(jumped := true));
          scan, jump, jumped := 11, true, true;
        }
      } else {
        NothingDecided(color, modes, SoFar(), n);
      }
    }

    method LumaSplit(next: nat) returns (scan: nat, jump: bool)
      requires 13 <= next <= 23 && CodedJust(next - 1)
      modifies `bestCost, `bestFreqSplitIdxLuma, `jumped
      ensures (scan == next - 1 && !jump) || (scan == 22 && jump)
      ensures NextIs(scan + 1) && (jumped <==> old(jumped) || jump)
    {
      hide Known, JustRan, LumaSplitCosts, BestSplit, TrialScan;
      var n := next - 1;
      Sizes(n);
      scan, jump := n, false;
      ghost var f := SoFar();
      if next == 13 {
        bestFreqSplitIdxLuma := 0;
        bestCost := scanSize[next - 1];
        LumaWhole(color, modes, f, SoFar());
      } else if (next - 12) % 2 == 1 {
        var idx := (next - 12) / 2;
        var cost := scanSize[next - 2];
        cost := cost + scanSize[next - 1];
        assert cost == LumaSplitCosts(scanSize)[idx];
        if cost < bestCost {
          bestCost := cost;
          bestFreqSplitIdxLuma := idx;
        }
        LumaSplitTried(color, modes, f, n, idx, SoFar());
        if (idx == 2 && bestFreqSplitIdxLuma == 0) || (idx == 3 && bestFreqSplitIdxLuma != 2)
           || (idx == 4 && bestFreqSplitIdxLuma != 4) {
          scan, jump, jumped := 22, true, true;
          LumaSplitsLeft(color, modes, f, n, idx, SoFar());
        }
      } else {
        NothingDecided(color, modes, f, n);
      }
    }

    method ChromaAl(next: nat) returns (scan: nat, jump: bool)
      requires color && 27 <= next <= 42 && CodedJust(next - 1)
      modifies `bestCost, `bestAlChroma, `jumped
      ensures next - 1 <= scan <= 41 && NextIs(scan + 1) && (if jump then scan == 41 else scan == next - 1)
              && (jumped <==> old(jumped) || jump)
    {
      hide Known, JustRan, ChromaAlCosts, TrialScan;
      var n := next - 1;
      Sizes(n);
      scan, jump := n, false;
      ghost var f := SoFar();
      if (next - 26) % 6 == 4 {
        var al := (next - 26) / 6;
        var cost := scanSize[next - 4];
        cost := cost + scanSize[next - 3];
        cost := cost + scanSize[next - 2];
        cost := cost + scanSize[next - 1];
        for i := 0 to al
          invariant cost == scanSize[next - 4] + scanSize[next - 3] + scanSize[next - 2] + scanSize[next - 1]
                      + ChromaBitsCost(scanSize, i)
        {
          cost := cost + scanSize[26 + 4 + 6 * i];
          cost := cost + scanSize[26 + 5 + 6 * i];
        }
        ChromaAlCostIs(scanSize, al);
        if al == 0 || cost < bestCost {
          ChromaAlTaken(modes, f, n, al, f.(bestCost := cost, alChroma := al));
          bestCost, bestAlChroma := cost, al;
        } else {
          ChromaAlLeft(modes, f, n, al, f.(jumped := true));
          scan, jump, jumped := 41, true, true;
        }
      } else {
        NothingDecided(color, modes, f, n);
      }
    }

    method ChromaSplit(next: nat) returns (scan: nat, jump: bool)
      requires color && 43 <= next <= 64 && CodedJust(next - 1)
      modifies `bestCost, `bestFreqSplitIdxChroma, `jumped
      ensures (scan == next - 1 && !jump) || (scan == 63 && jump)
      ensures NextIs(scan + 1) && (jumped <==> old(jumped) || jump)
    {
      hide Known, JustRan, ChromaSplitCosts, BestSplit, TrialScan;
      var n := next - 1;
      Sizes(n);
      scan, jump := n, false;
      ghost var f := SoFar();
      if next == 44 {
        bestFreqSplitIdxChroma := 0;
        bestCost := scanSize[next - 2];
        bestCost := bestCost + scanSize[next - 1];
        ChromaWhole(modes, f, SoFar());
      } else if (next - 42) % 4 == 2 {
        var idx := (next - 42) / 4;
        var cost := scanSize[next - 4];
        cost := cost + scanSize[next - 3];
        cost := cost + scanSize[next - 2];
        cost := cost + scanSize[next - 1];
        assert cost == ChromaSplitCosts(scanSize)[idx];
        if cost < bestCost {
          bestCost := cost;
          bestFreqSplitIdxChroma := idx;
        }
        ChromaSplitTried(modes, f, n, idx, SoFar());
        if (idx == 2 && bestFreqSplitIdxChroma == 0) || (idx == 3 && bestFreqSplitIdxChroma != 2)
           || (idx == 4 && bestFreqSplitIdxChroma != 4) {
          scan, jump, jumped := 63, true, true;
          ChromaSplitsLeft(modes, f, n, idx, SoFar());
        }
      } else {
        NothingDecided(color, modes, f, n);
      }
    }

    /** The comparisons of select_scans: the number of the scan that now counts as
        the last one done, whether the pass number is set anew to match it, and
        whether is_last_pass is, too.
     */
    method Compare(next: nat) returns (scan: nat, jump: bool, last: bool)
      requires 1 <= next <= NumScans(color) && CodedJust(next - 1)
      modifies `bestCost, `bestAlLuma, `bestAlChroma, `bestFreqSplitIdxLuma, `bestFreqSplitIdxChroma,
               `interleaveChromaDc, `jumped
      ensures next - 1 <= scan < NumScans(color) && NextIs(scan + 1)
      ensures (!jump ==> scan == next - 1) && (jumped <==> old(jumped) || jump)
      ensures jump ==> scan == 11 || scan == 22 || scan == 41 || scan == 63
      ensures (last ==> jump) && (jump && scan + 1 == NumScans(color) ==> last)
    {
      hide Known, JustRan, TrialScan;
      scan, jump, last := next - 1, false, false;
      if 1 < next <= 12 {
        scan, jump := LumaAl(next);
      } else if 12 < next <= 23 {
        scan, jump := LumaSplit(next);
        last := jump;
      } else if color {
        if next == 26 {
          Sizes(25);
          ghost var f := SoFar();
          interleaveChromaDc := scanSize[23] <= scanSize[23 + 1] + scanSize[23 + 2];
          ChromaDcDecided(modes, f, SoFar());
        } else if 26 < next <= 42 {
          scan, jump := ChromaAl(next);
        } else if 42 < next <= 64 {
          scan, jump := ChromaSplit(next);
          last := jump;
        } else {
          NothingDecided(color, modes, SoFar(), next - 1);
        }
      } else {
        NothingDecided(color, modes, SoFar(), next - 1);
      }
    }

    // ----- Copying the chosen scans ---------------------------------------------------------------

    /** The destination holds these scans of the list, all of them coded before. */
    ghost predicate Holds(scans: seq<nat>)
      reads this
    {
      dest == CodedAll(Chosen(), scans) && forall i :: i in scans ==> i in ran
    }

    /** copy_buffer. */
    method CopyBuffer(i: nat, ghost scans: seq<nat>)
      requires Listing() && NextIs(NumScans(color)) && i in ran && Holds(scans)
      modifies `dest
      ensures Holds(scans + [i])
    {
      hide Coded, TrialScan;
      CopiedAsCoded(color, modes, SoFar(), script, i);
      dest := dest + [script[i].(al := actualAl[i])];
      assert dest == CodedAll(Chosen(), scans + [i]);
    }

    /** The refinement scans of luma alone. */
    method CopyLumaBits(minAl: nat, ghost scans: seq<nat>)
      requires Listing() && NextIs(NumScans(color)) && minAl <= bestAlLuma && Holds(scans)
      modifies `dest
      ensures Holds(scans + LumaBits(bestAlLuma, minAl))
    {
      hide Coded, Known, CodedAll, TrialScan;
      ghost var all := scans + LumaBits(bestAlLuma, minAl);
      ghost var done: seq<nat> := scans;
      var al: nat := bestAlLuma;
      LumaRan(color, modes, SoFar());
      while al > minAl
        invariant minAl <= al <= bestAlLuma && Holds(done) && done + LumaBits(al, minAl) == all
      {
        al := al - 1;
        assert done + ([3 + 3 * al] + LumaBits(al, minAl)) == (done + [3 + 3 * al]) + LumaBits(al, minAl);
        CopyBuffer(3 + 3 * al, done);
        done := done + [3 + 3 * al];
      }
      assert done + [] == done;
    }

    /** The refinement scans of both chroma components. */
    method CopyChromaBits(minAl: nat, ghost scans: seq<nat>)
      requires color && Listing() && NextIs(64) && minAl <= bestAlChroma && Holds(scans)
      modifies `dest
      ensures Holds(scans + ChromaBits(bestAlChroma, minAl))
    {
      hide Coded, Known, CodedAll, TrialScan;
      ghost var all := scans + ChromaBits(bestAlChroma, minAl);
      ghost var done: seq<nat> := scans;
      var al: nat := bestAlChroma;
      ChromaRan(modes, SoFar());
      while al > minAl
        invariant minAl <= al <= bestAlChroma && Holds(done) && done + ChromaBits(al, minAl) == all
      {
        al := al - 1;
        ghost var pair: seq<nat> := [26 + 6 * al + 4] + [26 + 6 * al + 5];
        assert done + (pair + ChromaBits(al, minAl)) == (done + pair) + ChromaBits(al, minAl);
        assert (done + [26 + 6 * al + 4]) + [26 + 6 * al + 5] == done + pair;
        CopyBuffer(26 + 6 * al + 4, done);
        CopyBuffer(26 + 6 * al + 5, done + [26 + 6 * al + 4]);
        done := done + pair;
      }
      assert done + [] == done;
    }

    /** One bit that luma and chroma have in common. */
    method CopySharedBit(al: nat, ghost scans: seq<nat>)
      requires Listing() && NextIs(NumScans(color)) && al < bestAlLuma && (color ==> al < bestAlChroma) && Holds(scans)
      modifies `dest
      ensures Holds(scans + ([3 + 3 * al] + if color then [26 + 6 * al + 4] + [26 + 6 * al + 5] else []))
    {
      hide Coded, Known, CodedAll, TrialScan;
      LumaRan(color, modes, SoFar());
      CopyBuffer(3 + 3 * al, scans);
      if color {
        ChromaRan(modes, SoFar());
        CopyBuffer(26 + 6 * al + 4, scans + [3 + 3 * al]);
        CopyBuffer(26 + 6 * al + 5, (scans + [3 + 3 * al]) + [26 + 6 * al + 4]);
        assert ((scans + [3 + 3 * al]) + [26 + 6 * al + 4]) + [26 + 6 * al + 5]
                   == scans + ([3 + 3 * al] + ([26 + 6 * al + 4] + [26 + 6 * al + 5]));
      } else {
        assert scans + ([3 + 3 * al] + []) == scans + [3 + 3 * al];
      }
    }

    /** The bits that luma and chroma have in common. */
    method CopySharedBits(minAl: nat, ghost scans: seq<nat>)
      requires Listing() && NextIs(NumScans(color)) && minAl <= bestAlLuma && (color ==> minAl <= bestAlChroma)
               && Holds(scans)
      modifies `dest
      ensures Holds(scans + SharedBits(color, minAl))
    {
      hide Coded, Known, CodedAll, TrialScan, Listed, Search.Holds;
      ghost var all := scans + SharedBits(color, minAl);
      ghost var done: seq<nat> := scans;
      var al: nat := minAl;
      while al > 0
        invariant al <= minAl && Holds(done) && done + SharedBits(color, al) == all
      {
        al := al - 1;
        ghost var own: seq<nat> := [3 + 3 * al] + if color then [26 + 6 * al + 4] + [26 + 6 * al + 5] else [];
        assert done + (own + SharedBits(color, al)) == (done + own) + SharedBits(color, al);
        CopySharedBit(al, done);
        done := done + own;
      }
      assert done + [] == done;
    }

    method CopyChromaDc(ghost scans: seq<nat>)
      requires Listing() && NextIs(NumScans(color)) && Holds(scans)
      modifies `dest
      ensures Holds(scans + ChromaDc(Chosen()))
    {
      hide Coded, Known, CodedAll, TrialScan;
      if color && modes.copy != 0 {
        ChromaRan(modes, SoFar());
        if interleaveChromaDc && modes.copy != 1 {
          CopyBuffer(23, scans);
        } else {
          CopyBuffer(24, scans);
          CopyBuffer(25, scans + [24]);
          assert (scans + [24]) + [25] == scans + ([24] + [25]);
        }
      } else {
        assert scans + [] == scans;
      }
    }

    method CopyLumaParts(ghost scans: seq<nat>)
      requires Listing() && NextIs(NumScans(color)) && Holds(scans)
      modifies `dest
      ensures Holds(scans + LumaParts(Chosen()))
    {
      hide Coded, Known, CodedAll, TrialScan;
      LumaRan(color, modes, SoFar());
      if bestFreqSplitIdxLuma == 0 {
        CopyBuffer(12, scans);
      } else {
        var at := 12 + 2 * (bestFreqSplitIdxLuma - 1);
        CopyBuffer(at + 1, scans);
        CopyBuffer(at + 2, scans + [at + 1]);
        assert (scans + [at + 1]) + [at + 2] == scans + ([at + 1] + [at + 2]);
      }
    }

    method CopyChromaSplits(ghost scans: seq<nat>)
      requires color && Listing() && NextIs(64) && Holds(scans)
      modifies `dest
      ensures Holds(scans + ChromaSplits(Chosen()))
    {
      hide Coded, Known, CodedAll, TrialScan;
      ChromaRan(modes, SoFar());
      if bestFreqSplitIdxChroma == 0 {
        CopyBuffer(42, scans);
        CopyBuffer(43, scans + [42]);
        assert (scans + [42]) + [43] == scans + ([42] + [43]);
      } else {
        var at := 42 + 4 * (bestFreqSplitIdxChroma - 1);
        CopyBuffer(at + 2, scans);
        CopyBuffer(at + 3, scans + [at + 2]);
        CopyBuffer(at + 4, (scans + [at + 2]) + [at + 3]);
        CopyBuffer(at + 5, ((scans + [at + 2]) + [at + 3]) + [at + 4]);
        assert (((scans + [at + 2]) + [at + 3]) + [at + 4]) + [at + 5]
                   == scans + (([at + 2] + [at + 3]) + ([at + 4] + [at + 5]));
      }
    }

    /** The end of select_scans: the chosen scans, in an order that makes a legal script. */
    method CopyChosen()
      requires Listing() && NextIs(NumScans(color)) && dest == []
      modifies `dest
      ensures InRange(Chosen()) && Holds(Copied(Chosen()))
    {
      hide Coded, Known, CodedAll, TrialScan, ChromaDc, LumaParts, ChromaSplits, LumaBits, ChromaBits, SharedBits;
      LumaRan(color, modes, SoFar());
      if color { ChromaRan(modes, SoFar()); } else { NoChroma(modes, SoFar()); }
      ghost var ch := Chosen();
      var minAl := if bestAlLuma < bestAlChroma then bestAlLuma else bestAlChroma;
      NothingHeld();
      CopyBuffer(0, []);
      ghost var a, b, c, d := ChromaDc(ch), LumaParts(ch), LumaBits(ch.alLuma, minAl), [0];
      assert [] + [0] == d;
      CopyChromaDc(d);
      CopyLumaParts(d + a);
      CopyLumaBits(minAl, (d + a) + b);
      ghost var head := ((d + a) + b) + c;
      ghost var chroma: seq<nat> := [];
      if color {
        CopyChromaSplits(head);
        CopyChromaBits(minAl, head + ChromaSplits(ch));
        chroma := ChromaSplits(ch) + ChromaBits(ch.alChroma, minAl);
        assert (head + ChromaSplits(ch)) + ChromaBits(ch.alChroma, minAl) == head + chroma;
      } else {
        assert head + chroma == head;
      }
      CopySharedBits(minAl, head + chroma);
      Reassociate(d, a, b, c, chroma, SharedBits(color, minAl));
    }

    /** select_scans after scan `n` was coded: recorded, compared and, if no trial
        scan is left, followed by the copying.
     */
    method SelectScans(n: nat, al: int, size: nat) returns (scan: nat, jump: bool, last: bool)
      requires Listing() && n < NumScans(color) && NextIs(n) && al == Coded(Chosen(), n).al && dest == []
      modifies this
      ensures n <= scan < NumScans(color) && NextIs(scan + 1)
      ensures ran == old(ran) + {n} && n < |old(scanSize)| && scanSize == old(scanSize)[n := size]
      ensures (!jump ==> scan == n) && (jumped <==> old(jumped) || jump)
      ensures jump ==> scan == 11 || scan == 22 || scan == 41 || scan == 63
      ensures (last ==> jump) && (jump && scan + 1 == NumScans(color) ==> last)
      ensures if scan + 1 == NumScans(color) then InRange(Chosen()) && Holds(Copied(Chosen())) else dest == []
    {
      hide Coded, Known, JustRan, TrialScan, Listed, Copied, InRange;
      KnownSizes(color, modes, SoFar(), n);
      Record(n, al, size);
      scan, jump, last := Compare(n + 1);
      if scan == NumScans(color) - 1 {
        CopyChosen();
      }
    }

    lemma NothingHeld()
      requires dest == []
      ensures Holds([])
    {
    }
  }

  lemma Reassociate(d: seq<nat>, a: seq<nat>, b: seq<nat>, c: seq<nat>, e: seq<nat>, f: seq<nat>)
    ensures ((((d + a) + b) + c) + e) + f == d + (a + (b + (c + (e + f))))
  {
  }
}
