/** What the sizes of the trial scans call for (the comparisons of select_scans,
    jcmaster.c): which scans are tried at all, and which choice comes out.
 */
module SearchOutcome {
  import opened ScanChoice

  // ----- Sizes compared ------------------------------------------------------------------------

  /** The refinement scans below bit `al`. */
  function LumaBitsCost(size: seq<nat>, al: nat): nat
    requires |size| == 64 && al <= 3
  {
    if al == 0 then 0 else LumaBitsCost(size, al - 1) + size[3 + 3 * (al - 1)]
  }

  function LumaAlCost(size: seq<nat>, al: nat): nat
    requires |size| == 64 && al <= 3
  {
    size[3 * al + 1] + size[3 * al + 2] + LumaBitsCost(size, al)
  }

  function LumaSplitCost(size: seq<nat>, i: nat): nat
    requires |size| == 64 && i <= 5
  {
    if i == 0 then size[12] else size[13 + 2 * (i - 1)] + size[14 + 2 * (i - 1)]
  }

  function ChromaBitsCost(size: seq<nat>, al: nat): nat
    requires |size| == 64 && al <= 2
  {
    if al == 0 then 0 else ChromaBitsCost(size, al - 1) + size[30 + 6 * (al - 1)] + size[31 + 6 * (al - 1)]
  }

  function ChromaAlCost(size: seq<nat>, al: nat): nat
    requires |size| == 64 && al <= 2
  {
    size[6 * al + 26] + size[6 * al + 27] + size[6 * al + 28] + size[6 * al + 29] + ChromaBitsCost(size, al)
  }

  function ChromaSplitCost(size: seq<nat>, i: nat): nat
    requires |size| == 64 && i <= 5
  {
    if i == 0 then size[42] + size[43]
    else size[44 + 4 * (i - 1)] + size[45 + 4 * (i - 1)] + size[46 + 4 * (i - 1)] + size[47 + 4 * (i - 1)]
  }

  function LumaAlCosts(size: seq<nat>): (cs: seq<nat>)
    requires |size| == 64
    ensures |cs| == 4 && forall a :: 0 <= a < 4 ==> cs[a] == LumaAlCost(size, a)
  {
    seq(4, a requires 0 <= a < 4 => LumaAlCost(size, a))
  }

  function LumaSplitCosts(size: seq<nat>): (cs: seq<nat>)
    requires |size| == 64
    ensures |cs| == 6 && forall i :: 0 <= i < 6 ==> cs[i] == LumaSplitCost(size, i)
  {
    seq(6, i requires 0 <= i < 6 => LumaSplitCost(size, i))
  }

  function ChromaAlCosts(size: seq<nat>): (cs: seq<nat>)
    requires |size| == 64
    ensures |cs| == 3 && forall a :: 0 <= a < 3 ==> cs[a] == ChromaAlCost(size, a)
  {
    seq(3, a requires 0 <= a < 3 => ChromaAlCost(size, a))
  }

  function ChromaSplitCosts(size: seq<nat>): (cs: seq<nat>)
    requires |size| == 64
    ensures |cs| == 6 && forall i :: 0 <= i < 6 ==> cs[i] == ChromaSplitCost(size, i)
  {
    seq(6, i requires 0 <= i < 6 => ChromaSplitCost(size, i))
  }

  // ----- Where each part of the search stops ------------------------------------------------------

  /** The first point transform from `al` on that is not smaller than the one
      before it; the number of them if there is none.
   */
  function AlStop(costs: seq<nat>, al: nat): (s: nat)
    requires 1 <= al <= |costs|
    ensures al <= s <= |costs|
    ensures s < |costs| ==> costs[s] >= costs[s - 1]
    ensures forall a :: al <= a < s ==> costs[a] < costs[a - 1]
    decreases |costs| - al
  {
    if al == |costs| || costs[al] >= costs[al - 1] then al else AlStop(costs, al + 1)
  }

  lemma {:induction false} AlStopIs(costs: seq<nat>, al: nat, s: nat)
    requires 1 <= al <= s <= |costs| && (s < |costs| ==> costs[s] >= costs[s - 1])
    requires forall a :: al <= a < s ==> costs[a] < costs[a - 1]
    ensures AlStop(costs, al) == s
    decreases s - al
  {
    if al < s { AlStopIs(costs, al + 1, s); }
  }

  /** The point transform before the stop is the smallest of all that are tried. */
  lemma {:induction false} AlStopLeast(costs: seq<nat>, a: nat)
    requires |costs| >= 1 && a <= AlStop(costs, 1) && a < |costs|
    ensures costs[AlStop(costs, 1) - 1] <= costs[a]
    decreases AlStop(costs, 1) - a
  {
    hide AlStop;
    if a + 1 < AlStop(costs, 1) { AlStopLeast(costs, a + 1); }
  }

  /** The first of the smallest of the splits up to `i`. */
  function BestSplit(costs: seq<nat>, i: nat): (b: nat)
    requires i < |costs|
    ensures b <= i && forall k :: 0 <= k <= i ==> costs[b] <= costs[k]
    ensures forall k :: 0 <= k < b ==> costs[b] < costs[k]
  {
    if i == 0 then 0
    else
      var b := BestSplit(costs, i - 1);
      if costs[i] < costs[b] then i else b
  }

  /** The splits after `i` are not tried. */
  predicate StopsAt(costs: seq<nat>, i: nat)
    requires i < |costs|
  {
    var b := BestSplit(costs, i);
    (i == 2 && b == 0) || (i == 3 && b != 2) || (i == 4 && b != 4)
  }

  /** The last split tried, from `i` on. */
  function SplitEnd(costs: seq<nat>, i: nat): (e: nat)
    requires i < |costs|
    ensures i <= e < |costs| && (e + 1 < |costs| ==> StopsAt(costs, e))
    ensures forall k :: i <= k < e ==> !StopsAt(costs, k)
    decreases |costs| - i
  {
    if i + 1 == |costs| || StopsAt(costs, i) then i else SplitEnd(costs, i + 1)
  }

  /** The stopping rule: without a split after three if that is best so far, after
      four unless the second split is, after five unless the fourth is.
   */
  lemma SplitEndRule(costs: seq<nat>)
    requires |costs| == 6
    ensures var e, second := SplitEnd(costs, 0), costs[2] < costs[0] && costs[2] < costs[1] && costs[2] <= costs[3];
            && (e == 2 <==> costs[0] <= costs[1] && costs[0] <= costs[2])
            && (e == 3 <==> !(costs[0] <= costs[1] && costs[0] <= costs[2]) && !second)
            && (e == 4 <==> second && costs[4] >= costs[2])
            && (e == 5 <==> second && costs[4] < costs[2])
  {
    hide SplitEnd, BestSplit;
    assert !StopsAt(costs, 0) && !StopsAt(costs, 1);
    assert StopsAt(costs, 2) <==> (costs[0] <= costs[1] && costs[0] <= costs[2]);
    assert StopsAt(costs, 3) <==> !(costs[2] < costs[0] && costs[2] < costs[1] && costs[2] <= costs[3]);
    var least := costs[4] < costs[0] && costs[4] < costs[1] && costs[4] < costs[2] && costs[4] < costs[3];
    assert StopsAt(costs, 4) <==> !least;
  }

  lemma {:induction false} SplitEndIs(costs: seq<nat>, i: nat, e: nat)
    requires i <= e < |costs| && (e + 1 < |costs| ==> StopsAt(costs, e))
    requires forall k :: i <= k < e ==> !StopsAt(costs, k)
    ensures SplitEnd(costs, i) == e
    decreases e - i
  {
    hide StopsAt;
    if i < e { SplitEndIs(costs, i + 1, e); }
  }

  lemma {:induction false} BestSplitSame(a: seq<nat>, b: seq<nat>, i: nat)
    requires i < |a| && i < |b| && forall k :: 0 <= k <= i ==> a[k] == b[k]
    ensures BestSplit(a, i) == BestSplit(b, i) && (StopsAt(a, i) <==> StopsAt(b, i))
    decreases i
  {
    if i > 0 { BestSplitSame(a, b, i - 1); }
  }

  // ----- The outcome -------------------------------------------------------------------------------

  function NumScans(color: bool): nat {
    if color then 64 else 23
  }

  /** The trial scans that are coded: point transforms up to the first that is no
      smaller, frequency splits up to the stop.
   */
  predicate Tried(color: bool, size: seq<nat>, k: nat)
    requires |size| == 64
  {
    || k == 0 || k == 12
    || (1 <= k < 12 && k / 3 <= AlStop(LumaAlCosts(size), 1))
    || (13 <= k < 23 && (k - 11) / 2 <= SplitEnd(LumaSplitCosts(size), 0))
    || (color && (23 <= k < 26 || k == 42 || k == 43))
    || (color && 26 <= k < 42 && (k - 24) / 6 <= AlStop(ChromaAlCosts(size), 1))
    || (color && 44 <= k < 64 && (k - 40) / 4 <= SplitEnd(ChromaSplitCosts(size), 0))
  }

  /** dc_scan_opt_mode when the list is made and when scans are copied. */
  datatype DcModes = DcModes(list: int, copy: int)

  /** The choice the sizes call for. */
  function BestChoice(color: bool, modes: DcModes, size: seq<nat>): Choice
    requires |size| == 64
  {
    Choice(color, modes.list, modes.copy, color && size[23] <= size[24] + size[25],
           AlStop(LumaAlCosts(size), 1) - 1, BestSplit(LumaSplitCosts(size), SplitEnd(LumaSplitCosts(size), 0)),
           if color then AlStop(ChromaAlCosts(size), 1) - 1 else 0,
           if color then BestSplit(ChromaSplitCosts(size), SplitEnd(ChromaSplitCosts(size), 0)) else 0)
  }

  /** A comparison jumps over trial scans, or re-sets the pass number. */
  predicate Jumps(color: bool, size: seq<nat>)
    requires |size| == 64
  {
    || AlStop(LumaAlCosts(size), 1) < 4 || SplitEnd(LumaSplitCosts(size), 0) < 5
    || (color && (AlStop(ChromaAlCosts(size), 1) < 3 || SplitEnd(ChromaSplitCosts(size), 0) < 5))
  }

  // ----- Only the scans tried count ------------------------------------------------------------------

  lemma {:induction false} SameLumaBits(a: seq<nat>, b: seq<nat>, al: nat)
    requires |a| == |b| == 64 && al <= 3 && forall i :: 0 <= i < al ==> a[3 + 3 * i] == b[3 + 3 * i]
    ensures LumaBitsCost(a, al) == LumaBitsCost(b, al)
    decreases al
  {
    if al > 0 { SameLumaBits(a, b, al - 1); }
  }

  lemma {:induction false} SameChromaBits(a: seq<nat>, b: seq<nat>, al: nat)
    requires |a| == |b| == 64 && al <= 2
    requires forall i :: 0 <= i < al ==> a[30 + 6 * i] == b[30 + 6 * i] && a[31 + 6 * i] == b[31 + 6 * i]
    ensures ChromaBitsCost(a, al) == ChromaBitsCost(b, al)
    decreases al
  {
    if al > 0 { SameChromaBits(a, b, al - 1); }
  }

  lemma SameLumaAlCost(a: seq<nat>, b: seq<nat>, al: nat)
    requires |a| == |b| == 64 && al <= 3 && forall k :: 1 <= k <= 3 * al + 2 ==> a[k] == b[k]
    ensures LumaAlCost(a, al) == LumaAlCost(b, al)
  {
    SameLumaBits(a, b, al);
  }

  lemma SameChromaAlCost(a: seq<nat>, b: seq<nat>, al: nat)
    requires |a| == |b| == 64 && al <= 2 && forall k :: 26 <= k <= 6 * al + 29 ==> a[k] == b[k]
    ensures ChromaAlCost(a, al) == ChromaAlCost(b, al)
  {
    SameChromaBits(a, b, al);
  }

  lemma SameAlStop(a: seq<nat>, b: seq<nat>)
    requires 1 <= |a| == |b| && forall k :: 0 <= k < |a| && k <= AlStop(a, 1) ==> a[k] == b[k]
    ensures AlStop(a, 1) == AlStop(b, 1)
  {
    AlStopIs(b, 1, AlStop(a, 1));
  }

  lemma SameSplitEnd(a: seq<nat>, b: seq<nat>)
    requires 1 <= |a| == |b| && forall k :: 0 <= k <= SplitEnd(a, 0) ==> a[k] == b[k]
    ensures SplitEnd(a, 0) == SplitEnd(b, 0) && BestSplit(a, SplitEnd(a, 0)) == BestSplit(b, SplitEnd(b, 0))
  {
    hide StopsAt, SplitEnd, BestSplit;
    var e := SplitEnd(a, 0);
    forall k: nat | k <= e ensures BestSplit(a, k) == BestSplit(b, k) && (StopsAt(a, k) <==> StopsAt(b, k)) {
      BestSplitSame(a, b, k);
    }
    SplitEndIs(b, 0, e);
  }

  lemma SameLuma(color: bool, a: seq<nat>, b: seq<nat>)
    requires |a| == |b| == 64 && forall k :: 0 <= k < 64 && Tried(color, a, k) ==> a[k] == b[k]
    ensures AlStop(LumaAlCosts(a), 1) == AlStop(LumaAlCosts(b), 1)
    ensures SplitEnd(LumaSplitCosts(a), 0) == SplitEnd(LumaSplitCosts(b), 0)
    ensures BestSplit(LumaSplitCosts(a), SplitEnd(LumaSplitCosts(a), 0))
            == BestSplit(LumaSplitCosts(b), SplitEnd(LumaSplitCosts(b), 0))
  {
    hide AlStop, SplitEnd, BestSplit, LumaAlCost, LumaSplitCost, LumaAlCosts, LumaSplitCosts;
    forall al: nat | al < 4 && al <= AlStop(LumaAlCosts(a), 1) ensures LumaAlCost(a, al) == LumaAlCost(b, al) {
      forall k | 1 <= k <= 3 * al + 2 ensures a[k] == b[k] { assert Tried(color, a, k); }
      SameLumaAlCost(a, b, al);
    }
    SameAlStop(LumaAlCosts(a), LumaAlCosts(b));
    forall i: nat | i <= SplitEnd(LumaSplitCosts(a), 0) ensures LumaSplitCost(a, i) == LumaSplitCost(b, i) {
      SameLumaSplit(color, a, b, i);
    }
    SameSplitEnd(LumaSplitCosts(a), LumaSplitCosts(b));
  }

  lemma SameLumaSplit(color: bool, a: seq<nat>, b: seq<nat>, i: nat)
    requires |a| == |b| == 64 && i <= SplitEnd(LumaSplitCosts(a), 0)
             && forall k :: 0 <= k < 64 && Tried(color, a, k) ==> a[k] == b[k]
    ensures LumaSplitCost(a, i) == LumaSplitCost(b, i)
  {
    hide AlStop, SplitEnd, BestSplit, LumaAlCosts, LumaSplitCosts, ChromaAlCosts, ChromaSplitCosts;
    assert Tried(color, a, 12);
    if i > 0 { assert Tried(color, a, 11 + 2 * i) && Tried(color, a, 12 + 2 * i); }
  }

  lemma SameChroma(a: seq<nat>, b: seq<nat>)
    requires |a| == |b| == 64 && forall k :: 0 <= k < 64 && Tried(true, a, k) ==> a[k] == b[k]
    ensures AlStop(ChromaAlCosts(a), 1) == AlStop(ChromaAlCosts(b), 1)
    ensures SplitEnd(ChromaSplitCosts(a), 0) == SplitEnd(ChromaSplitCosts(b), 0)
    ensures BestSplit(ChromaSplitCosts(a), SplitEnd(ChromaSplitCosts(a), 0))
            == BestSplit(ChromaSplitCosts(b), SplitEnd(ChromaSplitCosts(b), 0))
  {
    hide AlStop, SplitEnd, BestSplit, ChromaAlCost, ChromaSplitCost, ChromaAlCosts, ChromaSplitCosts;
    forall al: nat | al < 3 && al <= AlStop(ChromaAlCosts(a), 1) ensures ChromaAlCost(a, al) == ChromaAlCost(b, al) {
      forall k | 26 <= k <= 6 * al + 29 ensures a[k] == b[k] { assert Tried(true, a, k); }
      SameChromaAlCost(a, b, al);
    }
    SameAlStop(ChromaAlCosts(a), ChromaAlCosts(b));
    forall i: nat | i <= SplitEnd(ChromaSplitCosts(a), 0) ensures ChromaSplitCost(a, i) == ChromaSplitCost(b, i) {
      SameChromaSplit(a, b, i);
    }
    SameSplitEnd(ChromaSplitCosts(a), ChromaSplitCosts(b));
  }

  lemma SameChromaSplit(a: seq<nat>, b: seq<nat>, i: nat)
    requires |a| == |b| == 64 && i <= SplitEnd(ChromaSplitCosts(a), 0)
             && forall k :: 0 <= k < 64 && Tried(true, a, k) ==> a[k] == b[k]
    ensures ChromaSplitCost(a, i) == ChromaSplitCost(b, i)
  {
    hide AlStop, SplitEnd, BestSplit, LumaAlCosts, LumaSplitCosts, ChromaAlCosts, ChromaSplitCosts;
    assert Tried(true, a, 42) && Tried(true, a, 43);
    if i > 0 {
      assert Tried(true, a, 40 + 4 * i) && Tried(true, a, 41 + 4 * i) && Tried(true, a, 42 + 4 * i)
             && Tried(true, a, 43 + 4 * i);
    }
  }

  /** The sizes of scans that are not tried make no difference. */
  lemma OnlyTriedCount(color: bool, modes: DcModes, a: seq<nat>, b: seq<nat>)
    requires |a| == |b| == 64 && forall k :: 0 <= k < 64 && Tried(color, a, k) ==> a[k] == b[k]
    ensures BestChoice(color, modes, a) == BestChoice(color, modes, b) && (Jumps(color, a) <==> Jumps(color, b))
    ensures forall k: nat :: Tried(color, a, k) <==> Tried(color, b, k)
  {
    hide AlStop, SplitEnd, BestSplit, LumaAlCosts, LumaSplitCosts, ChromaAlCosts, ChromaSplitCosts;
    SameLuma(color, a, b);
    if color {
      SameChroma(a, b);
      assert Tried(true, a, 23) && Tried(true, a, 24) && Tried(true, a, 25);
    }
  }
}
