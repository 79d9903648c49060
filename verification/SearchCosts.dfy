/** What the compared sizes stand for: each is the total size of scans that send a
    component's AC coefficients once and in full, and the scans copied in the end
    cost just what the comparisons chose.
 */
module SearchCosts {
  import opened Coefficients
  import opened ScanScript
  import opened ScriptRows
  import opened SearchScript
  import opened ScanChoice
  import opened SearchOutcome

  /** The total size of some of the scans. */
  function SizeOf(size: seq<nat>, scans: seq<nat>): nat
    requires |size| == 64
  {
    if scans == [] then 0 else (if scans[0] < 64 then size[scans[0]] else 0) + SizeOf(size, scans[1..])
  }

  lemma {:induction false} SizeOfBoth(size: seq<nat>, a: seq<nat>, b: seq<nat>)
    requires |size| == 64
    ensures SizeOf(size, a + b) == SizeOf(size, a) + SizeOf(size, b)
    decreases |a|
  {
    if a == [] {
      assert a + b == b;
    } else {
      assert (a + b)[0] == a[0] && (a + b)[1..] == a[1..] + b;
      SizeOfBoth(size, a[1..], b);
    }
  }

  lemma SizeOfNone(size: seq<nat>)
    requires |size| == 64
    ensures SizeOf(size, []) == 0
  {
  }

  lemma SizeOfOne(size: seq<nat>, i: nat)
    requires |size| == 64 && i < 64
    ensures SizeOf(size, [i]) == size[i]
  {
    assert [i][1..] == [];
  }

  lemma SizeOfTwo(size: seq<nat>, i: nat, j: nat)
    requires |size| == 64 && i < 64 && j < 64
    ensures SizeOf(size, [i] + [j]) == size[i] + size[j]
  {
    hide SizeOf;
    SizeOfBoth(size, [i], [j]);
    SizeOfOne(size, i);
    SizeOfOne(size, j);
  }

  // ----- Point transforms -----------------------------------------------------------------------------

  /** The trial scans that send luma with the point transform `al`: its band split
      at 8, then the bits below.
   */
  function LumaWay(al: nat): seq<nat> {
    ([3 * al + 1] + [3 * al + 2]) + LumaBits(al, 0)
  }

  function ChromaWay(al: nat): seq<nat> {
    (([6 * al + 26] + [6 * al + 27]) + ([6 * al + 28] + [6 * al + 29])) + ChromaBits(al, 0)
  }

  lemma {:induction false} LumaBitsSize(size: seq<nat>, al: nat)
    requires |size| == 64 && al <= 3
    ensures SizeOf(size, LumaBits(al, 0)) == LumaBitsCost(size, al)
    decreases al
  {
    if al > 0 {
      LumaBitsSize(size, al - 1);
      SizeOfBoth(size, [3 + 3 * (al - 1)], LumaBits(al - 1, 0));
      SizeOfOne(size, 3 + 3 * (al - 1));
    }
  }

  lemma {:induction false} ChromaBitsSize(size: seq<nat>, al: nat)
    requires |size| == 64 && al <= 2
    ensures SizeOf(size, ChromaBits(al, 0)) == ChromaBitsCost(size, al)
    decreases al
  {
    if al > 0 {
      var i := 30 + 6 * (al - 1);
      ChromaBitsSize(size, al - 1);
      SizeOfBoth(size, [i] + [i + 1], ChromaBits(al - 1, 0));
      SizeOfTwo(size, i, i + 1);
    }
  }

  /** What is compared for the luma point transform `al` is the size of scans that
      take luma from nothing to its last bit.
   */
  lemma LumaAlSends(ch: Choice, size: seq<nat>, al: nat, chroma: int, maxAl: nat)
    requires |size| == 64 && al <= 3 <= maxAl
    ensures LumaAlCost(size, al) == SizeOf(size, LumaWay(al))
    ensures Leads(ch, State(ch.color, -1, chroma), LumaWay(al), State(ch.color, 0, chroma), maxAl)
  {
    hide Leads, Even, SizeOf, LumaBits;
    var i, p, mid := 3 * al + 1, State(ch.color, -1, chroma), State(ch.color, al, chroma);
    LumaBitsSize(size, al);
    SizeOfTwo(size, i, i + 1);
    SizeOfBoth(size, [i] + [i + 1], LumaBits(al, 0));
    assert Coded(ch, i) == Ac(0, 1, 8, 0, al) && Coded(ch, i + 1) == Ac(0, 9, 63, 0, al);
    LeadsSplit(ch, p, i, 0, 8, al, maxAl);
    assert p[0 := Even(0, al)] == mid;
    LumaBitsLead(ch, al, 0, chroma, maxAl);
    LeadsOn(ch, p, [i] + [i + 1], mid, LumaBits(al, 0), State(ch.color, 0, chroma), maxAl);
  }

  lemma ChromaFirstCoded(ch: Choice, al: nat)
    requires ch.color && al <= 2
    ensures var i := 6 * al + 26;
            && Coded(ch, i) == Ac(1, 1, 8, 0, al) && Coded(ch, i + 1) == Ac(1, 9, 63, 0, al)
            && Coded(ch, i + 2) == Ac(2, 1, 8, 0, al) && Coded(ch, i + 3) == Ac(2, 9, 63, 0, al)
  {
    ChromaTrials(1, al, 3, ch.listMode);
    ChromaTrials(2, al, 3, ch.listMode);
    hide TrialScan;
  }

  lemma ChromaFirstLeads(ch: Choice, al: nat, luma: int, maxAl: nat)
    requires ch.color && al <= 2 && maxAl >= 3
    ensures Leads(ch, State(true, luma, -1), ([6 * al + 26] + [6 * al + 27]) + ([6 * al + 28] + [6 * al + 29]),
                  State(true, luma, al), maxAl)
  {
    hide Leads, Even, Coded;
    var i, p, q := 6 * al + 26, State(true, luma, -1), State(true, luma, al);
    var mid := p[1 := Even(0, al)];
    ChromaFirstCoded(ch, al);
    LeadsSplit(ch, p, i, 1, 8, al, maxAl);
    LeadsSplit(ch, mid, i + 2, 2, 8, al, maxAl);
    assert mid[2 := Even(0, al)] == q;
    LeadsOn(ch, p, [i] + [i + 1], mid, [i + 2] + [i + 3], q, maxAl);
  }

  lemma ChromaAlSends(ch: Choice, size: seq<nat>, al: nat, luma: int, maxAl: nat)
    requires |size| == 64 && ch.color && al <= 2 && maxAl >= 3
    ensures ChromaAlCost(size, al) == SizeOf(size, ChromaWay(al))
    ensures Leads(ch, State(true, luma, -1), ChromaWay(al), State(true, luma, 0), maxAl)
  {
    hide Leads, State, SizeOf, ChromaBits;
    var i := 6 * al + 26;
    var first := ([i] + [i + 1]) + ([i + 2] + [i + 3]);
    ChromaBitsSize(size, al);
    SizeOfTwo(size, i, i + 1);
    SizeOfTwo(size, i + 2, i + 3);
    SizeOfBoth(size, [i] + [i + 1], [i + 2] + [i + 3]);
    SizeOfBoth(size, first, ChromaBits(al, 0));
    ChromaFirstLeads(ch, al, luma, maxAl);
    ChromaBitsLead(ch, al, 0, luma, maxAl);
    LeadsOn(ch, State(true, luma, -1), first, State(true, luma, al), ChromaBits(al, 0), State(true, luma, 0), maxAl);
  }

  // ----- Frequency splits -------------------------------------------------------------------------------

  /** What is compared for a luma frequency split is the size of scans that send all
      of luma's AC coefficients with the point transform chosen before.
   */
  lemma LumaSplitSends(ch: Choice, size: seq<nat>, maxAl: nat)
    requires |size| == 64 && InRange(ch) && maxAl >= 3
    ensures LumaSplitCost(size, ch.splitLuma) == SizeOf(size, LumaParts(ch))
    ensures Leads(ch, State(ch.color, -1, -1), LumaParts(ch), State(ch.color, ch.alLuma, -1), maxAl)
  {
    hide Leads, State, SizeOf;
    LumaPartsLead(ch, maxAl);
    if ch.splitLuma == 0 {
      SizeOfOne(size, 12);
    } else {
      SizeOfTwo(size, 13 + 2 * (ch.splitLuma - 1), 14 + 2 * (ch.splitLuma - 1));
    }
  }

  lemma ChromaSplitSends(ch: Choice, size: seq<nat>, luma: int, maxAl: nat)
    requires |size| == 64 && InRange(ch) && ch.color && maxAl >= 3
    ensures ChromaSplitCost(size, ch.splitChroma) == SizeOf(size, ChromaSplits(ch))
    ensures Leads(ch, State(true, luma, -1), ChromaSplits(ch), State(true, luma, ch.alChroma), maxAl)
  {
    hide Leads, State, SizeOf;
    ChromaSplitsLead(ch, luma, maxAl);
    if ch.splitChroma == 0 {
      SizeOfTwo(size, 42, 43);
    } else {
      var i := 44 + 4 * (ch.splitChroma - 1);
      SizeOfTwo(size, i, i + 1);
      SizeOfTwo(size, i + 2, i + 3);
      SizeOfBoth(size, [i] + [i + 1], [i + 2] + [i + 3]);
    }
  }

  // ----- The choice --------------------------------------------------------------------------------------

  /** Of the scans tried, those of the choice are the smallest: the way of sending
      with its point transform, the parts of its frequency split, its DC scans.
   */
  lemma LumaChoiceLeast(color: bool, modes: DcModes, size: seq<nat>)
    requires |size| == 64
    ensures var ch := BestChoice(color, modes, size);
            && InRange(ch)
            && (forall a: nat :: a <= 3 && a <= ch.alLuma + 1 ==>
                  SizeOf(size, LumaWay(ch.alLuma)) <= SizeOf(size, LumaWay(a)))
            && (forall i: nat :: i <= SplitEnd(LumaSplitCosts(size), 0) ==>
                  SizeOf(size, LumaParts(ch)) <= SizeOf(size, LumaParts(ch.(splitLuma := i))))
  {
    hide SizeOf, Leads, LumaParts, LumaWay, AlStop, SplitEnd, BestSplit, LumaAlCosts, LumaSplitCosts, State;
    var ch := BestChoice(color, modes, size);
    ChoiceInRange(color, modes, size);
    forall a: nat | a <= 3 && a <= ch.alLuma + 1
      ensures SizeOf(size, LumaWay(ch.alLuma)) <= SizeOf(size, LumaWay(a))
    {
      AlStopLeast(LumaAlCosts(size), a);
      LumaAlSends(ch, size, a, -1, 3);
      LumaAlSends(ch, size, ch.alLuma, -1, 3);
    }
    forall i: nat | i <= SplitEnd(LumaSplitCosts(size), 0)
      ensures SizeOf(size, LumaParts(ch)) <= SizeOf(size, LumaParts(ch.(splitLuma := i)))
    {
      LumaSplitSends(ch, size, 3);
      LumaSplitSends(ch.(splitLuma := i), size, 3);
    }
  }

  lemma ChoiceInRange(color: bool, modes: DcModes, size: seq<nat>)
    requires |size| == 64
    ensures InRange(BestChoice(color, modes, size))
  {
    hide AlStop, SplitEnd, BestSplit;
  }

  lemma ChromaChoiceLeast(modes: DcModes, size: seq<nat>)
    requires |size| == 64
    ensures var ch := BestChoice(true, modes, size);
            && SizeOf(size, if ch.interleave then [23] else [24] + [25])
               == (if size[23] <= size[24] + size[25] then size[23] else size[24] + size[25])
            && (forall a: nat :: a <= 2 && a <= ch.alChroma + 1 ==>
                  SizeOf(size, ChromaWay(ch.alChroma)) <= SizeOf(size, ChromaWay(a)))
            && (forall i: nat :: i <= SplitEnd(ChromaSplitCosts(size), 0) ==>
                  SizeOf(size, ChromaSplits(ch)) <= SizeOf(size, ChromaSplits(ch.(splitChroma := i))))
  {
    hide SizeOf, Leads, ChromaSplits, ChromaWay, AlStop, SplitEnd, BestSplit, ChromaAlCosts, ChromaSplitCosts, State;
    var ch := BestChoice(true, modes, size);
    ChoiceInRange(true, modes, size);
    SizeOfOne(size, 23);
    SizeOfTwo(size, 24, 25);
    forall a: nat | a <= 2 && a <= ch.alChroma + 1
      ensures SizeOf(size, ChromaWay(ch.alChroma)) <= SizeOf(size, ChromaWay(a))
    {
      AlStopLeast(ChromaAlCosts(size), a);
      ChromaAlSends(ch, size, a, -1, 3);
      ChromaAlSends(ch, size, ch.alChroma, -1, 3);
    }
    forall i: nat | i <= SplitEnd(ChromaSplitCosts(size), 0)
      ensures SizeOf(size, ChromaSplits(ch)) <= SizeOf(size, ChromaSplits(ch.(splitChroma := i)))
    {
      ChromaSplitSends(ch, size, -1, 3);
      ChromaSplitSends(ch.(splitChroma := i), size, -1, 3);
    }
  }

  // ----- What is copied ------------------------------------------------------------------------------------

  lemma {:induction false} LumaBitsParts(size: seq<nat>, from: nat, to: nat)
    requires |size| == 64 && to <= from <= 3
    ensures SizeOf(size, LumaBits(from, to)) + LumaBitsCost(size, to) == LumaBitsCost(size, from)
    decreases from
  {
    if to < from {
      LumaBitsParts(size, from - 1, to);
      SizeOfBoth(size, [3 + 3 * (from - 1)], LumaBits(from - 1, to));
      SizeOfOne(size, 3 + 3 * (from - 1));
    }
  }

  lemma {:induction false} ChromaBitsParts(size: seq<nat>, from: nat, to: nat)
    requires |size| == 64 && to <= from <= 2
    ensures SizeOf(size, ChromaBits(from, to)) + ChromaBitsCost(size, to) == ChromaBitsCost(size, from)
    decreases from
  {
    if to < from {
      var i := 30 + 6 * (from - 1);
      ChromaBitsParts(size, from - 1, to);
      SizeOfBoth(size, [i] + [i + 1], ChromaBits(from - 1, to));
      SizeOfTwo(size, i, i + 1);
    }
  }

  lemma {:induction false} SharedBitsSize(size: seq<nat>, color: bool, from: nat)
    requires |size| == 64 && from <= if color then 2 else 3
    ensures SizeOf(size, SharedBits(color, from))
         == LumaBitsCost(size, from) + if color then ChromaBitsCost(size, from) else 0
    decreases from
  {
    if from > 0 {
      var al := from - 1;
      var i, rest := 30 + 6 * al, SharedBits(color, al);
      SharedBitsSize(size, color, al);
      SizeOfOne(size, 3 + 3 * al);
      SizeOfTwo(size, i, i + 1);
      SizeOfBoth(size, [3 + 3 * al], [i] + [i + 1]);
      SizeOfBoth(size, [3 + 3 * al] + if color then [i] + [i + 1] else [], rest);
      assert [3 + 3 * al] + [] == [3 + 3 * al];
    }
  }

  /** The copied scans hold the DC scans, the chosen parts and every bit below the
      chosen point transforms once: their size is what the comparisons added up.
   */
  lemma CopiedSize(ch: Choice, size: seq<nat>)
    requires |size| == 64 && InRange(ch)
    ensures SizeOf(size, Copied(ch))
         == size[0] + SizeOf(size, ChromaDc(ch))
            + LumaSplitCost(size, ch.splitLuma) + LumaBitsCost(size, ch.alLuma)
            + if ch.color then ChromaSplitCost(size, ch.splitChroma) + ChromaBitsCost(size, ch.alChroma) else 0
  {
    hide SizeOf, Leads, State, LumaSplitCost, ChromaSplitCost, LumaBitsCost, ChromaBitsCost, LumaParts, ChromaSplits,
         ChromaDc, LumaBits, ChromaBits, SharedBits;
    var m := MinAl(ch);
    var shared := SharedBits(ch.color, m);
    var chroma := if ch.color then ChromaSplits(ch) + ChromaBits(ch.alChroma, m) else [];
    LumaSplitSends(ch, size, 3);
    LumaBitsParts(size, ch.alLuma, m);
    SharedBitsSize(size, ch.color, m);
    if ch.color {
      ChromaSplitSends(ch, size, -1, 3);
      ChromaBitsParts(size, ch.alChroma, m);
      SizeOfBoth(size, ChromaSplits(ch), ChromaBits(ch.alChroma, m));
    } else {
      SizeOfNone(size);
    }
    SizeOfOne(size, 0);
    SizeOfBoth(size, chroma, shared);
    SizeOfBoth(size, LumaBits(ch.alLuma, m), chroma + shared);
    SizeOfBoth(size, LumaParts(ch), LumaBits(ch.alLuma, m) + (chroma + shared));
    SizeOfBoth(size, ChromaDc(ch), LumaParts(ch) + (LumaBits(ch.alLuma, m) + (chroma + shared)));
    SizeOfBoth(size, [0], ChromaDc(ch) + (LumaParts(ch) + (LumaBits(ch.alLuma, m) + (chroma + shared))));
  }
}
