/** The DC trellis of quantize_trellis (jcdctmgr.c): differences between
    neighbouring DC coefficients are what is sent, so the choice for one block
    depends on the choices for all others in the row.
 */
module TrellisDc {
  import opened Arithmetic
  import opened CodeBytes
  import opened Coefficients
  import opened CanonicalCode
  import opened DerivedTable
  import opened HuffTokens
  import opened HuffSyntax
  import opened HuffBlocks

  /** The row above: its coefficients before and after quantization. */
  datatype RowAbove = NoRow | RowAbove(src: seq<Coef>, coef: seq<Coef>)

  /** A row of blocks: the DC outputs of the transform, the quantization value,
      the weight of each squared error, the weight of vertical gradients, and the
      DC coefficient before the row.
   */
  datatype DcTask = DcTask(src: seq<Coef>, quantval: nat, weight: seq<real>, above: RowAbove, deltaWeight: real,
                           tbl: SymbolCodes, maxBits: nat, last: int)

  predicate DcWellPosed(p: DcTask) {
    && |p.src| == |p.weight| && 1 <= p.quantval && 1 <= p.maxBits <= 14
    && |p.tbl.ehufco| == |p.tbl.ehufsi| == 256 && Abs(p.last) < Pow2(p.maxBits)
    && (p.above.RowAbove? ==> |p.above.src| == |p.above.coef| == |p.src|)
  }

  type Row = p: DcTask | DcWellPosed(p)
    witness DcTask([], 1, [], NoRow, 0.0, SymbolCodes(seq(256, _ => 0), seq(256, _ => 0)), 10, 0)

  // ----- Candidates -------------------------------------------------------------------------

  /** Setting the lowest bit. */
  function MakeOdd(n: nat): (m: nat)
    ensures m % 2 == 1 && n <= m <= n + 1
  {
    if n % 2 == 0 then n + 1 else n
  }

  /** get_num_dc_trellis_candidates: odd, and at most nine. */
  function NumCandidates(p: Row): (n: nat)
    ensures 3 <= n <= 9 && n % 2 == 1
  {
    Share(60, p.quantval);
    var odd := MakeOdd(2 + 60 / p.quantval);
    if 9 < odd then 9 else odd
  }

  lemma Share(n: nat, d: nat)
    requires d >= 1
    ensures n / d >= 0
  {
  }

  /** The finer the quantization, the more candidates. */
  lemma CandidatesByStep(p: Row)
    ensures NumCandidates(p) == 9 <==> p.quantval <= 10
    ensures NumCandidates(p) == 7 <==> 11 <= p.quantval <= 15
    ensures NumCandidates(p) == 5 <==> 16 <= p.quantval <= 30
    ensures NumCandidates(p) == 3 <==> p.quantval >= 31
  {
    ShareAtLeast(60, p.quantval, 2);
    ShareAtLeast(60, p.quantval, 4);
    ShareAtLeast(60, p.quantval, 6);
  }

  lemma ShareAtLeast(n: nat, d: nat, k: nat)
    requires d >= 1
    ensures n / d >= k <==> k * d <= n
  {
    var q, r := n / d, n % d;
    assert n == q * d + r;
    if k <= q { LessTimes(k, q, d); }
    if q < k { MultipleApart(q, k, d); }
  }

  function ClampTo(x: int, top: nat): int {
    if x > top then top else if x < 0 - top then 0 - top else x
  }

  /** Candidates around the rounded quotient, with the coefficient's sign. */
  function Value(p: Row, bi: nat, k: nat): (v: Coef)
    requires bi < |p.src|
    ensures Abs(v) < Pow2(p.maxBits)
  {
    var q := 8 * p.quantval;
    var qval := (Abs(p.src[bi]) + q / 2) / q;
    WidthBound(p.maxBits);
    Signed(ClampTo(qval - NumCandidates(p) / 2 + k, Pow2(p.maxBits) - 1), p.src[bi] < 0)
  }

  lemma WidthBound(n: nat)
    requires n <= 14
    ensures Pow2(n) <= 0x4000 && Pow2(n + 1) == 2 * Pow2(n)
  {
    UpTo(n, 14);
    assert Pow2(7) == 0x80;
    Pow2Add(7, 7);
  }

  lemma {:induction false} UpTo(m: nat, n: nat)
    requires m <= n
    ensures Pow2(m) <= Pow2(n)
    decreases n
  {
    if m < n { UpTo(m, n - 1); }
  }

  ghost predicate IsCandidate(p: Row, bi: nat, v: Coef)
    requires bi < |p.src|
  {
    exists k :: 0 <= k < NumCandidates(p) && v == Value(p, bi, k)
  }

  /** The candidates are the middle one, `c`, which is the multiple of the step
      nearest to the coefficient, and as many numbers on either side of it, none
      beyond the largest coefficient.
   */
  lemma CandidatesAround(p: Row, bi: nat, c: nat)
    requires bi < |p.src|
    requires var x, d := Abs(p.src[bi]), 8 * p.quantval; 2 * (c * d - x) <= d && 2 * (x - c * d) < d
    ensures forall k :: 0 <= k < NumCandidates(p) ==>
              var top, m := Pow2(p.maxBits) - 1, c + k - (NumCandidates(p) - 1) / 2;
              Abs(Value(p, bi, k)) == (if Abs(m) <= top then Abs(m) else top)
              && (m != 0 && Value(p, bi, k) != 0 ==> (Value(p, bi, k) < 0 <==> (m < 0) != (p.src[bi] < 0)))
  {
    hide Pow2;
    NearestOnly(Abs(p.src[bi]), 8 * p.quantval, c);
    WidthBound(p.maxBits);
  }

  /** Every value one of its block's candidates. */
  ghost predicate FromCandidates(p: Row, vs: seq<Coef>) {
    |vs| <= |p.src| && forall bi :: 0 <= bi < |vs| ==> IsCandidate(p, bi, vs[bi])
  }

  // ----- Costs ----------------------------------------------------------------------------------

  /** The squared error, blended with that of the vertical gradient. */
  function DcDist(p: Row, bi: nat, v: int): real
    requires bi < |p.src|
  {
    var q := 8 * p.quantval;
    var delta := v * q - p.src[bi];
    var dist := (delta * delta) as real * p.weight[bi];
    if p.above.RowAbove? && p.deltaWeight > 0.0 then
      var gradient := (p.above.src[bi] - p.src[bi]) - (p.above.coef[bi] * q - v * q);
      dist + p.deltaWeight * ((gradient * gradient) as real * p.weight[bi] - dist)
    else dist
  }

  /** The squared error and, where a row lies above, the squared difference of the
      two rows' errors, in the proportion of the gradient's weight.
   */
  lemma DistBlends(p: Row, bi: nat, v: int)
    requires bi < |p.src|
    ensures var t, w, e := p.deltaWeight, p.weight[bi], v * (8 * p.quantval) - p.src[bi];
            DcDist(p, bi, v) ==
            if p.above.NoRow? || t <= 0.0 then (e * e) as real * w
            else
              var g := e - (p.above.coef[bi] * (8 * p.quantval) - p.above.src[bi]);
              (1.0 - t) * ((e * e) as real * w) + t * ((g * g) as real * w)
  {
    if p.above.RowAbove? && p.deltaWeight > 0.0 {
      var q := 8 * p.quantval;
      var e := v * q - p.src[bi];
      var g: int := e - (p.above.coef[bi] * q - p.above.src[bi]);
      assert (p.above.src[bi] - p.src[bi]) - (p.above.coef[bi] * q - v * q) == g;
      Blend(p.deltaWeight, (e * e) as real * p.weight[bi], (g * g) as real * p.weight[bi]);
    }
  }

  lemma Blend(t: real, a: real, b: real)
    ensures a + t * (b - a) == (1.0 - t) * a + t * b
  {
  }

  /** compute_dc_huffman_bits. */
  function DcBits(p: Row, x: int): nat
    requires NBits(Abs(x)) <= 15
  {
    NBits(Abs(x)) + p.tbl.ehufsi[NBits(Abs(x))]
  }

  lemma DcBitsAreSent(p: Row, x: int)
    requires NBits(Abs(x)) <= 15
    ensures Tabled([p.tbl], DcTokens(0, x)) && |AllBits([p.tbl], DcTokens(0, x))| == DcBits(p, x)
  {
    hide BitString;
    var n := NBits(Abs(x));
    var s := Symbol(0, n);
    if x == 0 {
      assert [s][1..] == [];
      assert NBits(0) == 0;
    } else {
      var raw := Raw(ValueBits(x), n);
      assert ([s] + [raw])[1..] == [raw] && [raw][1..] == [];
      assert AllBits([p.tbl], [raw]) == TokenBits([p.tbl], raw) + AllBits([p.tbl], []);
    }
  }

  lemma DifferenceFits(p: Row, v: int, last: int)
    requires Abs(v) < Pow2(p.maxBits) && Abs(last) < Pow2(p.maxBits)
    ensures NBits(Abs(v - last)) <= 15
  {
    hide Pow2, NBits;
    WidthBound(p.maxBits);
    UpTo(p.maxBits + 1, 15);
    assert Abs(v - last) < Pow2(p.maxBits + 1) <= Pow2(15);
    NBitsBound(Abs(v - last), 15);
  }

  /** The predictor of block `|vs|`. */
  function LastOf(p: Row, vs: seq<Coef>): int {
    if vs == [] then p.last else vs[|vs| - 1]
  }

  lemma BoundedCandidate(p: Row, bi: nat, v: Coef)
    requires bi < |p.src| && IsCandidate(p, bi, v)
    ensures Abs(v) < Pow2(p.maxBits)
  {
    hide Value, NumCandidates;
    var k :| 0 <= k < NumCandidates(p) && v == Value(p, bi, k);
  }

  lemma CandidateBound(p: Row, vs: seq<Coef>)
    requires FromCandidates(p, vs)
    ensures Abs(LastOf(p, vs)) < Pow2(p.maxBits)
    ensures vs != [] ==> FromCandidates(p, vs[..|vs| - 1])
  {
    hide Value, NumCandidates, IsCandidate;
    if vs != [] { BoundedCandidate(p, |vs| - 1, vs[|vs| - 1]); }
  }

  /** The cost of a step to value `v` after predictor `last`. */
  ghost function StepCost(p: Row, bi: nat, last: int, v: int): real
    requires bi < |p.src| && Abs(v) < Pow2(p.maxBits) && Abs(last) < Pow2(p.maxBits)
  {
    DifferenceFits(p, v, last);
    DcBits(p, v - last) as real + DcDist(p, bi, v)
  }

  /** Rate plus distortion of the first blocks' DC coefficients. */
  ghost function DcCost(p: Row, vs: seq<Coef>): real
    requires FromCandidates(p, vs)
    decreases |vs|
  {
    if vs == [] then 0.0
    else
      CandidateBound(p, vs);
      CandidateBound(p, vs[..|vs| - 1]);
      DcCost(p, vs[..|vs| - 1]) + StepCost(p, |vs| - 1, LastOf(p, vs[..|vs| - 1]), vs[|vs| - 1])
  }

  lemma CandidateIs(p: Row, bi: nat, k: nat)
    requires bi < |p.src| && k < NumCandidates(p)
    ensures IsCandidate(p, bi, Value(p, bi, k))
  {
    hide Value, NumCandidates;
  }

  lemma OneMore(p: Row, vs: seq<Coef>, k: nat)
    requires FromCandidates(p, vs) && |vs| < |p.src| && k < NumCandidates(p)
    ensures FromCandidates(p, vs + [Value(p, |vs|, k)]) && Abs(LastOf(p, vs)) < Pow2(p.maxBits)
    ensures DcCost(p, vs + [Value(p, |vs|, k)]) == DcCost(p, vs) + StepCost(p, |vs|, LastOf(p, vs), Value(p, |vs|, k))
  {
    hide Value, NumCandidates, StepCost, IsCandidate;
    var v := Value(p, |vs|, k);
    var all := vs + [v];
    assert all[..|all| - 1] == vs;
    CandidateBound(p, vs);
    assert IsCandidate(p, |vs|, v) by { CandidateIs(p, |vs|, k); }
    assert forall bi :: 0 <= bi < |vs| ==> all[bi] == vs[bi];
    assert FromCandidates(p, all);
  }

  // ----- What the search knows --------------------------------------------------------------------

  /** `c` is the cost of the chain `vs`, and no chain that ends with the same
      candidate costs less.
   */
  ghost predicate Best(p: Row, vs: seq<Coef>, c: real, bi: nat, k: nat)
    requires bi < |p.src|
  {
    && FromCandidates(p, vs) && |vs| == bi + 1 && vs[bi] == Value(p, bi, k) && DcCost(p, vs) == c
    && forall us: seq<Coef> :: FromCandidates(p, us) && |us| == bi + 1 && us[bi] == Value(p, bi, k) ==>
         c <= DcCost(p, us)
  }

  ghost predicate Tables(p: Row, candidate: array2<Coef>, cost: array2<real>, back: array2<int>) {
    && candidate.Length0 == cost.Length0 == back.Length0 == NumCandidates(p)
    && candidate.Length1 == cost.Length1 == back.Length1 == |p.src|
  }

  /** The first `n` candidates of column `bi` of the tables, with the chains they stand for. */
  ghost predicate Column(p: Row, candidate: array2<Coef>, cost: array2<real>, back: array2<int>, chains: seq<seq<Coef>>,
                         bi: nat, n: nat)
    requires Tables(p, candidate, cost, back) && bi < |p.src| && n <= NumCandidates(p)
    reads candidate, cost
  {
    |chains| == n && forall k :: 0 <= k < n ==>
          candidate[k, bi] == Value(p, bi, k) && Best(p, chains[k], cost[k, bi], bi, k)
  }

  /** Each chain continues the one that the backtracking table names. */
  ghost predicate Linked(p: Row, back: array2<int>, before: seq<seq<Coef>>, chains: seq<seq<Coef>>, bi: nat, n: nat)
    requires bi < |p.src| && back.Length0 == NumCandidates(p) && back.Length1 == |p.src|
    reads back
  {
    && |before| == NumCandidates(p) && n == |chains| <= NumCandidates(p)
    && forall k :: 0 <= k < n ==>
         0 <= back[k, bi] < NumCandidates(p) && chains[k] == before[back[k, bi]] + [Value(p, bi, k)]
  }

  lemma FirstIsBest(p: Row, k: nat)
    requires |p.src| > 0 && k < NumCandidates(p)
    ensures Best(p, [Value(p, 0, k)], StepCost(p, 0, p.last, Value(p, 0, k)), 0, k)
  {
    hide Value, NumCandidates, StepCost;
    assert FromCandidates(p, []);
    assert [] + [Value(p, 0, k)] == [Value(p, 0, k)];
    OneMore(p, [], k);
    forall us: seq<Coef> | FromCandidates(p, us) && |us| == 1 && us[0] == Value(p, 0, k)
      ensures StepCost(p, 0, p.last, Value(p, 0, k)) <= DcCost(p, us)
    {
      assert us == [Value(p, 0, k)];
    }
  }

  lemma WhichCandidate(p: Row, bi: nat, v: Coef) returns (k: nat)
    requires bi < |p.src| && IsCandidate(p, bi, v)
    ensures k < NumCandidates(p) && v == Value(p, bi, k)
  {
    hide Value, NumCandidates;
    k :| 0 <= k < NumCandidates(p) && v == Value(p, bi, k);
  }

  /** The best chain one block longer. */
  lemma NextIsBest(p: Row, before: seq<seq<Coef>>, costs: seq<real>, prev: nat, bi: nat, k: nat, l: nat, c: real)
    requires prev + 1 == bi < |p.src| && k < NumCandidates(p) && l < |before| == |costs| == NumCandidates(p)
    requires forall m :: 0 <= m < NumCandidates(p) ==> Best(p, before[m], costs[m], prev, m)
    requires forall m :: 0 <= m < NumCandidates(p) ==>
               c <= costs[m] + StepCost(p, bi, Value(p, prev, m), Value(p, bi, k))
    requires c == costs[l] + StepCost(p, bi, Value(p, prev, l), Value(p, bi, k))
    ensures Best(p, before[l] + [Value(p, bi, k)], c, bi, k)
  {
    hide Value, NumCandidates, StepCost, IsCandidate;
    OneMore(p, before[l], k);
    forall us: seq<Coef> | FromCandidates(p, us) && |us| == bi + 1 && us[bi] == Value(p, bi, k)
      ensures c <= DcCost(p, us)
    {
      var vs := us[..bi];
      CandidateBound(p, us);
      assert us == vs + [Value(p, bi, k)];
      OneMore(p, vs, k);
      assert vs[prev] == us[prev];
      var m := WhichCandidate(p, prev, us[prev]);
      assert costs[m] <= DcCost(p, vs);
    }
  }

  // ----- The search -----------------------------------------------------------------------------------

  /** The cheapest predecessor of candidate `k` of block `bi`. */
  method TryPredecessors(p: Row, candidate: array2<Coef>, cost: array2<real>, back: array2<int>, prev: nat, bi: nat,
                         k: nat, dist: real)
    requires prev + 1 == bi < |p.src| && k < NumCandidates(p)
    requires candidate.Length0 == cost.Length0 == back.Length0 == NumCandidates(p)
    requires candidate.Length1 == cost.Length1 == back.Length1 == |p.src|
    requires candidate[k, bi] == Value(p, bi, k) && dist == DcDist(p, bi, Value(p, bi, k))
    requires forall l :: 0 <= l < NumCandidates(p) ==> candidate[l, prev] == Value(p, prev, l)
    modifies cost, back
    ensures forall l, b :: 0 <= l < NumCandidates(p) && 0 <= b < |p.src| && !(l == k && b == bi) ==>
              cost[l, b] == old(cost[l, b]) && back[l, b] == old(back[l, b])
    ensures 0 <= back[k, bi] < NumCandidates(p)
    ensures cost[k, bi] == cost[back[k, bi], prev] + StepCost(p, bi, Value(p, prev, back[k, bi]), Value(p, bi, k))
    ensures forall l :: 0 <= l < NumCandidates(p) ==>
              cost[k, bi] <= cost[l, prev] + StepCost(p, bi, Value(p, prev, l), Value(p, bi, k))
  {
    hide Value, NumCandidates, DcDist, NBits;
    var n := NumCandidates(p);
    assert n >= 3;
    for l := 0 to n
      invariant forall m, b :: 0 <= m < n && 0 <= b < |p.src| && !(m == k && b == bi) ==>
                  cost[m, b] == old(cost[m, b]) && back[m, b] == old(back[m, b])
      invariant l > 0 ==> 0 <= back[k, bi] < n
                          && cost[k, bi] == cost[back[k, bi], prev]
                               + StepCost(p, bi, Value(p, prev, back[k, bi]), Value(p, bi, k))
      invariant forall m :: 0 <= m < l ==>
                  cost[k, bi] <= cost[m, prev] + StepCost(p, bi, Value(p, prev, m), Value(p, bi, k))
    {
      var dcDelta := candidate[k, bi] - candidate[l, prev];
      DifferenceFits(p, candidate[k, bi], candidate[l, prev]);
      var c := DcBits(p, dcDelta) as real + dist + cost[l, prev];
      assert c == cost[l, prev] + StepCost(p, bi, Value(p, prev, l), Value(p, bi, k));
      if l == 0 || c < cost[k, bi] {
        cost[k, bi] := c;
        back[k, bi] := l;
      }
    }
  }

  /** Everything but the entry `k` of column `bi` is as before. */
  twostate predicate OnlyEntry(candidate: array2<Coef>, cost: array2<real>, back: array2<int>, bi: nat, k: nat)
    requires candidate.Length0 == cost.Length0 == back.Length0 && candidate.Length1 == cost.Length1 == back.Length1
    reads candidate, cost, back
  {
    forall l, b :: 0 <= l < cost.Length0 && 0 <= b < cost.Length1 && !(l == k && b == bi) ==>
      candidate[l, b] == old(candidate[l, b]) && cost[l, b] == old(cost[l, b]) && back[l, b] == old(back[l, b])
  }

  /** Candidate `k` of block `bi`: its value, its distortion and the cheapest way to reach it. */
  method FillEntry(p: Row, candidate: array2<Coef>, cost: array2<real>, back: array2<int>, bi: nat, k: nat,
                   ghost before: seq<seq<Coef>>)
      returns (ghost chain: seq<Coef>)
    requires Tables(p, candidate, cost, back) && bi < |p.src| && k < NumCandidates(p)
    requires bi > 0 ==> Column(p, candidate, cost, back, before, bi - 1, NumCandidates(p))
    modifies candidate, cost, back
    ensures OnlyEntry(candidate, cost, back, bi, k)
    ensures candidate[k, bi] == Value(p, bi, k) && Best(p, chain, cost[k, bi], bi, k)
    ensures bi > 0 ==> 0 <= back[k, bi] < NumCandidates(p) && chain == before[back[k, bi]] + [Value(p, bi, k)]
  {
    hide Value, NumCandidates, DcDist, Best, NBits;
    candidate[k, bi] := Value(p, bi, k);
    var dist := DcDist(p, bi, candidate[k, bi]);
    if bi == 0 {
      DifferenceFits(p, candidate[k, bi], p.last);
      var dcDelta := candidate[k, bi] - p.last;
      cost[k, bi] := DcBits(p, dcDelta) as real + dist;
      back[k, bi] := -1;
      FirstIsBest(p, k);
      chain := [Value(p, 0, k)];
    } else {
      var prev := bi - 1;
      TryPredecessors(p, candidate, cost, back, prev, bi, k, dist);
      ghost var costs := seq(NumCandidates(p), m requires 0 <= m < NumCandidates(p) reads cost => cost[m, prev]);
      NextIsBest(p, before, costs, prev, bi, k, back[k, bi], cost[k, bi]);
      chain := before[back[k, bi]] + [Value(p, bi, k)];
    }
  }

  method FillColumn(p: Row, candidate: array2<Coef>, cost: array2<real>, back: array2<int>, bi: nat,
                    ghost before: seq<seq<Coef>>)
      returns (ghost chains: seq<seq<Coef>>)
    requires Tables(p, candidate, cost, back) && bi < |p.src|
    requires bi > 0 ==> Column(p, candidate, cost, back, before, bi - 1, NumCandidates(p))
    modifies candidate, cost, back
    ensures forall l, b :: 0 <= l < NumCandidates(p) && 0 <= b < |p.src| && b != bi ==>
              candidate[l, b] == old(candidate[l, b]) && cost[l, b] == old(cost[l, b]) && back[l, b] == old(back[l, b])
    ensures Column(p, candidate, cost, back, chains, bi, NumCandidates(p))
    ensures bi > 0 ==> Linked(p, back, before, chains, bi, NumCandidates(p))
  {
    hide Value, NumCandidates, Best;
    chains := [];
    for k := 0 to NumCandidates(p)
      invariant forall l, b :: 0 <= l < NumCandidates(p) && 0 <= b < |p.src| && b != bi ==>
                  candidate[l, b] == old(candidate[l, b]) && cost[l, b] == old(cost[l, b])
                      && back[l, b] == old(back[l, b])
      invariant Column(p, candidate, cost, back, chains, bi, k)
      invariant bi > 0 ==> Linked(p, back, before, chains, bi, k)
    {
      ghost var chain := FillEntry(p, candidate, cost, back, bi, k, before);
      chains := chains + [chain];
    }
  }

  /** All columns so far, and how they hang together. */
  ghost predicate Searched(p: Row, candidate: array2<Coef>, cost: array2<real>, back: array2<int>,
                           all: seq<seq<seq<Coef>>>)
    requires Tables(p, candidate, cost, back)
    reads candidate, cost, back
  {
    && |all| <= |p.src|
    && (forall b :: 0 <= b < |all| ==> Column(p, candidate, cost, back, all[b], b, NumCandidates(p)))
    && forall b :: 1 <= b < |all| ==> LinkedAt(p, back, all, b)
  }

  ghost predicate LinkedAt(p: Row, back: array2<int>, all: seq<seq<seq<Coef>>>, b: nat)
    requires 1 <= b < |all| <= |p.src| && back.Length0 == NumCandidates(p) && back.Length1 == |p.src|
    reads back
  {
    Linked(p, back, all[b - 1], all[b], b, NumCandidates(p))
  }

  /** One more block of the row. */
  method SearchBlock(p: Row, candidate: array2<Coef>, cost: array2<real>, back: array2<int>, bi: nat,
                     ghost all: seq<seq<seq<Coef>>>)
      returns (ghost more: seq<seq<seq<Coef>>>)
    requires Tables(p, candidate, cost, back) && bi == |all| < |p.src| && Searched(p, candidate, cost, back, all)
    modifies candidate, cost, back
    ensures Searched(p, candidate, cost, back, more) && |more| == bi + 1
  {
    hide Value, NumCandidates, Best;
    ghost var before := if bi > 0 then all[bi - 1] else [];
    ghost var chains := FillColumn(p, candidate, cost, back, bi, before);
    more := all + [chains];
    forall b | 1 <= b < |more| ensures LinkedAt(p, back, more, b) {
      if b < bi {
        assert old(LinkedAt(p, back, all, b));
        assert more[b - 1] == all[b - 1] && more[b] == all[b];
      }
    }
  }

  // ----- The choice -------------------------------------------------------------------------------------

  /** The candidate of the last block with the smallest accumulated cost. */
  method Cheapest(p: Row, candidate: array2<Coef>, cost: array2<real>, back: array2<int>, ghost chains: seq<seq<Coef>>)
      returns (j: nat)
    requires Tables(p, candidate, cost, back) && |p.src| > 0
             && Column(p, candidate, cost, back, chains, |p.src| - 1, NumCandidates(p))
    ensures j < NumCandidates(p) && FromCandidates(p, chains[j]) && |chains[j]| == |p.src|
    ensures cost[j, |p.src| - 1] == DcCost(p, chains[j])
    ensures forall us: seq<Coef> :: FromCandidates(p, us) && |us| == |p.src| ==> DcCost(p, chains[j]) <= DcCost(p, us)
  {
    hide Value, NumCandidates, Best, FromCandidates;
    var last := |p.src| - 1;
    j := 0;
    assert NumCandidates(p) > 0 by { SomeCandidates(p); }
    for i := 1 to NumCandidates(p)
      invariant j < NumCandidates(p)
      invariant forall k :: 0 <= k < i ==> cost[j, last] <= cost[k, last]
    {
      if cost[i, last] < cost[j, last] {
        j := i;
      }
    }
    BestOfAll(p, candidate, cost, back, chains, last, j);
  }

  lemma SomeCandidates(p: Row)
    ensures NumCandidates(p) > 0
  {
  }

  lemma BestOfAll(p: Row, candidate: array2<Coef>, cost: array2<real>, back: array2<int>, chains: seq<seq<Coef>>,
                  last: nat, j: nat)
    requires Tables(p, candidate, cost, back) && last + 1 == |p.src| && j < NumCandidates(p)
    requires Column(p, candidate, cost, back, chains, last, NumCandidates(p))
    requires forall k :: 0 <= k < NumCandidates(p) ==> cost[j, last] <= cost[k, last]
    ensures FromCandidates(p, chains[j]) && |chains[j]| == |p.src| && cost[j, last] == DcCost(p, chains[j])
    ensures forall us: seq<Coef> :: FromCandidates(p, us) && |us| == |p.src| ==> DcCost(p, chains[j]) <= DcCost(p, us)
  {
    hide Value, NumCandidates, IsCandidate;
    assert Best(p, chains[j], cost[j, last], last, j);
    forall us: seq<Coef> | FromCandidates(p, us) && |us| == |p.src| ensures DcCost(p, chains[j]) <= DcCost(p, us) {
      var k := WhichCandidate(p, last, us[last]);
      assert Best(p, chains[k], cost[k, last], last, k);
    }
  }

  function WithDc(b: Block, v: Coef): (r: Block)
    ensures r[0] == v
  {
    b[0 := v]
  }

  /** The DC coefficients of a row of blocks. */
  ghost function DcOf(blocks: seq<Block>): (vs: seq<Coef>)
    ensures |vs| == |blocks|
  {
    seq(|blocks|, i requires 0 <= i < |blocks| => blocks[i][0])
  }

  /** The DC coefficients of the cheapest chain, from the last block back. */
  method Backtrack(p: Row, candidate: array2<Coef>, cost: array2<real>, back: array2<int>, blocks: array<Block>,
                   ghost all: seq<seq<seq<Coef>>>)
      returns (last: Coef)
    requires Tables(p, candidate, cost, back) && |p.src| > 0 && |all| == |p.src| == blocks.Length
             && Searched(p, candidate, cost, back, all)
    modifies blocks
    ensures forall i :: 0 <= i < blocks.Length ==> blocks[i] == WithDc(old(blocks[i]), blocks[i][0])
    ensures FromCandidates(p, DcOf(blocks[..])) && last == blocks[blocks.Length - 1][0]
    ensures forall us: seq<Coef> :: FromCandidates(p, us) && |us| == |p.src| ==>
              DcCost(p, DcOf(blocks[..])) <= DcCost(p, us)
  {
    hide Value, NumCandidates, FromCandidates, Searched, Column, WithDc, DcOf, DcCost, StepCost;
    ghost var start := blocks[..];
    var n := |p.src|;
    EveryColumn(p, candidate, cost, back, all);
    ghost var chains := all[n - 1];
    var k := Cheapest(p, candidate, cost, back, chains);
    ghost var chain := chains[k];
    var j: int := k;
    var bi := n;
    assert chain[..n] == chain;
    while bi > 0
      invariant 0 <= bi <= n
      invariant bi > 0 ==> 0 <= j < NumCandidates(p) && all[bi - 1][j] == chain[..bi]
      invariant forall i :: 0 <= i < n ==> blocks[i] == if i < bi then start[i] else WithDc(start[i], chain[i])
    {
      bi := bi - 1;
      ChainEnd(p, candidate, cost, back, all, chain, bi, j);
      var value, next := candidate[j, bi], back[j, bi];
      blocks[bi] := WithDc(blocks[bi], value);
      j := next;
    }
    last := blocks[n - 1][0];
    RowSet(blocks[..], start, chain);
  }

  lemma RowSet(blocks: seq<Block>, start: seq<Block>, chain: seq<Coef>)
    requires |blocks| == |start| == |chain| && forall i :: 0 <= i < |blocks| ==> blocks[i] == WithDc(start[i], chain[i])
    ensures DcOf(blocks) == chain
  {
    hide WithDc;
  }

  lemma EveryColumn(p: Row, candidate: array2<Coef>, cost: array2<real>, back: array2<int>, all: seq<seq<seq<Coef>>>)
    requires Tables(p, candidate, cost, back) && Searched(p, candidate, cost, back, all)
    ensures forall b :: 0 <= b < |all| ==>
              |all[b]| == NumCandidates(p) && Column(p, candidate, cost, back, all[b], b, NumCandidates(p))
  {
    hide Value, NumCandidates, Best;
  }

  /** The end of a chain and the chain it continues. */
  lemma ChainEnd(p: Row, candidate: array2<Coef>, cost: array2<real>, back: array2<int>, all: seq<seq<seq<Coef>>>,
                 chain: seq<Coef>, bi: nat, j: nat)
    requires Tables(p, candidate, cost, back) && Searched(p, candidate, cost, back, all) && bi < |all|
             && j < NumCandidates(p)
    requires |all[bi]| == NumCandidates(p) ==> bi < |chain| && all[bi][j] == chain[..bi + 1]
    ensures |all[bi]| == NumCandidates(p) && candidate[j, bi] == chain[bi]
    ensures bi > 0 ==>
              0 <= back[j, bi] < NumCandidates(p) && |all[bi - 1]| == NumCandidates(p)
              && all[bi - 1][back[j, bi]] == chain[..bi]
  {
    hide Value, NumCandidates, FromCandidates, DcCost;
    assert Best(p, all[bi][j], cost[j, bi], bi, j);
    assert chain[..bi + 1][bi] == chain[bi];
    if bi > 0 {
      assert LinkedAt(p, back, all, bi);
      var l := back[j, bi];
      assert Best(p, all[bi - 1][l], cost[l, bi - 1], bi - 1, l);
      assert chain[..bi + 1][..bi] == chain[..bi];
    }
  }

  /** The DC part of quantize_trellis for a row of blocks: a cheapest choice of
      candidates, and its last value as the next row's predictor.
   */
  method OptimizeDc(p: Row, blocks: array<Block>) returns (last: Coef)
    requires |p.src| == blocks.Length > 0
    modifies blocks
    ensures forall i :: 0 <= i < blocks.Length ==> blocks[i] == WithDc(old(blocks[i]), blocks[i][0])
    ensures FromCandidates(p, DcOf(blocks[..])) && last == blocks[blocks.Length - 1][0] && Abs(last) < Pow2(p.maxBits)
    ensures forall us: seq<Coef> :: FromCandidates(p, us) && |us| == |p.src| ==>
              DcCost(p, DcOf(blocks[..])) <= DcCost(p, us)
  {
    hide Value, NumCandidates, Best, FromCandidates;
    var n, nc := |p.src|, NumCandidates(p);
    var candidate, cost, back := new Coef[nc, n]((_, _) => 0), new real[nc, n]((_, _) => 0.0),
                                 new int[nc, n]((_, _) => 0);
    ghost var all: seq<seq<seq<Coef>>> := [];
    for bi := 0 to n
      invariant |all| == bi && Searched(p, candidate, cost, back, all) && blocks[..] == old(blocks[..])
      invariant Tables(p, candidate, cost, back) && fresh(candidate) && fresh(cost) && fresh(back)
    {
      all := SearchBlock(p, candidate, cost, back, bi, all);
    }
    last := Backtrack(p, candidate, cost, back, blocks, all);
    CandidateBound(p, DcOf(blocks[..]));
  }
}
