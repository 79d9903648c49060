/** The AC trellis's question (quantize_trellis in jcdctmgr.c at speed level
    zero): which admissible block has the smallest rate plus distortion, where
    the rate is the number of bits the Huffman coder sends for the block.
 */
module TrellisCosts {
  import opened Arithmetic
  import opened CodeBytes
  import opened Coefficients
  import opened CanonicalCode
  import opened DerivedTable
  import opened HuffTokens
  import opened HuffSyntax

  /** One block's band `ss..se`: the transform's output scaled up by eight, the
      quantization steps scaled alike, the weight of each squared error, the AC
      table, and the number of bits of the largest coefficient.
   */
  datatype AcTask = AcTask(ss: nat, se: nat, src: Block, step: seq<nat>, weight: seq<real>, tbl: SymbolCodes,
                           maxBits: nat)

  predicate WellPosed(p: AcTask) {
    && 1 <= p.ss <= p.se < DCTSIZE2 && 1 <= p.maxBits <= 14
    && |p.step| == |p.weight| == DCTSIZE2 && |p.tbl.ehufco| == |p.tbl.ehufsi| == 256
    && forall i :: p.ss <= i <= p.se ==> p.step[i] >= 1 && p.weight[i] >= 0.0
  }

  type Task = p: AcTask | WellPosed(p)
    witness AcTask(1, 1, seq(DCTSIZE2, _ => 0), seq(DCTSIZE2, _ => 1), seq(DCTSIZE2, _ => 0.0),
                   SymbolCodes(seq(256, _ => 0), seq(256, _ => 0)), 10)

  // ----- Candidates ---------------------------------------------------------------------------

  /** The rounded quotient, no larger than the largest coefficient. */
  function QVal(p: Task, i: nat): (q: nat)
    requires p.ss <= i <= p.se
    ensures q < Pow2(p.maxBits)
  {
    var q := (Abs(p.src[i]) + p.step[i] / 2) / p.step[i];
    if q > Pow2(p.maxBits) - 1 then Pow2(p.maxBits) - 1 else q
  }

  /** The largest magnitudes of each smaller category, then the quotient. */
  function Candidate(p: Task, i: nat, k: nat): nat
    requires p.ss <= i <= p.se && k < NBits(QVal(p, i))
  {
    if k < NBits(QVal(p, i)) - 1 then Pow2(k + 1) - 1 else QVal(p, i)
  }

  /** QVal is the multiple of the step nearest to the coefficient's magnitude, the
      larger one when two are, unless that is more than the largest coefficient.
   */
  lemma QValNearest(p: Task, i: nat)
    requires p.ss <= i <= p.se
    ensures var x, d, q := Abs(p.src[i]), p.step[i], QVal(p, i);
            2 * (q * d - x) <= d && (q < Pow2(p.maxBits) - 1 ==> 2 * (x - q * d) < d)
  {
    var x, d := Abs(p.src[i]), p.step[i];
    RoundedNearest(x, d);
    LessTimes(QVal(p, i), (x + d / 2) / d, d);
  }

  /** No other number is. */
  lemma QValOnly(p: Task, i: nat, v: nat)
    requires p.ss <= i <= p.se && v < Pow2(p.maxBits)
    requires var x, d := Abs(p.src[i]), p.step[i];
             2 * (v * d - x) <= d && (v < Pow2(p.maxBits) - 1 ==> 2 * (x - v * d) < d)
    ensures v == QVal(p, i)
  {
    hide QVal;
    var d, q := p.step[i], QVal(p, i);
    QValNearest(p, i);
    if v < q { MultipleApart(v, q, d); }
    if q < v { MultipleApart(q, v, d); }
  }

  lemma CandidateCategory(p: Task, i: nat, k: nat)
    requires p.ss <= i <= p.se && k < NBits(QVal(p, i))
    ensures Candidate(p, i, k) >= 1 && NBits(Candidate(p, i, k)) == k + 1 <= 14
    ensures Candidate(p, i, k) < 0x4000
  {
    hide QVal;
    var q := QVal(p, i);
    NBitsBound(q, p.maxBits);
    NBitsBound(Candidate(p, i, k), k + 1);
    NBitsBound(Candidate(p, i, k), k);
    NBitsBound(Candidate(p, i, k), 14);
    assert Pow2(k + 1) == 2 * Pow2(k);
    FourteenBits(14);
  }

  lemma FourteenBits(n: nat)
    requires n == 14
    ensures Pow2(n) == 0x4000
  {
    assert Pow2(7) == 0x80;
    Pow2Add(7, 7);
  }

  /** A candidate with the sign of the coefficient. */
  function Value(p: Task, i: nat, k: nat): (v: Coef)
    requires p.ss <= i <= p.se && k < NBits(QVal(p, i))
    ensures v != 0 && NBits(Abs(v)) == k + 1 <= 14
  {
    CandidateCategory(p, i, k);
    Signed(Candidate(p, i, k), p.src[i] < 0)
  }

  ghost predicate IsValue(p: Task, i: nat, v: int)
    requires p.ss <= i <= p.se
  {
    exists k :: 0 <= k < NBits(QVal(p, i)) && v == Value(p, i, k)
  }

  /** Every coefficient of the band zero or one of its candidates. */
  ghost predicate Chosen(p: Task, b: Block, i: nat)
    requires i <= p.se
  {
    forall m :: p.ss <= m <= i ==> b[m] == 0 || IsValue(p, m, b[m])
  }

  // ----- Distortion -----------------------------------------------------------------------------

  /** The weighted squared error of `v` at position `i`. */
  function Dist(p: Task, i: nat, v: int): (d: real)
    requires p.ss <= i <= p.se
    ensures d >= 0.0
  {
    var delta := v * p.step[i] - p.src[i];
    Square(delta, p.weight[i]);
    (delta * delta) as real * p.weight[i]
  }

  lemma Square(x: int, w: real)
    requires w >= 0.0
    ensures x * x >= 0 && (x * x) as real * w >= 0.0
  {
    assert x * x >= 0;
    var r := (x * x) as real;
    assert r >= 0.0 && r * w >= 0.0;
  }

  /** The error is that of the magnitudes when the signs agree. */
  lemma DistOfMagnitude(p: Task, i: nat, v: nat)
    requires p.ss <= i <= p.se
    ensures Dist(p, i, Signed(v, p.src[i] < 0))
         == ((v * p.step[i] - Abs(p.src[i])) * (v * p.step[i] - Abs(p.src[i]))) as real * p.weight[i]
  {
    var x, s := v * p.step[i], p.src[i];
    if s < 0 {
      assert (0 - v) * p.step[i] == 0 - x;
      assert (0 - x - s) * (0 - x - s) == (x + s) * (x + s);
    }
  }

  function Weighted(e: int, w: real): real {
    (e * e) as real * w
  }

  lemma WeightedIs(p: Task, i: nat, v: nat)
    requires p.ss <= i <= p.se
    ensures Dist(p, i, Signed(v, p.src[i] < 0)) == Weighted(v * p.step[i] - Abs(p.src[i]), p.weight[i])
  {
    hide Dist;
    DistOfMagnitude(p, i, v);
  }

  lemma WeightedGrows(x: int, y: int, w: real)
    requires Abs(x) <= Abs(y) && w >= 0.0
    ensures Weighted(x, w) <= Weighted(y, w)
  {
    SmallerSquare(x, y, w);
  }

  lemma SmallerSquare(x: int, y: int, w: real)
    requires Abs(x) <= Abs(y) && w >= 0.0
    ensures (x * x) as real * w <= (y * y) as real * w
  {
    assert x * x == Abs(x) * Abs(x) && y * y == Abs(y) * Abs(y);
    LessTimes(Abs(x), Abs(y), Abs(x));
    LessTimes(Abs(x), Abs(y), Abs(y));
    var a, b := (x * x) as real, (y * y) as real;
    assert a <= b;
  }

  /** Among the multiples of `d` up to the nearest one, larger ones are nearer. */
  lemma NoMultipleNearer(x: nat, d: nat, q: nat, c: nat, m: nat)
    requires 2 * (q * d - x) <= d && c <= q && (m <= c || (c == q && 2 * (x - q * d) < d))
    ensures Abs(c * d - x) <= Abs(m * d - x) <= Abs(m * d + x)
  {
    if m < c { MultipleApart(m, c, d); }
    if c < q { MultipleApart(c, q, d); }
    if c < m { MultipleApart(c, m, d); }
    NearestOf(x, d, q * d, c * d, m * d, m, c, q);
  }

  lemma NearestOf(x: nat, d: nat, qd: int, cd: int, md: int, m: nat, c: nat, q: nat)
    requires 2 * (qd - x) <= d && c <= q && (m <= c || (c == q && 2 * (x - qd) < d)) && md >= 0
    requires (m < c ==> md + d <= cd) && (c < q ==> cd + d <= qd) && (c < m ==> cd + d <= md)
    requires (m == c ==> md == cd) && (c == q ==> cd == qd)
    ensures Abs(cd - x) <= Abs(md - x) <= Abs(md + x)
  {
  }

  /** Each candidate is nearest to the coefficient of all values of its category. */
  lemma CandidateNearest(p: Task, i: nat, v: int)
    requires p.ss <= i <= p.se && 1 <= NBits(Abs(v)) <= NBits(QVal(p, i))
    ensures Dist(p, i, Value(p, i, NBits(Abs(v)) - 1)) <= Dist(p, i, v)
  {
    hide QVal, NBits;
    hide QVal, NBits, Candidate, Dist, Weighted;
    var c, m := Candidate(p, i, NBits(Abs(v)) - 1), Abs(v);
    var d, x: int, w := p.step[i], Abs(p.src[i]), p.weight[i];
    assert Weighted(c * d - x, w) <= Weighted(m * d - x, w) by {
      MagnitudeNearest(p, i, m);
      WeightedGrows(c * d - x, m * d - x, w);
    }
    assert Dist(p, i, Signed(c, p.src[i] < 0)) == Weighted(c * d - x, w) by { WeightedIs(p, i, c); }
    assert Weighted(m * d - x, w) <= Dist(p, i, v) by { DistOfOther(p, i, v); }
  }

  lemma MagnitudeNearest(p: Task, i: nat, m: nat)
    requires p.ss <= i <= p.se && 1 <= NBits(m) <= NBits(QVal(p, i))
    ensures Abs(Candidate(p, i, NBits(m) - 1) * p.step[i] - Abs(p.src[i])) <= Abs(m * p.step[i] - Abs(p.src[i]))
  {
    hide QVal, NBits, Candidate, Abs;
    LargestOfCategory(p, i, m);
    QValNearest(p, i);
    NoMultipleNearer(Abs(p.src[i]), p.step[i], QVal(p, i), Candidate(p, i, NBits(m) - 1), m);
  }

  lemma LargestOfCategory(p: Task, i: nat, m: nat)
    requires p.ss <= i <= p.se && 1 <= NBits(m) <= NBits(QVal(p, i))
    ensures var c, q := Candidate(p, i, NBits(m) - 1), QVal(p, i);
            c <= q && (m <= c || (c == q && q < Pow2(p.maxBits) - 1))
  {
    hide QVal, NBits;
    var n, q := NBits(m), QVal(p, i);
    NBitsBound(m, n);
    NBitsBound(q, n);
    NBitsBound(q, p.maxBits);
    NBitsBound(m, p.maxBits);
  }

  /** A value of the wrong sign is further away. */
  lemma DistOfOther(p: Task, i: nat, v: int)
    requires p.ss <= i <= p.se
    ensures Weighted(Abs(v) * p.step[i] - Abs(p.src[i]), p.weight[i]) <= Dist(p, i, v)
  {
    var d, x := p.step[i], Abs(p.src[i]);
    var md := Abs(v) * d;
    assert v * d == Signed(md, v < 0) by { DistributeMinus(d, 0, Abs(v)); }
    LessTimes(0, Abs(v), d);
    assert Abs(md - x) <= Abs(v * d - p.src[i]);
    SmallerSquare(md - x, v * d - p.src[i], p.weight[i]);
  }

  ghost function DistTo(p: Task, b: Block, i: nat): (d: real)
    requires p.ss - 1 <= i <= p.se
    ensures d >= 0.0
    decreases i
  {
    if i < p.ss then 0.0 else DistTo(p, b, i - 1) + Dist(p, i, b[i])
  }

  /** accumulated_zero_dist: the distortion of sending only zeros up to `i`. */
  ghost function ZeroDist(p: Task, i: nat): (d: real)
    requires p.ss - 1 <= i <= p.se
    ensures d >= 0.0
    decreases i
  {
    if i < p.ss then 0.0 else Dist(p, i, 0) + ZeroDist(p, i - 1)
  }

  lemma {:induction false} ZeroDistGrows(p: Task, j: nat, i: nat)
    requires p.ss - 1 <= j <= i <= p.se
    ensures ZeroDist(p, j) <= ZeroDist(p, i)
    decreases i
  {
    if j < i { ZeroDistGrows(p, j, i - 1); }
  }

  ghost predicate ZeroBetween(b: Block, from: nat, to: nat) {
    forall m :: from <= m < to && m < DCTSIZE2 ==> b[m] == 0
  }

  /** Zeros after `j` add the distortion of zeros. */
  lemma {:induction false} DistOfZeros(p: Task, b: Block, j: nat, i: nat)
    requires p.ss - 1 <= j <= i <= p.se && ZeroBetween(b, j + 1, i + 1)
    ensures DistTo(p, b, i) == DistTo(p, b, j) + (ZeroDist(p, i) - ZeroDist(p, j))
    decreases i
  {
    hide Dist;
    if j < i { DistOfZeros(p, b, j, i - 1); }
  }

  // ----- Rate ------------------------------------------------------------------------------------

  function TokenSize(tbl: SymbolCodes, t: Token): nat
    requires |tbl.ehufsi| == 256
  {
    match t case Symbol(_, s) => tbl.ehufsi[s] case Raw(_, n) => n
  }

  function Size(tbl: SymbolCodes, ts: seq<Token>): nat
    requires |tbl.ehufsi| == 256
  {
    if ts == [] then 0 else TokenSize(tbl, ts[0]) + Size(tbl, ts[1..])
  }

  /** Every symbol has a code. */
  ghost predicate Sized(tbl: SymbolCodes, ts: seq<Token>)
    requires |tbl.ehufsi| == 256
  {
    forall i :: 0 <= i < |ts| && ts[i].Symbol? ==> tbl.ehufsi[ts[i].s] != 0
  }

  lemma {:induction false} SizeConcat(tbl: SymbolCodes, xs: seq<Token>, ys: seq<Token>)
    requires |tbl.ehufsi| == 256
    ensures Size(tbl, xs + ys) == Size(tbl, xs) + Size(tbl, ys)
    ensures Sized(tbl, xs + ys) <==> Sized(tbl, xs) && Sized(tbl, ys)
    decreases |xs|
  {
    var all := xs + ys;
    if xs == [] {
      assert all == ys;
    } else {
      assert all[0] == xs[0] && all[1..] == xs[1..] + ys;
      SizeConcat(tbl, xs[1..], ys);
    }
    SizedConcat(tbl, xs, ys);
  }

  lemma SizedConcat(tbl: SymbolCodes, xs: seq<Token>, ys: seq<Token>)
    requires |tbl.ehufsi| == 256
    ensures Sized(tbl, xs + ys) <==> Sized(tbl, xs) && Sized(tbl, ys)
  {
    var all := xs + ys;
    assert forall i :: 0 <= i < |xs| ==> all[i] == xs[i];
    assert forall i :: 0 <= i < |ys| ==> all[|xs| + i] == ys[i];
    if Sized(tbl, all) {
      assert forall i :: 0 <= i < |ys| && ys[i].Symbol? ==> tbl.ehufsi[all[|xs| + i].s] != 0;
    }
  }

  /** The size is the number of bits the coder sends. */
  lemma {:induction false} SizeIsBits(tbl: SymbolCodes, ts: seq<Token>)
    requires |tbl.ehufco| == |tbl.ehufsi| == 256 && Tabled([tbl], ts)
    ensures |AllBits([tbl], ts)| == Size(tbl, ts)
    decreases |ts|
  {
    if ts != [] { SizeIsBits(tbl, ts[1..]); }
  }

  /** The tokens of a nonzero value after `z` zeros. */
  function RunTokens(z: nat, v: int): seq<Token>
    requires NBits(Abs(v)) <= 14
  {
    LongRuns(0, z / 16) + Coded(0, z % 16, v)
  }

  /** The code words exist. */
  predicate Available(p: Task, z: nat, v: int)
    requires NBits(Abs(v)) <= 14
  {
    (z / 16 > 0 ==> p.tbl.ehufsi[ZRL] != 0) && p.tbl.ehufsi[16 * (z % 16) + NBits(Abs(v))] != 0
  }

  function Rate(p: Task, z: nat, v: int): nat
    requires NBits(Abs(v)) <= 14
  {
    p.tbl.ehufsi[16 * (z % 16) + NBits(Abs(v))] + NBits(Abs(v)) + (z / 16) * p.tbl.ehufsi[ZRL]
  }

  lemma {:induction false} LongRunsSize(p: Task, q: nat)
    ensures Size(p.tbl, LongRuns(0, q)) == q * p.tbl.ehufsi[ZRL]
    ensures Sized(p.tbl, LongRuns(0, q)) <==> q == 0 || p.tbl.ehufsi[ZRL] != 0
    decreases q
  {
    hide Sized;
    if q == 0 {
      assert Sized(p.tbl, []) by { NothingSized(p.tbl); }
    } else {
      LongRunsSize(p, q - 1);
      SizeConcat(p.tbl, [Symbol(0, ZRL)], LongRuns(0, q - 1));
      OneSized(p.tbl, Symbol(0, ZRL));
      var n := p.tbl.ehufsi[ZRL];
      assert n + (q - 1) * n == q * n;
    }
  }

  lemma NothingSized(tbl: SymbolCodes)
    requires |tbl.ehufsi| == 256
    ensures Size(tbl, []) == 0 && Sized(tbl, [])
  {
  }

  lemma OneSized(tbl: SymbolCodes, t: Token)
    requires |tbl.ehufsi| == 256
    ensures Size(tbl, [t]) == TokenSize(tbl, t)
    ensures Sized(tbl, [t]) <==> (t.Symbol? ==> tbl.ehufsi[t.s] != 0)
  {
    assert [t][1..] == [];
    assert TokenSize(tbl, t) + Size(tbl, []) == Size(tbl, [t]);
    assert [t][0] == t;
  }

  lemma RunTokensSize(p: Task, z: nat, v: int)
    requires NBits(Abs(v)) <= 14
    ensures Size(p.tbl, RunTokens(z, v)) == Rate(p, z, v)
    ensures Sized(p.tbl, RunTokens(z, v)) <==> Available(p, z, v)
  {
    hide Sized, NBits, ValueBits, Size, LongRuns;
    var n := NBits(Abs(v));
    var s, raw := Symbol(0, 16 * (z % 16) + n), Raw(ValueBits(v), n);
    LongRunsSize(p, z / 16);
    OneSized(p.tbl, s);
    OneSized(p.tbl, raw);
    SizeConcat(p.tbl, [s], [raw]);
    SizeConcat(p.tbl, LongRuns(0, z / 16), Coded(0, z % 16, v));
  }

  // ----- Tokens of a prefix ------------------------------------------------------------------------

  /** The band's tokens up to position `i`, ending with its last nonzero value. */
  ghost function TokensTo(p: Task, b: Block, i: nat): seq<Token>
    requires i <= p.se && Chosen(p, b, i)
  {
    ChosenInRange(p, b, i);
    BandTokens(0, b, p.ss, 0, i, 0)
  }

  lemma ChosenInRange(p: Task, b: Block, i: nat)
    requires i <= p.se && Chosen(p, b, i)
    ensures forall m :: p.ss <= m <= i ==> NBits(Abs(b[m])) <= 14
    ensures BandInRange(b, p.ss, i, 0, 14) && BandInRange(b, p.ss, i, 0, 15)
  {
    hide NBits, Value, QVal;
    forall m | p.ss <= m <= i ensures NBits(Abs(b[m])) <= 14 {
      if b[m] != 0 {
        var k :| 0 <= k < NBits(QVal(p, m)) && b[m] == Value(p, m, k);
      } else {
        NBitsBound(0, 14);
      }
    }
    assert forall x: int :: Mag(x, 0) == Abs(x);
  }

  /** Zeros only lengthen the run. */
  lemma {:induction false} SkipZeros(b: Block, k: nat, r: nat, i: nat, se: nat)
    requires k <= i <= se + 1 <= DCTSIZE2 && BandInRange(b, k, se, 0, 15) && ZeroBetween(b, k, i)
    ensures BandInRange(b, i, se, 0, 15)
    ensures BandTokens(0, b, k, r, se, 0) == BandTokens(0, b, i, r + (i - k), se, 0)
    decreases i - k
  {
    hide LongRuns, Coded, NBits;
    if k < i {
      TransformedValue(b, k, 0);
      SkipZeros(b, k + 1, r + 1, i, se);
    }
  }

  /** Tokens up to a nonzero value, then those after it. */
  lemma {:induction false} Split(b: Block, k: nat, r: nat, j: nat, i: nat)
    requires k <= j <= i < DCTSIZE2 && BandInRange(b, k, i, 0, 15) && b[j] != 0
    ensures BandInRange(b, k, j, 0, 15) && BandInRange(b, j + 1, i, 0, 15)
    ensures BandTokens(0, b, k, r, i, 0) == BandTokens(0, b, k, r, j, 0) + BandTokens(0, b, j + 1, 0, i, 0)
    decreases j - k
  {
    hide LongRuns, Coded, NBits, BandInRange;
    Narrow(b, k, j, i);
    TransformedValue(b, k, 0);
    assert Transformed(b, k, 0) == b[k] as int;
    ghost var x, rest := b[k], BandTokens(0, b, j + 1, 0, i, 0);
    if k == j {
      var own := Coded(0, r % 16, x);
      SplitAt(b, k, r, k, []);
      SplitAt(b, k, r, i, rest);
      assert LongRuns(0, r / 16) + (own + rest) == (LongRuns(0, r / 16) + (own + [])) + rest;
    } else if x == 0 {
      Split(b, k + 1, r + 1, j, i);
      ZeroAt(b, k, r, i);
      ZeroAt(b, k, r, j);
    } else {
      Split(b, k + 1, 0, j, i);
      var own, mid := Coded(0, r % 16, x), BandTokens(0, b, k + 1, 0, j, 0);
      SplitAt(b, k, r, j, mid);
      SplitAt(b, k, r, i, mid + rest);
      assert LongRuns(0, r / 16) + (own + (mid + rest)) == (LongRuns(0, r / 16) + (own + mid)) + rest;
    }
  }

  lemma Narrow(b: Block, k: nat, j: nat, i: nat)
    requires k <= j <= i < DCTSIZE2 && BandInRange(b, k, i, 0, 15)
    ensures BandInRange(b, k, j, 0, 15) && BandInRange(b, k + 1, j, 0, 15)
    ensures BandInRange(b, k + 1, i, 0, 15) && BandInRange(b, j + 1, i, 0, 15) && NBits(Abs(b[k])) <= 15
  {
    assert Mag(b[k], 0) == Abs(b[k]);
  }

  lemma SplitAt(b: Block, k: nat, r: nat, se: nat, rest: seq<Token>)
    requires k <= se < DCTSIZE2 && BandInRange(b, k, se, 0, 15) && b[k] != 0 && NBits(Abs(b[k])) <= 15
    requires BandInRange(b, k + 1, se, 0, 15) && rest == BandTokens(0, b, k + 1, 0, se, 0)
    ensures BandTokens(0, b, k, r, se, 0) == LongRuns(0, r / 16) + (Coded(0, r % 16, b[k]) + rest)
  {
    hide LongRuns, Coded, NBits, BandInRange;
    TransformedValue(b, k, 0);
    assert Transformed(b, k, 0) == b[k] as int;
  }

  lemma ZeroAt(b: Block, k: nat, r: nat, se: nat)
    requires k <= se < DCTSIZE2 && BandInRange(b, k, se, 0, 15) && b[k] == 0 && BandInRange(b, k + 1, se, 0, 15)
    ensures BandTokens(0, b, k, r, se, 0) == BandTokens(0, b, k + 1, r + 1, se, 0)
  {
    hide LongRuns, Coded, NBits, BandInRange;
    TransformedValue(b, k, 0);
  }

  /** The tokens after position `j` when the next nonzero value is at `i`. */
  lemma NextTokens(b: Block, j: nat, i: nat)
    requires j < i < DCTSIZE2 && BandInRange(b, j + 1, i, 0, 15) && ZeroBetween(b, j + 1, i)
    requires b[i] != 0 && NBits(Abs(b[i])) <= 14
    ensures BandTokens(0, b, j + 1, 0, i, 0) == RunTokens(i - 1 - j, b[i])
  {
    hide LongRuns, Coded, NBits;
    SkipZeros(b, j + 1, 0, i, i);
    SplitAt(b, i, i - 1 - j, i, []);
    var z := i - 1 - j;
    assert LongRuns(0, z / 16) + (Coded(0, z % 16, b[i]) + []) == RunTokens(z, b[i]);
  }

  /** Position `j` is where the coding of `b` last stood before `i`: the start of
      the band or a nonzero value, with zeros up to `i`.
   */
  ghost predicate Before(p: Task, b: Block, j: nat, i: nat)
    requires i <= p.se
  {
    p.ss - 1 <= j < i && (j >= p.ss ==> b[j] != 0) && ZeroBetween(b, j + 1, i)
  }

  /** One more nonzero value adds its own tokens. */
  lemma TokensStep(p: Task, b: Block, j: nat, i: nat)
    requires i <= p.se && Chosen(p, b, i) && Before(p, b, j, i) && b[i] != 0
    ensures Chosen(p, b, j) && NBits(Abs(b[i])) <= 14
    ensures TokensTo(p, b, i) == TokensTo(p, b, j) + RunTokens(i - 1 - j, b[i])
  {
    hide NBits, IsValue;
    ChosenInRange(p, b, i);
    NextTokens(b, j, i);
    if j >= p.ss {
      Split(b, p.ss, 0, j, i);
    } else {
      assert TokensTo(p, b, j) == [];
    }
  }

  /** Trailing zeros add none. */
  lemma TokensOfZeros(p: Task, b: Block, j: nat)
    requires Chosen(p, b, p.se) && p.ss - 1 <= j <= p.se && (j >= p.ss ==> b[j] != 0) && ZeroBetween(b, j + 1, p.se + 1)
    ensures Chosen(p, b, j) && TokensTo(p, b, p.se) == TokensTo(p, b, j)
  {
    hide NBits, IsValue;
    ChosenInRange(p, b, p.se);
    SkipZeros(b, j + 1, 0, p.se + 1, p.se);
    if j >= p.ss {
      Split(b, p.ss, 0, j, p.se);
    }
  }

  // ----- The cost -----------------------------------------------------------------------------------

  /** Everything sent for the band: its values and the end of the block. */
  ghost function BandSent(p: Task, b: Block): seq<Token>
    requires Chosen(p, b, p.se)
  {
    TokensTo(p, b, p.se) + if b[p.se] == 0 then [Symbol(0, 0)] else []
  }

  /** A block the trellis may choose: values among the candidates, symbols in the table. */
  ghost predicate Admissible(p: Task, b: Block) {
    Chosen(p, b, p.se) && Sized(p.tbl, TokensTo(p, b, p.se))
  }

  /** Rate plus distortion. */
  ghost function Cost(p: Task, b: Block): real
    requires Admissible(p, b)
  {
    DistTo(p, b, p.se) + Size(p.tbl, BandSent(p, b)) as real
  }

  /** For a whole block's AC coefficients the rate is the length of what
      encode_one_block sends after the DC coefficient.
   */
  lemma RateIsBitsSent(p: Task, b: Block)
    requires Chosen(p, b, p.se)
    ensures Tabled([p.tbl], BandSent(p, b))
    ensures Size(p.tbl, BandSent(p, b)) == |AllBits([p.tbl], BandSent(p, b))|
  {
    hide NBits, IsValue;
    ChosenInRange(p, b, p.se);
    BandTabled(b, p.ss, 0, p.se);
    SizeIsBits(p.tbl, BandSent(p, b));
  }

  lemma {:induction false} BandTabled(b: Block, k: nat, r: nat, se: nat)
    requires se < DCTSIZE2 && BandInRange(b, k, se, 0, 15)
    ensures forall i :: 0 <= i < |BandTokens(0, b, k, r, se, 0)| ==>
              var t := BandTokens(0, b, k, r, se, 0)[i]; t.Symbol? ==> t.tbl == 0
    decreases se + 1 - k
  {
    hide NBits, BandInRange;
    if k <= se {
      Narrow(b, k, se, se);
      BandTabled(b, k + 1, r + 1, se);
      BandTabled(b, k + 1, 0, se);
      if b[k] == 0 {
        ZeroAt(b, k, r, se);
      } else {
        SplitAt(b, k, r, se, BandTokens(0, b, k + 1, 0, se, 0));
        RunsTabled(r / 16);
      }
    }
  }

  lemma {:induction false} RunsTabled(q: nat)
    ensures forall i :: 0 <= i < |LongRuns(0, q)| ==> LongRuns(0, q)[i].Symbol? && LongRuns(0, q)[i].tbl == 0
    decreases q
  {
    if q > 0 { RunsTabled(q - 1); }
  }

  /** Plain quantization, which takes for every coefficient the nearest multiple of
      its step or the largest coefficient there is, is one of the choices.
   */
  lemma RoundingIsChosen(p: Task, b: Block)
    requires forall i :: p.ss <= i <= p.se ==>
               Abs(b[i]) < Pow2(p.maxBits) && (b[i] > 0 ==> p.src[i] > 0) && (b[i] < 0 ==> p.src[i] < 0)
    requires forall i :: p.ss <= i <= p.se ==> 2 * (Abs(b[i]) * p.step[i] - Abs(p.src[i])) <= p.step[i]
    requires forall i :: p.ss <= i <= p.se && Abs(b[i]) < Pow2(p.maxBits) - 1 ==>
               2 * (Abs(p.src[i]) - Abs(b[i]) * p.step[i]) < p.step[i]
    ensures Chosen(p, b, p.se)
  {
    hide NBits, QVal, Value;
    forall m | p.ss <= m <= p.se ensures b[m] == 0 || IsValue(p, m, b[m]) {
      QValOnly(p, m, Abs(b[m]));
      if b[m] != 0 { RoundedValue(p, m, b[m]); }
    }
  }

  lemma RoundedValue(p: Task, i: nat, v: int)
    requires p.ss <= i <= p.se && v != 0 && Abs(v) == QVal(p, i) && (v < 0 <==> p.src[i] < 0)
    ensures IsValue(p, i, v)
  {
    hide NBits, QVal;
    NBitsBound(Abs(v), 0);
    assert v == Value(p, i, NBits(Abs(v)) - 1);
  }
}
