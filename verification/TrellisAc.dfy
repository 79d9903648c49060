/** The AC trellis of quantize_trellis at speed level zero, with the search for
    the end of the block and the backtracking (find_block_eob_position and
    zero_trailing_coefficients, jcdctmgr.c): the block it leaves has the
    smallest rate plus distortion of all admissible blocks.
 */
module TrellisAc {
  import opened CodeBytes
  import opened Coefficients
  import opened DerivedTable
  import opened HuffTokens
  import opened HuffSyntax
  import opened TrellisCosts
  import opened TrellisReach

  // ----- Costs of paths ----------------------------------------------------------------------------

  /** The cost of the nonzero value `v` at `i` after one at `j` reached at cost `c`. */
  ghost function Edge(p: Task, c: real, j: nat, i: nat, v: int): real
    requires p.ss - 1 <= j < i <= p.se && NBits(Abs(v)) <= 14
  {
    Rate(p, i - 1 - j, v) as real + Dist(p, i, v) + (ZeroDist(p, i - 1) - ZeroDist(p, j) + c)
  }

  /** Rate plus distortion up to `i`, without the end of the block. */
  ghost function PrefixCost(p: Task, b: Block, i: nat): real
    requires p.ss - 1 <= i <= p.se && Chosen(p, b, i)
  {
    DistTo(p, b, i) + Size(p.tbl, TokensTo(p, b, i)) as real
  }

  lemma EdgeGrows(p: Task, c: real, c': real, j: nat, i: nat, v: int)
    requires p.ss - 1 <= j < i <= p.se && NBits(Abs(v)) <= 14
    ensures Edge(p, c, j, i, v) >= c
    ensures c <= c' ==> Edge(p, c, j, i, v) <= Edge(p, c', j, i, v)
  {
    hide NBits, Dist, ZeroDist, Rate;
    ZeroDistGrows(p, j, i - 1);
  }

  lemma PrefixStep(p: Task, b: Block, j: nat, i: nat)
    requires i <= p.se && Chosen(p, b, i) && Before(p, b, j, i) && b[i] != 0
    ensures Chosen(p, b, j) && NBits(Abs(b[i])) <= 14
    ensures PrefixCost(p, b, i) == Edge(p, PrefixCost(p, b, j), j, i, b[i])
    ensures Sized(p.tbl, TokensTo(p, b, i)) <==> Sized(p.tbl, TokensTo(p, b, j)) && Available(p, i - 1 - j, b[i])
  {
    hide NBits, Dist, Sized, IsValue, RunTokens, TokensTo, Rate, Available, Size;
    TokensStep(p, b, j, i);
    SizeConcat(p.tbl, TokensTo(p, b, j), RunTokens(i - 1 - j, b[i]));
    RunTokensSize(p, i - 1 - j, b[i]);
    DistOfZeros(p, b, j, i - 1);
  }

  /** The size of the end-of-block symbol, if there is one. */
  function EobSize(p: Task, last: nat): nat {
    if last < p.se then p.tbl.ehufsi[0] else 0
  }

  /** The cost of a block whose last nonzero value is at `l`. */
  lemma CostFrom(p: Task, b: Block, l: nat)
    requires Chosen(p, b, p.se) && p.ss - 1 <= l <= p.se && (l >= p.ss ==> b[l] != 0) && ZeroBetween(b, l + 1, p.se + 1)
    ensures Chosen(p, b, l) && (Admissible(p, b) <==> Sized(p.tbl, TokensTo(p, b, l)))
    ensures Admissible(p, b) ==>
              Cost(p, b) == PrefixCost(p, b, l) + (ZeroDist(p, p.se) - ZeroDist(p, l)) + EobSize(p, l) as real
  {
    hide NBits, Dist, Sized, IsValue, TokensTo, Size;
    TokensOfZeros(p, b, l);
    DistOfZeros(p, b, l, p.se);
    assert b[p.se] == 0 <==> l < p.se;
    var ts := TokensTo(p, b, p.se);
    if l < p.se {
      SizeConcat(p.tbl, ts, [Symbol(0, 0)]);
      OneSized(p.tbl, Symbol(0, 0));
    } else {
      assert ts + [] == ts;
    }
  }

  // ----- What the search knows ----------------------------------------------------------------------

  /** `c` is no more than any way to reach `i` from `j` by one of the first `n` candidates. */
  ghost predicate Beats(p: Task, inf: real, cj: real, c: real, j: nat, i: nat, n: nat)
    requires p.ss - 1 <= j < i <= p.se && n <= NBits(QVal(p, i))
  {
    cj < inf ==> forall k :: 0 <= k < n && Available(p, i - 1 - j, Value(p, i, k)) ==>
          c <= Edge(p, cj, j, i, Value(p, i, k))
  }

  ghost predicate BeatsAll(p: Task, inf: real, cost: seq<real>, c: real, i: nat, to: nat)
    requires |cost| == DCTSIZE2 && to <= i && p.ss <= i <= p.se
  {
    forall j :: p.ss - 1 <= j < to ==> Beats(p, inf, cost[j], c, j, i, NBits(QVal(p, i)))
  }

  /** A cost below infinity is that of `v` at `i` after a reached position `s`. */
  ghost predicate Reached(p: Task, inf: real, cost: seq<real>, c: real, v: Coef, s: int, i: nat)
    requires |cost| == DCTSIZE2 && p.ss <= i <= p.se
  {
    c < inf ==>
      && p.ss - 1 <= s < i && cost[s] < inf && v != 0 && NBits(Abs(v)) <= 14 && IsValue(p, i, v)
      && Available(p, i - 1 - s, v) && c == Edge(p, cost[s], s, i, v)
  }

  ghost predicate Settled(p: Task, inf: real, cost: seq<real>, v: Coef, s: int, i: nat)
    requires |cost| == DCTSIZE2 && p.ss <= i <= p.se
  {
    0.0 <= cost[i] <= inf && BeatsAll(p, inf, cost, cost[i], i, i) && Reached(p, inf, cost, cost[i], v, s, i)
  }

  /** Every position before `n` is settled. */
  ghost predicate Solved(p: Task, inf: real, coef: seq<Coef>, cost: seq<real>, start: seq<int>, n: nat)
    requires |coef| == |cost| == |start| == DCTSIZE2 && p.ss <= n <= p.se + 1
  {
    cost[p.ss - 1] == 0.0 && inf > 0.0 && forall i :: p.ss <= i < n ==> Settled(p, inf, cost, coef[i], start[i], i)
  }

  // ----- No block costs less ---------------------------------------------------------------------------

  ghost function Prev(p: Task, b: Block, i: nat, j: nat): (l: nat)
    requires p.ss <= i <= p.se && p.ss - 1 <= j < i && ZeroBetween(b, j + 1, i)
    ensures Before(p, b, l, i)
    decreases j
  {
    if j < p.ss || b[j] != 0 then j else Prev(p, b, i, j - 1)
  }

  lemma {:induction false} NoPathCostsLess(p: Task, inf: real, coef: seq<Coef>, cost: seq<real>, start: seq<int>,
                                           b: Block, i: nat)
    requires |coef| == |cost| == |start| == DCTSIZE2 && Solved(p, inf, coef, cost, start, p.se + 1)
    requires p.ss - 1 <= i <= p.se && Chosen(p, b, i) && Sized(p.tbl, TokensTo(p, b, i)) && (i >= p.ss ==> b[i] != 0)
    ensures cost[i] <= PrefixCost(p, b, i)
    decreases i
  {
    hide NBits, Edge, Sized, Available, QVal, TokensTo, DistTo, Value;
    if i < p.ss {
      NothingCosts(p, b);
    } else {
      var j := Prev(p, b, i, i - 1);
      PrefixStep(p, b, j, i);
      NoPathCostsLess(p, inf, coef, cost, start, b, j);
      var c := PrefixCost(p, b, j);
      EdgeGrows(p, c, c, j, i, b[i]);
      assert Settled(p, inf, cost, coef[i], start[i], i);
      if cost[j] < inf {
        EdgeGrows(p, cost[j], c, j, i, b[i]);
        var k :| 0 <= k < NBits(QVal(p, i)) && b[i] == Value(p, i, k);
        assert Beats(p, inf, cost[j], cost[i], j, i, NBits(QVal(p, i)));
      } else if j >= p.ss {
        assert Settled(p, inf, cost, coef[j], start[j], j);
      }
    }
  }

  lemma NothingCosts(p: Task, b: Block)
    ensures Chosen(p, b, p.ss - 1) && TokensTo(p, b, p.ss - 1) == [] && PrefixCost(p, b, p.ss - 1) == 0.0
    ensures Sized(p.tbl, TokensTo(p, b, p.ss - 1))
  {
    NothingSized(p.tbl);
  }

  // ----- The path costs what the search says -------------------------------------------------------------

  /** The block with the values along the path that ends at `i`, zeros elsewhere. */
  ghost function Path(p: Task, coef: seq<Coef>, start: seq<int>, base: Block, i: nat): Block
    requires |coef| == |start| == DCTSIZE2 && p.ss - 1 <= i <= p.se
    decreases i
  {
    if i < p.ss || !(p.ss - 1 <= start[i] < i) then base
    else Path(p, coef, start, base, start[i])[i := coef[i]]
  }

  lemma {:induction false} SamePrefix(p: Task, b: Block, b': Block, i: nat)
    requires p.ss - 1 <= i <= p.se && Chosen(p, b, i) && Chosen(p, b', i)
    requires forall m :: p.ss <= m <= i ==> b[m] == b'[m]
    ensures TokensTo(p, b, i) == TokensTo(p, b', i) && DistTo(p, b, i) == DistTo(p, b', i)
  {
    hide NBits, IsValue, Dist, BandTokens;
    ChosenInRange(p, b, i);
    ChosenInRange(p, b', i);
    SameTokens(b, b', p.ss, 0, i);
    SameDist(p, b, b', i);
  }

  lemma {:induction false} SameTokens(b: Block, b': Block, k: nat, r: nat, i: nat)
    requires i < DCTSIZE2 && BandInRange(b, k, i, 0, 15) && BandInRange(b', k, i, 0, 15)
    requires forall m :: k <= m <= i ==> b[m] == b'[m]
    ensures BandTokens(0, b, k, r, i, 0) == BandTokens(0, b', k, r, i, 0)
    decreases i + 1 - k
  {
    hide NBits, LongRuns, Coded;
    if k <= i {
      SameTokens(b, b', k + 1, r + 1, i);
      SameTokens(b, b', k + 1, 0, i);
    }
  }

  lemma {:induction false} SameDist(p: Task, b: Block, b': Block, i: nat)
    requires p.ss - 1 <= i <= p.se && forall m :: p.ss <= m <= i ==> b[m] == b'[m]
    ensures DistTo(p, b, i) == DistTo(p, b', i)
    decreases i
  {
    hide Dist;
    if i >= p.ss { SameDist(p, b, b', i - 1); }
  }

  ghost predicate ZeroBand(p: Task, b: Block) {
    ZeroBetween(b, p.ss, p.se + 1)
  }

  /** `b` is the base outside the band, ends at `i` and costs `c` up to there. */
  ghost predicate PathOf(p: Task, b: Block, base: Block, i: nat, c: real)
    requires p.ss - 1 <= i <= p.se
  {
    && Chosen(p, b, p.se) && Chosen(p, b, i) && Sized(p.tbl, TokensTo(p, b, i)) && PrefixCost(p, b, i) == c
    && (i >= p.ss ==> b[i] != 0) && ZeroBetween(b, i + 1, p.se + 1)
    && forall m :: 0 <= m < DCTSIZE2 && !(p.ss <= m <= p.se) ==> b[m] == base[m]
  }

  lemma {:induction false} PathCosts(p: Task, inf: real, coef: seq<Coef>, cost: seq<real>, start: seq<int>, base: Block,
                                     i: nat)
    requires |coef| == |cost| == |start| == DCTSIZE2 && Solved(p, inf, coef, cost, start, p.se + 1)
    requires p.ss - 1 <= i <= p.se && cost[i] < inf && ZeroBand(p, base)
    ensures PathOf(p, Path(p, coef, start, base, i), base, i, cost[i])
    decreases i
  {
    hide NBits, Edge, Sized, Available, TokensTo, PrefixCost, IsValue, BeatsAll;
    if i < p.ss {
      NothingCosts(p, base);
    } else {
      assert Settled(p, inf, cost, coef[i], start[i], i);
      var s := start[i];
      PathCosts(p, inf, coef, cost, start, base, s);
      ExtendPath(p, Path(p, coef, start, base, s), base, s, cost[s], i, coef[i]);
    }
  }

  lemma ExtendPath(p: Task, b: Block, base: Block, s: nat, c: real, i: nat, v: Coef)
    requires p.ss - 1 <= s < i <= p.se && PathOf(p, b, base, s, c)
    requires v != 0 && NBits(Abs(v)) <= 14 && IsValue(p, i, v) && Available(p, i - 1 - s, v)
    ensures PathOf(p, b[i := v], base, i, Edge(p, c, s, i, v))
  {
    hide NBits, Edge, Sized, Available, TokensTo, IsValue, DistTo;
    var b' := b[i := v];
    assert Chosen(p, b', p.se);
    SamePrefix(p, b, b', s);
    PrefixStep(p, b', s, i);
  }

  // ----- The search ----------------------------------------------------------------------------------------

  /** What the arrays hold while position `i` is searched. */
  ghost predicate Trying(p: Task, inf: real, coef: seq<Coef>, cost: seq<real>, start: seq<int>, zeroDist: seq<real>,
                         i: nat)
    requires |coef| == |cost| == |start| == |zeroDist| == DCTSIZE2
  {
    && p.ss <= i <= p.se && Solved(p, inf, coef, cost, start, i)
    && (forall m: nat :: p.ss - 1 <= m < i ==> zeroDist[m] == ZeroDist(p, m))
    && 0.0 <= cost[i] <= inf && Reached(p, inf, cost, cost[i], coef[i], start[i], i)
  }

  lemma StillSolved(p: Task, inf: real, coef: seq<Coef>, cost: seq<real>, start: seq<int>, i: nat, v: Coef, c: real,
                    s: int)
    requires |coef| == |cost| == |start| == DCTSIZE2 && p.ss <= i <= p.se && Solved(p, inf, coef, cost, start, i)
    ensures Solved(p, inf, coef[i := v], cost[i := c], start[i := s], i)
  {
    hide Beats, IsValue, Available, Edge, NBits;
    var cost', coef', start' := cost[i := c], coef[i := v], start[i := s];
    forall m | p.ss <= m < i ensures Settled(p, inf, cost', coef'[m], start'[m], m) {
      assert Settled(p, inf, cost, coef[m], start[m], m);
    }
  }

  /** One cheaper candidate found. */
  lemma Improved(p: Task, inf: real, coef: seq<Coef>, cost: seq<real>, start: seq<int>, zeroDist: seq<real>, i: nat,
                 j: nat, k: nat, c: real)
    requires |coef| == |cost| == |start| == |zeroDist| == DCTSIZE2 && Trying(p, inf, coef, cost, start, zeroDist, i)
    requires p.ss - 1 <= j < i && k < NBits(QVal(p, i)) && Available(p, i - 1 - j, Value(p, i, k))
    requires cost[j] <= c && 0.0 <= cost[j] && c == Edge(p, cost[j], j, i, Value(p, i, k)) && c < cost[i]
    ensures Trying(p, inf, coef[i := Value(p, i, k)], cost[i := c], start[i := j], zeroDist, i)
  {
    hide Beats, Available, Edge, NBits, Value, QVal, Solved, ZeroDist;
    StillSolved(p, inf, coef, cost, start, i, Value(p, i, k), c, j);
    assert IsValue(p, i, Value(p, i, k));
  }

  lemma ReachedCost(p: Task, inf: real, coef: seq<Coef>, cost: seq<real>, start: seq<int>, i: nat, j: nat)
    requires |coef| == |cost| == |start| == DCTSIZE2 && p.ss <= i <= p.se && Solved(p, inf, coef, cost, start, i)
             && p.ss - 1 <= j < i
    ensures 0.0 <= cost[j] <= inf && (j >= p.ss && cost[j] < inf ==> coef[j] != 0)
  {
    hide Beats, IsValue, Available, Edge, NBits;
    if j >= p.ss { assert Settled(p, inf, cost, coef[j], start[j], j); }
  }

  /** The squared error, taken from the magnitudes. */
  method CandidateDist(p: Task, i: nat, k: nat) returns (dist: real)
    requires p.ss <= i <= p.se && k < NBits(QVal(p, i))
    ensures dist == Dist(p, i, Value(p, i, k))
  {
    hide QVal, NBits, Candidate;
    var delta := Candidate(p, i, k) * p.step[i] - Abs(p.src[i]);
    dist := (delta * delta) as real * p.weight[i];
    DistOfMagnitude(p, i, Candidate(p, i, k));
  }

  /** All candidates at `i` after a nonzero value at `j`. */
  method TryPredecessor(p: Task, ghost inf: real, coef: array<Coef>, cost: array<real>, start: array<int>,
                        zeroDist: array<real>, i: nat, j: nat)
    requires coef.Length == cost.Length == start.Length == zeroDist.Length == DCTSIZE2 && cost != zeroDist
    requires Trying(p, inf, coef[..], cost[..], start[..], zeroDist[..], i) && p.ss - 1 <= j < i
    modifies coef, cost, start
    ensures Trying(p, inf, coef[..], cost[..], start[..], zeroDist[..], i) && cost[i] <= old(cost[i])
    ensures coef[..] == old(coef[..])[i := coef[i]] && cost[..] == old(cost[..])[i := cost[i]]
            && start[..] == old(start[..])[i := start[i]]
    ensures Beats(p, inf, cost[j], cost[i], j, i, NBits(QVal(p, i)))
  {
    hide Trying, QVal, Value, Candidate, NBits, Dist, Edge, ZeroDist;
    ghost var coef0, cost0, start0 := coef[..], cost[..], start[..];
    TryingParts(p, inf, coef0, cost0, start0, zeroDist[..], i, j);
    if j != p.ss - 1 && coef[j] == 0 {
      return;
    }
    var zeroRun := i - 1 - j;
    if zeroRun / 16 > 0 && p.tbl.ehufsi[ZRL] == 0 {
      return;
    }
    var runBits := (zeroRun / 16) * p.tbl.ehufsi[ZRL];
    var n := NBits(QVal(p, i));
    for k := 0 to n
      invariant coef[..] == coef0[i := coef[i]] && cost[..] == cost0[i := cost[i]] && start[..] == start0[i := start[i]]
      invariant Trying(p, inf, coef[..], cost[..], start[..], zeroDist[..], i) && cost[i] <= cost0[i]
      invariant Beats(p, inf, cost0[j], cost[i], j, i, k)
    {
      var value := Value(p, i, k);
      var coefBits := p.tbl.ehufsi[16 * (zeroRun % 16) + (k + 1)];
      if coefBits != 0 {
        var dist := CandidateDist(p, i, k);
        var rate := coefBits + (k + 1) + runBits;
        var c := rate as real + dist;
        c := c + (zeroDist[i - 1] - zeroDist[j] + cost[j]);
        assert c == Edge(p, cost0[j], j, i, value) by { EdgeIs(p, cost0[j], j, i, value); }
        if c < cost[i] {
          EdgeGrows(p, cost0[j], cost0[j], j, i, value);
          Improved(p, inf, coef[..], cost[..], start[..], zeroDist[..], i, j, k, c);
          coef[i], cost[i], start[i] := value, c, j;
          assert coef[..] == coef0[i := value] && cost[..] == cost0[i := c] && start[..] == start0[i := j];
        }
      }
    }
  }

  lemma EdgeIs(p: Task, c: real, j: nat, i: nat, v: int)
    requires p.ss - 1 <= j < i <= p.se && NBits(Abs(v)) <= 14
    ensures Edge(p, c, j, i, v) == Rate(p, i - 1 - j, v) as real + Dist(p, i, v)
              + (ZeroDist(p, i - 1) - ZeroDist(p, j) + c)
  {
  }

  lemma TryingParts(p: Task, inf: real, coef: seq<Coef>, cost: seq<real>, start: seq<int>, zeroDist: seq<real>, i: nat,
                    j: nat)
    requires |coef| == |cost| == |start| == |zeroDist| == DCTSIZE2 && Trying(p, inf, coef, cost, start, zeroDist, i)
    requires p.ss - 1 <= j < i
    ensures p.ss <= i <= p.se && zeroDist[i - 1] == ZeroDist(p, i - 1) && zeroDist[j] == ZeroDist(p, j)
    ensures 0.0 <= cost[j] <= inf && (j >= p.ss && cost[j] < inf ==> coef[j] != 0)
    ensures 0.0 <= cost[i] <= inf
  {
    hide Solved, Reached;
    ReachedCost(p, inf, coef, cost, start, i, j);
  }

  /** The loop over one position: the zeros' distortion, the candidates, and
      every position the previous nonzero value can have.
   */
  method SearchPosition(p: Task, inf: real, coef: array<Coef>, cost: array<real>, start: array<int>,
                        zeroDist: array<real>, i: nat)
    requires coef.Length == cost.Length == start.Length == zeroDist.Length == DCTSIZE2 && cost != zeroDist
    requires p.ss <= i <= p.se && Solved(p, inf, coef[..], cost[..], start[..], i)
    requires forall m: nat :: p.ss - 1 <= m < i ==> zeroDist[m] == ZeroDist(p, m)
    modifies coef, cost, start, zeroDist
    ensures Solved(p, inf, coef[..], cost[..], start[..], i + 1)
    ensures forall m: nat :: p.ss - 1 <= m <= i ==> zeroDist[m] == ZeroDist(p, m)
    ensures coef[..] == old(coef[..])[i := coef[i]]
  {
    hide QVal, NBits, Dist, ZeroDist, Trying, Solved;
    zeroDist[i] := Dist(p, i, 0) + zeroDist[i - 1];
    assert zeroDist[i] == ZeroDist(p, i) by { ZeroDistNext(p, i); }
    ghost var coef0, cost0, start0, zd := coef[..], cost[..], start[..], zeroDist[..];
    StartTrying(p, inf, coef0, cost0, start0, zd, i);
    var qval := QVal(p, i);
    cost[i] := inf;
    if qval == 0 {
      coef[i] := 0;
      NoCandidates(p, inf, coef0, cost0, start0, i);
      assert coef[..] == coef0[i := 0] && cost[..] == cost0[i := inf];
      return;
    }
    assert cost[..] == cost0[i := inf];
    for j := p.ss - 1 to i
      invariant coef[..] == coef0[i := coef[i]] && cost[..] == cost0[i := cost[i]] && zeroDist[..] == zd
      invariant Trying(p, inf, coef[..], cost[..], start[..], zd, i)
      invariant BeatsAll(p, inf, cost0, cost[i], i, j)
    {
      ghost var before := cost[i];
      TryPredecessor(p, inf, coef, cost, start, zeroDist, i, j);
      StillBeats(p, inf, cost0, before, cost[i], i, j);
    }
    TriedAll(p, inf, coef[..], cost[..], start[..], zd, cost0, i);
  }

  lemma ZeroDistNext(p: Task, i: nat)
    requires p.ss <= i <= p.se
    ensures ZeroDist(p, i) == Dist(p, i, 0) + ZeroDist(p, i - 1)
  {
  }

  lemma StartTrying(p: Task, inf: real, coef: seq<Coef>, cost: seq<real>, start: seq<int>, zeroDist: seq<real>, i: nat)
    requires |coef| == |cost| == |start| == |zeroDist| == DCTSIZE2 && p.ss <= i <= p.se
             && Solved(p, inf, coef, cost, start, i)
    requires forall m: nat :: p.ss - 1 <= m < i ==> zeroDist[m] == ZeroDist(p, m)
    ensures Trying(p, inf, coef, cost[i := inf], start, zeroDist, i)
  {
    hide Settled, ZeroDist;
    StillSolved(p, inf, coef, cost, start, i, coef[i], inf, start[i]);
    assert coef[i := coef[i]] == coef && start[i := start[i]] == start;
  }

  /** A coefficient without candidates ends no path. */
  lemma NoCandidates(p: Task, inf: real, coef: seq<Coef>, cost: seq<real>, start: seq<int>, i: nat)
    requires |coef| == |cost| == |start| == DCTSIZE2 && p.ss <= i <= p.se && Solved(p, inf, coef, cost, start, i)
    requires QVal(p, i) == 0
    ensures Solved(p, inf, coef[i := 0], cost[i := inf], start, i + 1)
  {
    hide Settled, QVal;
    assert NBits(0) == 0;
    StillSolved(p, inf, coef, cost, start, i, 0, inf, start[i]);
    assert start[i := start[i]] == start;
    assert Settled(p, inf, cost[i := inf], 0, start[i], i) by { EmptySettled(p, inf, cost[i := inf], start[i], i); }
  }

  lemma EmptySettled(p: Task, inf: real, cost: seq<real>, s: int, i: nat)
    requires |cost| == DCTSIZE2 && p.ss <= i <= p.se && NBits(QVal(p, i)) == 0 && cost[i] == inf && inf > 0.0
    ensures Settled(p, inf, cost, 0, s, i)
  {
  }

  lemma StillBeats(p: Task, inf: real, cost: seq<real>, c: real, c': real, i: nat, j: nat)
    requires |cost| == DCTSIZE2 && p.ss <= i <= p.se && p.ss - 1 <= j < i
    requires BeatsAll(p, inf, cost, c, i, j) && c' <= c && Beats(p, inf, cost[j], c', j, i, NBits(QVal(p, i)))
    ensures BeatsAll(p, inf, cost, c', i, j + 1)
  {
    hide QVal, NBits, Edge, Available, Value;
  }

  lemma TriedAll(p: Task, inf: real, coef: seq<Coef>, cost: seq<real>, start: seq<int>, zeroDist: seq<real>,
                 cost0: seq<real>, i: nat)
    requires |coef| == |cost| == |start| == |zeroDist| == |cost0| == DCTSIZE2
             && Trying(p, inf, coef, cost, start, zeroDist, i)
    requires cost == cost0[i := cost[i]] && BeatsAll(p, inf, cost0, cost[i], i, i)
    ensures Solved(p, inf, coef, cost, start, i + 1)
  {
    hide QVal, NBits, Beats, Reached, ZeroDist;
    assert Settled(p, inf, cost, coef[i], start[i], i);
  }

  // ----- The end of the block ---------------------------------------------------------------------------------

  datatype EobSearchResult = EobSearchResult(lastCoeffIdx: nat, bestCost: real, costWithoutEob: real,
                                             costAllZeros: real, hasEob: nat)

  /** The cost when the last nonzero value is at `l`. */
  ghost function EndCost(p: Task, cost: seq<real>, l: nat): real
    requires |cost| == DCTSIZE2 && p.ss - 1 <= l <= p.se
  {
    cost[l] + (ZeroDist(p, p.se) - ZeroDist(p, l)) + EobSize(p, l) as real
  }

  /** find_block_eob_position. */
  method FindBlockEobPosition(p: Task, coef: array<Coef>, cost: array<real>, zeroDist: array<real>)
      returns (r: EobSearchResult)
    requires coef.Length == cost.Length == zeroDist.Length == DCTSIZE2 && cost[p.ss - 1] == 0.0
    requires forall m: nat :: p.ss - 1 <= m <= p.se ==> zeroDist[m] == ZeroDist(p, m)
    ensures p.ss - 1 <= r.lastCoeffIdx <= p.se && (r.lastCoeffIdx >= p.ss ==> coef[r.lastCoeffIdx] != 0)
    ensures r.bestCost == EndCost(p, cost[..], r.lastCoeffIdx)
    ensures r.bestCost <= EndCost(p, cost[..], p.ss - 1)
    ensures r.lastCoeffIdx >= p.ss ==> r.bestCost < EndCost(p, cost[..], p.ss - 1)
    ensures forall l :: p.ss <= l <= p.se && coef[l] != 0 ==> r.bestCost <= EndCost(p, cost[..], l)
    ensures r.bestCost == r.costWithoutEob + EobSize(p, r.lastCoeffIdx) as real && r.costAllZeros == ZeroDist(p, p.se)
    ensures r.hasEob == if r.lastCoeffIdx == p.ss - 1 then 2 else if r.lastCoeffIdx < p.se then 1 else 0
  {
    hide ZeroDist;
    assert ZeroDist(p, p.ss - 1) == 0.0 by { NoZeros(p); }
    var eobCost := p.tbl.ehufsi[0] as real;
    var last, allZeros := p.ss - 1, zeroDist[p.se];
    var best, without := allZeros + eobCost, allZeros;
    for i := p.ss to p.se + 1
      invariant p.ss - 1 <= last <= p.se && (last >= p.ss ==> coef[last] != 0)
      invariant best == EndCost(p, cost[..], last) && best == without + EobSize(p, last) as real
      invariant best <= EndCost(p, cost[..], p.ss - 1) && (last >= p.ss ==> best < EndCost(p, cost[..], p.ss - 1))
      invariant forall l :: p.ss <= l < i && coef[l] != 0 ==> best <= EndCost(p, cost[..], l)
    {
      if coef[i] != 0 {
        var c := cost[i] + zeroDist[p.se] - zeroDist[i];
        var cWithoutEob := c;
        if i < p.se {
          c := c + eobCost;
        }
        if c < best {
          best, last, without := c, i, cWithoutEob;
        }
      }
    }
    r := EobSearchResult(last, best, without, allZeros,
                         (if last < p.se then 1 else 0) + (if last == p.ss - 1 then 1 else 0));
  }

  lemma NoZeros(p: Task)
    ensures ZeroDist(p, p.ss - 1) == 0.0
  {
  }

  ghost function ZeroedBand(p: Task, b: seq<Coef>): Block
    requires |b| == DCTSIZE2
  {
    seq(DCTSIZE2, m requires 0 <= m < DCTSIZE2 => if p.ss <= m <= p.se then 0 else b[m])
  }

  lemma PathAt(p: Task, inf: real, coef: seq<Coef>, cost: seq<real>, start: seq<int>, l: nat)
    requires |coef| == |cost| == |start| == DCTSIZE2 && Solved(p, inf, coef, cost, start, p.se + 1)
    requires p.ss - 1 <= l <= p.se && cost[l] < inf
    ensures var path := Path(p, coef, start, ZeroedBand(p, coef), l);
            && (forall m :: l < m <= p.se ==> path[m] == 0)
            && (forall m :: 0 <= m < DCTSIZE2 && !(p.ss <= m <= p.se) ==> path[m] == coef[m])
            && (l >= p.ss ==> p.ss - 1 <= start[l] < l && cost[start[l]] < inf && path[l] == coef[l]
                              && forall m :: 0 <= m < l ==>
                                   path[m] == Path(p, coef, start, ZeroedBand(p, coef), start[l])[m])
  {
    hide NBits, Edge, Sized, Available, TokensTo, PrefixCost, IsValue, BeatsAll;
    PathCosts(p, inf, coef, cost, start, ZeroedBand(p, coef), l);
    if l >= p.ss { assert Settled(p, inf, cost, coef[l], start[l], l); }
  }

  /** zero_trailing_coefficients: only the path is left. */
  method ZeroTrailingCoefficients(p: Task, ghost inf: real, coef: array<Coef>, ghost cost: seq<real>, start: array<int>,
                                  lastCoeffIdx: nat)
    requires coef.Length == |cost| == start.Length == DCTSIZE2 && Solved(p, inf, coef[..], cost, start[..], p.se + 1)
    requires p.ss - 1 <= lastCoeffIdx <= p.se && cost[lastCoeffIdx] < inf
    modifies coef
    ensures coef[..] == Path(p, old(coef[..]), start[..], ZeroedBand(p, old(coef[..])), lastCoeffIdx)
  {
    hide Solved, Path, ZeroedBand;
    ghost var coef0, base := coef[..], ZeroedBand(p, coef[..]);
    ghost var path := Path(p, coef0, start[..], base, lastCoeffIdx);
    PathAt(p, inf, coef0, cost, start[..], lastCoeffIdx);
    var i: int, last: int := p.se, lastCoeffIdx;
    while i >= p.ss
      invariant p.ss - 2 <= i <= p.se
      invariant i >= p.ss - 1 ==> p.ss - 1 <= last <= i && cost[last] < inf
      invariant i >= p.ss - 1 ==> forall m :: p.ss <= m <= i ==> path[m] == Path(p, coef0, start[..], base, last)[m]
      invariant forall m :: 0 <= m < DCTSIZE2 ==> coef[m] == if p.ss <= m <= i then coef0[m] else path[m]
    {
      PathAt(p, inf, coef0, cost, start[..], last);
      while i > last
        invariant last <= i <= p.se
        invariant forall m :: p.ss <= m <= i ==> path[m] == Path(p, coef0, start[..], base, last)[m]
        invariant forall m :: 0 <= m < DCTSIZE2 ==> coef[m] == if p.ss <= m <= i then coef0[m] else path[m]
      {
        coef[i] := 0;
        i := i - 1;
      }
      last := start[i];
      i := i - 1;
    }
  }

  // ----- The whole block -----------------------------------------------------------------------------------------

  ghost function LastNonzero(p: Task, b: Block, l: nat): (r: nat)
    requires p.ss - 1 <= l <= p.se && ZeroBetween(b, l + 1, p.se + 1)
    ensures p.ss - 1 <= r <= l && (r >= p.ss ==> b[r] != 0) && ZeroBetween(b, r + 1, p.se + 1)
    decreases l
  {
    if l < p.ss || b[l] != 0 then l else LastNonzero(p, b, l - 1)
  }

  /** Every end the search left out, and every block it never built, costs no less. */
  lemma NoBlockCostsLess(p: Task, inf: real, coef: seq<Coef>, cost: seq<real>, start: seq<int>, best: real, b: Block)
    requires |coef| == |cost| == |start| == DCTSIZE2 && Solved(p, inf, coef, cost, start, p.se + 1) && Admissible(p, b)
    requires best <= EndCost(p, cost, p.ss - 1) <= inf
    requires forall l :: p.ss <= l <= p.se && coef[l] != 0 ==> best <= EndCost(p, cost, l)
    ensures best <= Cost(p, b)
  {
    hide NBits, Sized, TokensTo, IsValue, ZeroDist, Settled, PrefixCost, Cost;
    var l := LastNonzero(p, b, p.se);
    CostFrom(p, b, l);
    NoPathCostsLess(p, inf, coef, cost, start, b, l);
    ZeroDistGrows(p, l, p.se);
    if l >= p.ss { SettledAt(p, inf, cost, coef[l], start[l], l); }
  }

  lemma SettledAt(p: Task, inf: real, cost: seq<real>, v: Coef, s: int, i: nat)
    requires |cost| == DCTSIZE2 && p.ss <= i <= p.se && Settled(p, inf, cost, v, s, i)
    ensures 0.0 <= cost[i] <= inf && (cost[i] < inf ==> v != 0)
  {
    hide BeatsAll, Edge, IsValue, Available, NBits;
  }

  /** The path kept costs what the search reported. */
  lemma KeptPath(p: Task, inf: real, coef: seq<Coef>, cost: seq<real>, start: seq<int>, l: nat)
    requires |coef| == |cost| == |start| == DCTSIZE2 && Solved(p, inf, coef, cost, start, p.se + 1)
    requires p.ss - 1 <= l <= p.se && cost[l] < inf
    ensures var b := Path(p, coef, start, ZeroedBand(p, coef), l);
            && Admissible(p, b) && Cost(p, b) == EndCost(p, cost, l)
            && (l >= p.ss ==> b[l] != 0) && ZeroBetween(b, l + 1, p.se + 1)
            && forall m :: 0 <= m < DCTSIZE2 && !(p.ss <= m <= p.se) ==> b[m] == coef[m]
  {
    hide NBits, Sized, TokensTo, IsValue, ZeroDist, Solved, PrefixCost, Path, Cost, Admissible;
    var b := Path(p, coef, start, ZeroedBand(p, coef), l);
    PathCosts(p, inf, coef, cost, start, ZeroedBand(p, coef), l);
    CostFrom(p, b, l);
  }

  /** The AC part of quantize_trellis for one block.  COST_INFINITY has to be at
      least the cost of sending no coefficient at all.
   */
  method OptimizeBlock(p: Task, coef: array<Coef>, inf: real) returns (r: EobSearchResult)
    requires coef.Length == DCTSIZE2 && 0.0 < inf && ZeroDist(p, p.se) + p.tbl.ehufsi[0] as real <= inf
    modifies coef
    ensures Admissible(p, coef[..]) && Cost(p, coef[..]) == r.bestCost
    ensures forall b: Block :: Admissible(p, b) ==> Cost(p, coef[..]) <= Cost(p, b)
    ensures forall b: Block :: InReach(p, b) && Sized(p.tbl, ReachTokens(p, b)) ==> Cost(p, coef[..]) <= ReachCost(p, b)
    ensures forall m :: 0 <= m < DCTSIZE2 && !(p.ss <= m <= p.se) ==> coef[m] == old(coef[m])
    ensures p.ss - 1 <= r.lastCoeffIdx <= p.se && (r.lastCoeffIdx >= p.ss ==> coef[r.lastCoeffIdx] != 0)
    ensures ZeroBetween(coef[..], r.lastCoeffIdx + 1, p.se + 1)
    ensures r.hasEob == if r.lastCoeffIdx == p.ss - 1 then 2 else if r.lastCoeffIdx < p.se then 1 else 0
  {
    hide Solved, ZeroDist, Cost, Admissible, QVal, InReach, Sized, ReachCost, ReachTokens;
    var cost, start, zeroDist := new real[DCTSIZE2](_ => 0.0), new int[DCTSIZE2](_ => 0), new real[DCTSIZE2](_ => 0.0);
    NoZeros(p);
    ghost var coef0 := coef[..];
    assert Solved(p, inf, coef[..], cost[..], start[..], p.ss) by {
      NothingSearched(p, inf, coef[..], cost[..], start[..]);
    }
    for i := p.ss to p.se + 1
      invariant Solved(p, inf, coef[..], cost[..], start[..], i)
      invariant forall m: nat :: p.ss - 1 <= m < i ==> zeroDist[m] == ZeroDist(p, m)
      invariant forall m :: 0 <= m < DCTSIZE2 && !(p.ss <= m < i) ==> coef[m] == coef0[m]
    {
      SearchPosition(p, inf, coef, cost, start, zeroDist, i);
    }
    FirstCost(p, inf, coef[..], cost[..], start[..]);
    r := FindBlockEobPosition(p, coef, cost, zeroDist);
    ghost var coef1, l := coef[..], r.lastCoeffIdx;
    assert EndCost(p, cost[..], p.ss - 1) <= inf;
    EndReached(p, inf, coef1, cost[..], start[..], l);
    KeptPath(p, inf, coef1, cost[..], start[..], l);
    ZeroTrailingCoefficients(p, inf, coef, cost[..], start, r.lastCoeffIdx);
    forall b: Block | Admissible(p, b) ensures r.bestCost <= Cost(p, b) {
      NoBlockCostsLess(p, inf, coef1, cost[..], start[..], r.bestCost, b);
    }
    BestInReach(p, coef[..]);
  }

  lemma NothingSearched(p: Task, inf: real, coef: seq<Coef>, cost: seq<real>, start: seq<int>)
    requires |coef| == |cost| == |start| == DCTSIZE2 && cost[p.ss - 1] == 0.0 && inf > 0.0
    ensures Solved(p, inf, coef, cost, start, p.ss)
  {
  }

  lemma FirstCost(p: Task, inf: real, coef: seq<Coef>, cost: seq<real>, start: seq<int>)
    requires |coef| == |cost| == |start| == DCTSIZE2 && Solved(p, inf, coef, cost, start, p.se + 1)
    ensures cost[p.ss - 1] == 0.0
  {
    hide Settled;
  }

  /** The end chosen is one that was reached. */
  lemma EndReached(p: Task, inf: real, coef: seq<Coef>, cost: seq<real>, start: seq<int>, l: nat)
    requires |coef| == |cost| == |start| == DCTSIZE2 && Solved(p, inf, coef, cost, start, p.se + 1)
             && p.ss - 1 <= l <= p.se
    requires l >= p.ss ==> EndCost(p, cost, l) < EndCost(p, cost, p.ss - 1) <= inf
    ensures cost[l] < inf
  {
    hide Settled, ZeroDist;
    ZeroDistGrows(p, l, p.se);
  }
}
