/** quantize_trellis (jcdctmgr.c) for one row of blocks, without optimization
    across end-of-block runs: AC coefficients block by block, DC coefficients
    along the row.
 */
module TrellisRow {
  import opened CodeBytes
  import opened Coefficients
  import opened HuffSyntax
  import opened HuffBlocks
  import HuffEncoder
  import opened TrellisCosts
  import opened TrellisReach
  import opened TrellisAc
  import opened TrellisDc

  /** What a block's band sends does not depend on its DC coefficient. */
  lemma CostIgnoresDc(p: Task, b: Block, v: Coef)
    requires Admissible(p, b)
    ensures Admissible(p, WithDc(b, v)) && Cost(p, WithDc(b, v)) == Cost(p, b)
  {
    hide IsValue, TokensTo, DistTo, Sized;
    assert Chosen(p, WithDc(b, v), p.se);
    SamePrefix(p, b, WithDc(b, v), p.se);
  }

  ghost predicate BandsAdmissible(tasks: seq<Task>, blocks: seq<Block>) {
    |tasks| == |blocks| && forall i :: 0 <= i < |tasks| ==> Admissible(tasks[i], blocks[i])
  }

  /** The AC costs of the first `n` blocks. */
  ghost function BandsCost(tasks: seq<Task>, blocks: seq<Block>, n: nat): real
    requires BandsAdmissible(tasks, blocks) && n <= |tasks|
  {
    if n == 0 then 0.0 else BandsCost(tasks, blocks, n - 1) + Cost(tasks[n - 1], blocks[n - 1])
  }

  /** Rows the trellis may choose, and what they cost. */
  ghost predicate RowAdmissible(tasks: seq<Task>, p: Row, blocks: seq<Block>) {
    BandsAdmissible(tasks, blocks) && |p.src| == |blocks| && FromCandidates(p, DcOf(blocks))
  }

  ghost function RowCost(tasks: seq<Task>, p: Row, blocks: seq<Block>): real
    requires RowAdmissible(tasks, p, blocks)
  {
    BandsCost(tasks, blocks, |blocks|) + DcCost(p, DcOf(blocks))
  }

  /** No band of this block can be cheaper. */
  ghost predicate BandOptimal(p: Task, b: Block) {
    && Admissible(p, b) && (forall c: Block :: Admissible(p, c) ==> Cost(p, b) <= Cost(p, c))
    && forall c: Block :: InReach(p, c) && Sized(p.tbl, ReachTokens(p, c)) ==> Cost(p, b) <= ReachCost(p, c)
  }

  lemma {:induction false} OptimalBandsCost(tasks: seq<Task>, blocks: seq<Block>, others: seq<Block>, n: nat)
    requires BandsAdmissible(tasks, blocks) && BandsAdmissible(tasks, others) && n <= |tasks|
    requires forall i :: 0 <= i < |tasks| ==> BandOptimal(tasks[i], blocks[i])
    ensures BandsCost(tasks, blocks, n) <= BandsCost(tasks, others, n)
    decreases n
  {
    hide Admissible, Cost, InReach, Sized, ReachCost, ReachTokens;
    if n > 0 { OptimalBandsCost(tasks, blocks, others, n - 1); }
  }

  lemma OptimalWithDc(p: Task, b: Block, v: Coef)
    requires BandOptimal(p, b)
    ensures BandOptimal(p, WithDc(b, v))
  {
    hide Admissible, Cost, InReach, Sized, ReachCost, ReachTokens;
    CostIgnoresDc(p, b, v);
  }

  /** All blocks of a row share the band, the table and the precision. */
  ghost predicate RowPosed(tasks: seq<Task>, p: Row, inf: real) {
    && |tasks| == |p.src| > 0 && 0.0 < inf
    && forall i :: 0 <= i < |tasks| ==> ZeroDist(tasks[i], tasks[i].se) + tasks[i].tbl.ehufsi[0] as real <= inf
  }

  /** The AC part of every block. */
  method QuantizeBands(tasks: seq<Task>, blocks: array<Block>, inf: real)
    requires |tasks| == blocks.Length && 0.0 < inf
    requires forall i :: 0 <= i < |tasks| ==> ZeroDist(tasks[i], tasks[i].se) + tasks[i].tbl.ehufsi[0] as real <= inf
    modifies blocks
    ensures forall i :: 0 <= i < |tasks| ==> BandOptimal(tasks[i], blocks[i])
    ensures forall i :: 0 <= i < |tasks| ==>
              forall m :: 0 <= m < DCTSIZE2 && !(tasks[i].ss <= m <= tasks[i].se) ==> blocks[i][m] == old(blocks[i])[m]
  {
    hide Admissible, Cost, ZeroDist, InReach, Sized, ReachCost, ReachTokens;
    ghost var start := blocks[..];
    for bi := 0 to |tasks|
      invariant forall i :: 0 <= i < bi ==> BandOptimal(tasks[i], blocks[i])
      invariant forall i :: 0 <= i < bi ==>
                  forall m :: 0 <= m < DCTSIZE2 && !(tasks[i].ss <= m <= tasks[i].se) ==> blocks[i][m] == start[i][m]
      invariant forall i :: bi <= i < |tasks| ==> blocks[i] == start[i]
    {
      var b := blocks[bi];
      var coef := new Coef[DCTSIZE2](m requires 0 <= m < DCTSIZE2 => b[m]);
      var r := OptimizeBlock(tasks[bi], coef, inf);
      blocks[bi] := coef[..];
    }
  }

  /** quantize_trellis: no row of admissible blocks has a smaller rate plus
      distortion; the predictor for the next row is the last DC coefficient left.
   */
  method QuantizeTrellis(tasks: seq<Task>, p: Row, blocks: array<Block>, inf: real, quantDc: bool) returns (last: int)
    requires RowPosed(tasks, p, inf) && blocks.Length == |tasks|
    modifies blocks
    ensures forall i :: 0 <= i < |tasks| ==> BandOptimal(tasks[i], blocks[i])
    ensures quantDc ==>
              RowAdmissible(tasks, p, blocks[..]) && last == blocks[|tasks| - 1][0] && Abs(last) < Pow2(p.maxBits)
    ensures quantDc ==> forall others: seq<Block> :: RowAdmissible(tasks, p, others) ==>
                          RowCost(tasks, p, blocks[..]) <= RowCost(tasks, p, others)
    ensures !quantDc ==> last == p.last && DcOf(blocks[..]) == old(DcOf(blocks[..]))
    ensures forall i :: 0 <= i < |tasks| ==>
              forall m :: 1 <= m < DCTSIZE2 && !(tasks[i].ss <= m <= tasks[i].se) ==> blocks[i][m] == old(blocks[i])[m]
  {
    hide Admissible, Cost, ZeroDist, BandOptimal, FromCandidates, DcCost;
    QuantizeBands(tasks, blocks, inf);
    last := p.last;
    if quantDc {
      ghost var banded := blocks[..];
      last := OptimizeDc(p, blocks);
      ghost var row := blocks[..];
      forall i | 0 <= i < |tasks| ensures BandOptimal(tasks[i], row[i]) {
        OptimalWithDc(tasks[i], banded[i], row[i][0]);
      }
      NoRowCostsLess(tasks, p, row);
    }
  }

  lemma NoRowCostsLess(tasks: seq<Task>, p: Row, row: seq<Block>)
    requires |tasks| == |row| == |p.src| && FromCandidates(p, DcOf(row))
    requires forall i :: 0 <= i < |tasks| ==> BandOptimal(tasks[i], row[i])
    requires forall us: seq<Coef> :: FromCandidates(p, us) && |us| == |p.src| ==> DcCost(p, DcOf(row)) <= DcCost(p, us)
    ensures RowAdmissible(tasks, p, row)
    ensures forall others: seq<Block> :: RowAdmissible(tasks, p, others) ==>
              RowCost(tasks, p, row) <= RowCost(tasks, p, others)
  {
    hide Admissible, Cost, FromCandidates, DcCost;
    assert BandsAdmissible(tasks, row);
    forall others: seq<Block> | RowAdmissible(tasks, p, others)
      ensures RowCost(tasks, p, row) <= RowCost(tasks, p, others)
    {
      OptimalBandsCost(tasks, row, others, |row|);
    }
  }

  /** For the whole band, what the trellis counts is what the sequential encoder
      sends after the DC difference.
   */
  lemma EncoderSends(p: Task, b: Block)
    requires p.ss == 1 && p.se == 63 && Chosen(p, b, 63)
    ensures BandInRange(b, 1, 63, 0, 15) && BandSent(p, b) == HuffEncoder.AcRest(0, b, 1, 0)
  {
    hide NBits, IsValue, BandTokens;
    ChosenInRange(p, b, 63);
    assert Mag(b[63], 0) == Abs(b[63]);
  }
}
