/** Why the few candidates of the AC trellis are enough: a block whose values need
    no more bits than the nearest multiples of their steps can be replaced, value
    by value, by candidates that are sent in as many bits and are no further away.
 */
module TrellisReach {
  import opened CodeBytes
  import opened Coefficients
  import opened DerivedTable
  import opened HuffTokens
  import opened HuffSyntax
  import opened TrellisCosts

  /** No coefficient of the band needs more bits than its rounded quotient. */
  ghost predicate InReach(p: Task, b: Block) {
    forall i :: p.ss <= i <= p.se ==> NBits(Abs(b[i])) <= NBits(QVal(p, i))
  }

  lemma ReachInRange(p: Task, b: Block)
    requires InReach(p, b)
    ensures forall i :: p.ss <= i <= p.se ==> NBits(Abs(b[i])) <= 14
    ensures BandInRange(b, p.ss, p.se, 0, 15)
  {
    hide NBits, QVal;
    forall i | p.ss <= i <= p.se ensures NBits(Abs(b[i])) <= 14 {
      NBitsBound(QVal(p, i), p.maxBits);
    }
    assert forall x: int :: Mag(x, 0) == Abs(x);
  }

  /** The values of the band as they are sent. */
  ghost function ReachTokens(p: Task, b: Block): seq<Token>
    requires InReach(p, b)
  {
    ReachInRange(p, b);
    BandTokens(0, b, p.ss, 0, p.se, 0)
  }

  /** Rate plus distortion of any block in reach. */
  ghost function ReachCost(p: Task, b: Block): real
    requires InReach(p, b)
  {
    var eob := if b[p.se] == 0 then [Symbol(0, 0)] else [];
    DistTo(p, b, p.se) + Size(p.tbl, ReachTokens(p, b) + eob) as real
  }

  /** Every nonzero value of the band replaced by the candidate of its category. */
  function Replaced(p: Task, b: Block): (c: Block)
    requires InReach(p, b)
  {
    seq(DCTSIZE2, i requires 0 <= i < DCTSIZE2 =>
      if p.ss <= i <= p.se && b[i] != 0 then CandidateLike(p, i, b[i]) else b[i])
  }

  function CandidateLike(p: Task, i: nat, v: Coef): (c: Coef)
    requires p.ss <= i <= p.se && v != 0 && NBits(Abs(v)) <= NBits(QVal(p, i))
    ensures c != 0 && NBits(Abs(c)) == NBits(Abs(v)) && IsValue(p, i, c)
    ensures Dist(p, i, c) <= Dist(p, i, v)
  {
    NBitsBound(Abs(v), 0);
    CandidateNearest(p, i, v);
    Value(p, i, NBits(Abs(v)) - 1)
  }

  lemma {:induction false} ReplacedNearer(p: Task, b: Block, i: nat)
    requires InReach(p, b) && p.ss - 1 <= i <= p.se
    ensures DistTo(p, Replaced(p, b), i) <= DistTo(p, b, i)
    decreases i
  {
    hide NBits, QVal, Dist;
    if i >= p.ss { ReplacedNearer(p, b, i - 1); }
  }

  /** The size of what is sent depends on the categories only. */
  lemma {:induction false} SameSizes(p: Task, b: Block, c: Block, k: nat, r: nat)
    requires p.ss <= k && forall i :: k <= i <= p.se ==> NBits(Abs(b[i])) == NBits(Abs(c[i])) <= 14
    requires BandInRange(b, k, p.se, 0, 15) && BandInRange(c, k, p.se, 0, 15)
    ensures var ts, us := BandTokens(0, b, k, r, p.se, 0), BandTokens(0, c, k, r, p.se, 0);
            Size(p.tbl, ts) == Size(p.tbl, us) && (Sized(p.tbl, ts) <==> Sized(p.tbl, us))
    decreases p.se + 1 - k
  {
    hide NBits, LongRuns, Coded, Size, Sized, BandInRange, RunTokens;
    if k <= p.se {
      Narrow(b, k, p.se, p.se);
      Narrow(c, k, p.se, p.se);
      NBitsBound(Abs(b[k]), 0);
      NBitsBound(Abs(c[k]), 0);
      if b[k] == 0 {
        ZeroAt(b, k, r, p.se);
        ZeroAt(c, k, r, p.se);
        SameSizes(p, b, c, k + 1, r + 1);
      } else {
        SameSizes(p, b, c, k + 1, 0);
        RunAndRest(p, b, k, r);
        RunAndRest(p, c, k, r);
      }
    }
  }

  lemma RunAndRest(p: Task, b: Block, k: nat, r: nat)
    requires p.ss <= k <= p.se && b[k] != 0 && NBits(Abs(b[k])) <= 14
    requires BandInRange(b, k, p.se, 0, 15) && BandInRange(b, k + 1, p.se, 0, 15)
    ensures var ts, rest := BandTokens(0, b, k, r, p.se, 0), BandTokens(0, b, k + 1, 0, p.se, 0);
            && Size(p.tbl, ts) == Rate(p, r, b[k]) + Size(p.tbl, rest)
            && (Sized(p.tbl, ts) <==> Available(p, r, b[k]) && Sized(p.tbl, rest))
  {
    hide NBits, LongRuns, Coded, Size, Sized, BandInRange, Rate, Available;
    var rest := BandTokens(0, b, k + 1, 0, p.se, 0);
    SplitAt(b, k, r, p.se, rest);
    assert BandTokens(0, b, k, r, p.se, 0) == RunTokens(r, b[k]) + rest by {
      assert LongRuns(0, r / 16) + (Coded(0, r % 16, b[k]) + rest)
          == (LongRuns(0, r / 16) + Coded(0, r % 16, b[k])) + rest;
    }
    RunTokensSize(p, r, b[k]);
    SizeConcat(p.tbl, RunTokens(r, b[k]), rest);
  }

  /** Admissible blocks are in reach, and cost what they cost. */
  lemma AdmissibleInReach(p: Task, b: Block)
    requires Admissible(p, b)
    ensures InReach(p, b) && Sized(p.tbl, ReachTokens(p, b)) && ReachCost(p, b) == Cost(p, b)
  {
    hide NBits, QVal, Value, Sized, Size;
    forall i | p.ss <= i <= p.se ensures NBits(Abs(b[i])) <= NBits(QVal(p, i)) {
      if b[i] != 0 {
        var k :| 0 <= k < NBits(QVal(p, i)) && b[i] == Value(p, i, k);
      } else {
        NBitsBound(0, 0);
      }
    }
  }

  /** Some admissible block costs no more. */
  lemma ReplacedCosts(p: Task, b: Block)
    requires InReach(p, b) && Sized(p.tbl, ReachTokens(p, b))
    ensures Admissible(p, Replaced(p, b)) && Cost(p, Replaced(p, b)) <= ReachCost(p, b)
  {
    hide NBits, QVal, Sized, Size, Value, DistTo, BandTokens;
    var c := Replaced(p, b);
    assert Chosen(p, c, p.se) by { hide IsValue; }
    ReachInRange(p, b);
    ChosenInRange(p, c, p.se);
    SameSizes(p, b, c, p.ss, 0);
    ReplacedNearer(p, b, p.se);
    var ts, us, eob := ReachTokens(p, b), TokensTo(p, c, p.se), if b[p.se] == 0 then [Symbol(0, 0)] else [];
    SizeConcat(p.tbl, ts, eob);
    SizeConcat(p.tbl, us, eob);
  }

  /** So a block no admissible one beats is not beaten by any block in reach. */
  lemma BestInReach(p: Task, b: Block)
    requires Admissible(p, b) && forall c: Block :: Admissible(p, c) ==> Cost(p, b) <= Cost(p, c)
    ensures forall c: Block :: InReach(p, c) && Sized(p.tbl, ReachTokens(p, c)) ==> Cost(p, b) <= ReachCost(p, c)
  {
    hide Admissible, Cost, InReach, Sized, ReachCost, ReachTokens, Replaced;
    forall c: Block | InReach(p, c) && Sized(p.tbl, ReachTokens(p, c)) ensures Cost(p, b) <= ReachCost(p, c) {
      ReplacedCosts(p, c);
    }
  }
}
