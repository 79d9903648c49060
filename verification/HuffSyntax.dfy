/** Coefficients as Huffman symbols and raw bits (sections F.1.2, F.2.2 and
    G.1.2.2 of ITU-T T.81), as jchuff.c and jcphuff.c send them and jdhuff.c
    and jdphuff.c read them back.
 */
module HuffSyntax {
  import opened CodeBytes
  import opened Coefficients
  import opened AcSyntax
  import opened HuffTokens

  // ----- Values ---------------------------------------------------------------------------

  /** JPEG_NBITS. */
  function NBits(v: nat): nat {
    if v == 0 then 0 else 1 + NBits(v / 2)
  }

  lemma {:induction false} NBitsBound(v: nat, k: nat)
    ensures NBits(v) <= k <==> v < Pow2(k)
    decreases v
  {
    if v > 0 && k > 0 { NBitsBound(v / 2, k - 1); }
  }

  /** The bits sent after the category: the value if positive, the complement of
      its magnitude if negative.
   */
  function ValueBits(x: int): nat {
    NBitsBound(Abs(x), NBits(Abs(x)));
    if x >= 0 then x else x + Pow2(NBits(Abs(x))) - 1
  }

  /** HUFF_EXTEND. */
  function Extend(v: nat, n: nat): int
    requires n >= 1
  {
    if v < Pow2(n - 1) then v - Pow2(n) + 1 else v
  }

  lemma ExtendInverts(x: int)
    requires x != 0
    ensures NBits(Abs(x)) >= 1
    ensures Extend(LowPart(ValueBits(x), NBits(Abs(x))), NBits(Abs(x))) == x
  {
    var n := NBits(Abs(x));
    NBitsBound(Abs(x), n);
    NBitsBound(Abs(x), n - 1);
    LowPartWhole(ValueBits(x), n);
  }

  // ----- A band of coefficients -------------------------------------------------------------

  const ZRL := 0xF0

  /** The point-transformed coefficient at `k`. */
  function Transformed(b: Block, k: nat, al: nat): int
    requires k < DCTSIZE2
  {
    Signed(Mag(b[k], al), b[k] < 0)
  }

  lemma TransformedValue(b: Block, k: nat, al: nat)
    requires k < DCTSIZE2
    ensures Abs(Transformed(b, k, al)) == Mag(b[k], al)
    ensures Transformed(b, k, al) == 0 <==> Mag(b[k], al) == 0
    ensures ShiftUp(Transformed(b, k, al), al) == Approx(b[k], al)
    ensures -0x8000 <= Approx(b[k], al) < 0x8000
  {
    ApproxIsCoef(b[k], al);
    ShiftUpSign(Mag(b[k], al), al);
  }

  /** Coefficients the encoder does not reject. */
  ghost predicate BandInRange(b: Block, ss: nat, se: nat, al: nat, maxBits: nat)
    requires se < DCTSIZE2
  {
    forall k :: ss <= k <= se ==> NBits(Mag(b[k], al)) <= maxBits
  }

  /** `q` runs of 16 zeros. */
  function LongRuns(tbl: nat, q: nat): seq<Token> {
    if q == 0 then [] else [Symbol(tbl, ZRL)] + LongRuns(tbl, q - 1)
  }

  /** The symbol and bits for a nonzero value after fewer than 16 zeros. */
  function Coded(tbl: nat, r: nat, x: int): seq<Token>
    requires r < 16 && NBits(Abs(x)) <= 15
  {
    [Symbol(tbl, 16 * r + NBits(Abs(x)))] + [Raw(ValueBits(x), NBits(Abs(x)))]
  }

  /** Figure F.2 from position `k` with `r` zeros before it, up to the last
      nonzero coefficient.
   */
  function BandTokens(tbl: nat, b: Block, k: nat, r: nat, se: nat, al: nat): seq<Token>
    requires se < DCTSIZE2 && BandInRange(b, k, se, al, 15)
    decreases se + 1 - k
  {
    if k > se then []
    else
      var x := Transformed(b, k, al);
      TransformedValue(b, k, al);
      if x == 0 then BandTokens(tbl, b, k + 1, r + 1, se, al)
      else LongRuns(tbl, r / 16) + (Coded(tbl, r % 16, x) + BandTokens(tbl, b, k + 1, 0, se, al))
  }

  /** One coefficient further, in front of what follows the band. */
  lemma BandTokensStep(tbl: nat, b: Block, k: nat, r: nat, se: nat, al: nat, rest: seq<Token>)
    requires k <= se < DCTSIZE2 && BandInRange(b, k, se, al, 15)
    ensures BandInRange(b, k + 1, se, al, 15)
    ensures var x := Transformed(b, k, al);
            BandTokens(tbl, b, k, r, se, al) + rest
            == if x == 0 then BandTokens(tbl, b, k + 1, r + 1, se, al) + rest
               else LongRuns(tbl, r / 16) + (Coded(tbl, r % 16, x) + (BandTokens(tbl, b, k + 1, 0, se, al) + rest))
  {
    hide Coded, LongRuns, Transformed, Mag, NBits;
    TransformedValue(b, k, al);
    var x, tail := Transformed(b, k, al), BandTokens(tbl, b, k + 1, 0, se, al);
    if x != 0 {
      RegroupFour(LongRuns(tbl, r / 16), Coded(tbl, r % 16, x), tail, rest);
    }
  }

  lemma RegroupFour(a: seq<Token>, b: seq<Token>, c: seq<Token>, d: seq<Token>)
    ensures (a + (b + c)) + d == a + (b + (c + d))
  {
  }

  // ----- Reading a band -----------------------------------------------------------------------

  /** What reading a band leaves: the position reached and, after an
      end-of-band symbol, how many bands it ends.
   */
  datatype BandEnd<D> = BandEnd(dec: D, block: Block, k: nat, run: nat)

  /** jpeg_natural_order has extra entries for positions past the last one. */
  function Clamp(k: nat): (c: nat)
    ensures c < DCTSIZE2
  {
    if k < DCTSIZE2 then k else DCTSIZE2 - 1
  }

  /** The loop of decode_mcu_AC_first; without `runs`, of decode_mcu_slow. */
  function ReadBand<D>(src: Source<D>, d: D, tbl: nat, b: Block, k: nat, se: nat, al: nat, runs: bool): BandEnd<D>
    requires se < DCTSIZE2
    decreases se + 1 - k
  {
    if k > se then BandEnd(d, b, k, 0)
    else
      var (s, d1) := src.symbol(d, tbl);
      var r, n := s as nat / 16, s as nat % 16;
      if n != 0 then
        var (v, d2) := src.raw(d1, n);
        ReadBand(src, d2, tbl, b[Clamp(k + r) := ToCoef(ShiftUp(Extend(v, n), al))], k + r + 1, se, al, runs)
      else if r == 15 then ReadBand(src, d1, tbl, b, k + 16, se, al, runs)
      else if runs && r > 0 then
        var (v, d2) := src.raw(d1, r);
        BandEnd(d2, b, k, Pow2(r) + v)
      else BandEnd(d1, b, k, 1)
  }

  /** Skipping long runs. */
  lemma {:induction false} ReadLongRuns<D>(src: Source<D>, d: D, tbl: nat, b: Block, k: nat, q: nat, se: nat, al: nat,
                                           runs: bool, rest: seq<Token>, d': D) returns (mid: D)
    requires se < DCTSIZE2 && k + 16 * q <= se && Delivers(src, d, LongRuns(tbl, q) + rest, d')
    ensures Delivers(src, mid, rest, d')
    ensures ReadBand(src, d, tbl, b, k, se, al, runs) == ReadBand(src, mid, tbl, b, k + 16 * q, se, al, runs)
    decreases q
  {
    hide Delivers;
    if q == 0 {
      assert LongRuns(tbl, 0) + rest == rest;
      mid := d;
    } else {
      var tail := LongRuns(tbl, q - 1) + rest;
      assert LongRuns(tbl, q) + rest == [Symbol(tbl, ZRL)] + tail;
      DeliversSymbol(src, d, tbl, ZRL, tail, d');
      ReadZrl(src, d, tbl, b, k, se, al, runs);
      mid := ReadLongRuns(src, src.symbol(d, tbl).1, tbl, b, k + 16, q - 1, se, al, runs, rest, d');
    }
  }

  lemma ReadZrl<D>(src: Source<D>, d: D, tbl: nat, b: Block, k: nat, se: nat, al: nat, runs: bool)
    requires se < DCTSIZE2 && k <= se && src.symbol(d, tbl).0 == ZRL
    ensures ReadBand(src, d, tbl, b, k, se, al, runs)
            == ReadBand(src, src.symbol(d, tbl).1, tbl, b, k + 16, se, al, runs)
  {
  }

  /** One nonzero coefficient after fewer than 16 zeros. */
  lemma ReadCoded<D>(src: Source<D>, d: D, tbl: nat, b: Block, k: nat, r: nat, x: int, se: nat, al: nat, runs: bool,
                     rest: seq<Token>, d': D) returns (mid: D)
    requires x != 0 && NBits(Abs(x)) <= 15 && se < DCTSIZE2 && r < 16 && k + r <= se
    requires Delivers(src, d, Coded(tbl, r, x) + rest, d')
    ensures Delivers(src, mid, rest, d')
    ensures ReadBand(src, d, tbl, b, k, se, al, runs)
         == ReadBand(src, mid, tbl, b[k + r := ToCoef(ShiftUp(x, al))], k + r + 1, se, al, runs)
  {
    hide Delivers, ValueBits, ShiftUp, Extend, ToCoef, NBits, ReadBand;
    var n := NBits(Abs(x));
    ExtendInverts(x);
    var s: byte := 16 * r + n;
    assert Coded(tbl, r, x) + rest == [Symbol(tbl, s)] + ([Raw(ValueBits(x), n)] + rest);
    DeliversSymbol(src, d, tbl, s, [Raw(ValueBits(x), n)] + rest, d');
    DeliversRaw(src, src.symbol(d, tbl).1, ValueBits(x), n, rest, d');
    mid := src.raw(src.symbol(d, tbl).1, n).1;
    ReadValue(src, d, tbl, b, k, r, n, se, al, runs);
  }

  lemma ReadValue<D>(src: Source<D>, d: D, tbl: nat, b: Block, k: nat, r: nat, n: nat, se: nat, al: nat, runs: bool)
    requires se < DCTSIZE2 && r < 16 && 1 <= n < 16 && k + r <= se && src.symbol(d, tbl).0 as nat == 16 * r + n
    ensures var (v, d2) := src.raw(src.symbol(d, tbl).1, n);
            ReadBand(src, d, tbl, b, k, se, al, runs)
            == ReadBand(src, d2, tbl, b[k + r := ToCoef(ShiftUp(Extend(v, n), al))], k + r + 1, se, al, runs)
  {
    hide ShiftUp, Extend, ToCoef;
    assert (16 * r + n) / 16 == r && (16 * r + n) % 16 == n;
  }

  ghost predicate ZeroMags(b: Block, from: nat, to: nat, al: nat) {
    forall j :: from <= j < to && j < DCTSIZE2 ==> Mag(b[j], al) == 0
  }

  /** Reading follows coding up to the last nonzero coefficient.  The decoder is
      at `k0`, the encoder at `k`, and only zeros lie between.
   */
  lemma {:induction false} ReadBandInverts<D>(src: Source<D>, d: D, tbl: nat, b: Block, orig: Block, k0: nat, k: nat,
                                              se: nat, al: nat, runs: bool, rest: seq<Token>, d': D)
    returns (mid: D, b': Block, end: nat)
    requires se < DCTSIZE2 && k0 <= k <= se + 1 && BandInRange(orig, k, se, al, 15)
    requires ZeroMags(orig, k0, k, al) && ZeroFrom(b, k0, se)
    requires Delivers(src, d, BandTokens(tbl, orig, k, k - k0, se, al) + rest, d')
    ensures Delivers(src, mid, rest, d')
    ensures ReadBand(src, d, tbl, b, k0, se, al, runs) == ReadBand(src, mid, tbl, b', end, se, al, runs)
    ensures k0 <= end <= se + 1 && ZeroMags(orig, end, se + 1, al)
    ensures end > k0 ==> Mag(orig[end - 1], al) != 0
    ensures BandRead(b', b, orig, k0, se, al)
    decreases se + 1 - k
  {
    hide Delivers, ReadBand, Mag, Approx, Coded, LongRuns, Transformed, BandRead;
    if k > se {
      assert BandTokens(tbl, orig, k, k - k0, se, al) + rest == rest;
      mid, b', end := d, b, k0;
      NothingRead(b, orig, k0, se, al);
    } else {
      hide BandTokens;
      TransformedValue(orig, k, al);
      var x, r := Transformed(orig, k, al), k - k0;
      BandTokensStep(tbl, orig, k, r, se, al, rest);
      if x == 0 {
        mid, b', end := ReadBandInverts(src, d, tbl, b, orig, k0, k + 1, se, al, runs, rest, d');
      } else {
        var tail := BandTokens(tbl, orig, k + 1, 0, se, al) + rest;
        var q, m := r / 16, r % 16;
        var d1 := ReadLongRuns(src, d, tbl, b, k0, q, se, al, runs, Coded(tbl, m, x) + tail, d');
        var d2 := ReadCoded(src, d1, tbl, b, k0 + 16 * q, m, x, se, al, runs, tail, d');
        assert k0 + 16 * q + m == k;
        var b1 := b[k := Approx(orig[k], al)];
        assert ZeroFrom(b1, k + 1, se) && ZeroMags(orig, k + 1, k + 1, al);
        hide ZeroFrom, ZeroMags, BandInRange;
        mid, b', end := ReadBandInverts(src, d2, tbl, b1, orig, k + 1, k + 1, se, al, runs, rest, d');
        BandReadGap(b', b, orig, k0, k, se, al);
      }
    }
  }

  lemma NothingRead(b: Block, orig: Block, k0: nat, se: nat, al: nat)
    requires se < DCTSIZE2 && ZeroMags(orig, k0, se + 1, al) && ZeroFrom(b, k0, se)
    ensures BandRead(b, b, orig, k0, se, al)
  {
    forall j | k0 <= j <= se ensures b[j] == Approx(orig[j], al) {
      ApproxIsCoef(orig[j], al);
    }
  }

  /** A band read from `k + 1` on, with the coefficient at `k` set and zeros
      before it.
   */
  lemma BandReadGap(r: Block, b: Block, orig: Block, k0: nat, k: nat, se: nat, al: nat)
    requires k0 <= k <= se < DCTSIZE2 && -0x8000 <= Approx(orig[k], al) < 0x8000
    requires ZeroMags(orig, k0, k, al) && ZeroFrom(b, k0, se)
    requires BandRead(r, b[k := Approx(orig[k], al)], orig, k + 1, se, al)
    ensures BandRead(r, b, orig, k0, se, al)
  {
    forall j | k0 <= j < k ensures r[j] == Approx(orig[j], al) {
      ApproxIsCoef(orig[j], al);
    }
  }
}
