/** First scans of AC coefficients with runs of end-of-band (section G.1.2.2 of
    ITU-T T.81): the tokens of any number of blocks, and reading them back.
 */
module HuffAcFirst {
  import opened CodeBytes
  import opened Coefficients
  import opened AcSyntax
  import opened HuffTokens
  import opened HuffSyntax

  /** EOBRUN is sent before it gets larger than this. */
  const MAX_EOBRUN := 0x7FFF

  /** emit_eobrun: the run's category, then its bits below the top one. */
  function EobTokens(tbl: nat, e: nat): seq<Token>
    requires e <= MAX_EOBRUN
  {
    EobCategory(e);
    if e == 0 then []
    else if e == 1 then [Symbol(tbl, 0)]
    else [Symbol(tbl, 16 * (NBits(e) - 1))] + [Raw(e, NBits(e) - 1)]
  }

  lemma EobCategory(e: nat)
    requires e <= MAX_EOBRUN
    ensures NBits(e) <= 15 && (e >= 1 ==> NBits(e) >= 1) && (e > 1 ==> NBits(e) >= 2)
  {
    NBitsBound(e, 15);
    NBitsBound(e, 1);
    Pow2Add(8, 7);
    assert Pow2(8) == 0x100 && Pow2(7) == 0x80 && Pow2(1) == 2;
  }

  /** Whether the band has any coefficient to send. */
  predicate AnyNonzero(t: Band, b: Block)
    requires t.Valid()
  {
    exists k :: t.ss <= k <= t.se && Mag(b[k], t.al) != 0
  }

  ghost predicate InRange(t: Band, b: Block)
    requires t.Valid()
  {
    BandInRange(b, t.ss, t.se, t.al, 15)
  }

  /** What one block adds, with `e` bands already waiting to be ended. */
  function BlockTokens(t: Band, b: Block, e: nat): seq<Token>
    requires t.Valid() && InRange(t, b) && e < MAX_EOBRUN
  {
    (if AnyNonzero(t, b) then EobTokens(t.tbl, e) else [])
    + BandTokens(t.tbl, b, t.ss, 0, t.se, t.al)
    + if Waiting(t, b, e) == MAX_EOBRUN then EobTokens(t.tbl, MAX_EOBRUN) else []
  }

  /** Bands waiting after the block, before a full run is sent. */
  function Waiting(t: Band, b: Block, e: nat): nat
    requires t.Valid()
  {
    if Mag(b[t.se], t.al) != 0 then 0 else if AnyNonzero(t, b) then 1 else e + 1
  }

  function NextRun(t: Band, b: Block, e: nat): (e': nat)
    requires t.Valid() && e < MAX_EOBRUN
    ensures e' < MAX_EOBRUN
  {
    if Waiting(t, b, e) == MAX_EOBRUN then 0 else Waiting(t, b, e)
  }

  ghost predicate AllInRange(t: Band, bs: seq<Block>)
    requires t.Valid()
  {
    forall i :: 0 <= i < |bs| ==> InRange(t, bs[i])
  }

  /** The rest of the scan; at its end the waiting run is sent. */
  ghost function ScanTokens(t: Band, bs: seq<Block>, e: nat): seq<Token>
    requires t.Valid() && AllInRange(t, bs) && e < MAX_EOBRUN
    decreases |bs|
  {
    if bs == [] then EobTokens(t.tbl, e)
    else BlockTokens(t, bs[0], e) + ScanTokens(t, bs[1..], NextRun(t, bs[0], e))
  }

  // ----- Decoder --------------------------------------------------------------------------

  datatype BlocksRead<D> = BlocksRead(dec: D, blocks: seq<Block>, run: nat)

  /** decode_mcu_AC_first for each block; `run` bands are known to be ended. */
  ghost function ReadBlocks<D>(src: Source<D>, d: D, t: Band, known: seq<Block>, run: nat): (r: BlocksRead<D>)
    requires t.Valid()
    ensures |r.blocks| == |known|
    decreases |known|
  {
    if known == [] then BlocksRead(d, [], run)
    else if run > 0 then
      var rest := ReadBlocks(src, d, t, known[1..], run - 1);
      BlocksRead(rest.dec, [known[0]] + rest.blocks, rest.run)
    else
      var b := ReadBand(src, d, t.tbl, known[0], t.ss, t.se, t.al, true);
      var rest := ReadBlocks(src, b.dec, t, known[1..], if b.run > 0 then b.run - 1 else 0);
      BlocksRead(rest.dec, [b.block] + rest.blocks, rest.run)
  }

  // ----- Round trip --------------------------------------------------------------------------

  lemma ReadEob<D>(src: Source<D>, d: D, tbl: nat, b: Block, k: nat, se: nat, al: nat, e: nat, rest: seq<Token>, d': D)
      returns (mid: D)
    requires k <= se < DCTSIZE2 && 1 <= e <= MAX_EOBRUN && Delivers(src, d, EobTokens(tbl, e) + rest, d')
    ensures Delivers(src, mid, rest, d')
    ensures ReadBand(src, d, tbl, b, k, se, al, true) == BandEnd(mid, b, k, e)
  {
    hide Delivers, NBits, Pow2;
    EobCategory(e);
    if e == 1 {
      assert EobTokens(tbl, e) + rest == [Symbol(tbl, 0)] + rest;
      DeliversSymbol(src, d, tbl, 0, rest, d');
      mid := src.symbol(d, tbl).1;
    } else {
      var n := NBits(e) - 1;
      var s: byte := 16 * n;
      assert EobTokens(tbl, e) + rest == [Symbol(tbl, s)] + ([Raw(e, n)] + rest);
      DeliversSymbol(src, d, tbl, s, [Raw(e, n)] + rest, d');
      DeliversRaw(src, src.symbol(d, tbl).1, e, n, rest, d');
      mid := src.raw(src.symbol(d, tbl).1, n).1;
      TopBit(e);
      assert (16 * n) / 16 == n && (16 * n) % 16 == 0;
    }
  }

  /** A number is its top bit and the bits below. */
  lemma TopBit(e: nat)
    requires e >= 1
    ensures Pow2(NBits(e) - 1) + LowPart(e, NBits(e) - 1) == e
    decreases e
  {
    if e > 1 { TopBit(e / 2); }
  }

  /** A waiting run is sent as one, together with the empty blocks that follow:
      before the next block that is not empty, or when it is full, or at the
      end of the scan.
   */
  lemma {:induction false} PendingRun(t: Band, bs: seq<Block>, e: nat) returns (z: nat)
    requires t.Valid() && AllInRange(t, bs) && 1 <= e < MAX_EOBRUN
    ensures z <= |bs| && e + z <= MAX_EOBRUN
    ensures forall i :: 0 <= i < z ==> !AnyNonzero(t, bs[i])
    ensures ScanTokens(t, bs, e) == EobTokens(t.tbl, e + z) + ScanTokens(t, bs[z..], 0)
    decreases |bs|
  {
    hide EobTokens, AnyNonzero, BandTokens, BlockTokens, NextRun;
    z := 0;
    if bs == [] {
      NothingToEnd(t.tbl);
    } else if AnyNonzero(t, bs[0]) {
      NothingToEnd(t.tbl);
      RunBeforeBlock(t, bs[0], e);
      assert bs[0..] == bs;
    } else {
      EmptyBlock(t, bs[0], e);
      if e + 1 == MAX_EOBRUN {
        z := 1;
      } else {
        var z1 := PendingRun(t, bs[1..], e + 1);
        z := z1 + 1;
        assert bs[1..][z1..] == bs[z..];
        assert [] + ScanTokens(t, bs[1..], e + 1) == ScanTokens(t, bs[1..], e + 1);
        assert forall i :: 1 <= i < z ==> bs[i] == bs[1..][i - 1];
      }
    }
  }

  lemma NothingToEnd(tbl: nat)
    ensures EobTokens(tbl, 0) == []
  {
  }

  /** The waiting run goes out before anything of the block. */
  lemma RunBeforeBlock(t: Band, b: Block, e: nat)
    requires t.Valid() && InRange(t, b) && AnyNonzero(t, b) && e < MAX_EOBRUN
    ensures BlockTokens(t, b, e) == EobTokens(t.tbl, e) + BlockTokens(t, b, 0)
    ensures NextRun(t, b, e) == NextRun(t, b, 0)
  {
  }

  lemma {:induction false} EmptyTokens(tbl: nat, b: Block, k: nat, r: nat, se: nat, al: nat)
    requires se < DCTSIZE2 && BandInRange(b, k, se, al, 15) && ZeroMags(b, k, se + 1, al)
    ensures BandTokens(tbl, b, k, r, se, al) == []
    decreases se + 1 - k
  {
    if k <= se {
      TransformedValue(b, k, al);
      EmptyTokens(tbl, b, k + 1, r + 1, se, al);
    }
  }

  /** An empty block sends nothing but a full run. */
  lemma EmptyBlock(t: Band, b: Block, e: nat)
    requires t.Valid() && InRange(t, b) && !AnyNonzero(t, b) && e < MAX_EOBRUN
    ensures BlockTokens(t, b, e) == if e + 1 == MAX_EOBRUN then EobTokens(t.tbl, MAX_EOBRUN) else []
    ensures NextRun(t, b, e) == if e + 1 == MAX_EOBRUN then 0 else e + 1
  {
    EmptyTokens(t.tbl, b, t.ss, 0, t.se, t.al);
  }

  ghost predicate AllZero(t: Band, bs: seq<Block>)
    requires t.Valid()
  {
    forall i :: 0 <= i < |bs| ==> ZeroFrom(bs[i], t.ss, t.se)
  }

  ghost predicate AllRead(t: Band, r: seq<Block>, known: seq<Block>, orig: seq<Block>)
    requires t.Valid()
  {
    |r| == |known| == |orig| &&
    forall i :: 0 <= i < |r| ==> BandRead(r[i], known[i], orig[i], t.ss, t.se, t.al)
  }

  lemma AllReadFirst(t: Band, b: Block, r: seq<Block>, known: seq<Block>, orig: seq<Block>)
    requires t.Valid() && known != [] && orig != [] && BandRead(b, known[0], orig[0], t.ss, t.se, t.al)
    requires AllRead(t, r, known[1..], orig[1..])
    ensures AllRead(t, [b] + r, known, orig)
  {
    hide BandRead;
  }

  lemma EmptyRead(t: Band, b: Block, orig: Block)
    requires t.Valid() && !AnyNonzero(t, orig) && ZeroFrom(b, t.ss, t.se)
    ensures BandRead(b, b, orig, t.ss, t.se, t.al)
  {
    NothingRead(b, orig, t.ss, t.se, t.al);
  }

  /** The tokens of a block that starts when no run is waiting: its band, then a
      run that begins with it, unless its last coefficient is not zero.
   */
  lemma FreshBlock(t: Band, b: Block)
    requires t.Valid() && InRange(t, b)
    ensures BlockTokens(t, b, 0) == BandTokens(t.tbl, b, t.ss, 0, t.se, t.al)
    ensures NextRun(t, b, 0) == if Mag(b[t.se], t.al) != 0 then 0 else 1
  {
    NothingToEnd(t.tbl);
  }

  /** Any number of blocks, coded with runs across them and read back: every
      coefficient at its point transform, and all tokens used up.
   */
  lemma {:induction false} RoundTrips<D>(src: Source<D>, d: D, t: Band, known: seq<Block>, orig: seq<Block>, run: nat,
                                         d': D)
    requires t.Valid() && AllInRange(t, orig) && |known| == |orig| && AllZero(t, known) && run <= |orig|
    requires forall i :: 0 <= i < run ==> !AnyNonzero(t, orig[i])
    requires Delivers(src, d, ScanTokens(t, orig[run..], 0), d')
    ensures var r := ReadBlocks(src, d, t, known, run);
            r.dec == d' && r.run == 0 && AllRead(t, r.blocks, known, orig)
    decreases |orig|
  {
    hide Delivers, AnyNonzero, BandTokens, BandRead, ReadBand, EobTokens, InRange, ZeroFrom, BlockTokens, NextRun;
    if orig == [] {
      NothingToEnd(t.tbl);
      DeliversNothing(src, d, d');
    } else if run > 0 {
      assert orig[1..][run - 1..] == orig[run..];
      RoundTrips(src, d, t, known[1..], orig[1..], run - 1, d');
      EmptyRead(t, known[0], orig[0]);
      AllReadFirst(t, known[0], ReadBlocks(src, d, t, known[1..], run - 1).blocks, known, orig);
    } else {
      assert orig[0..] == orig;
      var mid, b, next := BlockRoundTrips(src, d, t, known[0], orig, d');
      RoundTrips(src, mid, t, known[1..], orig[1..], next, d');
      AllReadFirst(t, b, ReadBlocks(src, mid, t, known[1..], next).blocks, known, orig);
    }
  }

  /** The block the decoder reads when no run is known, and the run after it. */
  lemma BlockRoundTrips<D>(src: Source<D>, d: D, t: Band, known: Block, orig: seq<Block>, d': D)
    returns (mid: D, b: Block, next: nat)
    requires t.Valid() && orig != [] && AllInRange(t, orig) && ZeroFrom(known, t.ss, t.se)
    requires Delivers(src, d, ScanTokens(t, orig, 0), d')
    ensures next <= |orig| - 1 && forall i :: 0 <= i < next ==> !AnyNonzero(t, orig[1..][i])
    ensures Delivers(src, mid, ScanTokens(t, orig[1..][next..], 0), d')
    ensures BandRead(b, known, orig[0], t.ss, t.se, t.al)
    ensures var r := ReadBand(src, d, t.tbl, known, t.ss, t.se, t.al, true);
            r.dec == mid && r.block == b && next == if r.run > 0 then r.run - 1 else 0
  {
    hide Delivers, AnyNonzero, BandTokens, BandRead, EobTokens, ZeroFrom, BlockTokens, NextRun, Mag;
    var o, rest := orig[0], ScanTokens(t, orig[1..], NextRun(t, orig[0], 0));
    FreshBlock(t, o);
    var d1, b1, end := ReadBandInverts(src, d, t.tbl, known, o, t.ss, t.ss, t.se, t.al, true, rest, d');
    b := b1;
    if Mag(o[t.se], t.al) != 0 {
      mid, next := d1, 0;
      assert orig[1..][0..] == orig[1..];
    } else {
      next := PendingRun(t, orig[1..], 1);
      mid := ReadEob(src, d1, t.tbl, b, end, t.se, t.al, 1 + next, ScanTokens(t, orig[1..][next..], 0), d');
    }
  }
}
