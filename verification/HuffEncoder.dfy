/** The sequential Huffman encoder's block routine and the counting routine that
    has to agree with it (encode_one_block and htest_one_block, jchuff.c).
 */
module HuffEncoder {
  import opened CodeBytes
  import opened Coefficients
  import opened AcSyntax
  import opened ScanCoding
  import opened CanonicalCode
  import opened DerivedTable
  import opened HuffTokens
  import opened HuffSyntax
  import opened HuffBlocks
  import opened BitPacking
  import Buf = HuffBitBuffer

  // ----- What a block sends --------------------------------------------------------------------

  /** The block within the range the routines check: `maxBits` is
      data_precision + 2.
   */
  ghost predicate BlockInRange(b: Block, last: int, maxBits: nat) {
    InRangeBelow(b, last, maxBits, DCTSIZE2)
  }

  /** The positions below `k` are in that range. */
  ghost predicate InRangeBelow(b: Block, last: int, maxBits: nat, k: nat) {
    NBits(Abs(b[0] - last)) <= maxBits + 1 && forall j :: 1 <= j < k && j <= 63 ==> NBits(Abs(b[j])) <= maxBits
  }

  lemma InRangeNext(b: Block, last: int, maxBits: nat, k: nat)
    requires 1 <= k <= 63 && InRangeBelow(b, last, maxBits, k)
    ensures InRangeBelow(b, last, maxBits, k + 1) <==> b[k] == 0 || NBits(Abs(b[k])) <= maxBits
    ensures !InRangeBelow(b, last, maxBits, k + 1) ==> !BlockInRange(b, last, maxBits)
  {
    assert NBits(0) == 0;
  }

  lemma InRangeStart(b: Block, last: int, maxBits: nat)
    ensures InRangeBelow(b, last, maxBits, 1) <==> NBits(Abs(b[0] - last)) <= maxBits + 1
    ensures !InRangeBelow(b, last, maxBits, 1) ==> !BlockInRange(b, last, maxBits)
  {
  }

  /** Symbols and bits of a block. */
  ghost function OneBlock(t: TablePair, b: Block, last: int, maxBits: nat): seq<Token>
    requires maxBits <= 14 && BlockInRange(b, last, maxBits)
  {
    InRangeSendable(b, last, maxBits);
    BlockTokens(Sequential, t, last, b)
  }

  lemma InRangeSendable(b: Block, last: int, maxBits: nat)
    requires maxBits <= 14 && BlockInRange(b, last, maxBits)
    ensures Sendable(Sequential, last, b)
  {
  }

  /** What is left of a block's AC tokens at position `k` after `r` zeros. */
  ghost function AcRest(tbl: nat, b: Block, k: nat, r: nat): seq<Token>
    requires BandInRange(b, k, 63, 0, 15)
  {
    BandTokens(tbl, b, k, r, 63, 0) + EndOfBlock(tbl, b)
  }

  /** At the end, zeros are pending exactly when an end of block is due. */
  lemma AcRestEnd(t: TablePair, b: Block, r: nat)
    requires r > 0 <==> b[63] == 0
    ensures AcRest(t.ac, b, 64, r) == if r > 0 then [Symbol(t.ac, 0)] else []
  {
    assert [] + EndOfBlock(t.ac, b) == EndOfBlock(t.ac, b);
  }

  lemma AcRestStep(t: TablePair, b: Block, k: nat, r: nat)
    requires k <= 63 && BandInRange(b, k, 63, 0, 15)
    ensures BandInRange(b, k + 1, 63, 0, 15) && NBits(Abs(b[k])) <= 15
    ensures AcRest(t.ac, b, k, r) == if b[k] == 0 then AcRest(t.ac, b, k + 1, r + 1)
            else LongRuns(t.ac, r / 16) + (Coded(t.ac, r % 16, b[k]) + AcRest(t.ac, b, k + 1, 0))
  {
    hide LongRuns, Coded;
    TransformedValue(b, k, 0);
    assert Transformed(b, k, 0) == b[k] as int;
    if b[k] != 0 {
      var rest, eob := BandTokens(t.ac, b, k + 1, 0, 63, 0), EndOfBlock(t.ac, b);
      assert (LongRuns(t.ac, r / 16) + (Coded(t.ac, r % 16, b[k]) + rest)) + eob
          == LongRuns(t.ac, r / 16) + (Coded(t.ac, r % 16, b[k]) + (rest + eob));
    }
  }

  lemma AcRestAfter(t: TablePair, b: Block, k: nat, r: nat, done: seq<Token>)
    requires k <= 63 && BandInRange(b, k, 63, 0, 15)
    ensures BandInRange(b, k + 1, 63, 0, 15) && NBits(Abs(b[k])) <= 15
    ensures done + AcRest(t.ac, b, k, r) == if b[k] == 0 then done + AcRest(t.ac, b, k + 1, r + 1)
            else (done + (LongRuns(t.ac, r / 16) + Coded(t.ac, r % 16, b[k]))) + AcRest(t.ac, b, k + 1, 0)
  {
    hide LongRuns, Coded, AcRest, NBits;
    AcRestStep(t, b, k, r);
    var runs, own, rest := LongRuns(t.ac, r / 16), if b[k] == 0 then []
          else Coded(t.ac, r % 16, b[k]), AcRest(t.ac, b, k + 1, 0);
    assert done + (runs + (own + rest)) == (done + (runs + own)) + rest;
  }

  // ----- Counting ----------------------------------------------------------------------------------

  /** The counting loop for the number of bits of `temp`. */
  method CountBits(temp: nat) returns (nbits: nat)
    ensures nbits == NBits(temp)
  {
    nbits := 0;
    var t := temp;
    while t > 0
      invariant nbits + NBits(t) == NBits(temp)
    {
      nbits := nbits + 1;
      t := t / 2;
    }
  }

  /** Counts grown by the uses of each symbol. */
  ghost predicate CountedUp(now: seq<nat>, before: seq<nat>, ts: seq<Token>, tbl: nat) {
    |now| == |before| && forall s :: 0 <= s < |now| ==> now[s] == before[s] + Uses(ts, tbl, s)
  }

  /** One count array for each table. */
  ghost predicate Arrays(counts: seq<array<nat>>) {
    && (forall i :: 0 <= i < |counts| ==> counts[i].Length == 257)
    && (forall i, j :: 0 <= i < j < |counts| ==> counts[i] != counts[j])
  }

  /** The counts are those of the tokens, for every table. */
  ghost predicate CountsOfTokens(counts: seq<array<nat>>, ts: seq<Token>)
    reads counts
  {
    forall i :: 0 <= i < |counts| ==> CountedUp(counts[i][..], seq(counts[i].Length, _ => 0), ts, i)
  }

  method NewCounts(n: nat) returns (counts: seq<array<nat>>)
    ensures |counts| == n && Arrays(counts) && forall i :: 0 <= i < n ==> fresh(counts[i])
    ensures forall i :: 0 <= i < n ==> counts[i][..] == seq(257, _ => 0)
  {
    counts := [];
    for j := 0 to n
      invariant |counts| == j && Arrays(counts) && forall i :: 0 <= i < j ==> fresh(counts[i])
      invariant forall i :: 0 <= i < j ==> counts[i][..] == seq(257, _ => 0)
    {
      var a := new nat[257](_ => 0);
      assert a[..] == seq(257, _ => 0);
      counts := counts + [a];
    }
  }

  lemma GrownNot(before: seq<nat>, tbl: nat)
    ensures CountedUp(before, before, [], tbl)
  {
  }

  lemma GrownOne(now: seq<nat>, before: seq<nat>, ts: seq<Token>, tbl: nat, s: byte)
    requires CountedUp(now, before, ts, tbl) && |now| > s as nat
    ensures CountedUp(now[s := now[s] + 1], before, ts + [Symbol(tbl, s)], tbl)
  {
    var all := ts + [Symbol(tbl, s)];
    assert all[..|all| - 1] == ts;
  }

  /** Tokens that are no symbols of the table do not count. */
  lemma {:induction false} GrownSame(now: seq<nat>, before: seq<nat>, ts: seq<Token>, us: seq<Token>, tbl: nat)
    requires CountedUp(now, before, ts, tbl) && forall i :: 0 <= i < |us| ==> us[i].Raw? || us[i].tbl != tbl
    ensures CountedUp(now, before, ts + us, tbl)
  {
    hide Uses;
    forall s | 0 <= s < |now| ensures Uses(ts + us, tbl, s) == Uses(ts, tbl, s) {
      UsesConcat(ts, us, tbl, s);
      NoUses(us, tbl, s);
    }
  }

  lemma {:induction false} NoUses(us: seq<Token>, tbl: nat, s: nat)
    requires forall i :: 0 <= i < |us| ==> us[i].Raw? || us[i].tbl != tbl
    ensures Uses(us, tbl, s) == 0
    decreases |us|
  {
    if us != [] { NoUses(us[..|us| - 1], tbl, s); }
  }

  /** One nonzero coefficient counted, if it is in range: its long runs, then its
      own symbol.
   */
  method CountCoefficient(ghost t: TablePair, acCounts: array<nat>, r: nat, x: int, maxBits: nat,
                          ghost before: seq<nat>,
                          ghost done: seq<Token>) returns (ok: bool)
    requires acCounts.Length == 257 && x != 0 && maxBits <= 14
    requires CountedUp(acCounts[..], before, done, t.ac)
    modifies acCounts
    ensures ok <==> NBits(Abs(x)) <= maxBits
    ensures ok ==> CountedUp(acCounts[..], before, done + (LongRuns(t.ac, r / 16) + Coded(t.ac, r % 16, x)), t.ac)
  {
    hide CountedUp, NBits, Uses;
    var run: nat := r;
    ghost var ts, left := done, LongRuns(t.ac, r / 16);
    while run > 15
      invariant CountedUp(acCounts[..], before, ts, t.ac)
      invariant run % 16 == r % 16 && ts + LongRuns(t.ac, run / 16) == done + LongRuns(t.ac, r / 16)
    {
      GrownOne(acCounts[..], before, ts, t.ac, ZRL);
      assert ts + ([Symbol(t.ac, ZRL)] + LongRuns(t.ac, (run - 16) / 16))
                 == (ts + [Symbol(t.ac, ZRL)]) + LongRuns(t.ac, (run - 16) / 16);
      acCounts[ZRL] := acCounts[ZRL] + 1;
      ts := ts + [Symbol(t.ac, ZRL)];
      run := run - 16;
    }
    assert ts + [] == ts;
    var nbits := CountBits(Abs(x));
    ok := nbits <= maxBits;
    if !ok { return; }
    var s: byte := 16 * run + nbits;
    GrownOne(acCounts[..], before, ts, t.ac, s);
    acCounts[s] := acCounts[s] + 1;
    GrownSame(acCounts[..], before, ts + [Symbol(t.ac, s)], [Raw(ValueBits(x), nbits)], t.ac);
    assert (ts + [Symbol(t.ac, s)]) + [Raw(ValueBits(x), nbits)]
               == ts + ([Symbol(t.ac, s)] + [Raw(ValueBits(x), nbits)]);
    assert done + (LongRuns(t.ac, r / 16) + Coded(t.ac, run, x))
               == (done + LongRuns(t.ac, r / 16)) + Coded(t.ac, run, x);
  }

  /** htest_one_block: every symbol the encoder would send for the block is
      counted as often as it would be sent, or a coefficient out of range is found.
   */
  method HtestOneBlock(ghost t: TablePair, block: Block, last: int, maxBits: nat, dcCounts: array<nat>,
                       acCounts: array<nat>)
      returns (ok: bool)
    requires maxBits <= 14
    requires dcCounts.Length == acCounts.Length == 257 && dcCounts != acCounts && t.dc != t.ac
    modifies dcCounts, acCounts
    ensures ok <==> BlockInRange(block, last, maxBits)
    ensures ok ==> CountedUp(dcCounts[..], old(dcCounts[..]), OneBlock(t, block, last, maxBits), t.dc)
    ensures ok ==> CountedUp(acCounts[..], old(acCounts[..]), OneBlock(t, block, last, maxBits), t.ac)
  {
    hide CountedUp, Uses, NBits, BandTokens, LongRuns, Coded, BandInRange, AcRest, InRangeBelow, DcTokens, OneBlock;
    ghost var inRange := BlockInRange(block, last, maxBits);
    if inRange { BlockParts(t, block, last, maxBits); }
    InRangeStart(block, last, maxBits);
    var nbits := CountBits(Abs(block[0] - last));
    if nbits > maxBits + 1 {
      return false;
    }
    ghost var dcTokens := DcTokens(t.dc, block[0] - last);
    CountedDc(t, dcCounts[..], block[0] - last);
    dcCounts[nbits] := dcCounts[nbits] + 1;

    ghost var before, all, done := acCounts[..], if inRange then AcRest(t.ac, block, 1, 0) else [], [];
    GrownNot(before, t.ac);
    var r := 0;
    for k := 1 to DCTSIZE2
      invariant dcCounts[..] == old(dcCounts[..])[nbits := old(dcCounts[nbits]) + 1]
      invariant InRangeBelow(block, last, maxBits, k)
      invariant r > 0 <==> k > 1 && block[k - 1] == 0
      invariant CountedUp(acCounts[..], before, done, t.ac)
      invariant inRange ==> BandInRange(block, k, 63, 0, 15) && done + AcRest(t.ac, block, k, r) == all
    {
      InRangeNext(block, last, maxBits, k);
      if inRange { AcRestAfter(t, block, k, r, done); }
      var temp := block[k];
      if temp == 0 {
        r := r + 1;
      } else {
        ok := CountCoefficient(t, acCounts, r, temp, maxBits, before, done);
        if !ok { return; }
        done := done + (LongRuns(t.ac, r / 16) + Coded(t.ac, r % 16, temp));
        r := 0;
      }
    }
    AcRestEnd(t, block, r);
    if r > 0 {
      GrownOne(acCounts[..], before, done, t.ac, 0);
      acCounts[0] := acCounts[0] + 1;
      done := done + [Symbol(t.ac, 0)];
    }
    assert done + [] == done;
    CountedApart(t, dcCounts[..], old(dcCounts[..]), acCounts[..], before, dcTokens, all, block, last, maxBits);
    ok := true;
  }

  lemma CountedDc(t: TablePair, before: seq<nat>, x: int)
    requires |before| == 257 && NBits(Abs(x)) <= 15
    ensures CountedUp(before[NBits(Abs(x)) := before[NBits(Abs(x))] + 1], before, DcTokens(t.dc, x), t.dc)
  {
    hide CountedUp, Uses;
    var n: byte := NBits(Abs(x));
    GrownNot(before, t.dc);
    GrownOne(before, before, [], t.dc, n);
    var ts := [] + [Symbol(t.dc, n)];
    if x == 0 {
      assert DcTokens(t.dc, x) == ts;
    } else {
      GrownSame(before[n := before[n] + 1], before, ts, [Raw(ValueBits(x), n)], t.dc);
      assert DcTokens(t.dc, x) == ts + [Raw(ValueBits(x), n)];
    }
  }

  /** DC tokens do not count for the AC table, nor AC tokens for the DC table. */
  lemma CountedApart(t: TablePair, dc: seq<nat>, dc0: seq<nat>, ac: seq<nat>, ac0: seq<nat>, dcTokens: seq<Token>,
                     acTokens: seq<Token>,
                     b: Block, last: int, maxBits: nat)
    requires t.dc != t.ac && maxBits <= 14 && BlockInRange(b, last, maxBits)
    requires NBits(Abs(b[0] - last)) <= 15 && dcTokens == DcTokens(t.dc, b[0] - last)
    requires BandInRange(b, 1, 63, 0, 15) && acTokens == AcRest(t.ac, b, 1, 0)
    requires CountedUp(dc, dc0, dcTokens, t.dc) && CountedUp(ac, ac0, acTokens, t.ac)
    ensures CountedUp(dc, dc0, OneBlock(t, b, last, maxBits), t.dc)
            && CountedUp(ac, ac0, OneBlock(t, b, last, maxBits), t.ac)
  {
    hide Uses, BandTokens, NBits, CountedUp, DcTokens;
    InRangeSendable(b, last, maxBits);
    AcTable(t, b, 1, 0);
    DcTable(t, b[0] - last);
    GrownSame(dc, dc0, dcTokens, acTokens, t.dc);
    GrownAfter(ac, ac0, acTokens, dcTokens, t.ac);
  }

  lemma DcTable(t: TablePair, x: int)
    requires NBits(Abs(x)) <= 15
    ensures forall i :: 0 <= i < |DcTokens(t.dc, x)| ==> DcTokens(t.dc, x)[i].Raw? || DcTokens(t.dc, x)[i].tbl == t.dc
  {
  }

  lemma {:induction false} AcTable(t: TablePair, b: Block, k: nat, r: nat)
    requires BandInRange(b, k, 63, 0, 15)
    ensures forall i :: 0 <= i < |AcRest(t.ac, b, k, r)| ==>
              AcRest(t.ac, b, k, r)[i].Raw? || AcRest(t.ac, b, k, r)[i].tbl == t.ac
    decreases 64 - k
  {
    if k <= 63 {
      AcRestStep(t, b, k, r);
      AcTable(t, b, k + 1, if b[k] == 0 then r + 1 else 0);
      RunsTable(t, r / 16);
    }
  }

  lemma {:induction false} RunsTable(t: TablePair, q: nat)
    ensures forall i :: 0 <= i < |LongRuns(t.ac, q)| ==>
              LongRuns(t.ac, q)[i].Symbol? && LongRuns(t.ac, q)[i].tbl == t.ac
    decreases q
  {
    if q > 0 { RunsTable(t, q - 1); }
  }

  lemma GrownTwice(now: seq<nat>, mid: seq<nat>, before: seq<nat>, ts: seq<Token>, us: seq<Token>, tbl: nat)
    requires CountedUp(mid, before, ts, tbl) && CountedUp(now, mid, us, tbl)
    ensures CountedUp(now, before, ts + us, tbl)
  {
    hide Uses;
    forall s | 0 <= s < |now| ensures Uses(ts + us, tbl, s) == Uses(ts, tbl, s) + Uses(us, tbl, s) {
      UsesConcat(ts, us, tbl, s);
    }
  }

  /** A block uses no tables but its own two. */
  lemma OwnTables(t: TablePair, b: Block, last: int, maxBits: nat)
    requires maxBits <= 14 && BlockInRange(b, last, maxBits)
    ensures forall i :: 0 <= i < |OneBlock(t, b, last, maxBits)| ==>
              var x := OneBlock(t, b, last, maxBits)[i]; x.Raw? || x.tbl == t.dc || x.tbl == t.ac
  {
    hide NBits, AcRest, BlockTokens, OneBlock, DcTokens;
    BlockParts(t, b, last, maxBits);
    AcTable(t, b, 1, 0);
    DcTable(t, b[0] - last);
  }

  lemma GrownAfter(now: seq<nat>, before: seq<nat>, ts: seq<Token>, us: seq<Token>, tbl: nat)
    requires CountedUp(now, before, ts, tbl) && forall i :: 0 <= i < |us| ==> us[i].Raw? || us[i].tbl != tbl
    ensures CountedUp(now, before, us + ts, tbl)
  {
    hide Uses;
    forall s | 0 <= s < |now| ensures Uses(us + ts, tbl, s) == Uses(ts, tbl, s) {
      UsesConcat(us, ts, tbl, s);
      NoUses(us, tbl, s);
    }
  }

  // ----- Sending -----------------------------------------------------------------------------------

  lemma AllBitsOne(tables: seq<SymbolCodes>, t: Token)
    requires t.Symbol? ==> t.tbl < |tables| && |tables[t.tbl].ehufco| == |tables[t.tbl].ehufsi| == 256
    ensures Tabled(tables, [t]) && AllBits(tables, [t]) == TokenBits(tables, t)
  {
    assert [t][1..] == [];
    assert TokenBits(tables, t) + AllBits(tables, []) == TokenBits(tables, t);
  }

  lemma CodedBits(tables: seq<SymbolCodes>, tbl: nat, s: byte, v: nat, n: nat)
    requires tbl < |tables| && Fits(tables[tbl])
    ensures Tabled(tables, [Symbol(tbl, s)] + [Raw(v, n)])
    ensures AllBits(tables, [Symbol(tbl, s)] + [Raw(v, n)])
            == BitString(tables[tbl].ehufco[s], tables[tbl].ehufsi[s]) + BitString(v, n)
  {
    hide BitString;
    AllBitsOne(tables, Symbol(tbl, s));
    AllBitsOne(tables, Raw(v, n));
    AllBitsConcat(tables, [Symbol(tbl, s)], [Raw(v, n)]);
  }

  /** Everything put so far is the bits of these tokens, after `start`. */
  ghost predicate Put(sent: seq<bool>, start: seq<bool>, tables: seq<SymbolCodes>, ts: seq<Token>) {
    Tabled(tables, ts) && sent == start + AllBits(tables, ts)
  }

  lemma PutNothing(start: seq<bool>, tables: seq<SymbolCodes>)
    ensures Put(start, start, tables, [])
  {
    NothingSent(tables);
  }

  lemma PutMore(sent: seq<bool>, start: seq<bool>, tables: seq<SymbolCodes>, ts: seq<Token>, us: seq<Token>)
    requires Put(sent, start, tables, ts) && Tabled(tables, us)
    ensures Put(sent + AllBits(tables, us), start, tables, ts + us)
  {
    hide AllBits, Tabled;
    AllBitsConcat(tables, ts, us);
    assert (start + AllBits(tables, ts)) + AllBits(tables, us) == start + (AllBits(tables, ts) + AllBits(tables, us));
  }

  /** Runs of 16 zeros; zeros are counted in units of 16. */
  method PutLongRuns(ghost t: TablePair, buf: Buf.HuffBitBuffer, actbl: SymbolCodes, r: nat,
                     ghost tables: seq<SymbolCodes>, ghost start: seq<bool>, ghost done: seq<Token>)
      returns (units: nat)
    requires buf.Valid() && Put(buf.sent, start, tables, done)
    requires t.ac < |tables| && Fits(actbl) && tables[t.ac] == actbl
    modifies buf
    ensures buf.Valid() && units == 16 * (r % 16)
    ensures Put(buf.sent, start, tables, done + LongRuns(t.ac, r / 16))
  {
    hide Put, BitString, Fits;
    units := 16 * r;
    ghost var q, m, ts := r / 16, r % 16, done;
    while units >= 16 * 16
      invariant buf.Valid() && Put(buf.sent, start, tables, ts)
      invariant units == 16 * (16 * q + m)
      invariant ts + LongRuns(t.ac, q) == done + LongRuns(t.ac, r / 16)
      decreases units
    {
      units := units - 16 * 16;
      q := q - 1;
      SentSymbol(tables, t.ac, ZRL);
      PutMore(buf.sent, start, tables, ts, [Symbol(t.ac, ZRL)]);
      assert ts + ([Symbol(t.ac, ZRL)] + LongRuns(t.ac, q)) == (ts + [Symbol(t.ac, ZRL)]) + LongRuns(t.ac, q);
      buf.PutBits(actbl.ehufco[ZRL], actbl.ehufsi[ZRL]);
      ts := ts + [Symbol(t.ac, ZRL)];
    }
    assert ts + [] == ts;
  }

  /** One nonzero coefficient sent. */
  method PutCoefficient(ghost t: TablePair, buf: Buf.HuffBitBuffer, actbl: SymbolCodes, r: nat, x: int,
                        ghost tables: seq<SymbolCodes>, ghost start: seq<bool>, ghost done: seq<Token>)
    requires buf.Valid() && x != 0 && NBits(Abs(x)) <= 14 && Put(buf.sent, start, tables, done)
    requires t.ac < |tables| && Fits(actbl) && tables[t.ac] == actbl
    modifies buf
    ensures buf.Valid()
    ensures Put(buf.sent, start, tables, done + (LongRuns(t.ac, r / 16) + Coded(t.ac, r % 16, x)))
  {
    hide Put, BitString, NBits, Tabled;
    var units := PutLongRuns(t, buf, actbl, r, tables, start, done);
    var nbits := NBits(Abs(x));
    var s: byte := units + nbits;
    ghost var runs, own := LongRuns(t.ac, r / 16), Coded(t.ac, r % 16, x);
    CodedBits(tables, t.ac, s, ValueBits(x), nbits);
    PutMore(buf.sent, start, tables, done + runs, own);
    var code, size := actbl.ehufco[s], actbl.ehufsi[s];
    ghost var before := buf.sent;
    buf.PutCode(code, size, ValueBits(x), nbits);
    assert (before + BitString(code, size)) + BitString(ValueBits(x), nbits)
               == before + (BitString(code, size) + BitString(ValueBits(x), nbits));
    assert (done + runs) + own == done + (runs + own);
  }

  /** The DC tokens, then the AC tokens from position 1. */
  lemma BlockParts(t: TablePair, b: Block, last: int, maxBits: nat)
    requires maxBits <= 14 && BlockInRange(b, last, maxBits)
    ensures NBits(Abs(b[0] - last)) <= 15 && BandInRange(b, 1, 63, 0, 15)
            && forall k :: 1 <= k <= 63 ==> NBits(Abs(b[k])) <= 14
    ensures OneBlock(t, b, last, maxBits) == DcTokens(t.dc, b[0] - last) + AcRest(t.ac, b, 1, 0)
  {
    hide NBits, BandTokens, DcTokens;
    InRangeSendable(b, last, maxBits);
  }

  /** encode_one_block: the bits of the block's symbols and values, or an error
      for a coefficient out of range.
   */
  method EncodeOneBlock(ghost t: TablePair, buf: Buf.HuffBitBuffer, block: Block, last: int, maxBits: nat,
                        dctbl: SymbolCodes,
                        actbl: SymbolCodes, ghost tables: seq<SymbolCodes>) returns (ok: bool)
    requires buf.Valid() && maxBits <= 14 && Fits(dctbl) && Fits(actbl)
    requires t.dc < |tables| && t.ac < |tables| && tables[t.dc] == dctbl && tables[t.ac] == actbl
    modifies buf
    ensures buf.Valid() && (ok <==> BlockInRange(block, last, maxBits))
    ensures ok ==> Put(buf.sent, old(buf.sent), tables, OneBlock(t, block, last, maxBits))
  {
    hide Put, NBits, BandTokens, LongRuns, Coded, Fits, BitString, BandInRange, Tabled, AcRest, InRangeBelow, DcTokens,
         OneBlock,
         Buf.HuffBitBuffer.Valid;
    ghost var inRange := BlockInRange(block, last, maxBits);
    if inRange { BlockParts(t, block, last, maxBits); }
    InRangeStart(block, last, maxBits);
    ghost var start := buf.sent;
    PutNothing(start, tables);
    var temp: int := block[0] - last;
    if NBits(Abs(temp)) > maxBits + 1 {
      return false;
    }
    PutDc(t, buf, temp, dctbl, tables);
    ghost var dc := DcTokens(t.dc, temp);
    PutMore(start, start, tables, [], dc);
    ghost var all, done := if inRange then dc + AcRest(t.ac, block, 1, 0) else [], dc;
    assert [] + dc == dc;
    var r := 0;
    for k := 1 to DCTSIZE2
      invariant buf.Valid() && InRangeBelow(block, last, maxBits, k)
      invariant r > 0 <==> k > 1 && block[k - 1] == 0
      invariant Put(buf.sent, start, tables, done)
      invariant inRange ==> BandInRange(block, k, 63, 0, 15) && done + AcRest(t.ac, block, k, r) == all
    {
      InRangeNext(block, last, maxBits, k);
      if inRange { AcRestAfter(t, block, k, r, done); }
      temp := block[k];
      if temp == 0 {
        r := r + 1;
      } else {
        if NBits(Abs(temp)) > maxBits {
          return false;
        }
        PutCoefficient(t, buf, actbl, r, temp, tables, start, done);
        done := done + (LongRuns(t.ac, r / 16) + Coded(t.ac, r % 16, temp));
        r := 0;
      }
    }
    AcRestEnd(t, block, r);
    PutEnd(t, buf, actbl, r, tables, start, done);
    ok := true;
  }

  /** The end-of-block symbol, if the last coefficients were zero. */
  method PutEnd(ghost t: TablePair, buf: Buf.HuffBitBuffer, actbl: SymbolCodes, r: nat, ghost tables: seq<SymbolCodes>,
                ghost start: seq<bool>, ghost done: seq<Token>)
    requires buf.Valid() && Put(buf.sent, start, tables, done)
    requires t.ac < |tables| && Fits(actbl) && tables[t.ac] == actbl
    modifies buf
    ensures buf.Valid()
    ensures Put(buf.sent, start, tables, done + if r > 0 then [Symbol(t.ac, 0)] else [])
  {
    hide Put, BitString, Tabled;
    if r > 0 {
      SentSymbol(tables, t.ac, 0);
      PutMore(buf.sent, start, tables, done, [Symbol(t.ac, 0)]);
      buf.PutBits(actbl.ehufco[0], actbl.ehufsi[0]);
    } else {
      assert done + [] == done;
    }
  }

  /** The DC difference sent. */
  method PutDc(ghost t: TablePair, buf: Buf.HuffBitBuffer, x: int, dctbl: SymbolCodes, ghost tables: seq<SymbolCodes>)
    requires buf.Valid() && NBits(Abs(x)) <= 15 && t.dc < |tables| && Fits(dctbl) && tables[t.dc] == dctbl
    modifies buf
    ensures buf.Valid() && Tabled(tables, DcTokens(t.dc, x))
    ensures buf.sent == old(buf.sent) + AllBits(tables, DcTokens(t.dc, x))
  {
    hide BitString, AllBits, Tabled;
    var nbits: byte := NBits(Abs(x));
    var code, size := dctbl.ehufco[nbits], dctbl.ehufsi[nbits];
    if x == 0 {
      SentSymbol(tables, t.dc, 0);
    } else {
      CodedBits(tables, t.dc, nbits, ValueBits(x), nbits as nat);
    }
    ghost var before := buf.sent;
    buf.PutCode(code, size, ValueBits(x), nbits as nat);
    assert (before + BitString(code, size)) + BitString(ValueBits(x), nbits as nat)
               == before + (BitString(code, size) + BitString(ValueBits(x), nbits as nat));
    if x == 0 {
      NoBits(ValueBits(x));
    }
  }

  lemma NoBits(v: nat)
    ensures BitString(v, 0) == []
  {
  }

  lemma NothingSent(tables: seq<SymbolCodes>)
    ensures Tabled(tables, []) && AllBits(tables, []) == []
  {
  }

  lemma SentSymbol(tables: seq<SymbolCodes>, tbl: nat, s: byte)
    requires tbl < |tables| && Fits(tables[tbl])
    ensures |tables[tbl].ehufco| == |tables[tbl].ehufsi| == 256 && Tabled(tables, [Symbol(tbl, s)])
    ensures AllBits(tables, [Symbol(tbl, s)]) == BitString(tables[tbl].ehufco[s], tables[tbl].ehufsi[s])
    ensures tables[tbl].ehufsi[s] <= 16 && tables[tbl].ehufco[s] < Pow2(tables[tbl].ehufsi[s])
  {
    hide BitString;
    AllBitsOne(tables, Symbol(tbl, s));
  }
}
