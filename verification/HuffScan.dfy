/** A sequential Huffman-coded scan with optimized tables: count the symbols,
    build the tables, send the blocks, read them back (jchuff.c: encode_mcu_gather,
    finish_pass_gather, encode_mcu_huff, finish_pass_huff; jdhuff.c).
 */
module HuffScan {
  import opened CodeBytes
  import opened Coefficients
  import opened AcSyntax
  import opened ScanCoding
  import opened CanonicalCode
  import opened HuffmanForest
  import opened HuffmanTree
  import opened HuffmanDepth
  import opened HuffmanLimit
  import opened DerivedTable
  import opened HuffmanTable
  import opened HuffTokens
  import opened HuffSyntax
  import opened HuffBlocks
  import opened HuffDecode
  import opened BitPacking
  import opened HuffEncoder
  import Buf = HuffBitBuffer

  // ----- The tokens of a scan ------------------------------------------------------------------

  ghost predicate AllInRange(us: seq<Unit>, last: seq<int>, maxBits: nat)
    requires ValidUnits(us, |last|)
    decreases |us|
  {
    us == [] ||
    (BlockInRange(us[0].block, last[us[0].ci], maxBits)
     && AllInRange(us[1..], last[us[0].ci := us[0].block[0] as int], maxBits))
  }

  lemma {:induction false} InRangeAllSendable(us: seq<Unit>, last: seq<int>, maxBits: nat)
    requires ValidUnits(us, |last|) && maxBits <= 14 && AllInRange(us, last, maxBits)
    ensures AllSendable(Sequential, last, us)
    decreases |us|
  {
    hide NBits;
    if us != [] {
      InRangeSendable(us[0].block, last[us[0].ci], maxBits);
      InRangeAllSendable(us[1..], last[us[0].ci := us[0].block[0] as int], maxBits);
    }
  }

  /** Each component has two different ones of the `n` tables. */
  ghost predicate Pairs(tabs: seq<TablePair>, n: nat) {
    forall i :: 0 <= i < |tabs| ==> tabs[i].dc < n && tabs[i].ac < n && tabs[i].dc != tabs[i].ac
  }

  ghost function Tokens(tabs: seq<TablePair>, last: seq<int>, us: seq<Unit>, maxBits: nat): seq<Token>
    requires TablesFor(tabs, last, us) && maxBits <= 14 && AllInRange(us, last, maxBits)
  {
    InRangeAllSendable(us, last, maxBits);
    UnitTokens(Sequential, tabs, last, us)
  }

  lemma TokensStep(tabs: seq<TablePair>, last: seq<int>, us: seq<Unit>, maxBits: nat)
    requires TablesFor(tabs, last, us) && maxBits <= 14 && AllInRange(us, last, maxBits) && us != []
    ensures var ci := us[0].ci;
            && BlockInRange(us[0].block, last[ci], maxBits)
            && AllInRange(us[1..], last[ci := us[0].block[0] as int], maxBits)
            && Tokens(tabs, last, us, maxBits)
               == OneBlock(tabs[ci], us[0].block, last[ci], maxBits)
                     + Tokens(tabs, last[ci := us[0].block[0] as int], us[1..], maxBits)
  {
    hide NBits, BlockTokens;
    InRangeAllSendable(us, last, maxBits);
  }

  /** Table numbers are in range, and two symbols are never sent: a run of zeros
      without a size, other than 16 of them, has no meaning here.
   */
  ghost predicate Ordinary(t: Token, n: nat) {
    t.Symbol? ==> t.tbl < n && t.s != 0x10 && t.s != 0x20
  }

  ghost predicate AllOrdinary(ts: seq<Token>, n: nat) {
    forall i :: 0 <= i < |ts| ==> Ordinary(ts[i], n)
  }

  lemma OrdinaryConcat(a: seq<Token>, b: seq<Token>, n: nat)
    requires AllOrdinary(a, n) && AllOrdinary(b, n)
    ensures AllOrdinary(a + b, n)
  {
    hide Ordinary;
  }

  lemma {:induction false} OrdinaryRuns(tbl: nat, q: nat, n: nat)
    requires tbl < n
    ensures AllOrdinary(LongRuns(tbl, q), n)
    decreases q
  {
    if q > 0 { OrdinaryRuns(tbl, q - 1, n); }
  }

  lemma OrdinaryCoded(tbl: nat, r: nat, x: int, n: nat)
    requires tbl < n && r < 16 && 1 <= NBits(Abs(x)) <= 14
    ensures AllOrdinary(Coded(tbl, r, x), n)
  {
    hide NBits;
  }

  lemma {:induction false} OrdinaryAc(tbl: nat, b: Block, k: nat, r: nat, n: nat)
    requires tbl < n && BandInRange(b, k, 63, 0, 15) && forall j :: k <= j <= 63 ==> NBits(Abs(b[j])) <= 14
    ensures AllOrdinary(AcRest(tbl, b, k, r), n)
    decreases 64 - k
  {
    hide NBits, LongRuns, Coded, AllOrdinary;
    if k > 63 {
      OrdinaryEnd(tbl, b, k, r, n);
    } else {
      AcRestStep(TablePair(tbl, tbl), b, k, r);
      if b[k] == 0 {
        OrdinaryAc(tbl, b, k + 1, r + 1, n);
      } else {
        OrdinaryAc(tbl, b, k + 1, 0, n);
        OrdinaryRuns(tbl, r / 16, n);
        ExtendInverts(b[k] as int);
        OrdinaryCoded(tbl, r % 16, b[k] as int, n);
        OrdinaryConcat(Coded(tbl, r % 16, b[k]), AcRest(tbl, b, k + 1, 0), n);
        OrdinaryConcat(LongRuns(tbl, r / 16), Coded(tbl, r % 16, b[k]) + AcRest(tbl, b, k + 1, 0), n);
      }
    }
  }

  lemma OrdinaryEnd(tbl: nat, b: Block, k: nat, r: nat, n: nat)
    requires tbl < n && k > 63 && BandInRange(b, k, 63, 0, 15)
    ensures AllOrdinary(AcRest(tbl, b, k, r), n)
  {
  }

  lemma OrdinaryBlock(t: TablePair, b: Block, last: int, maxBits: nat, n: nat)
    requires maxBits <= 14 && BlockInRange(b, last, maxBits) && t.dc < n && t.ac < n
    ensures AllOrdinary(OneBlock(t, b, last, maxBits), n)
  {
    hide NBits, AcRest, AllOrdinary, BlockTokens, OneBlock, DcTokens;
    BlockParts(t, b, last, maxBits);
    OrdinaryAc(t.ac, b, 1, 0, n);
    OrdinaryDc(t.dc, b[0] - last, n);
    OrdinaryConcat(DcTokens(t.dc, b[0] - last), AcRest(t.ac, b, 1, 0), n);
  }

  lemma OrdinaryDc(tbl: nat, x: int, n: nat)
    requires tbl < n && NBits(Abs(x)) <= 15
    ensures AllOrdinary(DcTokens(tbl, x), n)
  {
    hide NBits;
  }

  lemma {:induction false} OrdinaryScan(tabs: seq<TablePair>, last: seq<int>, us: seq<Unit>, maxBits: nat, n: nat)
    requires TablesFor(tabs, last, us) && maxBits <= 14 && AllInRange(us, last, maxBits) && Pairs(tabs, n)
    ensures AllOrdinary(Tokens(tabs, last, us, maxBits), n)
    decreases |us|
  {
    hide AllOrdinary, BlockInRange, OneBlock;
    if us == [] {
      NoTokens(tabs, last, maxBits, n);
    } else {
      TokensStep(tabs, last, us, maxBits);
      var ci := us[0].ci;
      OrdinaryBlock(tabs[ci], us[0].block, last[ci], maxBits, n);
      OrdinaryScan(tabs, last[ci := us[0].block[0] as int], us[1..], maxBits, n);
      OrdinaryConcat(OneBlock(tabs[ci], us[0].block, last[ci], maxBits),
                     Tokens(tabs, last[ci := us[0].block[0] as int], us[1..], maxBits), n);
    }
  }

  lemma NoTokens(tabs: seq<TablePair>, last: seq<int>, maxBits: nat, n: nat)
    requires |last| == |tabs| && maxBits <= 14
    ensures TablesFor(tabs, last, []) && AllInRange([], last, maxBits) && Tokens(tabs, last, [], maxBits) == []
            && AllOrdinary([], n)
  {
  }

  // ----- Counting a scan -------------------------------------------------------------------------

  /** encode_mcu_gather over the blocks of a scan: an error exactly if some
      coefficient is out of range.
   */
  method GatherScan(us: seq<Unit>, tabs: seq<TablePair>, counts: seq<array<nat>>, maxBits: nat) returns (ok: bool)
    requires ValidUnits(us, |tabs|) && maxBits <= 14
    requires Arrays(counts) && Pairs(tabs, |counts|)
    requires forall i :: 0 <= i < |counts| ==> counts[i][..] == seq(HUFFMAN_ALPHABET_SIZE, _ => 0)
    modifies counts
    ensures ok <==> AllInRange(us, seq(|tabs|, _ => 0), maxBits)
    ensures ok ==> CountsOfTokens(counts, Tokens(tabs, seq(|tabs|, _ => 0), us, maxBits))
  {
    hide CountedUp, BlockInRange, OneBlock, Tokens, AllInRange;
    var last: seq<int> := seq(|tabs|, _ => 0);
    ghost var good := AllInRange(us, last, maxBits);
    ghost var all, done := if good then Tokens(tabs, last, us, maxBits) else [], [];
    forall i | 0 <= i < |counts| ensures CountedUp(counts[i][..], seq(counts[i].Length, _ => 0), [], i) {
      GrownNot(counts[i][..], i);
    }
    assert us[0..] == us && [] + all == all;
    for j := 0 to |us|
      invariant TablesFor(tabs, last, us[j..]) && (AllInRange(us[j..], last, maxBits) <==> good)
      invariant CountsOfTokens(counts, done)
      invariant good ==> done + Tokens(tabs, last, us[j..], maxBits) == all
    {
      RangeAt(us, j, tabs, last, maxBits);
      if good { TokensAt(us, j, tabs, last, maxBits, done); }
      var ci := us[j].ci;
      ok := CountBlock(us[j].block, last[ci], tabs[ci], counts, maxBits, done);
      if !ok { return; }
      done := done + OneBlock(tabs[ci], us[j].block, last[ci], maxBits);
      last := last[ci := us[j].block[0] as int];
    }
    NoTokens(tabs, last, maxBits, |counts|);
    assert us[|us|..] == [] && done + [] == done;
    ok := true;
  }

  /** One block further through a scan. */
  lemma RangeAt(us: seq<Unit>, j: nat, tabs: seq<TablePair>, last: seq<int>, maxBits: nat)
    requires j < |us| && TablesFor(tabs, last, us[j..])
    ensures us[j].ci < |tabs|
    ensures var next := last[us[j].ci := us[j].block[0] as int];
            && TablesFor(tabs, next, us[j + 1..])
            && (AllInRange(us[j..], last, maxBits)
                <==> BlockInRange(us[j].block, last[us[j].ci], maxBits) && AllInRange(us[j + 1..], next, maxBits))
  {
    hide BlockInRange;
    var rest, more := us[j..], us[j + 1..];
    assert rest[1..] == more && rest[0] == us[j];
    forall i | 0 <= i < |more| ensures more[i].ci < |tabs| { assert more[i] == rest[i + 1]; }
  }

  lemma TokensAt(us: seq<Unit>, j: nat, tabs: seq<TablePair>, last: seq<int>, maxBits: nat, done: seq<Token>)
    requires j < |us| && maxBits <= 14 && TablesFor(tabs, last, us[j..]) && AllInRange(us[j..], last, maxBits)
    ensures us[j].ci < |tabs| && BlockInRange(us[j].block, last[us[j].ci], maxBits)
    ensures var ci := us[j].ci;
            var next := last[ci := us[j].block[0] as int];
            && TablesFor(tabs, next, us[j + 1..]) && AllInRange(us[j + 1..], next, maxBits)
            && done + Tokens(tabs, last, us[j..], maxBits)
               == (done + OneBlock(tabs[ci], us[j].block, last[ci], maxBits)) + Tokens(tabs, next, us[j + 1..], maxBits)
  {
    hide BlockInRange, OneBlock, Tokens, AllInRange;
    RangeAt(us, j, tabs, last, maxBits);
    var rest := us[j..];
    assert rest[1..] == us[j + 1..] && rest[0] == us[j];
    TokensStep(tabs, last, rest, maxBits);
    var ci := us[j].ci;
    var own, next := OneBlock(tabs[ci], us[j].block, last[ci], maxBits), last[ci := us[j].block[0] as int];
    assert done + (own + Tokens(tabs, next, us[j + 1..], maxBits))
               == (done + own) + Tokens(tabs, next, us[j + 1..], maxBits);
  }

  method CountBlock(block: Block, last: int, t: TablePair, counts: seq<array<nat>>, maxBits: nat,
                    ghost done: seq<Token>)
      returns (ok: bool)
    requires maxBits <= 14 && Arrays(counts)
    requires t.dc < |counts| && t.ac < |counts| && t.dc != t.ac && CountsOfTokens(counts, done)
    modifies counts
    ensures ok <==> BlockInRange(block, last, maxBits)
    ensures ok ==> CountsOfTokens(counts, done + OneBlock(t, block, last, maxBits))
  {
    hide CountedUp, BlockInRange, OneBlock;
    ok := HtestOneBlock(t, block, last, maxBits, counts[t.dc], counts[t.ac]);
    if !ok { return; }
    ghost var own := OneBlock(t, block, last, maxBits);
    OwnTables(t, block, last, maxBits);
    forall i | 0 <= i < |counts| ensures CountedUp(counts[i][..], seq(counts[i].Length, _ => 0), done + own, i) {
      if i == t.dc || i == t.ac {
        GrownTwice(counts[i][..], old(counts[i][..]), seq(counts[i].Length, _ => 0), done, own, i);
      } else {
        GrownSame(counts[i][..], seq(counts[i].Length, _ => 0), done, own, i);
      }
    }
  }

  // ----- Sending a scan --------------------------------------------------------------------------

  /** encode_mcu_huff over the blocks of a scan, and finish_pass_huff. */
  method SendScan(us: seq<Unit>, tabs: seq<TablePair>, tables: seq<SymbolCodes>, maxBits: nat)
      returns (data: seq<byte>, ok: bool)
    requires ValidUnits(us, |tabs|) && maxBits <= 14
    requires Pairs(tabs, |tables|) && forall i :: 0 <= i < |tables| ==> Fits(tables[i])
    ensures ok <==> AllInRange(us, seq(|tabs|, _ => 0), maxBits)
    ensures ok ==> var ts := Tokens(tabs, seq(|tabs|, _ => 0), us, maxBits);
                   Tabled(tables, ts) && data == Stuff(WholeBytes(Padded(AllBits(tables, ts))))
  {
    hide Put, BlockInRange, OneBlock, Tokens, AllInRange, AllBits, Tabled, Fits, WholeBytes, Padded;
    var last: seq<int> := seq(|tabs|, _ => 0);
    ghost var good := AllInRange(us, last, maxBits);
    ghost var all, done := if good then Tokens(tabs, last, us, maxBits) else [], [];
    data := [];
    var buf := new Buf.HuffBitBuffer();
    PutNothing([], tables);
    assert us[0..] == us && [] + all == all;
    for j := 0 to |us|
      invariant fresh(buf) && buf.Valid() == true
      invariant TablesFor(tabs, last, us[j..]) && (AllInRange(us[j..], last, maxBits) <==> good)
      invariant Put(buf.sent, [], tables, done)
      invariant good ==> done + Tokens(tabs, last, us[j..], maxBits) == all
    {
      RangeAt(us, j, tabs, last, maxBits);
      if good { TokensAt(us, j, tabs, last, maxBits, done); }
      var ci := us[j].ci;
      ghost var before := buf.sent;
      ok := EncodeOneBlock(tabs[ci], buf, us[j].block, last[ci], maxBits, tables[tabs[ci].dc], tables[tabs[ci].ac],
                           tables);
      if !ok { return; }
      ghost var own := OneBlock(tabs[ci], us[j].block, last[ci], maxBits);
      PutAfter(buf.sent, before, [], tables, done, own);
      done := done + own;
      last := last[ci := us[j].block[0] as int];
    }
    NoTokens(tabs, last, maxBits, |tables|);
    assert us[|us|..] == [] && done + [] == done;
    buf.FlushBits();
    data, ok := buf.output, true;
    PutAll(tables, done);
  }

  lemma PutAfter(sent: seq<bool>, mid: seq<bool>, start: seq<bool>, tables: seq<SymbolCodes>, ts: seq<Token>,
                 us: seq<Token>)
    requires Put(mid, start, tables, ts) && Put(sent, mid, tables, us)
    ensures Put(sent, start, tables, ts + us)
  {
    hide AllBits, Tabled;
    PutMore(mid, start, tables, ts, us);
  }

  lemma PutAll(tables: seq<SymbolCodes>, ts: seq<Token>)
    ensures forall sent: seq<bool> :: Put(sent, [], tables, ts) ==> Tabled(tables, ts) && sent == AllBits(tables, ts)
  {
    hide AllBits, Tabled;
    forall sent: seq<bool> | Put(sent, [], tables, ts) ensures Tabled(tables, ts) && sent == AllBits(tables, ts) {
      assert [] + AllBits(tables, ts) == AllBits(tables, ts);
    }
  }

  // ----- Tables from the counts --------------------------------------------------------------------

  /** The counts of one table are small enough for the source's sentinels and
      8-bit length counts: fewer than 10^9 tokens, and two symbols never sent.
   */
  lemma FewEnough(freq: seq<nat>, ts: seq<Token>, tbl: nat, x: nat, y: nat)
    requires |freq| == HUFFMAN_ALPHABET_SIZE && CountedUp(freq, seq(HUFFMAN_ALPHABET_SIZE, _ => 0), ts, tbl)
    requires x < y < PSEUDO_SYMBOL && Uses(ts, tbl, x) == 0 == Uses(ts, tbl, y) && |ts| < 1000000000
    ensures FewSymbols(freq) && Total(freq, PSEUDO_SYMBOL) <= |ts|
  {
    hide Uses, Occurring, Total;
    TwoMissing(freq, x, y, PSEUDO_SYMBOL);
    TotalUses(freq, ts, tbl, PSEUDO_SYMBOL);
  }

  /** Tables of the scan only, and two symbols that no table sends. */
  ghost predicate Unsent(ts: seq<Token>, n: nat, x: byte, y: byte) {
    forall i :: 0 <= i < |ts| && ts[i].Symbol? ==> ts[i].tbl < n && ts[i].s != x && ts[i].s != y
  }

  lemma NeverSent(ts: seq<Token>, n: nat)
    requires AllOrdinary(ts, n)
    ensures Unsent(ts, n, 0x10, 0x20)
  {
    forall i | 0 <= i < |ts| ensures Ordinary(ts[i], n) {
    }
  }

  lemma {:induction false} UnsentUnused(ts: seq<Token>, n: nat, x: byte, y: byte, tbl: nat)
    requires Unsent(ts, n, x, y)
    ensures Uses(ts, tbl, x as nat) == 0 == Uses(ts, tbl, y as nat)
    decreases |ts|
  {
    if ts != [] {
      var rest := ts[..|ts| - 1];
      assert forall i :: 0 <= i < |rest| ==> rest[i] == ts[i];
      UnsentUnused(rest, n, x, y, tbl);
    }
  }

  lemma {:induction false} TwoMissing(freq: seq<nat>, x: nat, y: nat, k: nat)
    requires x < y && k <= |freq| && (x < k ==> freq[x] == 0) && (y < k ==> freq[y] == 0)
    ensures |Occurring(freq, k)| <= k - (if x < k then 1 else 0) - (if y < k then 1 else 0)
    decreases k
  {
    if k > 0 { TwoMissing(freq, x, y, k - 1); }
  }

  /** All uses together are at most the number of tokens. */
  lemma {:induction false} TotalUses(freq: seq<nat>, ts: seq<Token>, tbl: nat, k: nat)
    requires k <= |freq| && forall s :: 0 <= s < k ==> freq[s] == Uses(ts, tbl, s)
    ensures Total(freq, k) <= |ts|
    decreases |ts|
  {
    if ts == [] {
      ZeroTotal(freq, k);
    } else {
      var rest, t := ts[..|ts| - 1], ts[|ts| - 1];
      var before := seq(|freq|, s requires 0 <= s < |freq| => Uses(rest, tbl, s));
      TotalUses(before, rest, tbl, k);
      OneTotal(freq, before, if t.Symbol? && t.tbl == tbl then t.s as int else -1, k);
    }
  }

  lemma {:induction false} ZeroTotal(freq: seq<nat>, k: nat)
    requires k <= |freq| && forall s :: 0 <= s < k ==> freq[s] == 0
    ensures Total(freq, k) == 0
    decreases k
  {
    if k > 0 { ZeroTotal(freq, k - 1); }
  }

  lemma {:induction false} OneTotal(freq: seq<nat>, before: seq<nat>, x: int, k: nat)
    requires k <= |freq| == |before| && forall s :: 0 <= s < k ==> freq[s] == before[s] + if s == x then 1 else 0
    ensures Total(freq, k) == Total(before, k) + if 0 <= x < k then 1 else 0
    decreases k
  {
    if k > 0 { OneTotal(freq, before, x, k - 1); }
  }

  /** A table as sent and as used for encoding. */
  datatype Built = Built(table: HuffTable, codes: SymbolCodes)

  ghost predicate GoodTable(b: Built) {
    && b.table.Legal(255) && |TableCodes(b.table.bits)| <= 256
    && CodesOf(b.codes, TableCodes(b.table.bits), b.table.huffval, |TableCodes(b.table.bits)|)
  }

  /** Symbols the tokens send by this table have codes in it. */
  ghost predicate Covers(b: Built, ts: seq<Token>, tbl: nat) {
    |b.codes.ehufsi| == 256 && forall s: byte :: Uses(ts, tbl, s as nat) > 0 ==> b.codes.ehufsi[s] != 0
  }

  /** How often the tokens use each symbol of a table. */
  ghost function UseCounts(ts: seq<Token>, tbl: nat): (freq: seq<nat>)
    ensures |freq| == HUFFMAN_ALPHABET_SIZE
  {
    seq(HUFFMAN_ALPHABET_SIZE, s requires 0 <= s < HUFFMAN_ALPHABET_SIZE => Uses(ts, tbl, s))
  }

  /** One of the tables would need a code of more than 32 bits. */
  ghost predicate SomeOverlong(ts: seq<Token>, n: nat) {
    exists i :: 0 <= i < n && Overlong(UseCounts(ts, i))
  }

  /** finish_pass_gather: a table from each count array; an error only for counts
      whose best code has a length over 32.
   */
  method BuildTables(counts: seq<array<nat>>, ghost ts: seq<Token>, ghost x: byte, ghost y: byte)
      returns (built: seq<Built>, ok: bool)
    requires Arrays(counts) && CountsOfTokens(counts, ts) && Unsent(ts, |counts|, x, y) && x < y && |ts| < 1000000000
    modifies counts
    ensures ok ==> |built| == |counts| && forall i :: 0 <= i < |built| ==>
              GoodTable(built[i]) && Covers(built[i], ts, i)
    ensures !ok ==> SomeOverlong(ts, |counts|)
    ensures |ts| + 1 < LONG_CODE_COUNT ==> ok
  {
    hide CountedUp, Uses, UseCounts, LegalTable, CodesOf, FewSymbols, Unsent, Total, Occurring, BestSizes, Overlong;
    built, ok := [], true;
    for j := 0 to |counts|
      invariant |built| == j
      invariant forall i :: j <= i < |counts| ==> counts[i][..] == old(counts[i][..])
      invariant forall i :: 0 <= i < j ==> GoodTable(built[i]) && Covers(built[i], ts, i)
    {
      UnsentUnused(ts, |counts|, x, y, j);
      FewEnough(counts[j][..], ts, j, x as nat, y as nat);
      ghost var freq := counts[j][..];
      CountsAreUses(freq, ts, j);
      var huffval := new byte[256](_ => 0);
      var bits, codes;
      ghost var size;
      bits, codes, ok, size := TableFromCounts(counts[j], huffval, 255);
      if !ok {
        assert Overlong(UseCounts(ts, j)) by { assert freq == UseCounts(ts, j); }
        return;
      }
      assert forall s: byte :: codes.ehufsi[s] != 0 <==> freq[s] != 0;
      built := built + [Built(HuffTable(bits, huffval[..]), codes)];
    }
  }

  lemma CountsAreUses(freq: seq<nat>, ts: seq<Token>, tbl: nat)
    requires |freq| == HUFFMAN_ALPHABET_SIZE && CountedUp(freq, seq(HUFFMAN_ALPHABET_SIZE, _ => 0), ts, tbl)
    ensures freq == UseCounts(ts, tbl) && forall s: byte :: freq[s] == Uses(ts, tbl, s as nat)
  {
    hide Uses;
  }

  lemma CoveredCoded(built: seq<Built>, codes: seq<SymbolCodes>, ts: seq<Token>)
    requires |codes| == |built| && forall i :: 0 <= i < |built| ==>
               codes[i] == built[i].codes && GoodTable(built[i]) && Covers(built[i], ts, i)
    requires forall i :: 0 <= i < |ts| && ts[i].Symbol? ==> ts[i].tbl < |built|
    ensures AllCoded(codes, ts)
  {
    hide Uses, LegalTable;
    forall i | 0 <= i < |ts| && ts[i].Symbol?
      ensures ts[i].tbl < |codes| && |codes[ts[i].tbl].ehufco| == |codes[ts[i].tbl].ehufsi| == 256
      ensures codes[ts[i].tbl].ehufsi[ts[i].s] != 0
    {
      SentIsUsed(ts, i);
    }
  }

  // ----- Reading a scan back -------------------------------------------------------------------------

  /** Bytes that end in a marker, read as bits: the tokens that were sent. */
  lemma BytesDeliver(built: seq<Built>, codes: seq<SymbolCodes>, ts: seq<Token>, data: seq<byte>, tail: seq<byte>)
      returns (padding: seq<bool>)
    requires |codes| == |built| && forall i :: 0 <= i < |built| ==> codes[i] == built[i].codes && GoodTable(built[i])
    requires AllCoded(codes, ts) && data == Stuff(WholeBytes(Padded(AllBits(codes, ts)))) && Unstuff(tail) == []
    ensures TablesUsable(TablesOf(built))
            && Delivers(BitSource(TablesOf(built)), BitsOf(Unstuff(data + tail)), ts, padding)
  {
    hide AllBits, WholeBytes, AllCoded, LegalTable, CodesOf, DecodeSymbol, Delivers;
    AllTabled(codes, ts);
    GoodUsable(built);
    var bits := AllBits(codes, ts);
    UnstuffStuffed(WholeBytes(Padded(bits)), tail);
    assert WholeBytes(Padded(bits)) + [] == WholeBytes(Padded(bits));
    PaddedWhole(bits);
    BitsOfWholeBytes(Padded(bits));
    padding := PaddedTail(bits);
    BitsDeliver(codes, TablesOf(built), ts, padding);
  }

  lemma AllTabled(codes: seq<SymbolCodes>, ts: seq<Token>)
    requires AllCoded(codes, ts)
    ensures Tabled(codes, ts)
  {
  }

  lemma PaddedTail(bits: seq<bool>) returns (padding: seq<bool>)
    ensures Padded(bits) == bits + padding
  {
    padding := if LeftOver(bits) == [] then [] else Ones(8 - |LeftOver(bits)|);
    assert bits + [] == bits;
  }

  /** Optimized Huffman coding of a scan from the blocks to the bytes and back:
      count, build tables, send, and read what was sent with those tables.  It
      fails if a coefficient is out of range, and otherwise only if some best code
      has a length over 32, never for fewer than about nine million symbols and
      values.
   */
  method OptimizedScan(us: seq<Unit>, tabs: seq<TablePair>, n: nat, maxBits: nat)
      returns (data: seq<byte>, built: seq<Built>, ok: bool)
    requires ValidUnits(us, |tabs|) && maxBits <= 14 && Pairs(tabs, n)
    requires AllInRange(us, seq(|tabs|, _ => 0), maxBits) ==>
               |Tokens(tabs, seq(|tabs|, _ => 0), us, maxBits)| < 1000000000
    ensures ok ==> AllInRange(us, seq(|tabs|, _ => 0), maxBits)
    ensures AllInRange(us, seq(|tabs|, _ => 0), maxBits) ==>
              var ts := Tokens(tabs, seq(|tabs|, _ => 0), us, maxBits);
              (!ok ==> SomeOverlong(ts, n)) && (|ts| + 1 < LONG_CODE_COUNT ==> ok)
    ensures ok ==> |built| == n && forall i :: 0 <= i < n ==> GoodTable(built[i])
    ensures ok ==> forall marker: byte, rest: seq<byte>, known: seq<Unit> ::
              marker != 0 && marker != 0xFF && ValidUnits(known, |tabs|) && AllBefore(Sequential, known, us) ==>
                AllAfter(Sequential, ReadBack(built, tabs, data + ([0xFF, marker] + rest), known), known, us)
  {
    hide Tokens, BlockInRange, CountedUp, UseCounts, Overlong, GoodTable, Covers, AllBefore, AllAfter, ReadBack,
         AllInRange, AllOrdinary;
    ghost var last: seq<int> := seq(|tabs|, _ => 0);
    data, built := [], [];
    var counts := NewCounts(n);
    ok := GatherScan(us, tabs, counts, maxBits);
    if !ok { return; }
    ghost var ts := Tokens(tabs, last, us, maxBits);
    OrdinaryScan(tabs, last, us, maxBits, n);
    NeverSent(ts, n);
    built, ok := BuildTables(counts, ts, 0x10, 0x20);
    if ok {
      var codes := seq(n, i requires 0 <= i < n => built[i].codes);
      forall i | 0 <= i < n ensures Fits(codes[i]) { GoodFits(built[i]); }
      CoveredCoded(built, codes, ts);
      data, ok := SendScan(us, tabs, codes, maxBits);
      forall marker: byte, rest: seq<byte>, known: seq<Unit> |
        marker != 0 && marker != 0xFF && ValidUnits(known, |tabs|) && AllBefore(Sequential, known, us)
        ensures AllAfter(Sequential, ReadBack(built, tabs, data + ([0xFF, marker] + rest), known), known, us)
      {
        ReadBackWhole(built, tabs, us, known, maxBits, codes, data, marker, rest);
      }
    }
  }

  lemma GoodFits(b: Built)
    requires GoodTable(b)
    ensures Fits(b.codes)
  {
    hide LegalTable, CodesOf, Fits;
    DerivedFits(b.table.bits, b.table.huffval, 255, b.codes);
  }

  function TablesOf(built: seq<Built>): (tables: seq<HuffTable>)
    ensures |tables| == |built| && forall i :: 0 <= i < |built| ==> tables[i] == built[i].table
  {
    seq(|built|, i requires 0 <= i < |built| => built[i].table)
  }

  lemma GoodUsable(built: seq<Built>)
    requires forall i :: 0 <= i < |built| ==> GoodTable(built[i])
    ensures TablesUsable(TablesOf(built))
  {
    hide LegalTable, CodesOf;
  }

  /** What a decoder with these tables makes of the bytes. */
  ghost function ReadBack(built: seq<Built>, tabs: seq<TablePair>, data: seq<byte>, known: seq<Unit>): seq<Block>
    requires ValidUnits(known, |tabs|) && forall i :: 0 <= i < |built| ==> GoodTable(built[i])
  {
    GoodUsable(built);
    ReadUnits(BitSource(TablesOf(built)), BitsOf(Unstuff(data)), Sequential, tabs, seq(|tabs|, _ => 0), known).blocks
  }

  lemma ReadBackWhole(built: seq<Built>, tabs: seq<TablePair>, us: seq<Unit>, known: seq<Unit>, maxBits: nat,
                      codes: seq<SymbolCodes>, data: seq<byte>, marker: byte, rest: seq<byte>)
    requires ValidUnits(us, |tabs|) && ValidUnits(known, |tabs|) && maxBits <= 14
             && AllInRange(us, seq(|tabs|, _ => 0), maxBits)
    requires |codes| == |built| && forall i :: 0 <= i < |built| ==> codes[i] == built[i].codes && GoodTable(built[i])
    requires AllBefore(Sequential, known, us) && marker != 0 && marker != 0xFF
    requires var ts := Tokens(tabs, seq(|tabs|, _ => 0), us, maxBits);
             AllCoded(codes, ts) && data == Stuff(WholeBytes(Padded(AllBits(codes, ts))))
    ensures AllAfter(Sequential, ReadBack(built, tabs, data + ([0xFF, marker] + rest), known), known, us)
  {
    hide UnitTokens, AllBits, WholeBytes, AllCoded, LegalTable, CodesOf, AllBefore, AllAfter, DecodeSymbol, ReadUnits,
         AllInRange, Unstuff;
    MarkerEndsCode(0, marker, rest);
    var tail, last, ts := [0xFF, marker] + rest, seq(|tabs|, _ => 0), Tokens(tabs, seq(|tabs|, _ => 0), us, maxBits);
    assert tail == Repeat(0xFF, 1) + [marker] + rest;
    GoodUsable(built);
    InRangeAllSendable(us, last, maxBits);
    var padding := BytesDeliver(built, codes, ts, data, tail);
    UnitsRoundTrip(BitSource(TablesOf(built)), BitsOf(Unstuff(data + tail)), Sequential, tabs, last, us, known,
                   padding);
  }
}
