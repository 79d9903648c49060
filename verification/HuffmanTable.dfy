/** jpeg_gen_optimal_table (jchuff.c) as a whole, and what its table is worth:
    jpeg_make_c_derived_tbl never rejects it and every symbol that occurs gets
    a code.
 */
module HuffmanTable {
  import opened CodeBytes
  import opened HuffmanCost
  import opened HuffmanForest
  import opened HuffmanOrder
  import opened HuffmanTree
  import opened HuffmanDepth
  import opened HuffmanLimit
  import opened SymbolOrder
  import opened CanonicalCode
  import D = DerivedTable

  // ----- Symbols and counts ------------------------------------------------------------------

  /** The counts with the pseudo-symbol's, which occurs once. */
  function Marked(freq: seq<nat>): (f: seq<nat>)
    requires |freq| == HUFFMAN_ALPHABET_SIZE
    ensures |f| == HUFFMAN_ALPHABET_SIZE
  {
    freq[PSEUDO_SYMBOL := 1]
  }

  function Symbols(freq: seq<nat>): (syms: seq<nat>)
    requires |freq| == HUFFMAN_ALPHABET_SIZE
    ensures forall i :: 0 <= i < |syms| ==> syms[i] < HUFFMAN_ALPHABET_SIZE
  {
    Occurring(Marked(freq), HUFFMAN_ALPHABET_SIZE)
  }

  function SymbolCounts(freq: seq<nat>): (w: Weights)
    requires |freq| == HUFFMAN_ALPHABET_SIZE
    ensures |w| == |Symbols(freq)|
  {
    CountsOf(Marked(freq), Symbols(freq))
  }

  /** What the source's sentinels and 8-bit length counts leave room for. */
  ghost predicate FewSymbols(freq: seq<nat>) {
    && |freq| == HUFFMAN_ALPHABET_SIZE
    && |Occurring(freq, PSEUDO_SYMBOL)| <= 254
    && Total(freq, PSEUDO_SYMBOL) < 1000000000
  }

  lemma {:induction false} OccurringBelow(f: seq<nat>, g: seq<nat>, k: nat)
    requires k <= |f| && k <= |g| && f[..k] == g[..k]
    ensures Occurring(f, k) == Occurring(g, k)
    ensures Total(f, k) == Total(g, k)
    decreases k
  {
    if k > 0 {
      assert f[k - 1] == f[..k][k - 1] == g[k - 1];
      assert f[..k - 1] == f[..k][..k - 1] == g[..k - 1];
      OccurringBelow(f, g, k - 1);
    }
  }

  /** Leaving out counts of zero leaves the total. */
  lemma {:induction false} GroupedTotal(f: seq<nat>, k: nat)
    requires k <= |f|
    ensures Total(CountsOf(f, Occurring(f, k)), |Occurring(f, k)|) == Total(f, k)
    decreases k
  {
    if k > 0 {
      GroupedTotal(f, k - 1);
      NextOccurring(f, k - 1);
      if f[k - 1] != 0 {
        var w := CountsOf(f, Occurring(f, k - 1));
        var next := w + [f[k - 1]];
        assert next[..|w|] == w[..|w|];
        OccurringBelow(next, w, |w|);
      }
    }
  }

  /** The pseudo-symbol is the last one and the rarest; at most 255 in all. */
  lemma SymbolsShape(freq: seq<nat>)
    requires FewSymbols(freq)
    ensures var syms, w := Symbols(freq), SymbolCounts(freq);
            && 1 <= |syms| <= 255
            && syms == Occurring(freq, PSEUDO_SYMBOL) + [PSEUDO_SYMBOL]
            && Countable(w) && LastRarest(w) && AllAlive(w)
            && (forall i :: 0 <= i < |w| ==> w[i] >= 1) && Total(w, |w|) == Total(freq, PSEUDO_SYMBOL) + 1
  {
    var f := Marked(freq);
    assert f[..PSEUDO_SYMBOL] == freq[..PSEUDO_SYMBOL];
    OccurringBelow(f, freq, PSEUDO_SYMBOL);
    NextOccurring(f, PSEUDO_SYMBOL);
    GroupedTotal(f, HUFFMAN_ALPHABET_SIZE);
    assert Total(f, HUFFMAN_ALPHABET_SIZE) == Total(f, PSEUDO_SYMBOL) + 1;
    CountableAlive(SymbolCounts(freq));
  }

  // ----- The table ---------------------------------------------------------------------------

  /** `size` holds code lengths that no prefix code for `w` beats, the last
      symbol's the longest.
   */
  ghost predicate BestSizes(w: Weights, size: seq<nat>) {
    && OptimalLengths(w, size)
    && forall x :: 0 <= x < |size| ==> size[x] <= size[|size| - 1]
  }

  /** Only a symbol all alone gets an empty code. */
  lemma NoEmptyCode(w: Weights, size: seq<nat>)
    requires AllAlive(w) && OptimalLengths(w, size) && |w| >= 2
    ensures forall x :: 0 <= x < |w| ==> size[x] >= 1
  {
    forall x | 0 <= x < |w| ensures size[x] >= 1 {
      var y := if x == 0 then 1 else 0;
      assert Alive(w, x) && Alive(w, y);
      KraftOfTwo(w, size, x, y);
    }
  }

  lemma {:induction false} NoneHaving(size: seq<nat>, n: nat, k: nat)
    requires n <= |size| && forall x :: 0 <= x < n ==> size[x] != k
    ensures Having(size, n, k) == 0
    decreases n
  {
    if n > 0 { NoneHaving(size, n - 1, k); }
  }

  /** The counted lengths are those of a full code. */
  lemma CountedFull(w: Weights, size: seq<nat>, b: seq<int>)
    requires AllAlive(w) && OptimalLengths(w, size) && AtMost(w, size, MAX_CLEN, |w|)
    requires |b| == MAX_CLEN + 1 && forall k :: 0 <= k < |b| ==> b[k] == Having(size, |w|, k)
    requires CodeSpace(b, MAX_CLEN) == Covered(w, size, MAX_CLEN, |w|) && TotalTo(b, MAX_CLEN) == |w|
    ensures FullCode(b, MAX_CLEN, |w|)
  {
    hide CodeSpace, TotalTo, Pow2, Covered, Kraft;
    FullCovers(w, size, MAX_CLEN);
    if |w| >= 2 {
      NoEmptyCode(w, size);
      NoneHaving(size, |w|, 0);
    }
  }

  /** The lengths without the pseudo-symbol's, as the table holds them. */
  lemma DroppedLegal(b: seq<int>, l: nat, n: nat, bits: seq<byte>)
    requires FullCode(b, 16, n) && LargestLength(b, l) && l <= 16 && n >= 1 && |bits| == 17
    requires forall k :: 0 <= k <= 16 ==> bits[k] as int == b[l := b[l] - 1][k]
    ensures LegalCode(D.CountsOfLengths(bits), 16)
    ensures TotalTo(D.CountsOfLengths(bits), 16) == n - 1
    ensures forall k :: 0 <= k <= 16 ==> D.CountsOfLengths(bits)[k] == b[l := b[l] - 1][k]
  {
    hide CodeSpace, TotalTo, Pow2;
    var c, d := b[l := b[l] - 1], D.CountsOfLengths(bits);
    OneFewer(b, l, 0, n);
    OneAtLeast(c, 0, MAX_CLEN);
    assert c[..17] == d;
    NothingBeyond(c, 16, MAX_CLEN);
    forall m | 1 <= m <= 16 ensures CodeSpace(d, m) < Pow2(m) {
      OneFewer(b, l, m, n);
      assert c[..m + 1] == d[..m + 1];
      SpacePrefix(c, d, m);
    }
    SpacePrefix(c, d, 16);
  }

  lemma {:induction false} NothingBeyond(b: seq<int>, l: nat, top: nat)
    requires l <= top < |b| && forall k :: l < k <= top ==> b[k] == 0
    ensures TotalTo(b, l) == TotalTo(b, top)
    decreases top
  {
    if l < top { NothingBeyond(b, l, top - 1); }
  }

  /** The table for symbols with code lengths `size`, the last one left out. */
  ghost predicate TableFor(bits: seq<byte>, huffval: seq<byte>, size: seq<nat>, syms: seq<nat>) {
    && |bits| == 17 && |huffval| == 256 && 1 <= |size| == |syms| <= 256
    && var n, top := |size| - 1, size[|size| - 1];
      && LegalCode(D.CountsOfLengths(bits), 16)
      && TotalTo(D.CountsOfLengths(bits), 16) == |ByLength(size, syms, n, top)| == n
      && (forall p :: 0 <= p < n ==> huffval[p] as nat == ByLength(size, syms, n, top)[p])
      && (top <= 16 ==> forall k :: 1 <= k <= 16 ==> D.CountsOfLengths(bits)[k] == Having(size, n, k))
  }

  /** How many of the code lengths `size` are 0, 1, .. 32. */
  ghost function Counted(size: seq<nat>): seq<int> {
    seq(MAX_CLEN + 1, k requires 0 <= k => Having(size, |size|, k))
  }

  /** `bits` counts the lengths `size`, limited to 16 bits, without one of the
      longest, which is the pseudo-symbol's.
   */
  ghost predicate CountsLimited(bits: seq<byte>, size: seq<nat>) {
    exists c: seq<int>, l: nat :: LimitGives(bits, size, c, l)
  }

  ghost predicate LimitGives(bits: seq<byte>, size: seq<nat>, c: seq<int>, l: nat) {
    && |bits| == 17 && Limited(Counted(size), c, |size|) && LargestLength(c, l) && l <= 16
    && forall k :: 1 <= k <= 16 ==> bits[k] as int == if k == l then c[k] - 1 else c[k]
  }

  /** Best code lengths for the counts, with one over 32 among them. */
  ghost predicate Overlong(freq: seq<nat>)
    requires |freq| == HUFFMAN_ALPHABET_SIZE
  {
    exists size: seq<nat>, x: nat :: BestSizes(SymbolCounts(freq), size) && x < |size| && size[x] > MAX_CLEN
  }

  // ----- Counts with a code of 33 bits ---------------------------------------------------------

  /** Counts that fall like a Fibonacci sequence over the first `n - 1` symbols. */
  function FallingCounts(n: nat): (freq: seq<nat>)
    requires 2 <= n <= PSEUDO_SYMBOL
    ensures |freq| == HUFFMAN_ALPHABET_SIZE && forall s :: 0 <= s < |freq| ==> (freq[s] != 0 <==> s <= n - 2)
  {
    seq(HUFFMAN_ALPHABET_SIZE, s requires 0 <= s => if s < n - 2 then Least(n - 3 - s) else if s == n - 2 then 1 else 0)
  }

  function Upto(n: nat): (s: seq<nat>) {
    seq(n, i requires 0 <= i => i)
  }

  lemma {:induction false} FallingOccur(n: nat, k: nat)
    requires 2 <= n <= PSEUDO_SYMBOL && k <= PSEUDO_SYMBOL
    ensures Occurring(FallingCounts(n), k) == Upto(if k < n then k else n - 1)
    decreases k
  {
    hide FallingCounts;
    if k > 0 { FallingOccur(n, k - 1); }
  }

  /** With the pseudo-symbol they are a staircase of `n` counts. */
  lemma FallingStaircase(n: nat)
    requires 2 <= n <= PSEUDO_SYMBOL
    ensures Staircase(SymbolCounts(FallingCounts(n))) && |SymbolCounts(FallingCounts(n))| == n
    ensures Occurring(FallingCounts(n), PSEUDO_SYMBOL) == Upto(n - 1)
    ensures Total(FallingCounts(n), PSEUDO_SYMBOL) + 1 == Least(n - 1)
  {
    hide Least, Total, SymbolCounts, FallingCounts, Occurring;
    var freq := FallingCounts(n);
    FallingSymbols(n);
    forall i | 0 <= i < n ensures SymbolCounts(freq)[i] == if i < n - 2 then Least(n - 3 - i) else 1 {
      FallingCount(n, i);
    }
    StairsTight(SymbolCounts(freq));
    MarkedTotal(freq);
  }

  lemma FallingSymbols(n: nat)
    requires 2 <= n <= PSEUDO_SYMBOL
    ensures Occurring(FallingCounts(n), PSEUDO_SYMBOL) == Upto(n - 1)
    ensures Symbols(FallingCounts(n)) == Upto(n - 1) + [PSEUDO_SYMBOL]
  {
    hide FallingCounts, CountsOf;
    var freq := FallingCounts(n);
    var f := Marked(freq);
    FallingOccur(n, PSEUDO_SYMBOL);
    assert f[..PSEUDO_SYMBOL] == freq[..PSEUDO_SYMBOL];
    OccurringBelow(f, freq, PSEUDO_SYMBOL);
    hide Occurring;
    NextOccurring(f, PSEUDO_SYMBOL);
  }

  lemma FallingCount(n: nat, i: nat)
    requires 2 <= n <= PSEUDO_SYMBOL && i < n
    ensures |SymbolCounts(FallingCounts(n))| == n
    ensures SymbolCounts(FallingCounts(n))[i] == if i < n - 2 then Least(n - 3 - i) else 1
  {
    hide Least, Occurring, Symbols;
    FallingSymbols(n);
    var f, syms := Marked(FallingCounts(n)), Symbols(FallingCounts(n));
    assert syms[i] == if i < n - 1 then i else PSEUDO_SYMBOL;
    assert SymbolCounts(FallingCounts(n))[i] == f[syms[i]];
  }

  lemma MarkedTotal(freq: seq<nat>)
    requires |freq| == HUFFMAN_ALPHABET_SIZE
    ensures var w := SymbolCounts(freq); Total(w, |w|) == Total(freq, PSEUDO_SYMBOL) + 1
  {
    var f := Marked(freq);
    assert f[..PSEUDO_SYMBOL] == freq[..PSEUDO_SYMBOL];
    OccurringBelow(f, freq, PSEUDO_SYMBOL);
    GroupedTotal(f, HUFFMAN_ALPHABET_SIZE);
  }

  /** The 33 symbols with the smallest total that has an overlong code. */
  function LongestCounts(): (freq: seq<nat>)
    ensures |freq| == HUFFMAN_ALPHABET_SIZE
  {
    FallingCounts(MAX_CLEN + 2)
  }

  lemma LongestCountsShape()
    ensures FewSymbols(LongestCounts()) && Staircase(SymbolCounts(LongestCounts()))
    ensures |SymbolCounts(LongestCounts())| == MAX_CLEN + 2
    ensures Total(LongestCounts(), PSEUDO_SYMBOL) + 1 == LONG_CODE_COUNT
  {
    hide Least, Total, Staircase, SymbolCounts, FallingCounts, Occurring;
    FallingStaircase(MAX_CLEN + 2);
    LeastOf33();
  }

  // ----- jpeg_gen_optimal_table --------------------------------------------------------------

  /** From counts to table: best code lengths, of which one over 32 is the error
      exit, which counts below the staircase of 34 never take and that one does;
      lengths limited to 16; symbols sorted by length.
   */
  method GenOptimalTable(freq: array<nat>, huffval: array<byte>)
      returns (bits: seq<byte>, ok: bool, ghost size: seq<nat>)
    requires FewSymbols(freq[..]) && huffval.Length == 256
    modifies freq, huffval
    ensures BestSizes(SymbolCounts(old(freq[..])), size)
    ensures ok <==> forall x :: 0 <= x < |size| ==> size[x] <= MAX_CLEN
    ensures Total(old(freq[..]), PSEUDO_SYMBOL) + 1 < LONG_CODE_COUNT ==> ok
    ensures Staircase(SymbolCounts(old(freq[..]))) ==> size[|size| - 1] == |size| - 1
    ensures old(freq[..]) == LongestCounts() ==> !ok
    ensures ok ==> TableFor(bits, huffval[..], size, Symbols(old(freq[..]))) && CountsLimited(bits, size)
  {
    hide Total, Staircase, LongestCounts, Least, CodeSpace, TotalTo, OptimalLengths, FullCode, LargestLength, Having,
         CountsLimited,
         Occurring, CountsOf;
    ghost var syms, w := Symbols(freq[..]), SymbolCounts(freq[..]);
    SymbolsShape(freq[..]);
    freq[PSEUDO_SYMBOL] := 1;
    bits := [];
    var codesize := new nat[HUFFMAN_ALPHABET_SIZE](_ => 0);
    var nzIndex, n := GroupNonzero(freq);
    FindCodeSizes(freq, n, codesize);
    size := codesize[..n];
    if Total(w, |w|) < LONG_CODE_COUNT { ShortCodes(size, Total(w, |w|)); }
    var lengths;
    lengths, ok := CountLengths(codesize, n, w);
    LongestCountsShape();
    if ok {
      bits := FinishTable(codesize, nzIndex, n, lengths, huffval, w, size, syms);
    }
  }

  /** The rest, once the code lengths are counted. */
  method FinishTable(codesize: array<nat>, nzIndex: array<nat>, n: nat, lengths: array<byte>, huffval: array<byte>,
                     ghost w: Weights, ghost size: seq<nat>, ghost syms: seq<nat>) returns (bits: seq<byte>)
    requires 1 <= n <= 255 && n <= codesize.Length && n <= nzIndex.Length && huffval.Length == 256
    requires lengths.Length == MAX_CLEN + 1 && lengths != huffval
    requires codesize[..n] == size && nzIndex[..n] == syms && |w| == n && AllAlive(w) && BestSizes(w, size)
    requires forall x :: 0 <= x < n - 1 ==> syms[x] < 256
    requires SizesBelow(codesize[..], n, MAX_CLEN) && AtMost(w, size, MAX_CLEN, n)
    requires forall k :: 0 <= k < lengths.Length ==> lengths[k] == Having(codesize[..], n, k)
    requires CodeSpace(lengths[..], MAX_CLEN) == Covered(w, size, MAX_CLEN, n) && TotalTo(lengths[..], MAX_CLEN) == n
    modifies lengths, huffval
    ensures TableFor(bits, huffval[..], size, syms) && CountsLimited(bits, size)
  {
    hide CodeSpace, TotalTo, OptimalLengths, FullCode, LargestLength, KeepsShort, CountsLimited, Having, HavingUpTo,
         ByLength, LegalCode;
    ghost var all, b, top := codesize[..], lengths[..], size[n - 1];
    assert all[..n] == size;
    forall k: nat ensures Having(all, n, k) == Having(size, n, k) { HavingPrefix(all, size, n, k); }
    CountedFull(w, size, b);
    if n >= 2 { NoEmptyCode(w, size); }
    var bitPos := BitPositions(lengths, all, n);
    LimitLengths(lengths, n);
    ghost var limited := lengths[..];
    ghost var l := DropPseudoSymbol(lengths, n);
    bits := lengths[..17];
    DroppedLegal(limited, l, n, bits);
    assert b == Counted(size);
    LimitCounted(bits, size, limited, l);
    if top <= 16 { Unlimited(b, limited, l, size, n, lengths[..]); }
    forall j: nat | j < top ensures HavingUpTo(all, n, j) == HavingUpTo(all, n - 1, j) { UpToNext(all, n, j); }
    assert forall x :: 0 <= x < n ==> codesize[x] == size[x] && nzIndex[x] == syms[x];
    ListSymbols(codesize, nzIndex, n - 1, bitPos, huffval, top);
    assert all[..n - 1] == size[..n - 1] && nzIndex[..][..n - 1] == syms[..n - 1];
    ByLengthPrefix(all, nzIndex[..], size, syms, n - 1, top);
  }

  lemma LimitCounted(bits: seq<byte>, size: seq<nat>, c: seq<int>, l: nat)
    requires |bits| == 17 && Limited(Counted(size), c, |size|) && LargestLength(c, l) && l <= 16 && |c| > 16
    requires forall k :: 0 <= k <= 16 ==> bits[k] as int == c[l := c[l] - 1][k]
    ensures CountsLimited(bits, size)
  {
    hide Counted;
    assert LimitGives(bits, size, c, l);
  }

  /** If no code is longer than 16 bits, only the pseudo-symbol is missing from
      the counts.
   */
  lemma Unlimited(b: seq<int>, limited: seq<int>, l: nat, size: seq<nat>, n: nat, c: seq<int>)
    requires |b| == |limited| == MAX_CLEN + 1 && 1 <= n == |size|
             && forall k :: 0 <= k < |b| ==> b[k] == Having(size, n, k)
    requires forall x :: 0 <= x < n ==> size[x] <= size[n - 1]
    requires size[n - 1] <= 16 && LargestLength(limited, l) && c == limited[l := limited[l] - 1]
    requires (forall k :: 16 < k <= MAX_CLEN ==> b[k] == 0) ==> limited == b
    ensures forall k :: 0 <= k <= 16 ==> c[k] == Having(size, n - 1, k)
  {
    var top := size[n - 1];
    forall k | top < k <= MAX_CLEN ensures b[k] == 0 { NoneHaving(size, n, k); }
    assert b[top] == Having(size, n, top) >= 1;
    assert l == top;
    assert forall k: nat :: Having(size, n, k) == Having(size, n - 1, k) + if k == top then 1 else 0;
  }

  /** There is one way only to limit given code lengths so. */
  lemma CountsDetermined(bits: seq<byte>, bits': seq<byte>, size: seq<nat>)
    requires CountsLimited(bits, size) && CountsLimited(bits', size)
    ensures bits[1..] == bits'[1..]
  {
    var c: seq<int>, l: nat :| LimitGives(bits, size, c, l);
    var c': seq<int>, l': nat :| LimitGives(bits', size, c', l');
    hide Limited, Counted, LargestLength;
    CountedLength(size);
    LimitDetermined(Counted(size), c, c', |size|);
    OneLargest(c, l, l');
  }

  lemma CountedLength(size: seq<nat>)
    ensures |Counted(size)| == MAX_CLEN + 1
  {
  }

  lemma OneLargest(c: seq<int>, l: nat, l': nat)
    requires LargestLength(c, l) && LargestLength(c, l')
    ensures l == l'
  {
  }

  // ----- What the table is worth -------------------------------------------------------------

  /** The listed symbols are those that occur, each listed once. */
  lemma ListedOnce(freq: seq<nat>, bits: seq<byte>, huffval: seq<byte>, size: seq<nat>)
    requires FewSymbols(freq) && BestSizes(SymbolCounts(freq), size) && TableFor(bits, huffval, size, Symbols(freq))
    ensures forall p :: 0 <= p < |size| - 1 ==> huffval[p] as nat in Occurring(freq, PSEUDO_SYMBOL)
    ensures forall p, q :: 0 <= p < q < |size| - 1 ==> huffval[p] != huffval[q]
    ensures forall s :: s in Occurring(freq, PSEUDO_SYMBOL) ==>
              exists p :: 0 <= p < |size| - 1 && huffval[p] as nat == s
  {
    hide CodeSpace, TotalTo, Occurring, CountsOf, Having, HavingUpTo, ByLength, LegalCode, OptimalLengths, Occurs;
    var syms, n, top := Symbols(freq), |size| - 1, size[|size| - 1];
    SymbolsShape(freq);
    var occurring, list := Occurring(freq, PSEUDO_SYMBOL), ByLength(size, syms, n, top);
    assert syms[..n] == occurring;
    if n >= 1 { NoEmptyCode(SymbolCounts(freq), size); }
    forall v: nat ensures Occurs(list, v) == Occurs(occurring, v) <= 1 && (v in list <==> v in occurring) {
      SameOccurrences(size, syms, n, top, v);
      OccursOnce(occurring, v);
      OccursSomewhere(list, v);
      OccursSomewhere(occurring, v);
    }
    forall p | 0 <= p < n ensures huffval[p] as nat in occurring {
      assert list[p] in list;
    }
    forall p, q | 0 <= p < q < n ensures huffval[p] != huffval[q] {
      if list[p] == list[q] { OccursTwice(list, p, q); }
    }
    forall s | s in occurring ensures exists p :: 0 <= p < n && huffval[p] as nat == s {
      assert s in list;
      var p :| 0 <= p < n && list[p] == s;
      assert huffval[p] as nat == s;
    }
  }

  /** jpeg_make_c_derived_tbl accepts the table. */
  lemma TableAccepted(freq: seq<nat>, bits: seq<byte>, huffval: seq<byte>, size: seq<nat>, maxSymbol: nat)
    requires FewSymbols(freq) && BestSizes(SymbolCounts(freq), size) && TableFor(bits, huffval, size, Symbols(freq))
    requires forall s :: 0 <= s < PSEUDO_SYMBOL && freq[s] != 0 ==> s <= maxSymbol
    ensures D.LegalTable(bits, huffval, maxSymbol)
  {
    hide CodeSpace, TotalTo, LegalCode, Having, ByLength, OptimalLengths;
    ListedOnce(freq, bits, huffval, size);
  }

  /** Every symbol that occurs, and no other, has a code. */
  lemma EveryOccurringCoded(freq: seq<nat>, bits: seq<byte>, huffval: seq<byte>, size: seq<nat>, t: D.SymbolCodes)
    requires FewSymbols(freq) && BestSizes(SymbolCounts(freq), size) && TableFor(bits, huffval, size, Symbols(freq))
    requires D.CodesOf(t, D.TableCodes(bits), huffval, |size| - 1)
    ensures forall s: byte :: t.ehufsi[s] <= 16 && (t.ehufsi[s] != 0 <==> freq[s] != 0)
  {
    hide CodeSpace, TotalTo, LegalCode, Having, ByLength, OptimalLengths, CodesTo, Occurring;
    ListedOnce(freq, bits, huffval, size);
    var codes := D.TableCodes(bits);
    forall s: byte ensures t.ehufsi[s] <= 16 && (t.ehufsi[s] != 0 <==> freq[s] != 0) {
      if freq[s] != 0 { OccurringAll(freq, PSEUDO_SYMBOL, s); }
      if t.ehufsi[s] != 0 || freq[s] != 0 {
        var p :| 0 <= p < |size| - 1 && huffval[p] == s;
        D.CodeSizePositive(D.CountsOfLengths(bits), p);
        CodeFits(D.CountsOfLengths(bits), 16, p);
      }
    }
  }

  /** If no code is longer than 16 bits, the table's codes have the best lengths. */
  lemma UnlimitedBest(freq: seq<nat>, bits: seq<byte>, huffval: seq<byte>, size: seq<nat>, t: D.SymbolCodes, x: nat)
    requires FewSymbols(freq) && BestSizes(SymbolCounts(freq), size) && TableFor(bits, huffval, size, Symbols(freq))
    requires D.CodesOf(t, D.TableCodes(bits), huffval, |size| - 1)
    requires x < |size| - 1 && size[|size| - 1] <= 16
    ensures Symbols(freq)[x] < 256 && t.ehufsi[Symbols(freq)[x]] == size[x]
  {
    hide CodeSpace, TotalTo, LegalCode, Having, HavingUpTo, ByLength, OptimalLengths, CodesTo, Occurring, CountsOf;
    var syms, n, top, b := Symbols(freq), |size| - 1, size[|size| - 1], D.CountsOfLengths(bits);
    SymbolsShape(freq);
    NoEmptyCode(SymbolCounts(freq), size);
    ByLengthAt(size, syms, x, n, top);
    var p := HavingUpTo(size, n, size[x] - 1) + Having(size, x, size[x]);
    SameTotals(b, size, n, size[x] - 1);
    SameTotals(b, size, n, size[x]);
    CodeAt(b, size[x], 16, p);
    assert huffval[p] as nat == syms[x];
  }

  lemma {:induction false} SameTotals(b: seq<int>, size: seq<nat>, n: nat, k: nat)
    requires k < |b| == 17 && b[0] == 0 && n <= |size| && forall l :: 1 <= l <= 16 ==> b[l] == Having(size, n, l)
    ensures TotalTo(b, k) == HavingUpTo(size, n, k)
    decreases k
  {
    if k > 0 { SameTotals(b, size, n, k - 1); }
  }

  /** Counts to encoding table: fails only when a code comes out longer than 32
      bits, and leaves no symbol that occurs without a code.
   */
  method TableFromCounts(freq: array<nat>, huffval: array<byte>, maxSymbol: nat)
      returns (bits: seq<byte>, codes: D.SymbolCodes, ok: bool, ghost size: seq<nat>)
    requires FewSymbols(freq[..]) && huffval.Length == 256
    requires forall s :: 0 <= s < PSEUDO_SYMBOL && freq[s] != 0 ==> s <= maxSymbol
    modifies freq, huffval
    ensures BestSizes(SymbolCounts(old(freq[..])), size)
    ensures ok <==> forall x :: 0 <= x < |size| ==> size[x] <= MAX_CLEN
    ensures !ok ==> Overlong(old(freq[..]))
    ensures Total(old(freq[..]), PSEUDO_SYMBOL) + 1 < LONG_CODE_COUNT ==> ok
    ensures old(freq[..]) == LongestCounts() ==> !ok
    ensures ok ==> |bits| == 17 && D.LegalTable(bits, huffval[..], maxSymbol) && |D.TableCodes(bits)| <= 256
    ensures ok ==> CountsLimited(bits, size)
    ensures ok ==> D.CodesOf(codes, D.TableCodes(bits), huffval[..], |D.TableCodes(bits)|)
    ensures ok ==> |codes.ehufco| == |codes.ehufsi| == 256
    ensures ok ==> forall s: byte :: codes.ehufsi[s] <= 16 && (codes.ehufsi[s] != 0 <==> old(freq[s]) != 0)
  {
    hide D.LegalTable, TableFor, CountsLimited, BestSizes, Total, Staircase, LongestCounts;
    ghost var f := freq[..];
    bits, ok, size := GenOptimalTable(freq, huffval);
    codes := D.SymbolCodes([], []);
    if ok {
      TableAccepted(f, bits, huffval[..], size, maxSymbol);
      TableLength(bits, huffval[..], size, Symbols(f));
      var ehufco, ehufsi;
      ehufco, ehufsi, ok := D.MakeDerivedTable(bits, huffval[..], maxSymbol);
      codes := D.SymbolCodes(ehufco[..], ehufsi[..]);
      EveryOccurringCoded(f, bits, huffval[..], size, codes);
    }
  }

  lemma TableLength(bits: seq<byte>, huffval: seq<byte>, size: seq<nat>, syms: seq<nat>)
    requires TableFor(bits, huffval, size, syms)
    ensures |bits| == 17 && |huffval| == 256 && |D.TableCodes(bits)| == |size| - 1 <= 256
  {
  }
}
