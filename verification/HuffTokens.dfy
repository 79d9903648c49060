/** What Huffman entropy coding sends: symbols, each coded by one of the
    scan's tables, and raw bits (sections F.1.2 and G.1.2 of ITU-T T.81).  The
    encoder's side of a piece of syntax is the list of tokens it sends; the
    decoder's side is a function that reads from any source of tokens.
 */
module HuffTokens {
  import opened CodeBytes
  import opened Coefficients
  import opened HuffmanLimit
  import opened CanonicalCode
  import opened DerivedTable

  datatype Token =
    | Symbol(tbl: nat, s: byte)
    | Raw(v: nat, n: nat)  // the n low bits of v

  function LowPart(v: nat, n: nat): (r: nat)
    ensures r < Pow2(n)
    decreases n
  {
    if n == 0 then 0 else 2 * LowPart(v / 2, n - 1) + v % 2
  }

  lemma {:induction false} LowPartWhole(v: nat, n: nat)
    requires v < Pow2(n)
    ensures LowPart(v, n) == v
    decreases n
  {
    if n > 0 { LowPartWhole(v / 2, n - 1); }
  }

  /** A source of tokens: from a state, the next symbol by a given table, or
      the next so many raw bits.
   */
  datatype Source<!D> = Source(symbol: (D, nat) -> (byte, D), raw: (D, nat) -> (nat, D))

  /** The source delivers these tokens when asked for them, and is then at `d'`. */
  ghost predicate Delivers<D>(src: Source<D>, d: D, ts: seq<Token>, d': D)
    decreases |ts|
  {
    if ts == [] then d' == d
    else match ts[0]
      case Symbol(tbl, s) =>
        src.symbol(d, tbl).0 == s && Delivers(src, src.symbol(d, tbl).1, ts[1..], d')
      case Raw(v, n) =>
        src.raw(d, n).0 == LowPart(v, n) && Delivers(src, src.raw(d, n).1, ts[1..], d')
  }

  lemma DeliversNothing<D>(src: Source<D>, d: D, d': D)
    ensures Delivers(src, d, [], d') <==> d == d'
  {
  }

  lemma DeliversSymbol<D>(src: Source<D>, d: D, tbl: nat, s: byte, ts: seq<Token>, d': D)
    requires Delivers(src, d, [Symbol(tbl, s)] + ts, d')
    ensures src.symbol(d, tbl).0 == s && Delivers(src, src.symbol(d, tbl).1, ts, d')
  {
    var all := [Symbol(tbl, s)] + ts;
    assert all[0] == Symbol(tbl, s) && all[1..] == ts;
  }

  lemma DeliversRaw<D>(src: Source<D>, d: D, v: nat, n: nat, ts: seq<Token>, d': D)
    requires Delivers(src, d, [Raw(v, n)] + ts, d')
    ensures src.raw(d, n).0 == LowPart(v, n) && Delivers(src, src.raw(d, n).1, ts, d')
  {
    var all := [Raw(v, n)] + ts;
    assert all[0] == Raw(v, n) && all[1..] == ts;
  }

  // ----- Counting symbols -----------------------------------------------------------------

  /** How often a symbol is sent by a table. */
  function Uses(ts: seq<Token>, tbl: nat, s: nat): nat {
    if ts == [] then 0
    else Uses(ts[..|ts| - 1], tbl, s)
          + if ts[|ts| - 1].Symbol? && ts[|ts| - 1].tbl == tbl && ts[|ts| - 1].s as nat == s then 1 else 0
  }

  // ----- Tokens as bits ---------------------------------------------------------------------

  /** The tables named are there. */
  ghost predicate Tabled(tables: seq<SymbolCodes>, ts: seq<Token>) {
    forall i :: 0 <= i < |ts| && ts[i].Symbol? ==>
      ts[i].tbl < |tables| && |tables[ts[i].tbl].ehufco| == |tables[ts[i].tbl].ehufsi| == 256
  }

  /** Every symbol sent has a code in its table. */
  ghost predicate AllCoded(tables: seq<SymbolCodes>, ts: seq<Token>) {
    Tabled(tables, ts) && forall i :: 0 <= i < |ts| && ts[i].Symbol? ==> tables[ts[i].tbl].ehufsi[ts[i].s] != 0
  }

  function TokenBits(tables: seq<SymbolCodes>, t: Token): seq<bool>
    requires t.Symbol? ==> t.tbl < |tables| && |tables[t.tbl].ehufco| == |tables[t.tbl].ehufsi| == 256
  {
    match t
    case Symbol(tbl, s) => BitString(tables[tbl].ehufco[s], tables[tbl].ehufsi[s])
    case Raw(v, n) => BitString(v, n)
  }

  /** All tokens' bits, one after the other. */
  ghost function AllBits(tables: seq<SymbolCodes>, ts: seq<Token>): seq<bool>
    requires Tabled(tables, ts)
  {
    if ts == [] then [] else TokenBits(tables, ts[0]) + AllBits(tables, ts[1..])
  }

  lemma {:induction false} AllBitsConcat(tables: seq<SymbolCodes>, xs: seq<Token>, ys: seq<Token>)
    requires Tabled(tables, xs) && Tabled(tables, ys)
    ensures Tabled(tables, xs + ys)
    ensures AllBits(tables, xs + ys) == AllBits(tables, xs) + AllBits(tables, ys)
    decreases |xs|
  {
    if xs == [] {
      assert xs + ys == ys;
    } else {
      hide TokenBits;
      assert (xs + ys)[0] == xs[0] && (xs + ys)[1..] == xs[1..] + ys;
      AllBitsConcat(tables, xs[1..], ys);
      var own, a, b := TokenBits(tables, xs[0]), AllBits(tables, xs[1..]), AllBits(tables, ys);
      assert own + (a + b) == (own + a) + b;
    }
  }

  lemma {:induction false} UsesConcat(xs: seq<Token>, ys: seq<Token>, tbl: nat, s: nat)
    ensures Uses(xs + ys, tbl, s) == Uses(xs, tbl, s) + Uses(ys, tbl, s)
    decreases |ys|
  {
    if ys == [] {
      assert xs + ys == xs;
    } else {
      var all := xs + ys;
      assert all[..|all| - 1] == xs + ys[..|ys| - 1] && all[|all| - 1] == ys[|ys| - 1];
      UsesConcat(xs, ys[..|ys| - 1], tbl, s);
    }
  }

  /** A symbol that is sent is used. */
  lemma {:induction false} SentIsUsed(ts: seq<Token>, i: nat)
    requires i < |ts| && ts[i].Symbol?
    ensures Uses(ts, ts[i].tbl, ts[i].s as nat) > 0
    decreases |ts|
  {
    if i < |ts| - 1 { SentIsUsed(ts[..|ts| - 1], i); }
  }

  // ----- Reading bits back --------------------------------------------------------------------

  /** The number that `n` bits spell, first bit first; zeros after the end. */
  function BitsValue(bits: seq<bool>, n: nat): nat
    decreases n
  {
    if n == 0 then 0
    else 2 * BitsValue(bits, n - 1) + if n <= |bits| && bits[n - 1] then 1 else 0
  }

  lemma {:induction false} BitsValueInverts(v: nat, n: nat, tail: seq<bool>)
    ensures BitsValue(BitString(v, n) + tail, n) == LowPart(v, n)
    decreases n
  {
    if n > 0 {
      var s := BitString(v / 2, n - 1);
      assert BitString(v, n) + tail == s + ([v % 2 == 1] + tail);
      BitsValueInverts(v / 2, n - 1, [v % 2 == 1] + tail);
    }
  }
}
