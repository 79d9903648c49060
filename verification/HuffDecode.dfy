/** Decoding Huffman codes bit by bit (jpeg_make_d_derived_tbl and
    jpeg_huff_decode, jdhuff.c; sections F.2.2.3 and F.2.2.4 of ITU-T T.81).
 */
module HuffDecode {
  import opened CodeBytes
  import opened Coefficients
  import opened HuffmanLimit
  import opened CanonicalCode
  import opened DerivedTable
  import opened HuffTokens

  /** A table as the file carries it: counts by length and the symbol list. */
  datatype HuffTable = HuffTable(bits: seq<byte>, huffval: seq<byte>) {
    ghost predicate Legal(maxSymbol: nat) {
      |bits| == 17 && |huffval| == 256 && LegalTable(bits, huffval, maxSymbol)
    }
  }

  /** Figure F.15: the largest code of length `l`, -1 if there is none. */
  function MaxCode(b: seq<int>, l: nat): int
    requires 1 <= l < |b|
  {
    if b[l] == 0 then -1 else CodeSpace(b, l) - 1
  }

  /** Where in the symbol list the codes of length `l` start, less the first code. */
  function ValOffset(b: seq<int>, l: nat): int
    requires 1 <= l < |b|
  {
    TotalTo(b, l - 1) - 2 * CodeSpace(b, l - 1)
  }

  /** The two arrays, from the codes themselves. */
  method MakeDecoderTable(bits: seq<byte>) returns (maxcode: array<int>, valoffset: array<int>, ok: bool)
    requires |bits| == 17
    ensures ok <==> TotalTo(CountsOfLengths(bits), 16) <= 256 && LegalCode(CountsOfLengths(bits), 16)
    ensures maxcode.Length == 18 && valoffset.Length == 18
    ensures ok ==> maxcode[17] == 0xFFFFF && forall l :: 1 <= l <= 16 ==>
              && maxcode[l] == MaxCode(CountsOfLengths(bits), l)
              && (bits[l] != 0 ==> valoffset[l] == ValOffset(CountsOfLengths(bits), l))
  {
    hide CodesTo, TotalTo, CodeSpace, LegalCode;
    ghost var b := CountsOfLengths(bits);
    maxcode, valoffset := new int[18], new int[18];
    var huffsize, huffcode, numsymbols;
    huffsize, numsymbols, ok := CodeLengths(bits);
    if !ok {
      return;
    }
    huffcode, ok := GenerateCodes(huffsize, numsymbols, b);
    if !ok {
      return;
    }
    var p: nat := 0;
    NothingAtZero(b);
    for l := 1 to 17
      invariant p == TotalTo(b, l - 1)
      invariant forall q :: 0 <= q < numsymbols ==> huffcode[q] == CodesTo(b, 16)[q].bits
      invariant forall k :: 1 <= k < l ==>
                  maxcode[k] == MaxCode(b, k) && (bits[k] != 0 ==> valoffset[k] == ValOffset(b, k))
    {
      CodesPrefix(b, l, 16);
      Spaces(b, l);
      assert b[l] == bits[l] as int;
      if bits[l] != 0 {
        CodeAt(b, l, 16, p);
        valoffset[l] := p - huffcode[p];
        p := p + bits[l] as nat;
        CodeAt(b, l, 16, p - 1);
        maxcode[l] := huffcode[p - 1];
      } else {
        maxcode[l] := -1;
      }
    }
    valoffset[17] := 0;
    maxcode[17] := 0xFFFFF;
  }

  /** Figure F.16: longer and longer codes until one is not above the largest of
      its length; 0 if even sixteen bits are not enough.
   */
  ghost function DecodeFrom(t: HuffTable, bits: seq<bool>, l: nat): (byte, seq<bool>)
    requires |t.bits| == 17 && |t.huffval| == 256 && 1 <= l <= 17
    decreases 17 - l
  {
    var b := CountsOfLengths(t.bits);
    if l == 17 then (0, Drop(bits, 17))
    else
      var code := BitsValue(bits, l);
      if code > MaxCode(b, l) then DecodeFrom(t, bits, l + 1)
      else
        var i := code + ValOffset(b, l);
        (if 0 <= i < 256 then t.huffval[i] else 0, Drop(bits, l))
  }

  function Drop(bits: seq<bool>, n: nat): seq<bool> {
    if n <= |bits| then bits[n..] else []
  }

  /** The next symbol of a bit string. */
  ghost function DecodeSymbol(t: HuffTable, bits: seq<bool>): (byte, seq<bool>)
    requires |t.bits| == 17 && |t.huffval| == 256
  {
    DecodeFrom(t, bits, 1)
  }

  // ----- Decoding inverts coding ------------------------------------------------------------

  /** The first bits of a code, as a number. */
  lemma CodeStart(x: Code, tail: seq<bool>, l: nat)
    requires l <= x.size && x.bits < Pow2(x.size)
    ensures BitsValue(Bits(x) + tail, l) == Shr(x.bits, x.size - l)
  {
    var s := Bits(x);
    BitStringStart(x.bits, x.size, l);
    assert s + tail == s[..l] + (s[l..] + tail);
    BitsValueInverts(Shr(x.bits, x.size - l), l, s[l..] + tail);
    ShrBelow(x.bits, l, x.size - l);
    LowPartWhole(Shr(x.bits, x.size - l), l);
  }

  /** Cut short, a code is above the largest code of the shorter length. */
  lemma ShortAbove(b: seq<int>, p: nat, l: nat)
    requires CodeCounts(b) && |b| == 17 && LegalCode(b, 16) && p < |CodesTo(b, 16)| && 1 <= l < CodesTo(b, 16)[p].size
             && l <= 16
    ensures var x := CodesTo(b, 16)[p]; Shr(x.bits, x.size - l) > MaxCode(b, l)
  {
    hide CodesTo, TotalTo, CodeSpace, LegalCode;
    var x := CodesTo(b, 16)[p];
    var m := LengthAt(b, 16, p);
    CodeAt(b, m, 16, p);
    SpaceGrows(b, l, m - 1);
    ShrMonotone(2 * CodeSpace(b, m - 1), x.bits, m - l);
    assert Shr(2 * CodeSpace(b, m - 1), m - l) == Shr(CodeSpace(b, m - 1), m - 1 - l);
    SpaceNonnegative(b, l);
  }

  /** At its own length the code is not above, and leads to its position. */
  lemma OwnLength(b: seq<int>, p: nat)
    requires CodeCounts(b) && |b| == 17 && LegalCode(b, 16) && p < |CodesTo(b, 16)|
    ensures var x := CodesTo(b, 16)[p];
            1 <= x.size <= 16 && x.bits <= MaxCode(b, x.size) && x.bits + ValOffset(b, x.size) == p
  {
    hide CodesTo, TotalTo, CodeSpace, LegalCode;
    var m := LengthAt(b, 16, p);
    CodeAt(b, m, 16, p);
    Spaces(b, m);
  }

  lemma {:induction false} DecodeFromInverts(t: HuffTable, p: nat, tail: seq<bool>, l: nat)
    requires |t.bits| == 17 && |t.huffval| == 256 && LegalCode(CountsOfLengths(t.bits), 16)
    requires p < |TableCodes(t.bits)| <= 256 && 1 <= l <= TableCodes(t.bits)[p].size && l <= 16
    ensures DecodeFrom(t, Bits(TableCodes(t.bits)[p]) + tail, l) == (t.huffval[p], tail)
    decreases 17 - l
  {
    hide CodesTo, TotalTo, CodeSpace, LegalCode, BitsValue, Bits, MaxCode, ValOffset;
    var b, x := CountsOfLengths(t.bits), TableCodes(t.bits)[p];
    CodeFits(b, 16, p);
    OwnLength(b, p);
    CodeStart(x, tail, l);
    if l < x.size {
      ShortAbove(b, p, l);
      DecodeFromInverts(t, p, tail, l + 1);
    } else {
      CodeDropped(x, tail);
    }
  }

  lemma CodeDropped(x: Code, tail: seq<bool>)
    ensures Drop(Bits(x) + tail, x.size) == tail && Shr(x.bits, 0) == x.bits
  {
  }

  // ----- Bits as a source of tokens ---------------------------------------------------------

  ghost predicate TablesUsable(tables: seq<HuffTable>) {
    forall i :: 0 <= i < |tables| ==> |tables[i].bits| == 17 && |tables[i].huffval| == 256
  }

  /** Bits, read as the decoder asks. */
  ghost function BitSource(tables: seq<HuffTable>): Source<seq<bool>>
    requires TablesUsable(tables)
  {
    Source((d: seq<bool>, tbl: nat) => if tbl < |tables| then DecodeSymbol(tables[tbl], d) else (0, d),
           (d: seq<bool>, n: nat) => (BitsValue(d, n), Drop(d, n)))
  }

  /** The encoder's codes belong to the decoder's tables. */
  ghost predicate SameCodes(codes: seq<SymbolCodes>, tables: seq<HuffTable>) {
    && |codes| == |tables|
    && forall i :: 0 <= i < |tables| ==>
         && tables[i].Legal(255) && |TableCodes(tables[i].bits)| <= 256
         && CodesOf(codes[i], TableCodes(tables[i].bits), tables[i].huffval, |TableCodes(tables[i].bits)|)
  }

  lemma SymbolDecoded(t: HuffTable, c: SymbolCodes, s: byte, tail: seq<bool>)
    requires t.Legal(255) && |TableCodes(t.bits)| <= 256
             && CodesOf(c, TableCodes(t.bits), t.huffval, |TableCodes(t.bits)|)
    requires c.ehufsi[s] != 0
    ensures DecodeSymbol(t, BitString(c.ehufco[s], c.ehufsi[s]) + tail) == (s, tail)
  {
    hide CodesTo, TotalTo, CodeSpace, LegalCode, BitString;
    var n := |TableCodes(t.bits)|;
    var p :| 0 <= p < n && t.huffval[..n][p] == s;
    CodeFits(CountsOfLengths(t.bits), 16, p);
    DecodeFromInverts(t, p, tail, 1);
  }

  /** Whatever tokens are sent, reading their bits delivers them. */
  lemma {:induction false} BitsDeliver(codes: seq<SymbolCodes>, tables: seq<HuffTable>, ts: seq<Token>, tail: seq<bool>)
    requires SameCodes(codes, tables) && TablesUsable(tables) && AllCoded(codes, ts)
    ensures Delivers(BitSource(tables), AllBits(codes, ts) + tail, ts, tail)
    decreases |ts|
  {
    hide BitString, BitsValue, DecodeSymbol, LegalTable, CodesOf;
    if ts == [] {
      assert [] + tail == tail;
    } else {
      var rest := AllBits(codes, ts[1..]) + tail;
      assert AllBits(codes, ts) + tail == TokenBits(codes, ts[0]) + rest;
      BitsDeliver(codes, tables, ts[1..], tail);
      match ts[0]
      case Symbol(tbl, s) => SymbolDecoded(tables[tbl], codes[tbl], s, rest);
      case Raw(v, n) =>
        BitsValueInverts(v, n, rest);
        RawDropped(v, n, rest);
    }
  }

  lemma RawDropped(v: nat, n: nat, tail: seq<bool>)
    ensures Drop(BitString(v, n) + tail, n) == tail
  {
  }
}
