/** Encoding tables from code-length counts and a symbol list
    (jpeg_make_c_derived_tbl, jchuff.c; Annex C of ITU-T T.81).
 */
module DerivedTable {
  import opened CodeBytes
  import opened HuffmanLimit
  import opened CanonicalCode

  /** The counts as the codes see them: bits[0] is not used. */
  function CountsOfLengths(bits: seq<byte>): (b: seq<int>)
    requires |bits| == 17
    ensures |b| == 17
  {
    [0] + bits[1..]
  }

  /** The codes a table defines. */
  ghost function TableCodes(bits: seq<byte>): seq<Code>
    requires |bits| == 17
  {
    CodesTo(CountsOfLengths(bits), 16)
  }

  /** The tables the routine accepts. */
  ghost predicate LegalTable(bits: seq<byte>, huffval: seq<byte>, maxSymbol: nat)
    requires |bits| == 17 && |huffval| == 256
  {
    var b := CountsOfLengths(bits);
    && 0 <= TotalTo(b, 16) <= 256
    && LegalCode(b, 16)
    && DistinctSymbols(huffval, TotalTo(b, 16), maxSymbol)
  }

  lemma {:induction false} AllFit(b: seq<int>, top: nat, l: nat)
    requires CodeCounts(b) && l <= top < |b|
    requires forall p :: 0 <= p < |CodesTo(b, top)| ==> CodesTo(b, top)[p].bits + 1 < Pow2(CodesTo(b, top)[p].size)
    ensures CodeSpace(b, l) < Pow2(l)
    decreases l
  {
    hide CodesTo;
    if l > 0 {
      AllFit(b, top, l - 1);
      if b[l] > 0 {
        SpaceNonnegative(b, l - 1);
        CodeAt(b, l, top, TotalTo(b, l) - 1);
      }
    }
  }

  /** A table is legal if it has at most 256 codes, each of them fits its length and
      is not all ones, and the symbols are distinct and none is too large.
   */
  lemma LegalTableMeans(bits: seq<byte>, huffval: seq<byte>, maxSymbol: nat)
    requires |bits| == 17 && |huffval| == 256
    ensures LegalTable(bits, huffval, maxSymbol) <==>
              var codes := TableCodes(bits);
              && |codes| <= 256
              && (forall p :: 0 <= p < |codes| ==> codes[p].bits + 1 < Pow2(codes[p].size))
              && (forall p :: 0 <= p < |codes| ==> huffval[p] as nat <= maxSymbol)
              && (forall p, q :: 0 <= p < q < |codes| ==> huffval[p] != huffval[q])
  {
    hide CodesTo, CodeSpace, TotalTo, Pow2;
    var b, codes := CountsOfLengths(bits), TableCodes(bits);
    if LegalCode(b, 16) {
      forall p | 0 <= p < |codes| ensures codes[p].bits + 1 < Pow2(codes[p].size) { CodeFits(b, 16, p); }
    }
    if forall p :: 0 <= p < |codes| ==> codes[p].bits + 1 < Pow2(codes[p].size) {
      forall l | 1 <= l <= 16 ensures CodeSpace(b, l) < Pow2(l) { AllFit(b, 16, l); }
    }
  }

  /** Figure C.1: the length of each code.  Too many codes are an error. */
  method CodeLengths(bits: seq<byte>) returns (huffsize: array<nat>, lastp: nat, ok: bool)
    requires |bits| == 17
    ensures fresh(huffsize) && huffsize.Length == 257
    ensures ok <==> TotalTo(CountsOfLengths(bits), 16) <= 256
    ensures ok ==> lastp == |TableCodes(bits)| <= 256 && huffsize[lastp] == 0
    ensures ok ==> forall p :: 0 <= p < lastp ==> huffsize[p] == TableCodes(bits)[p].size
  {
    ghost var b := CountsOfLengths(bits);
    huffsize := new nat[257];
    lastp, ok := 0, true;
    for l := 1 to 17
      invariant lastp == TotalTo(b, l - 1) <= 256
      invariant forall p :: 0 <= p < lastp ==> huffsize[p] == CodesTo(b, l - 1)[p].size
    {
      var i := bits[l] as nat;
      assert b[l] == i;
      if lastp + i > 256 {
        CodesPrefix(b, l, 16);
        ok := false;
        return;
      }
      ghost var done := 0;
      while i > 0
        invariant done + i == bits[l] as nat && lastp == TotalTo(b, l - 1) + done
        invariant forall p :: 0 <= p < lastp ==> huffsize[p] == CodesTo(b, l)[p].size
      {
        huffsize[lastp] := l;
        lastp, i, done := lastp + 1, i - 1, done + 1;
      }
    }
    huffsize[lastp] := 0;
  }

  /** Whether a position holds a code of length `l`, once all shorter ones are
      passed.
   */
  lemma SizeIs(b: seq<int>, l: nat, p: nat)
    requires CodeCounts(b) && |b| == 17 && 1 <= l <= 17 && TotalTo(b, l - 1) <= p < TotalTo(b, 16)
    ensures l <= 16 && p < |CodesTo(b, 16)| && l <= CodesTo(b, 16)[p].size <= 16
    ensures TotalTo(b, l) <= TotalTo(b, 16)
    ensures CodesTo(b, 16)[p].size == l <==> p < TotalTo(b, l)
  {
    hide CodesTo, TotalTo, CodeSpace;
    var k := LengthAt(b, 16, p);
    CodeAt(b, k, 16, p);
    if l <= 16 { CodesPrefix(b, l, 16); }
    if k < l { CodesPrefix(b, k, l - 1); }
    if l < k { CodesPrefix(b, l, k - 1); }
  }

  /** The lengths before the first code's leave the code space empty. */
  lemma BeforeFirst(b: seq<int>, l: nat)
    requires CodeCounts(b) && l < |b| == 17
    requires TotalTo(b, 16) == 0 || (TotalTo(b, 16) > 0 && l < CodesTo(b, 16)[0].size)
    ensures TotalTo(b, l) == 0 && CodeSpace(b, l) == 0 && LegalCode(b, l)
  {
    hide CodesTo, TotalTo, CodeSpace;
    if TotalTo(b, 16) > 0 {
      var k := LengthAt(b, 16, 0);
      CodeAt(b, k, 16, 0);
      CodesPrefix(b, l, k - 1);
      SpaceNonnegative(b, k - 1);
    } else {
      CodesPrefix(b, l, 16);
    }
    SpaceNonnegative(b, l);
    forall m: nat | m <= l ensures CodeSpace(b, m) == 0 < Pow2(m) {
      EmptySpace(b, m, l);
    }
  }

  lemma {:induction false} EmptySpace(b: seq<int>, m: nat, l: nat)
    requires CodeCounts(b) && m <= l < |b| && TotalTo(b, l) == 0
    ensures TotalTo(b, m) == 0 && CodeSpace(b, m) == 0
    decreases m
  {
    CodesPrefix(b, m, l);
    SpaceNonnegative(b, m);
    if m > 0 {
      SpaceNonnegative(b, m - 1);
      EmptySpace(b, m - 1, l);
    }
  }

  /** Lengths after the last code's need no check. */
  lemma {:induction false} AfterLast(b: seq<int>, l: nat, top: nat)
    requires CodeCounts(b) && l <= top < |b| && TotalTo(b, l) == TotalTo(b, top) && LegalCode(b, l)
    ensures LegalCode(b, top)
    decreases top
  {
    if l < top {
      CodesPrefix(b, l, top - 1);
      CodesPrefix(b, top - 1, top);
      AfterLast(b, l, top - 1);
      if top == 1 { assert CodeSpace(b, 1) == 0; }
    }
  }

  lemma NothingAtZero(b: seq<int>)
    requires CodeCounts(b)
    ensures TotalTo(b, 0) == 0
  {
  }

  /** Figure C.2: the codes themselves, checked as each length is done. */
  method GenerateCodes(huffsize: array<nat>, lastp: nat, ghost b: seq<int>) returns (huffcode: array<nat>, ok: bool)
    requires CodeCounts(b) && |b| == 17 && huffsize.Length == 257
    requires lastp == |CodesTo(b, 16)| <= 256 && huffsize[lastp] == 0
    requires forall p :: 0 <= p < lastp ==> huffsize[p] == CodesTo(b, 16)[p].size
    ensures fresh(huffcode) && huffcode.Length == 257
    ensures ok <==> LegalCode(b, 16)
    ensures ok ==> forall p :: 0 <= p < lastp ==> huffcode[p] == CodesTo(b, 16)[p].bits
  {
    hide CodesTo, TotalTo, CodeSpace, LegalCode;
    huffcode := new nat[257];
    var code, si, p := 0, huffsize[0], 0;
    ok := true;
    NothingAtZero(b);
    if lastp > 0 { SizeIs(b, 1, 0); }
    ghost var l := if lastp == 0 then 16 else si - 1;
    BeforeFirst(b, l);
    while huffsize[p] != 0
      invariant p <= lastp && l <= 16 && si <= 17 && (lastp > 0 ==> si == l + 1)
      invariant p == TotalTo(b, l) && code == 2 * CodeSpace(b, l) && LegalCode(b, l)
      invariant forall q :: 0 <= q < p ==> huffcode[q] == CodesTo(b, 16)[q].bits
      decreases 17 - si
    {
      SizeIs(b, si, p);
      CodesPrefix(b, l, si);
      while huffsize[p] == si
        invariant TotalTo(b, l) <= p <= TotalTo(b, si) <= lastp
        invariant code == 2 * CodeSpace(b, l) + p - TotalTo(b, l)
        invariant forall q :: 0 <= q < p ==> huffcode[q] == CodesTo(b, 16)[q].bits
        decreases lastp - p
      {
        SizeIs(b, si, p);
        CodeAt(b, si, 16, p);
        huffcode[p] := code;
        p := p + 1;
        code := code + 1;
      }
      if p < lastp { SizeIs(b, si, p); }
      Spaces(b, si);
      if code >= Pow2(si) {
        NotLegal(b, si);
        ok := false;
        return;
      }
      LegalNext(b, si);
      code := 2 * code;
      si, l := si + 1, si;
    }
    if p < lastp { SizeIs(b, 1, p); }
    AfterLast(b, l, 16);
  }

  lemma NotLegal(b: seq<int>, l: nat)
    requires |b| == 17 && 1 <= l <= 16 && CodeSpace(b, l) >= Pow2(l)
    ensures !LegalCode(b, 16)
  {
  }

  lemma LegalNext(b: seq<int>, l: nat)
    requires |b| == 17 && 1 <= l <= 16 && LegalCode(b, l - 1) && CodeSpace(b, l) < Pow2(l)
    ensures LegalCode(b, l)
  {
  }

  // ----- By symbol -----------------------------------------------------------------------

  /** Code and length by symbol; length 0 for a symbol without a code. */
  datatype SymbolCodes = SymbolCodes(ehufco: seq<nat>, ehufsi: seq<nat>)

  /** The first `n` symbols of the list have the table's codes, no others have. */
  ghost predicate CodesOf(t: SymbolCodes, codes: seq<Code>, huffval: seq<byte>, n: nat)
    requires n <= |codes| && n <= |huffval|
  {
    && |t.ehufco| == |t.ehufsi| == 256
    && (forall p :: 0 <= p < n ==> t.ehufsi[huffval[p]] == codes[p].size && t.ehufco[huffval[p]] == codes[p].bits)
    && (forall s: byte :: s !in huffval[..n] ==> t.ehufsi[s] == 0 && t.ehufco[s] == 0)
  }

  /** Symbols are in range and occur once. */
  ghost predicate DistinctSymbols(huffval: seq<byte>, n: nat, maxSymbol: nat)
    requires n <= |huffval|
  {
    && (forall p :: 0 <= p < n ==> huffval[p] as nat <= maxSymbol)
    && (forall p, q :: 0 <= p < q < n ==> huffval[p] != huffval[q])
  }

  lemma NoSymbols(codes: seq<Code>, huffval: seq<byte>)
    ensures CodesOf(SymbolCodes(seq(256, _ => 0), seq(256, _ => 0)), codes, huffval, 0)
  {
  }

  /** A symbol has a code already exactly when it was listed before. */
  lemma ListedBefore(t: SymbolCodes, codes: seq<Code>, huffval: seq<byte>, p: nat)
    requires p < |codes| && p < |huffval| && CodesOf(t, codes, huffval, p)
    requires forall q :: 0 <= q < |codes| ==> codes[q].size > 0
    ensures t.ehufsi[huffval[p]] != 0 <==> huffval[p] in huffval[..p]
  {
    if huffval[p] in huffval[..p] {
      var q :| 0 <= q < p && huffval[..p][q] == huffval[p];
      assert t.ehufsi[huffval[q]] == codes[q].size;
    }
  }

  lemma NextSymbol(t: SymbolCodes, codes: seq<Code>, huffval: seq<byte>, p: nat)
    requires p < |codes| && p < |huffval| && CodesOf(t, codes, huffval, p)
    requires huffval[p] !in huffval[..p]
    ensures CodesOf(SymbolCodes(t.ehufco[huffval[p] := codes[p].bits], t.ehufsi[huffval[p] := codes[p].size]),
                    codes, huffval, p + 1)
  {
    assert huffval[..p + 1] == huffval[..p] + [huffval[p]];
    assert forall q :: 0 <= q < p ==> huffval[q] in huffval[..p];
  }

  /** Figure C.3: codes and lengths by symbol. */
  method FillTable(huffsize: array<nat>, huffcode: array<nat>, lastp: nat, huffval: seq<byte>, maxSymbol: nat,
                   ghost codes: seq<Code>)
      returns (ehufco: array<nat>, ehufsi: array<nat>, ok: bool)
    requires lastp == |codes| <= |huffval| && lastp < huffsize.Length && lastp < huffcode.Length
    requires forall p :: 0 <= p < lastp ==> huffsize[p] == codes[p].size > 0 && huffcode[p] == codes[p].bits
    ensures fresh(ehufco) && fresh(ehufsi) && ehufco.Length == ehufsi.Length == 256
    ensures ok <==> DistinctSymbols(huffval, lastp, maxSymbol)
    ensures ok ==> CodesOf(SymbolCodes(ehufco[..], ehufsi[..]), codes, huffval, lastp)
  {
    hide CodesOf;
    ehufco, ehufsi, ok := new nat[256](_ => 0), new nat[256](_ => 0), true;
    ghost var t := SymbolCodes(seq(256, _ => 0), seq(256, _ => 0));
    NoSymbols(codes, huffval);
    for p := 0 to lastp
      invariant ehufco[..] == t.ehufco && ehufsi[..] == t.ehufsi && ehufco != ehufsi
      invariant CodesOf(t, codes, huffval, p) && DistinctSymbols(huffval, p, maxSymbol)
    {
      var i := huffval[p];
      ListedBefore(t, codes, huffval, p);
      if i as nat > maxSymbol || ehufsi[i] != 0 {
        ok := false;
        return;
      }
      NextSymbol(t, codes, huffval, p);
      ehufco[i] := huffcode[p];
      ehufsi[i] := huffsize[p];
      t := SymbolCodes(ehufco[..], ehufsi[..]);
    }
  }

  /** The table for a legal list; the error exits are taken exactly on the
      others.
   */
  method MakeDerivedTable(bits: seq<byte>, huffval: seq<byte>, maxSymbol: nat)
      returns (ehufco: array<nat>, ehufsi: array<nat>, ok: bool)
    requires |bits| == 17 && |huffval| == 256
    ensures fresh(ehufco) && fresh(ehufsi) && ehufco.Length == ehufsi.Length == 256
    ensures ok <==> LegalTable(bits, huffval, maxSymbol)
    ensures ok ==> |TableCodes(bits)| <= 256
    ensures ok ==> CodesOf(SymbolCodes(ehufco[..], ehufsi[..]), TableCodes(bits), huffval, |TableCodes(bits)|)
  {
    hide CodesTo, TotalTo, CodeSpace, LegalCode, CodesOf;
    ghost var b := CountsOfLengths(bits);
    ehufco, ehufsi := new nat[256], new nat[256];
    var huffsize, huffcode, lastp;
    huffsize, lastp, ok := CodeLengths(bits);
    if ok {
      huffcode, ok := GenerateCodes(huffsize, lastp, b);
      if ok {
        forall p | 0 <= p < lastp ensures TableCodes(bits)[p].size > 0 { CodeSizePositive(b, p); }
        ehufco, ehufsi, ok := FillTable(huffsize, huffcode, lastp, huffval, maxSymbol, TableCodes(bits));
      }
    }
  }

  lemma CodeSizePositive(b: seq<int>, p: nat)
    requires CodeCounts(b) && |b| == 17 && p < |CodesTo(b, 16)|
    ensures CodesTo(b, 16)[p].size > 0
  {
    hide CodesTo, TotalTo, CodeSpace;
    var l := LengthAt(b, 16, p);
    CodeAt(b, l, 16, p);
  }

  /** In an accepted table a code has at most 16 bits, is not all ones, and is
      not the start of another symbol's code.
   */
  lemma SymbolsTellApart(bits: seq<byte>, huffval: seq<byte>, maxSymbol: nat, t: SymbolCodes, x: byte, y: byte)
    requires |bits| == 17 && |huffval| == 256 && LegalTable(bits, huffval, maxSymbol)
    requires CodesOf(t, TableCodes(bits), huffval, |TableCodes(bits)|)
    requires t.ehufsi[x] != 0 && t.ehufsi[y] != 0
    ensures t.ehufsi[x] <= 16 && t.ehufco[x] + 1 < Pow2(t.ehufsi[x])
    ensures BitString(t.ehufco[x], t.ehufsi[x]) <= BitString(t.ehufco[y], t.ehufsi[y]) ==> x == y
  {
    hide CodesTo, TotalTo, CodeSpace, LegalCode, BitString, Pow2;
    var b, n := CountsOfLengths(bits), |TableCodes(bits)|;
    var p :| 0 <= p < n && huffval[..n][p] == x;
    var q :| 0 <= q < n && huffval[..n][q] == y;
    CodeFits(b, 16, p);
    if p < q {
      PrefixFree(b, 16, p, q);
    } else if q < p {
      PrefixFree(b, 16, q, p);
    }
  }

  /** Codes that fit their lengths, as bit buffers take for granted. */
  ghost predicate Fits(t: SymbolCodes) {
    && |t.ehufco| == |t.ehufsi| == 256
    && forall s: byte :: t.ehufsi[s] <= 16 && t.ehufco[s] < Pow2(t.ehufsi[s])
  }

  lemma DerivedFits(bits: seq<byte>, huffval: seq<byte>, maxSymbol: nat, t: SymbolCodes)
    requires |bits| == 17 && |huffval| == 256 && LegalTable(bits, huffval, maxSymbol)
    requires CodesOf(t, TableCodes(bits), huffval, |TableCodes(bits)|)
    ensures Fits(t)
  {
    hide CodesTo, TotalTo, CodeSpace, LegalCode, Pow2;
    forall s: byte ensures t.ehufsi[s] <= 16 && t.ehufco[s] < Pow2(t.ehufsi[s]) {
      if t.ehufsi[s] != 0 {
        SymbolsTellApart(bits, huffval, maxSymbol, t, s, s);
      } else {
        CodelessFits(bits, huffval, t, s);
      }
    }
  }

  lemma CodelessFits(bits: seq<byte>, huffval: seq<byte>, t: SymbolCodes, s: byte)
    requires |bits| == 17 && |huffval| == 256 && |TableCodes(bits)| <= 256
    requires CodesOf(t, TableCodes(bits), huffval, |TableCodes(bits)|) && t.ehufsi[s] == 0
    ensures t.ehufco[s] < Pow2(t.ehufsi[s])
  {
    hide CodesTo, TotalTo, CodeSpace, LegalCode;
    var n := |TableCodes(bits)|;
    if s in huffval[..n] {
      var p :| 0 <= p < n && huffval[..n][p] == s;
      CodeSizePositive(CountsOfLengths(bits), p);
      assert false;
    }
  }
}
