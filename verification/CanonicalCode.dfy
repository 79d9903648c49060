/** Canonical Huffman codes (Annex C of ITU-T T.81) as values: the codes that a
    list of counts stands for, and why no code is the start of another.
 */
module CanonicalCode {
  import opened CodeBytes
  import opened Coefficients
  import opened HuffmanLimit

  /** A code: the `size` low bits of `bits`. */
  datatype Code = Code(size: nat, bits: nat)

  /** Counts of codes of each length; there is no code of length 0. */
  ghost predicate CodeCounts(b: seq<int>) {
    b != [] && b[0] == 0 && forall l :: 0 <= l < |b| ==> b[l] >= 0
  }

  lemma {:induction false} SpaceNonnegative(b: seq<int>, l: nat)
    requires CodeCounts(b) && l < |b|
    ensures CodeSpace(b, l) >= 0 && TotalTo(b, l) >= 0
    decreases l
  {
    if l > 0 { SpaceNonnegative(b, l - 1); }
  }

  /** Figures C.1 and C.2: the codes of length 1 to `l`, in order. */
  ghost function CodesTo(b: seq<int>, l: nat): (cs: seq<Code>)
    requires CodeCounts(b) && l < |b|
    ensures |cs| == TotalTo(b, l)
  {
    SpaceNonnegative(b, l);
    if l == 0 then [] else
      SpaceNonnegative(b, l - 1);
      var first := 2 * CodeSpace(b, l - 1);
      CodesTo(b, l - 1) + seq(b[l], i requires 0 <= i < b[l] => Code(l, first + i))
  }

  /** No length's codes use up the code space: the last code is not all ones. */
  ghost predicate LegalCode(b: seq<int>, top: nat)
    requires top < |b|
  {
    forall l :: 1 <= l <= top ==> CodeSpace(b, l) < Pow2(l)
  }

  // ----- Where the codes of one length are ----------------------------------------------

  lemma {:induction false} CodesPrefix(b: seq<int>, l: nat, top: nat)
    requires CodeCounts(b) && l <= top < |b|
    ensures TotalTo(b, l) <= TotalTo(b, top) && CodesTo(b, l) <= CodesTo(b, top)
    decreases top
  {
    if l < top { CodesPrefix(b, l, top - 1); }
  }

  /** The codes of length `l` stand side by side and count upward. */
  lemma CodeAt(b: seq<int>, l: nat, top: nat, p: nat)
    requires CodeCounts(b) && 1 <= l <= top < |b| && TotalTo(b, l - 1) <= p < TotalTo(b, l)
    ensures p < |CodesTo(b, top)| && CodesTo(b, top)[p].size == l
    ensures CodesTo(b, top)[p].bits == 2 * CodeSpace(b, l - 1) + (p - TotalTo(b, l - 1))
  {
    CodesPrefix(b, l, top);
    assert CodesTo(b, top)[p] == CodesTo(b, l)[p];
  }

  /** Every position has its length. */
  lemma {:induction false} LengthAt(b: seq<int>, top: nat, p: nat) returns (l: nat)
    requires CodeCounts(b) && top < |b| && p < TotalTo(b, top)
    ensures 1 <= l <= top && TotalTo(b, l - 1) <= p < TotalTo(b, l)
    decreases top
  {
    if top > 0 && p < TotalTo(b, top - 1) {
      l := LengthAt(b, top - 1, p);
    } else {
      l := top;
    }
  }

  /** Figure C.2 code by code: the first one is all zeros, and each other one is the
      code before it plus one, with zeros appended if it is longer.
   */
  lemma NextCode(b: seq<int>, top: nat, p: nat)
    requires CodeCounts(b) && top < |b| && p < |CodesTo(b, top)|
    ensures var x := CodesTo(b, top)[p];
            if p == 0 then x.bits == 0
            else
              var y := CodesTo(b, top)[p - 1];
              y.size <= x.size && x.bits == ShiftUp(y.bits + 1, x.size - y.size)
  {
    hide CodesTo, CodeSpace, TotalTo;
    var l := LengthAt(b, top, p);
    CodeAt(b, l, top, p);
    if p == 0 {
      NoneShorter(b, l - 1);
    } else {
      var m := LengthAt(b, top, p - 1);
      CodeAt(b, m, top, p - 1);
      Spaces(b, m);
      if m < l {
        CodesPrefix(b, m, l - 1);
        EmptyLengths(b, m, l - 1, p);
      } else {
        SameLength(b, m, l, p - 1, p);
      }
    }
  }

  lemma {:induction false} NoneShorter(b: seq<int>, l: nat)
    requires CodeCounts(b) && l < |b| && TotalTo(b, l) <= 0
    ensures CodeSpace(b, l) == 0 == TotalTo(b, l)
    decreases l
  {
    if l > 0 {
      SpaceNonnegative(b, l - 1);
      NoneShorter(b, l - 1);
    }
  }

  /** Lengths without codes only double the code space used so far. */
  lemma {:induction false} EmptyLengths(b: seq<int>, m: nat, l: nat, p: nat)
    requires CodeCounts(b) && m <= l < |b| && TotalTo(b, m) == p && TotalTo(b, l) <= p
    ensures TotalTo(b, l) == p && CodeSpace(b, l) == ShiftUp(CodeSpace(b, m), l - m)
    decreases l
  {
    if m < l {
      CodesPrefix(b, m, l - 1);
      EmptyLengths(b, m, l - 1, p);
    }
  }

  // ----- No code is the start of another ----------------------------------------------------

  lemma {:induction false} SpaceGrows(b: seq<int>, l: nat, m: nat)
    requires CodeCounts(b) && l <= m < |b|
    ensures Shr(CodeSpace(b, m), m - l) >= CodeSpace(b, l)
    decreases m - l
  {
    if l < m {
      ShrMonotone(2 * CodeSpace(b, m - 1), CodeSpace(b, m), m - l);
      SpaceGrows(b, l, m - 1);
    }
  }

  lemma {:induction false} ShrMonotone(x: int, y: int, k: nat)
    requires x <= y
    ensures Shr(x, k) <= Shr(y, k)
    decreases k
  {
    if k > 0 { ShrMonotone(x / 2, y / 2, k - 1); }
  }

  /** A later code, cut to the length of an earlier one, is larger. */
  lemma LaterLarger(b: seq<int>, top: nat, p: nat, q: nat)
    requires CodeCounts(b) && top < |b| && p < q < |CodesTo(b, top)|
    ensures var x, y := CodesTo(b, top)[p], CodesTo(b, top)[q];
            x.size <= y.size && x.bits < Shr(y.bits, y.size - x.size)
  {
    hide CodesTo, CodeSpace, TotalTo;
    var l := LengthAt(b, top, p);
    var m := LengthAt(b, top, q);
    CodeAt(b, l, top, p);
    CodeAt(b, m, top, q);
    if l < m {
      Spaces(b, l);
      SpaceGrows(b, l, m - 1);
      ShrMonotone(2 * CodeSpace(b, m - 1), CodesTo(b, top)[q].bits, m - l);
      assert Shr(2 * CodeSpace(b, m - 1), m - l) == Shr(CodeSpace(b, m - 1), m - 1 - l);
    } else {
      SameLength(b, l, m, p, q);
    }
  }

  /** A later position does not have a shorter code. */
  lemma SameLength(b: seq<int>, l: nat, m: nat, p: nat, q: nat)
    requires CodeCounts(b) && 1 <= m <= l < |b| && p < q
    requires TotalTo(b, l - 1) <= p < TotalTo(b, l) && TotalTo(b, m - 1) <= q < TotalTo(b, m)
    ensures l == m
  {
    if m < l { CodesPrefix(b, m, l - 1); }
  }

  lemma Spaces(b: seq<int>, l: nat)
    requires 1 <= l < |b|
    ensures CodeSpace(b, l) == 2 * CodeSpace(b, l - 1) + b[l] && TotalTo(b, l) == TotalTo(b, l - 1) + b[l]
  {
  }

  // ----- Codes as strings of bits ------------------------------------------------------------

  /** The bits sent for a code, first bit first. */
  function BitString(bits: nat, size: nat): (s: seq<bool>)
    ensures |s| == size
    decreases size
  {
    if size == 0 then [] else BitString(bits / 2, size - 1) + [bits % 2 == 1]
  }

  lemma {:induction false} BitStringStart(bits: nat, size: nat, k: nat)
    requires k <= size
    ensures BitString(bits, size)[..k] == BitString(Shr(bits, size - k), k)
    decreases size
  {
    if k < size { BitStringStart(bits / 2, size - 1, k); }
  }

  lemma {:induction false} BitStringInjective(x: nat, y: nat, size: nat)
    requires x < Pow2(size) && y < Pow2(size) && BitString(x, size) == BitString(y, size)
    ensures x == y
    decreases size
  {
    if size > 0 {
      var s, t := BitString(x, size), BitString(y, size);
      assert s[..size - 1] == BitString(x / 2, size - 1) && t[..size - 1] == BitString(y / 2, size - 1);
      assert s[size - 1] == t[size - 1];
      BitStringInjective(x / 2, y / 2, size - 1);
    }
  }

  lemma {:induction false} ShrBelow(x: nat, m: nat, k: nat)
    requires x < Pow2(m + k)
    ensures Shr(x, k) < Pow2(m)
    decreases k
  {
    if k > 0 { ShrBelow(x / 2, m, k - 1); }
  }

  function Bits(c: Code): seq<bool> {
    BitString(c.bits, c.size)
  }

  /** Each code fits its length, and is not all ones. */
  lemma CodeFits(b: seq<int>, top: nat, p: nat)
    requires CodeCounts(b) && top < |b| && LegalCode(b, top) && p < |CodesTo(b, top)|
    ensures var x := CodesTo(b, top)[p]; 1 <= x.size <= top && x.bits + 1 < Pow2(x.size)
  {
    hide CodesTo, CodeSpace, TotalTo, Pow2;
    var l := LengthAt(b, top, p);
    CodeAt(b, l, top, p);
    Spaces(b, l);
  }

  /** Of two different codes neither is the start of the other. */
  lemma PrefixFree(b: seq<int>, top: nat, p: nat, q: nat)
    requires CodeCounts(b) && top < |b| && LegalCode(b, top) && p < q < |CodesTo(b, top)|
    ensures !(Bits(CodesTo(b, top)[p]) <= Bits(CodesTo(b, top)[q]))
    ensures !(Bits(CodesTo(b, top)[q]) <= Bits(CodesTo(b, top)[p]))
  {
    hide CodesTo, LegalCode, BitString, Shr;
    var x, y := CodesTo(b, top)[p], CodesTo(b, top)[q];
    LaterLarger(b, top, p, q);
    CodeFits(b, top, p);
    CodeFits(b, top, q);
    BitStringStart(y.bits, y.size, x.size);
    ShrBelow(y.bits, x.size, y.size - x.size);
    var start := Shr(y.bits, y.size - x.size);
    if BitString(x.bits, x.size) == BitString(start, x.size) {
      BitStringInjective(x.bits, start, x.size);
    }
  }
}
