/** Division by a reciprocal (compute_reciprocal, flss and quantize in
    jcdctmgr.c): a multiplication and a shift give exactly the rounded quotient.
 */
module Reciprocal {
  import opened Arithmetic
  import opened CodeBytes
  import opened Coefficients
  import opened HuffSyntax

  // ----- Words of w bits ----------------------------------------------------------------------

  /** DCTELEM: what a signed word holds after an unsigned value is stored in it. */
  function ToWord(v: nat, w: nat): (x: int)
    requires w >= 1 && v < Pow2(w)
    ensures 0 <= x + Pow2(w - 1) < Pow2(w)
  {
    if v < Pow2(w - 1) then v else v - Pow2(w)
  }

  /** UDCTELEM: the unsigned value of a signed word. */
  function FromWord(x: int, w: nat): int {
    if x >= 0 then x else x + Pow2(w)
  }

  lemma WordKept(v: nat, w: nat)
    requires w >= 1 && v < Pow2(w)
    ensures FromWord(ToWord(v, w), w) == v
  {
  }

  lemma {:induction false} Pow2Grows(m: nat, n: nat)
    requires m <= n
    ensures Pow2(m) <= Pow2(n)
    decreases n
  {
    if m < n { Pow2Grows(m, n - 1); }
  }

  /** The quotient of the branch with a plain division: halves away from zero. */
  function Rounded(x: int, d: nat): int
    requires d >= 1
  {
    if x < 0 then -((-x + d / 2) / d) else (x + d / 2) / d
  }

  // ----- The reciprocal's error ------------------------------------------------------------------

  /** A multiplier `f` a little above `top / d`. */
  lemma RoundedUp(n: nat, d: nat, f: nat, top: nat, e: nat)
    requires d >= 1 && top >= 1 && f * d == top + e && n * e < top
    ensures (n * f) / top == n / d
  {
    var q, s := n / d, n % d;
    assert n == q * d + s;
    Associate(q, d, f);
    Distribute(q, top, e);
    LessTimes(q * d, n, f);
    assert d * f == f * d;
    assert (q * d) * f == q * top + q * e;
    assert q * top <= n * f;
    Associate(n, f, d);
    Distribute(n, top, e);
    assert (n * f) * d == n * top + n * e;
    Distribute(top, n, 1);
    LessTimes(n + 1, (q + 1) * d, top) by { Distribute(d, q, 1); }
    Associate(q + 1, d, top);
    assert (n * f) * d < ((q + 1) * top) * d;
    Cancel(n * f, (q + 1) * top, d);
    QuotientIs(n * f, top, q);
  }

  /** A multiplier a little below `top / d`, with one added to the dividend. */
  lemma RoundedDown(n: nat, d: nat, f: nat, top: nat, e: nat)
    requires d >= 1 && top >= 1 && e >= 1 && f * d == top - e && (n + 1) * e <= top
    ensures ((n + 1) * f) / top == n / d
  {
    var q, s := n / d, n % d;
    assert n == q * d + s;
    Distribute(d, q, 1);
    LessTimes(n + 1, (q + 1) * d, f);
    Associate(q + 1, d, f);
    DistributeMinus(q + 1, top, e);
    assert d * f == f * d;
    assert ((q + 1) * d) * f == (q + 1) * top - (q + 1) * e;
    assert (q + 1) * e >= e by { LessTimes(1, q + 1, e); }
    assert (n + 1) * f < (q + 1) * top;
    Associate(n + 1, f, d);
    DistributeMinus(n + 1, top, e);
    Distribute(top, n, 1);
    LessTimes(q * d, n, top);
    Associate(q, d, top);
    assert (q * top) * d < ((n + 1) * f + 1) * d by { Distribute(d, (n + 1) * f, 1); }
    Cancel(q * top, (n + 1) * f + 1, d);
    QuotientIs((n + 1) * f, top, q);
  }

  /** Only powers of two divide a power of two, so a divisor above one is even. */
  lemma {:induction false} OddDivides(f: nat, d: nat, r: nat)
    requires f * d == Pow2(r) && f % 2 == 1
    ensures f == 1
    decreases r
  {
    if r == 0 {
      assert d >= 1;
      LessTimes(1, d, f);
    } else {
      var g, h := f / 2, d / 2;
      if d % 2 == 1 {
        Associate(2, g, d);
        assert f * d == 2 * (g * d) + d by { Distribute(d, 2 * g, 1); }
        assert false;
      }
      assert f * d == 2 * (f * h) by { assert d == 2 * h; Associate(f, h, 2); }
      OddDivides(f, h, r - 1);
    }
  }

  // ----- flss --------------------------------------------------------------------------------------

  /** flss: the number of significant bits.  A mask of the leading bits of a
      16-bit value is zero exactly below a power of two.
   */
  method Flss(val: nat) returns (bit: nat)
    requires val < 0x10000
    ensures bit == NBits(val)
    ensures val > 0 ==> 1 <= bit <= 16 && Pow2(bit - 1) <= val < Pow2(bit)
  {
    hide NBits, Pow2;
    Halvings();
    bit := 16;
    if val == 0 {
      assert NBits(0) == 0 by { NBitsBound(0, 0); }
      return 0;
    }
    var v := val;
    if v < 0x100 { bit := bit - 8; v := v * 0x100; }
    if v < 0x1000 { bit := bit - 4; v := v * 0x10; }
    if v < 0x4000 { bit := bit - 2; v := v * 4; }
    if v < 0x8000 { bit := bit - 1; v := v * 2; }
    NBitsBound(val, bit);
    NBitsBound(val, bit - 1);
  }

  lemma Halvings()
    ensures Pow2(0) == 1 && Pow2(1) == 2 && Pow2(2) == 4 && Pow2(3) == 8 && Pow2(4) == 0x10
    ensures Pow2(5) == 0x20 && Pow2(6) == 0x40 && Pow2(7) == 0x80 && Pow2(8) == 0x100
    ensures Pow2(9) == 0x200 && Pow2(10) == 0x400 && Pow2(11) == 0x800 && Pow2(12) == 0x1000
    ensures Pow2(13) == 0x2000 && Pow2(14) == 0x4000 && Pow2(15) == 0x8000 && Pow2(16) == 0x10000
  {
  }

  // ----- compute_reciprocal ------------------------------------------------------------------------

  /** What quantize multiplies, adds and shifts by, as unsigned numbers. */
  datatype Divisor = Divisor(recip: nat, corr: nat, shift: int)

  /** Multiplying and shifting divides by `d`, and every intermediate value fits
      its word or double word.
   */
  ghost predicate DividesBy(t: Divisor, d: nat, w: nat)
    requires d >= 1 && w >= 1
  {
    && t.recip < Pow2(w) && t.corr < Pow2(w) && 0 <= t.shift + w
    && forall n: nat {:trigger Exact(t, d, w, n)} :: n < Pow2(w - 1) ==> Exact(t, d, w, n)
  }

  ghost predicate Exact(t: Divisor, d: nat, w: nat, n: nat)
    requires d >= 1 && 0 <= t.shift + w
  {
    && n + t.corr < Pow2(w) && (n + t.corr) * t.recip < Pow2(w + w)
    && ((n + t.corr) * t.recip) / Pow2(t.shift + w) == (n + d / 2) / d
  }

  lemma ProductFits(a: nat, b: nat, w: nat)
    requires a < Pow2(w) && b < Pow2(w)
    ensures a * b < Pow2(w + w)
  {
    hide Pow2;
    Pow2Add(w, w);
    LessTimes(b, Pow2(w), a);
    LessTimes(a + 1, Pow2(w), Pow2(w));
    Distribute(Pow2(w), a, 1);
  }

  /** The sum of a word's magnitude and half a divisor. */
  lemma SumFits(n: nat, c: nat, w: nat)
    requires w >= 16 && n < Pow2(w - 1) && c <= 0x8000
    ensures Pow2(w - 1) >= 0x8000 && n + c < Pow2(w)
  {
    Pow2Grows(15, w - 1);
    Halvings();
  }

  /** The remainder's share: less than one unit in the last place. */
  lemma ShareFits(n: nat, e: nat, w: nat, b: nat)
    requires n <= Pow2(w) && e < Pow2(b)
    ensures n * e <= Pow2(w + b) && (n < Pow2(w) ==> n * e < Pow2(w + b))
  {
    hide Pow2;
    Pow2Add(w, b);
    var word, unit := Pow2(w), Pow2(b);
    LessTimes(n, word, e);
    Distribute(word, e, 1);
    LessTimes(e + 1, unit, word);
    assert word * e == e * word && word * unit == unit * word;
  }

  lemma QuotientFits(g: nat, d: nat, word: nat, unit: nat)
    requires unit >= 1 && d >= unit && word >= 1 && g * d < word * unit
    ensures g < word
  {
    LessTimes(unit, d, word);
    assert word * d == d * word && word * unit == unit * word;
    if g >= word {
      LessTimes(word, g, d);
      assert false;
    }
  }

  lemma EvenQuotient(d: nat, w: nat, b: nat, fq: nat)
    requires w >= 16 && d < Pow2(b + 1) && Pow2(b) <= d && fq * d == Pow2(w + b)
    ensures fq % 2 == 0 && (fq / 2) * d == Pow2(w + b - 1) && fq / 2 < Pow2(w)
  {
    hide Pow2;
    Pow2Add(w, b);
    Doubled(w + b - 1);
    if fq % 2 == 1 {
      OddDivides(fq, d, w + b);
      Pow2Grows(b + 1, w + b);
      assert false;
    }
    var g := fq / 2;
    Associate(2, g, d);
    QuotientFits(g, d, Pow2(w), Pow2(b));
  }

  /** The three cases of compute_reciprocal, for divisors of `b + 1` bits. */
  lemma PowerOfTwo(d: nat, w: nat, b: nat, fq: nat)
    requires w >= 16 && 1 <= b <= 15 && Pow2(b) <= d < Pow2(b + 1) && fq * d == Pow2(w + b)
    ensures DividesBy(Divisor(fq / 2, d / 2, b - 1), d, w)
  {
    hide Pow2;
    Pow2Grows(b + 1, 16);
    Halvings();
    Doubled(w + b - 1);
    Doubled(w - 1);
    Pow2Add(w, b);
    EvenQuotient(d, w, b, fq);
    var g := fq / 2;
    var t := Divisor(g, d / 2, b - 1);
    SumFits(0, d / 2, w);
    forall n: nat | n < Pow2(w - 1) ensures Exact(t, d, w, n) {
      SumFits(n, d / 2, w);
      ProductFits(n + d / 2, g, w);
      RoundedUp(n + d / 2, d, g, Pow2(w + b - 1), 0);
    }
  }

  lemma NoMultiple(q: int, m: int, d: nat, r: nat)
    requires q * d + r == m * d
    ensures !(0 < r < d)
  {
    DistributeMinus(d, m, q);
    if m > q { LessTimes(1, m - q, d); }
    if m < q { LessTimes(0, q - m, d); DistributeMinus(d, q, m); }
  }

  lemma Doubled(k: nat)
    ensures Pow2(k + 1) == 2 * Pow2(k)
  {
  }

  lemma BelowHalf(d: nat, w: nat, b: nat, fq: nat, fr: nat)
    requires w >= 16 && 1 <= b <= 15 && Pow2(b) <= d < Pow2(b + 1)
    requires fq * d + fr == Pow2(w + b) && 1 <= fr <= d / 2
    ensures DividesBy(Divisor(fq, d / 2 + 1, b), d, w)
  {
    hide Pow2;
    Pow2Grows(b + 1, 16);
    Halvings();
    Doubled(b);
    Pow2Add(w, b);
    QuotientFits(fq, d, Pow2(w), Pow2(b));
    var t := Divisor(fq, d / 2 + 1, b);
    SumFits(0, d / 2 + 1, w);
    forall n: nat | n < Pow2(w - 1) ensures Exact(t, d, w, n) {
      SumFits(n, d / 2 + 1, w);
      ProductFits(n + d / 2 + 1, fq, w);
      ShareFits(n + d / 2 + 1, fr, w, b);
      RoundedDown(n + d / 2, d, fq, Pow2(w + b), fr);
    }
  }

  /** The quotient rounded up is still a word. */
  lemma NextFits(fq: nat, d: nat, fr: nat, word: nat, least: nat)
    requires fq * d + fr == word * least && 0 < fr < d && least <= d && d - fr < word
    ensures fq + 1 < word
  {
    if fq + 1 >= word {
      LessTimes(word, fq + 1, d);
      Distribute(d, fq, 1);
      if d == least {
        NoMultiple(fq, word, d, fr);
        assert false;
      }
      LessTimes(least + 1, d, word);
      Distribute(word, least, 1);
      assert false;
    }
  }

  lemma AboveHalf(d: nat, w: nat, b: nat, fq: nat, fr: nat)
    requires w >= 16 && 1 <= b <= 15 && Pow2(b) <= d < Pow2(b + 1)
    requires fq * d + fr == Pow2(w + b) && d / 2 < fr < d
    ensures DividesBy(Divisor(fq + 1, d / 2, b), d, w)
  {
    hide Pow2;
    Pow2Grows(b + 1, 16);
    Halvings();
    Doubled(b);
    Pow2Add(w, b);
    Pow2Grows(16, w);
    var f, e := fq + 1, d - fr;
    Distribute(d, fq, 1);
    assert f * d == Pow2(w + b) + e && e < Pow2(b);
    NextFits(fq, d, fr, Pow2(w), Pow2(b));
    var t := Divisor(f, d / 2, b);
    SumFits(0, d / 2, w);
    forall n: nat | n < Pow2(w - 1) ensures Exact(t, d, w, n) {
      SumFits(n, d / 2, w);
      ProductFits(n + d / 2, f, w);
      ShareFits(n + d / 2, e, w, b);
      RoundedUp(n + d / 2, d, f, Pow2(w + b), e);
    }
  }

  lemma ByOne(w: nat)
    requires w >= 16
    ensures DividesBy(Divisor(1, 0, 0 - w), 1, w)
  {
    hide Pow2;
    Halvings();
    Pow2Grows(16, w);
    var t := Divisor(1, 0, 0 - w);
    forall n: nat | n < Pow2(w - 1) ensures Exact(t, 1, w, n) {
      SumFits(n, 0, w);
      Pow2Grows(w, w + w);
    }
  }

  /** The entries of a table of divisors for coefficient `i`. */
  function Entry(dtbl: seq<int>, i: nat, w: nat): Divisor
    requires |dtbl| == 4 * DCTSIZE2 && i < DCTSIZE2 && FromWord(dtbl[i], w) >= 0 && FromWord(dtbl[DCTSIZE2 + i], w) >= 0
  {
    Divisor(FromWord(dtbl[i], w), FromWord(dtbl[DCTSIZE2 + i], w), dtbl[3 * DCTSIZE2 + i])
  }

  ghost predicate EntryDividesBy(dtbl: seq<int>, i: nat, d: nat, w: nat)
    requires |dtbl| == 4 * DCTSIZE2 && i < DCTSIZE2 && d >= 1 && w >= 1
  {
    FromWord(dtbl[i], w) >= 0 && FromWord(dtbl[DCTSIZE2 + i], w) >= 0 && DividesBy(Entry(dtbl, i, w), d, w)
  }

  /** The values as words of the table; the scale is for SIMD code alone. */
  method StoreEntry(t: Divisor, dtbl: array<int>, i: nat, ghost d: nat, w: nat)
    requires d >= 1 && w >= 1 && DividesBy(t, d, w) && dtbl.Length == 4 * DCTSIZE2 && i < DCTSIZE2
    requires t.recip < Pow2(w) && t.corr < Pow2(w)
    modifies dtbl
    ensures EntryDividesBy(dtbl[..], i, d, w) && dtbl[3 * DCTSIZE2 + i] == t.shift
    ensures forall m :: 0 <= m < dtbl.Length && m % DCTSIZE2 != i ==> dtbl[m] == old(dtbl[m])
  {
    hide Pow2, DividesBy, FromWord, ToWord;
    Stored(t, d, w);
    dtbl[i], dtbl[DCTSIZE2 + i], dtbl[2 * DCTSIZE2 + i], dtbl[3 * DCTSIZE2 + i] :=
      ToWord(t.recip, w), ToWord(t.corr, w), 1, t.shift;
    assert Entry(dtbl[..], i, w) == t;
  }

  /** compute_reciprocal, for words of `w` bits. */
  method ComputeReciprocal(divisor: nat, dtbl: array<int>, i: nat, w: nat) returns (simd: bool)
    requires 1 <= divisor <= 65535 && w >= 16 && dtbl.Length == 4 * DCTSIZE2 && i < DCTSIZE2
    modifies dtbl
    ensures EntryDividesBy(dtbl[..], i, divisor, w)
    ensures forall m :: 0 <= m < dtbl.Length && m % DCTSIZE2 != i ==> dtbl[m] == old(dtbl[m])
    ensures simd <==> dtbl[3 * DCTSIZE2 + i] + w > 16
  {
    hide Pow2, DividesBy, EntryDividesBy, FromWord, ToWord, NBits;
    if divisor == 1 {
      ByOne(w);
      Stored(Divisor(1, 0, 0 - w), 1, w);
      StoreEntry(Divisor(1, 0, 0 - w), dtbl, i, divisor, w);
      return false;
    }
    var b := Flss(divisor);
    Halvings();
    b := b - 1;
    var r := w + b;
    var fq, fr := Pow2(r) / divisor, Pow2(r) % divisor;
    var c := divisor / 2;
    Divided(Pow2(r), divisor);
    if fr == 0 {
      PowerOfTwo(divisor, w, b, fq);
      fq, r := fq / 2, r - 1;
    } else if fr <= divisor / 2 {
      BelowHalf(divisor, w, b, fq, fr);
      c := c + 1;
    } else {
      AboveHalf(divisor, w, b, fq, fr);
      fq := fq + 1;
    }
    Stored(Divisor(fq, c, r - w), divisor, w);
    StoreEntry(Divisor(fq, c, r - w), dtbl, i, divisor, w);
    simd := r > 16;
  }

  lemma Divided(p: nat, d: nat)
    requires d >= 1
    ensures p / d >= 0 && (p / d) * d + p % d == p && 0 <= p % d < d
  {
  }

  lemma Stored(t: Divisor, d: nat, w: nat)
    requires d >= 1 && w >= 1 && DividesBy(t, d, w)
    ensures t.recip < Pow2(w) && t.corr < Pow2(w)
    ensures FromWord(ToWord(t.recip, w), w) == t.recip && FromWord(ToWord(t.corr, w), w) == t.corr
  {
    hide Pow2, Exact;
    WordKept(t.recip, w);
    WordKept(t.corr, w);
  }

  /** What is left of eight times a quantization value in the 16-bit parameter
      of compute_reciprocal.
   */
  function Step(quantval: nat): nat {
    8 * quantval % 0x10000
  }

  /** The table for a forward transform whose outputs are scaled up by eight. */
  method FillDivisors(quantval: seq<nat>, dtbl: array<int>, w: nat)
    requires |quantval| == DCTSIZE2 && forall i :: 0 <= i < DCTSIZE2 ==> Step(quantval[i]) >= 1
    requires w >= 16 && dtbl.Length == 4 * DCTSIZE2
    modifies dtbl
    ensures forall i: nat :: i < DCTSIZE2 ==> EntryDividesBy(dtbl[..], i, Step(quantval[i]), w)
  {
    hide DividesBy, FromWord;
    for i := 0 to DCTSIZE2
      invariant forall j: nat :: j < i ==> EntryDividesBy(dtbl[..], j, Step(quantval[j]), w)
    {
      ghost var before := dtbl[..];
      var simd := ComputeReciprocal(Step(quantval[i]), dtbl, i, w);
      forall j: nat | j < i ensures EntryDividesBy(dtbl[..], j, Step(quantval[j]), w) {
        assert EntryDividesBy(before, j, Step(quantval[j]), w);
        Untouched(before, dtbl[..], i, j);
        SameEntry(before, dtbl[..], j, Step(quantval[j]), w);
      }
    }
  }

  lemma Untouched(before: seq<int>, after: seq<int>, i: nat, j: nat)
    requires |before| == |after| == 4 * DCTSIZE2 && i < DCTSIZE2 && j < DCTSIZE2 && i != j
    requires forall m :: 0 <= m < |after| && m % DCTSIZE2 != i ==> after[m] == before[m]
    ensures after[j] == before[j] && after[DCTSIZE2 + j] == before[DCTSIZE2 + j]
            && after[3 * DCTSIZE2 + j] == before[3 * DCTSIZE2 + j]
  {
  }

  lemma SameEntry(before: seq<int>, after: seq<int>, j: nat, d: nat, w: nat)
    requires |before| == |after| == 4 * DCTSIZE2 && j < DCTSIZE2 && d >= 1 && w >= 1
    requires after[j] == before[j] && after[DCTSIZE2 + j] == before[DCTSIZE2 + j]
             && after[3 * DCTSIZE2 + j] == before[3 * DCTSIZE2 + j]
    requires EntryDividesBy(before, j, d, w)
    ensures EntryDividesBy(after, j, d, w)
  {
    hide DividesBy, FromWord;
  }

  /** quantize: every coefficient becomes the rounded quotient by its step. */
  method Quantize(output: array<Coef>, divisors: array<int>, workspace: array<int>, w: nat, ghost steps: seq<nat>)
    requires w >= 16 && divisors.Length == 4 * DCTSIZE2 && workspace.Length == output.Length == |steps| == DCTSIZE2
    requires forall i :: 0 <= i < DCTSIZE2 ==> steps[i] >= 1 && EntryDividesBy(divisors[..], i, steps[i], w)
    requires forall i :: 0 <= i < DCTSIZE2 ==> Abs(workspace[i]) < Pow2(w - 1)
    requires output != workspace as object && output != divisors as object
    modifies output
    ensures forall i :: 0 <= i < DCTSIZE2 ==> output[i] == ToCoef(Rounded(workspace[i], steps[i]))
  {
    hide DividesBy, Pow2, ToCoef, FromWord;
    for i := 0 to DCTSIZE2
      invariant forall j :: 0 <= j < i ==> output[j] == ToCoef(Rounded(workspace[j], steps[j]))
    {
      assert EntryDividesBy(divisors[..], i, steps[i], w);
      var temp := workspace[i];
      var recip := FromWord(divisors[i], w);
      var corr := FromWord(divisors[DCTSIZE2 + i], w);
      var shift := divisors[3 * DCTSIZE2 + i];
      Divides(Divisor(recip, corr, shift), steps[i], w, if temp < 0 then -temp else temp);
      if temp < 0 {
        temp := -temp;
        var product := (temp + corr) * recip;
        product := product / Pow2(shift + w);
        temp := -product;
      } else {
        var product := (temp + corr) * recip;
        product := product / Pow2(shift + w);
        temp := product;
      }
      output[i] := ToCoef(temp);
    }
  }

  lemma Divides(t: Divisor, d: nat, w: nat, n: nat)
    requires d >= 1 && w >= 1 && DividesBy(t, d, w) && n < Pow2(w - 1)
    ensures t.shift + w >= 0 && ((n + t.corr) * t.recip) / Pow2(t.shift + w) == (n + d / 2) / d
  {
    hide Pow2;
    assert Exact(t, d, w, n);
  }

  /** The reciprocal of every step of the table, and the quantizer that uses it. */
  method QuantizeBlock(quantval: seq<nat>, workspace: array<int>, w: nat) returns (output: array<Coef>)
    requires |quantval| == DCTSIZE2 && forall i :: 0 <= i < DCTSIZE2 ==> Step(quantval[i]) >= 1
    requires w >= 16 && workspace.Length == DCTSIZE2
    requires forall i :: 0 <= i < DCTSIZE2 ==> Abs(workspace[i]) < Pow2(w - 1)
    ensures fresh(output) && output.Length == DCTSIZE2
    ensures forall i :: 0 <= i < DCTSIZE2 ==> output[i] == ToCoef(Rounded(workspace[i], Step(quantval[i])))
  {
    hide EntryDividesBy, Pow2, ToCoef, Rounded;
    var dtbl := new int[4 * DCTSIZE2];
    output := new Coef[DCTSIZE2];
    FillDivisors(quantval, dtbl, w);
    ghost var steps := seq(DCTSIZE2, i requires 0 <= i < DCTSIZE2 => Step(quantval[i]));
    Quantize(output, dtbl, workspace, w, steps);
  }

  /** Half of a step rounds up, and is nothing to a larger step. */
  lemma HalfAStep(d: nat, larger: nat)
    requires 1 <= d && d + 2 <= larger && larger % 2 == 0
    ensures Rounded(d - d / 2, d) == 1 && Rounded(d - d / 2, larger) == 0
  {
    var x := d - d / 2;
    assert x + d / 2 == d;
    QuotientIs(x + larger / 2, larger, 0);
  }

  lemma StepLeft(quantval: nat)
    ensures Step(quantval) == 0 <==> quantval % 8192 == 0
    ensures if quantval < 8192 then Step(quantval) == 8 * quantval else Step(quantval) <= 65528 < 8 * quantval
  {
  }

  /** Quantization divides by eight times the quantization value exactly when
      that value is below 8192; a larger one loses its high bits on the way, and
      a multiple of 8192 all of them: compute_reciprocal then divides by zero.
   */
  lemma StepWhole(quantval: nat, w: nat)
    requires 1 <= quantval <= 65535 && w >= 16
    ensures Step(quantval) == 0 <==> quantval % 8192 == 0
    ensures quantval < 8192 <==>
              Step(quantval) >= 1
              && forall x: int :: Abs(x) < Pow2(w - 1) ==> Rounded(x, Step(quantval)) == Rounded(x, 8 * quantval)
  {
    hide Pow2, Step, Rounded;
    StepLeft(quantval);
    if quantval >= 8192 && Step(quantval) >= 1 {
      var d := Step(quantval);
      var x := d - d / 2;
      Halvings();
      Pow2Grows(15, w - 1);
      HalfAStep(d, 8 * quantval);
      assert Abs(x) < Pow2(w - 1) && Rounded(x, d) != Rounded(x, 8 * quantval);
    }
  }

  /** The quotient is the nearest one, and of two equally near ones the one further
      from zero; numbers of opposite sign have opposite quotients.
   */
  lemma RoundedIsNearest(x: int, d: nat)
    requires d >= 1
    ensures 2 * Abs(x - Rounded(x, d) * d) <= d && Rounded(-x, d) == -Rounded(x, d)
    ensures x >= 0 ==> 2 * (x - Rounded(x, d) * d) < d
  {
    RoundedOdd(x, d);
    if x >= 0 {
      RoundedUpward(x, d);
    } else {
      RoundedUpward(-x, d);
      OppositeTimes(Rounded(-x, d), d);
      hide Rounded;
    }
  }

  lemma RoundedOdd(x: int, d: nat)
    requires d >= 1
    ensures Rounded(-x, d) == -Rounded(x, d)
  {
    if x == 0 { SmallQuotient(d / 2, d); }
  }

  lemma SmallQuotient(n: nat, d: nat)
    requires n < d
    ensures n / d == 0
  {
  }

  lemma OppositeTimes(q: int, d: nat)
    ensures -q * d == -(q * d)
  {
  }

  lemma RoundedUpward(x: nat, d: nat)
    requires d >= 1
    ensures 2 * (Rounded(x, d) * d - x) <= d && 2 * (x - Rounded(x, d) * d) < d
  {
    RoundedNearest(x, d);
  }
}
