/** Code-length counts: counting the symbols of each length, limiting lengths
    to 16 bits and dropping the pseudo-symbol (jpeg_gen_optimal_table,
    jchuff.c; section K.2 of ITU-T T.81).
 */
module HuffmanLimit {
  import opened HuffmanCost
  import opened HuffmanForest
  import opened CodeBytes
  import opened Coefficients

  const MAX_CLEN := 32

  /** How many codes of length `k` the codes of length 1 to `k` cover, if there
      are `b[l]` codes of each length `l`.
   */
  function CodeSpace(b: seq<int>, k: nat): int
    requires k < |b|
  {
    if k == 0 then b[0] else 2 * CodeSpace(b, k - 1) + b[k]
  }

  function TotalTo(b: seq<int>, k: nat): int
    requires k < |b|
  {
    if k == 0 then b[0] else TotalTo(b, k - 1) + b[k]
  }

  // ----- Changing one count ---------------------------------------------------------------

  lemma {:induction false} SpaceChange(b: seq<int>, k: nat, v: int, top: nat)
    requires k <= top < |b|
    ensures CodeSpace(b[k := v], top) == CodeSpace(b, top) + ShiftUp(v - b[k], top - k)
    decreases top
  {
    if k < top {
      SpaceChange(b, k, v, top - 1);
    } else if k > 0 {
      SpacePrefix(b, b[k := v], top - 1);
    }
  }

  lemma {:induction false} SpacePrefix(b: seq<int>, c: seq<int>, top: nat)
    requires top < |b| && top < |c| && b[..top + 1] == c[..top + 1]
    ensures CodeSpace(b, top) == CodeSpace(c, top) && TotalTo(b, top) == TotalTo(c, top)
    decreases top
  {
    assert b[top] == b[..top + 1][top] == c[top];
    if top > 0 {
      assert b[..top] == b[..top + 1][..top] == c[..top];
      SpacePrefix(b, c, top - 1);
    }
  }

  lemma {:induction false} TotalChange(b: seq<int>, k: nat, v: int, top: nat)
    requires k <= top < |b|
    ensures TotalTo(b[k := v], top) == TotalTo(b, top) + v - b[k]
    decreases top
  {
    if k < top {
      TotalChange(b, k, v, top - 1);
    } else if k > 0 {
      SpacePrefix(b, b[k := v], top - 1);
    }
  }

  ghost predicate Counts(b: seq<int>) {
    |b| == MAX_CLEN + 1 && forall k :: 0 <= k < |b| ==> b[k] >= 0
  }

  lemma {:induction false} TotalAtLeast(b: seq<int>, p: nat, q: nat, top: nat)
    requires Counts(b) && p < q <= top < |b|
    ensures b[p] + b[q] <= TotalTo(b, top) && b[top] <= TotalTo(b, top)
    decreases top
  {
    if q < top {
      TotalAtLeast(b, p, q, top - 1);
    } else {
      OneAtLeast(b, p, top - 1);
    }
  }

  lemma {:induction false} OneAtLeast(b: seq<int>, p: nat, top: nat)
    requires Counts(b) && p <= top < |b|
    ensures 0 <= b[p] <= TotalTo(b, top)
    decreases top
  {
    if p < top {
      OneAtLeast(b, p, top - 1);
    } else if top > 0 {
      OneAtLeast(b, top - 1, top - 1);
    }
  }

  // ----- Counting --------------------------------------------------------------------------

  ghost predicate SizesBelow(size: seq<nat>, n: nat, m: nat)
    requires n <= |size|
  {
    forall x :: 0 <= x < n ==> size[x] <= m
  }

  /** How many symbols below `n` have code length `k`. */
  ghost function Having(size: seq<nat>, n: nat, k: nat): nat
    requires n <= |size|
  {
    if n == 0 then 0 else Having(size, n - 1, k) + if size[n - 1] == k then 1 else 0
  }

  /** The counting loop; a code longer than 32 bits is the source's error exit. */
  method CountLengths(codesize: array<nat>, n: nat, ghost f: Weights) returns (bits: array<byte>, ok: bool)
    requires n <= codesize.Length && n <= 255 && |f| == n && AllAlive(f)
    ensures fresh(bits) && bits.Length == MAX_CLEN + 1
    ensures ok <==> SizesBelow(codesize[..], n, MAX_CLEN)
    ensures ok ==> forall k :: 0 <= k < bits.Length ==> bits[k] == Having(codesize[..], n, k)
    ensures ok ==> TotalTo(bits[..], MAX_CLEN) == n && AtMost(f, codesize[..n], MAX_CLEN, n)
    ensures ok ==> CodeSpace(bits[..], MAX_CLEN) == Covered(f, codesize[..n], MAX_CLEN, n)
  {
    hide CodeSpace, TotalTo, Pow2;
    bits := new byte[MAX_CLEN + 1](_ => 0);
    ok := true;
    ghost var size := codesize[..n];
    ZeroSpace(bits[..], MAX_CLEN);
    for i := 0 to n
      invariant SizesBelow(codesize[..], i, MAX_CLEN) && AtMost(f, size, MAX_CLEN, i)
      invariant forall k :: 0 <= k < bits.Length ==> bits[k] as int == Having(codesize[..], i, k) <= i
      invariant CodeSpace(bits[..], MAX_CLEN) == Covered(f, size, MAX_CLEN, i)
      invariant TotalTo(bits[..], MAX_CLEN) == i
    {
      assert codesize[i] == size[i] == codesize[..][i];
      if codesize[i] > MAX_CLEN {
        ok := false;
        return;
      }
      ghost var b := bits[..];
      var k := codesize[i];
      SpaceChange(b, k, b[k] + 1, MAX_CLEN);
      TotalChange(b, k, b[k] + 1, MAX_CLEN);
      ShiftUpIsPow2(MAX_CLEN - k);
      assert Alive(f, i);
      assert Covered(f, size, MAX_CLEN, i + 1) == Covered(f, size, MAX_CLEN, i) + Pow2(MAX_CLEN - k);
      bits[k] := bits[k] + 1;
      assert bits[..] == b[k := b[k] + 1];
    }
  }

  lemma {:induction false} ShiftUpIsPow2(k: nat)
    ensures ShiftUp(1, k) == Pow2(k)
    decreases k
  {
    if k > 0 { ShiftUpIsPow2(k - 1); }
  }

  lemma {:induction false} ZeroSpace(b: seq<int>, top: nat)
    requires top < |b| && forall k :: 0 <= k <= top ==> b[k] == 0
    ensures CodeSpace(b, top) == 0 && TotalTo(b, top) == 0
    decreases top
  {
    if top > 0 { ZeroSpace(b, top - 1); }
  }

  // ----- Limiting ---------------------------------------------------------------------------

  /** `n` codes of length at most `top` that fill the code space exactly; only
      a code all alone may have length 0.
   */
  ghost predicate FullCode(b: seq<int>, top: nat, n: nat) {
    && Counts(b) && top <= MAX_CLEN && (n >= 2 ==> b[0] == 0)
    && CodeSpace(b, top) == Pow2(top)
    && TotalTo(b, MAX_CLEN) == n
    && forall k :: top < k <= MAX_CLEN ==> b[k] == 0
  }

  /** The search for a shorter code never runs off the start of the table. */
  lemma SomeShorter(b: seq<int>, top: nat, n: nat)
    requires FullCode(b, top, n) && 2 <= n <= 255 && top >= 17
    ensures exists k :: 1 <= k <= top - 2 && b[k] > 0
  {
    if forall k :: 1 <= k <= top - 2 ==> b[k] == 0 {
      ZeroSpace(b, top - 2);
      OneAtLeast(b, top, MAX_CLEN);
      OneAtLeast(b, top - 1, MAX_CLEN);
      assert CodeSpace(b, top - 1) == b[top - 1];
      LargePow2(top);
      assert false;
    }
  }

  lemma LargePow2(k: nat)
    requires k >= 16
    ensures Pow2(k) >= 0x10000
    decreases k
  {
    if k == 16 {
      Pow2Add(8, 8);
      assert Pow2(8) == 0x100;
    } else {
      LargePow2(k - 1);
    }
  }

  /** The longest codes come in pairs. */
  lemma LongestPaired(b: seq<int>, top: nat, n: nat)
    requires FullCode(b, top, n) && top >= 1
    ensures b[top] % 2 == 0
  {
    hide TotalTo;
    var rest := CodeSpace(b, top - 1);
    assert b[top] == 2 * (Pow2(top - 1) - rest);
  }

  /** Two codes of length `i` replaced: one takes their common prefix, and a
      code of length `j` makes room for the other.
   */
  function MovePair(b: seq<int>, i: nat, j: nat): seq<int>
    requires j + 2 <= i < |b|
  {
    var b1 := b[i := b[i] - 2];
    var b2 := b1[i - 1 := b1[i - 1] + 1];
    var b3 := b2[j + 1 := b2[j + 1] + 2];
    b3[j := b3[j] - 1]
  }

  /** A move keeps the number of codes and the code space they fill. */
  lemma MoveKeepsFull(b: seq<int>, i: nat, j: nat, n: nat)
    requires FullCode(b, i, n) && 1 <= j && j + 2 <= i && b[i] >= 2 && b[j] >= 1
    ensures FullCode(MovePair(b, i, j), i, n)
    ensures MovePair(b, i, j)[i] == b[i] - 2
  {
    hide CodeSpace, TotalTo, Pow2;
    MoveSpace(b, i, j);
    MoveTotal(b, i, j, MAX_CLEN);
  }

  lemma MoveTotal(b: seq<int>, i: nat, j: nat, top: nat)
    requires j + 2 <= i <= top < |b|
    ensures TotalTo(MovePair(b, i, j), top) == TotalTo(b, top)
  {
    hide TotalTo;
    var b1 := b[i := b[i] - 2];
    var b2 := b1[i - 1 := b1[i - 1] + 1];
    var b3 := b2[j + 1 := b2[j + 1] + 2];
    TotalChange(b, i, b[i] - 2, top);
    TotalChange(b1, i - 1, b1[i - 1] + 1, top);
    TotalChange(b2, j + 1, b2[j + 1] + 2, top);
    TotalChange(b3, j, b3[j] - 1, top);
  }

  lemma MoveSpace(b: seq<int>, i: nat, j: nat)
    requires j + 2 <= i < |b|
    ensures CodeSpace(MovePair(b, i, j), i) == CodeSpace(b, i)
  {
    hide CodeSpace;
    var b1 := b[i := b[i] - 2];
    var b2 := b1[i - 1 := b1[i - 1] + 1];
    var b3 := b2[j + 1 := b2[j + 1] + 2];
    SpaceChange(b, i, b[i] - 2, i);
    SpaceChange(b1, i - 1, b1[i - 1] + 1, i);
    SpaceChange(b2, j + 1, b2[j + 1] + 2, i);
    SpaceChange(b3, j, b3[j] - 1, i);
    var m := i - (j + 1);
    assert ShiftUp(1, 1) == 2;
    assert ShiftUp(-1, m + 1) == 2 * ShiftUp(-1, m);
    ShiftUpAdd(1, 1, m);
    ShiftUpSign(1, m);
  }

  /** One turn of the inner loop: it is the longest code shorter than `i` - 1 that
      makes room, and no other length than the four named changes.
   */
  method ReplacePair(bits: array<byte>, i: nat, ghost n: nat) returns (ghost j: nat)
    requires bits.Length == MAX_CLEN + 1 && 17 <= i <= MAX_CLEN && n <= 255
    requires FullCode(bits[..], i, n) && bits[i] > 0
    modifies bits
    ensures 1 <= j <= i - 2 && old(bits[j]) >= 1 && old(bits[i]) >= 2
    ensures forall m :: j < m < i - 1 ==> old(bits[m]) == 0
    ensures bits[..] == MovePair(old(bits[..]), i, j) && bits[i] == old(bits[i]) - 2
    ensures FullCode(bits[..], i, n)
  {
    hide CodeSpace, TotalTo, Pow2;
    ghost var b: seq<int> := bits[..];
    LongestPaired(b, i, n);
    OneAtLeast(b, i, MAX_CLEN);
    SomeShorter(b, i, n);
    var k := i - 2;
    while bits[k] == 0
      invariant 1 <= k <= i - 2
      invariant exists m :: 1 <= m <= k && b[m] > 0
      invariant forall m :: k < m < i - 1 ==> b[m] == 0
      decreases k
    {
      k := k - 1;
    }
    j := k;
    MoveKeepsFull(b, i, k, n);
    ghost var moved := MovePair(b, i, k);
    TotalAtLeast(b, k, i, MAX_CLEN);
    if k + 1 < i - 1 { TotalAtLeast(b, k + 1, i, MAX_CLEN); }
    TotalAtLeast(b, i - 1, i, MAX_CLEN);
    OneAtLeast(moved, k + 1, MAX_CLEN);
    bits[i] := bits[i] - 2;
    bits[i - 1] := bits[i - 1] + 1;
    bits[k + 1] := bits[k + 1] + 2;
    bits[k] := bits[k] - 1;
    assert bits[..] == moved;
  }

  // ----- The choice of the codes that make room ---------------------------------------------------

  /** How many codes of length `top` there is room for behind the codes of length
      up to `l`, beyond the codes still needed for `n` in all.
   */
  function Spare(b: seq<int>, l: nat, top: nat, n: nat): int
    requires l <= top < |b|
  {
    ShiftUp(Pow2(l) - CodeSpace(b, l), top - l) - (n - TotalTo(b, l))
  }

  /** A code shorter than `top` takes the room of several. */
  lemma SpareStep(b: seq<int>, l: nat, top: nat, n: nat)
    requires l < top < |b|
    ensures Spare(b, l, top, n) == Spare(b, l + 1, top, n) + ShiftUp(b[l + 1], top - l - 1) - b[l + 1]
  {
    var unused, k := Pow2(l) - CodeSpace(b, l), top - l - 1;
    assert Pow2(l + 1) - CodeSpace(b, l + 1) == 2 * unused + -b[l + 1];
    ShiftUpAdd(2 * unused, -b[l + 1], k);
    ShiftUpSnoc(unused, k);
    ShiftUpSign(b[l + 1], k);
  }

  /** A full code has no less than it needs. */
  lemma {:induction false} SpareOfFull(b: seq<int>, l: nat, top: nat, n: nat)
    requires FullCode(b, top, n) && l <= top
    ensures Spare(b, l, top, n) >= 0
    decreases top - l
  {
    hide CodeSpace, TotalTo, Pow2;
    if l < top {
      SpareOfFull(b, l + 1, top, n);
      SpareStep(b, l, top, n);
      ShiftUpSign(b[l + 1], top - l - 1);
    } else {
      TotalAbove(b, top, MAX_CLEN);
    }
  }

  lemma {:induction false} TotalAbove(b: seq<int>, l: nat, top: nat)
    requires l <= top < |b| && forall k :: l < k <= top ==> b[k] == 0
    ensures TotalTo(b, top) == TotalTo(b, l)
    decreases top
  {
    if l < top { TotalAbove(b, l, top - 1); }
  }

  /** While codes of length `top` + 1 remain and none has a length above `l` but
      below `top`, codes are missing.
   */
  lemma {:induction false} SpareMissing(b: seq<int>, l: nat, top: nat, n: nat)
    requires FullCode(b, top + 1, n) && l <= top && b[top + 1] >= 2
    requires forall m :: l < m < top ==> b[m] == 0
    ensures Spare(b, l, top, n) < 0
    decreases top - l
  {
    if l == top {
      TotalAbove(b, top + 1, MAX_CLEN);
      assert 2 * (Pow2(top) - CodeSpace(b, top)) == b[top + 1];
    } else {
      hide CodeSpace, TotalTo, Pow2;
      SpareMissing(b, l + 1, top, n);
      SpareStep(b, l, top, n);
      ShiftUpSign(b[l + 1], top - l - 1);
    }
  }

  /** No code longer than `l` can be replaced by one of length `l`. */
  ghost predicate Tight(b: seq<int>, l: nat, top: nat, n: nat)
    requires l < top < |b|
  {
    Spare(b, l, top, n) <= Pow2(top - l) - 2
  }

  lemma SameSpare(b: seq<int>, c: seq<int>, l: nat, top: nat, n: nat)
    requires l <= top < |b| && |b| == |c| && b[..l + 1] == c[..l + 1]
    ensures Spare(b, l, top, n) == Spare(c, l, top, n)
  {
    SpacePrefix(b, c, l);
  }

  /** One code of length `l` fewer leaves room for 2^(top - l), less one. */
  lemma SpareOfFewer(b: seq<int>, c: seq<int>, l: nat, top: nat, n: nat, v: int)
    requires l <= top < |b| && |b| == |c| && b[..l] == c[..l] && c[l] == b[l] - v
    ensures Spare(c, l, top, n) == Spare(b, l, top, n) + ShiftUp(v, top - l) - v
  {
    hide Pow2, CodeSpace, TotalTo, ShiftUp;
    assert b[l := c[l]][..l + 1] == c[..l + 1];
    SpacePrefix(b[l := c[l]], c, l);
    SpaceChange(b, l, c[l], l);
    TotalChange(b, l, c[l], l);
    assert ShiftUp(-v, 0) == -v by { ZeroShift(-v); }
    ShiftUpAdd(Pow2(l) - CodeSpace(b, l), v, top - l);
  }

  lemma ZeroShift(v: int)
    ensures ShiftUp(v, 0) == v
  {
  }

  /** A move makes all lengths from the one it splits on tight. */
  lemma MoveTight(b: seq<int>, i: nat, j: nat, n: nat, m: nat)
    requires FullCode(b, i, n) && 1 <= j <= m < i - 1 && b[i] >= 2 && b[j] >= 1
    requires forall k :: j < k < i - 1 ==> b[k] == 0
    ensures Tight(MovePair(b, i, j), m, i - 1, n)
  {
    hide Pow2, CodeSpace, TotalTo, ShiftUp, Spare;
    var c := MovePair(b, i, j);
    SpareMissing(b, j, i - 1, n);
    assert b[..j] == c[..j];
    SpareOfFewer(b, c, j, i - 1, n, 1);
    ShiftUpIsPow2(i - 1 - j);
    if m > j { TightAfter(c, j, m, i - 1, n); }
  }

  /** Behind a split code there are only its two halves. */
  lemma {:induction false} TightAfter(c: seq<int>, j: nat, m: nat, top: nat, n: nat)
    requires j < m < top < |c| && Tight(c, j, top, n)
    requires c[j + 1] == 2 && forall k :: j + 1 < k < top ==> c[k] == 0
    ensures Tight(c, m, top, n) && Spare(c, m, top, n) <= 0
    decreases m
  {
    hide Spare, ShiftUp;
    SpareStep(c, m - 1, top, n);
    if m == j + 1 {
      ShiftUpSnoc(1, top - m);
      ShiftUpIsPow2(top - m + 1);
    } else {
      TightAfter(c, j, m - 1, top, n);
      ShiftUpSign(c[m], top - m);
    }
  }

  lemma {:induction false} TotalBeyond(b: seq<int>, l: nat, p: nat, top: nat)
    requires Counts(b) && l < p <= top < |b|
    ensures TotalTo(b, l) + b[p] <= TotalTo(b, top)
    decreases top
  {
    if p < top {
      TotalBeyond(b, l, p, top - 1);
    } else if l < top - 1 {
      TotalBeyond(b, l, top - 1, top - 1);
    }
  }

  /** What is tight below one limit is tight below the next. */
  lemma TightLower(c: seq<int>, m: nat, top: nat, n: nat)
    requires FullCode(c, top, n) && m + 1 < top && c[top] > 0 && Tight(c, m, top, n)
    ensures Tight(c, m, top - 1, n)
  {
    hide CodeSpace, TotalTo;
    TotalBeyond(c, m, top, MAX_CLEN);
    var unused := Pow2(m) - CodeSpace(c, m);
    assert ShiftUp(unused, top - m) == 2 * ShiftUp(unused, top - 1 - m);
    assert Pow2(top - m) == 2 * Pow2(top - 1 - m);
  }

  /** `c` has all codes of `b` shorter than `l` and is tight from there on. */
  ghost predicate Held(b: seq<int>, c: seq<int>, l: nat, top: nat, n: nat) {
    && l <= top < |b| == |c| && c[..l] == b[..l]
    && forall m :: l <= m < top ==> Tight(c, m, top, n)
  }

  ghost predicate Squeezed(b: seq<int>, c: seq<int>, l: nat, top: nat, n: nat) {
    Held(b, c, l, top, n) && l < top && c[l] < b[l] && c[top] > 0
  }

  lemma HeldLower(b: seq<int>, c: seq<int>, l: nat, top: nat, n: nat)
    requires FullCode(c, top, n) && Squeezed(b, c, l, top, n)
    ensures Held(b, c, l, top - 1, n)
  {
    hide FullCode, Tight;
    var lower := top - 1;
    forall m | l <= m < lower ensures Tight(c, m, lower, n) { TightLower(c, m, top, n); }
  }

  lemma HeldMove(b: seq<int>, c: seq<int>, l: nat, i: nat, j: nat, n: nat)
    requires FullCode(c, i, n) && 1 <= j && j + 2 <= i && c[i] >= 2 && c[j] >= 1
    requires forall k :: j < k < i - 1 ==> c[k] == 0
    requires Held(b, c, l, i - 1, n) && ((c == b && l == i - 1) || c[l] < b[l])
    ensures Squeezed(b, MovePair(c, i, j), if j < l then j else l, i - 1, n)
  {
    hide Spare, CodeSpace, TotalTo;
    var d, l', top := MovePair(c, i, j), if j < l then j else l, i - 1;
    assert d[..l'] == c[..l'] == b[..l'];
    forall m | l' <= m < top ensures Tight(d, m, top, n) {
      if m < j {
        assert Tight(c, m, top, n);
        assert c[..m + 1] == d[..m + 1];
        SameSpare(c, d, m, top, n);
      } else {
        MoveTight(c, i, j, n, m);
      }
    }
  }

  // ----- No code keeps more ------------------------------------------------------------------------

  /** From length `l` on, which has fewer codes than in `b`, `c` has as many codes
      of each length as any code of `n` symbols within 16 bits that is the same as
      `c` in all shorter lengths.
   */
  ghost predicate KeepsShort(b: seq<int>, c: seq<int>, l: nat, n: nat) {
    && l < 16 && |b| == |c| == MAX_CLEN + 1 && c[..l] == b[..l] && c[l] < b[l]
    && forall d: seq<int>, m: nat :: l <= m < 16 && FullCode(d, 16, n) && d[..m] == c[..m] ==> d[m] <= c[m]
  }

  lemma TightBest(c: seq<int>, d: seq<int>, m: nat, n: nat)
    requires m < 16 && |c| == MAX_CLEN + 1 && Tight(c, m, 16, n) && FullCode(d, 16, n) && d[..m] == c[..m]
    ensures d[m] <= c[m]
  {
    hide CodeSpace, TotalTo, Pow2, ShiftUp, Spare;
    var more := d[m] - c[m];
    if more > 0 {
      SpareOfFewer(c, d, m, 16, n, -more);
      ShiftUpSign(more, 16 - m);
      ShiftUpAdd(1, more - 1, 16 - m);
      ShiftUpSign(more - 1, 16 - m);
      ShiftUpIsPow2(16 - m);
      SpareOfFull(d, m, 16, n);
      assert false;
    }
  }

  lemma SqueezedBest(b: seq<int>, c: seq<int>, l: nat, n: nat)
    requires Counts(b) && |c| == MAX_CLEN + 1 && Squeezed(b, c, l, 16, n)
    ensures KeepsShort(b, c, l, n)
  {
    hide CodeSpace, TotalTo, Tight;
    forall d: seq<int>, m: nat | l <= m < 16 && FullCode(d, 16, n) && d[..m] == c[..m] ensures d[m] <= c[m] {
      TightBest(c, d, m, n);
    }
  }

  /** The counts `b` limited to 16 bits: unchanged if they are so already. */
  ghost predicate Limited(b: seq<int>, c: seq<int>, n: nat) {
    && FullCode(c, 16, n)
    && if forall k :: 16 < k < |b| ==> b[k] == 0 then c == b else exists l: nat :: KeepsShort(b, c, l, n)
  }

  lemma {:induction false} SameFrom(c: seq<int>, d: seq<int>, b: seq<int>, l: nat, n: nat, m: nat)
    requires FullCode(c, 16, n) && FullCode(d, 16, n) && KeepsShort(b, c, l, n) && KeepsShort(b, d, l, n)
    requires l <= m <= 16
    ensures c[..m] == d[..m]
    decreases m
  {
    hide FullCode;
    if m > l {
      SameFrom(c, d, b, l, n, m - 1);
      assert d[m - 1] <= c[m - 1] && c[m - 1] <= d[m - 1];
      assert c[..m] == c[..m - 1] + [c[m - 1]] && d[..m] == d[..m - 1] + [d[m - 1]];
    }
  }

  /** That determines the limited counts. */
  lemma LimitDetermined(b: seq<int>, c: seq<int>, d: seq<int>, n: nat)
    requires Limited(b, c, n) && Limited(b, d, n) && |b| == MAX_CLEN + 1
    ensures c == d
  {
    hide FullCode, KeepsShort;
    if exists k :: 16 < k < |b| && b[k] != 0 {
      var l: nat :| KeepsShort(b, c, l, n);
      var l': nat :| KeepsShort(b, d, l', n);
      SameSplit(b, c, d, l, l', n);
      SameSplit(b, d, c, l', l, n);
      SameFrom(c, d, b, l, n, 16);
      SameAbove(c, d, n);
    }
  }

  lemma SamePrefix(c: seq<int>, d: seq<int>, m: nat, k: nat)
    requires k < m <= |c| && m <= |d| && c[..m] == d[..m]
    ensures c[..k] == d[..k] && c[k] == d[k]
  {
    assert c[..k] == c[..m][..k] && d[..k] == d[..m][..k];
    assert c[k] == c[..m][k] && d[k] == d[..m][k];
  }

  lemma SameSplit(b: seq<int>, c: seq<int>, d: seq<int>, l: nat, l': nat, n: nat)
    requires FullCode(d, 16, n) && KeepsShort(b, c, l, n) && KeepsShort(b, d, l', n)
    ensures l' <= l < 16
  {
    hide FullCode;
    if l < l' { SamePrefix(d, b, l', l); }
  }

  lemma SameAbove(c: seq<int>, d: seq<int>, n: nat)
    requires FullCode(c, 16, n) && FullCode(d, 16, n) && c[..16] == d[..16]
    ensures c == d
  {
    assert c[..15 + 1] == d[..15 + 1];
    SpacePrefix(c, d, 15);
    assert c[16] == Pow2(16) - 2 * CodeSpace(c, 15) == d[16];
    forall k | 0 <= k < |c| ensures c[k] == d[k] {
      if k < 16 { SamePrefix(c, d, 16, k); }
    }
  }

  /** Where the next limit starts from. */
  lemma NextLimit(b: seq<int>, c: seq<int>, l: nat, top: nat, n: nat)
    requires 17 <= top <= MAX_CLEN && FullCode(c, top, n) && |b| == MAX_CLEN + 1
    requires c == b || Squeezed(b, c, l, top, n)
    ensures Held(b, c, if c == b then top - 1 else l, top - 1, n)
  {
    hide FullCode, Tight;
    if c != b { HeldLower(b, c, l, top, n); }
  }

  /** Lengths limited to 16 bits: as many codes as before, the code space still
      filled exactly, and short codes given up no further than that takes.
   */
  method LimitLengths(bits: array<byte>, ghost n: nat)
    requires bits.Length == MAX_CLEN + 1 && n <= 255 && FullCode(bits[..], MAX_CLEN, n)
    modifies bits
    ensures Limited(old(bits[..]), bits[..], n)
  {
    hide FullCode, Held, KeepsShort, MovePair;
    ghost var b: seq<int> := bits[..];
    ghost var l := 0;
    for i := MAX_CLEN downto 16
      invariant FullCode(bits[..], i, n)
      invariant bits[..] == b || Squeezed(b, bits[..], l, i, n)
      invariant (forall k :: 16 < k <= MAX_CLEN ==> b[k] == 0) ==> bits[..] == b
    {
      NextLimit(b, bits[..], l, i + 1, n);
      if bits[..] == b { l := i; }
      while bits[i + 1] > 0
        invariant FullCode(bits[..], i + 1, n) && l <= i && Held(b, bits[..], l, i, n)
        invariant (bits[..] == b && l == i) || (bits[l] < b[l] && (bits[i + 1] > 0 || (l < i && bits[i] > 0)))
        invariant (forall k :: 16 < k <= MAX_CLEN ==> b[k] == 0) ==> bits[..] == b
        decreases bits[i + 1]
      {
        ghost var c: seq<int> := bits[..];
        ghost var j := ReplacePair(bits, i + 1, n);
        HeldMove(b, c, l, i + 1, j, n);
        l := if j < l then j else l;
      }
      LimitReached(bits[..], i, n);
    }
    if bits[..] != b { SqueezedBest(b, bits[..], l, n); }
    NoneAbove(bits[..], 16, n);
  }

  lemma NoneAbove(c: seq<int>, top: nat, n: nat)
    requires FullCode(c, top, n)
    ensures |c| == MAX_CLEN + 1 && forall k :: top < k <= MAX_CLEN ==> c[k] == 0
  {
  }

  /** With no code longer than `top` the code is full at `top`. */
  lemma LimitReached(c: seq<int>, top: nat, n: nat)
    requires top < MAX_CLEN && FullCode(c, top + 1, n) && c[top + 1] == 0
    ensures FullCode(c, top, n)
  {
    hide TotalTo;
  }

  // ----- Dropping the pseudo-symbol -----------------------------------------------------------

  /** `l` is the largest length in use. */
  ghost predicate LargestLength(b: seq<int>, l: nat) {
    && l < |b| && b[l] > 0
    && forall k :: l < k < |b| ==> b[k] == 0
  }

  /** The longest codes reach the end of the code space. */
  lemma {:induction false} FullAtLargest(b: seq<int>, l: nat, top: nat)
    requires l <= top < |b| && CodeSpace(b, top) == Pow2(top) && forall k :: l < k < |b| ==> b[k] == 0
    ensures CodeSpace(b, l) == Pow2(l)
    decreases top
  {
    if l < top { FullAtLargest(b, l, top - 1); }
  }

  /** Shorter ones do not. */
  lemma {:induction false} ShortOfFull(b: seq<int>, m: nat, l: nat)
    requires Counts(b) && m < l < |b| && b[l] > 0 && CodeSpace(b, l) <= Pow2(l)
    ensures CodeSpace(b, m) < Pow2(m)
    decreases l
  {
    if m < l - 1 {
      ShortOfFull'(b, m, l - 1);
    }
  }

  lemma {:induction false} ShortOfFull'(b: seq<int>, m: nat, l: nat)
    requires Counts(b) && m <= l < |b| && CodeSpace(b, l) < Pow2(l)
    ensures CodeSpace(b, m) < Pow2(m)
    decreases l
  {
    if m < l { ShortOfFull'(b, m, l - 1); }
  }

  lemma {:induction false} EmptyBeyond(b: seq<int>, l: nat, m: nat)
    requires l <= m < |b| && CodeSpace(b, l) < Pow2(l) && forall k :: l < k < |b| ==> b[k] == 0
    ensures CodeSpace(b, m) < Pow2(m)
    decreases m
  {
    if l < m { EmptyBeyond(b, l, m - 1); }
  }

  /** Without one of the longest codes, no length uses up the code space. */
  lemma OneFewerSpace(b: seq<int>, l: nat, m: nat, top: nat)
    requires Counts(b) && LargestLength(b, l) && l <= top < |b| && CodeSpace(b, top) == Pow2(top) && m < |b|
    ensures CodeSpace(b[l := b[l] - 1], m) < Pow2(m)
  {
    hide CodeSpace;
    var c := b[l := b[l] - 1];
    FullAtLargest(b, l, top);
    SpaceChange(b, l, b[l] - 1, l);
    if m < l {
      SpacePrefix(b, c, m);
      ShortOfFull(b, m, l);
    } else {
      EmptyBeyond(c, l, m);
    }
  }

  lemma OneFewer(b: seq<int>, l: nat, m: nat, n: nat)
    requires FullCode(b, 16, n) && LargestLength(b, l) && l <= 16 && m < |b|
    ensures CodeSpace(b[l := b[l] - 1], m) < Pow2(m)
    ensures TotalTo(b[l := b[l] - 1], MAX_CLEN) == n - 1
  {
    hide CodeSpace, TotalTo, Pow2;
    OneFewerSpace(b, l, m, 16);
    TotalChange(b, l, b[l] - 1, MAX_CLEN);
  }

  /** The pseudo-symbol is removed from the largest length still in use. */
  method DropPseudoSymbol(bits: array<byte>, ghost n: nat) returns (ghost l: nat)
    requires bits.Length == MAX_CLEN + 1 && 1 <= n && FullCode(bits[..], 16, n)
    modifies bits
    ensures LargestLength(old(bits[..]), l) && l <= 16
    ensures bits[..] == old(bits[..])[l := old(bits[l]) - 1]
  {
    ghost var b: seq<int> := bits[..];
    SomeLength(b, n);
    var i := 16;
    while bits[i] == 0
      invariant 0 <= i <= 16 && forall k :: i < k < bits.Length ==> b[k] == 0
      invariant exists k :: 0 <= k <= i && b[k] > 0
      decreases i
    {
      i := i - 1;
    }
    bits[i] := bits[i] - 1;
    l := i;
  }

  lemma SomeLength(b: seq<int>, n: nat)
    requires FullCode(b, 16, n) && n >= 1
    ensures exists k :: 0 <= k <= 16 && b[k] > 0
  {
    if forall k :: 0 <= k <= 16 ==> b[k] == 0 {
      ZeroSpace(b, MAX_CLEN);
      assert false;
    }
  }
}
