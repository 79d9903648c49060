/** Code lengths and their cost: what jpeg_gen_optimal_table (jchuff.c) has to
    minimize, and why merging the two smallest counts loses nothing (section
    K.2 of ITU-T T.81).
 */
module HuffmanCost {
  import opened CodeBytes

  /** The count of a tree that has been merged into another one. */
  const MERGED := 1000000001

  /** Counts by tree; the merged ones are not alive. */
  type Weights = seq<nat>

  predicate Alive(w: Weights, i: nat) {
    i < |w| && w[i] != MERGED
  }

  /** A code of length `k` takes this part of the code space. */
  ghost function Half(k: nat): (h: real)
    ensures h > 0.0
  {
    if k == 0 then 1.0 else Half(k - 1) / 2.0
  }

  /** The Kraft sum over the trees below `n` that are alive. */
  ghost function Kraft(w: Weights, l: seq<nat>, n: nat): (k: real)
    requires n <= |w| == |l|
    ensures k >= 0.0
  {
    if n == 0 then 0.0
    else Kraft(w, l, n - 1) + if Alive(w, n - 1) then Half(l[n - 1]) else 0.0
  }

  /** The number of bits spent when tree `i` is coded in `l[i]` bits. */
  ghost function Cost(w: Weights, l: seq<nat>, n: nat): (c: nat)
    requires n <= |w| == |l|
  {
    if n == 0 then 0
    else Cost(w, l, n - 1) + if Alive(w, n - 1) then w[n - 1] * l[n - 1] else 0
  }

  /** A prefix code with lengths `l` exists (Kraft's inequality). */
  ghost predicate CodeLengths(w: Weights, l: seq<nat>) {
    |l| == |w| && Kraft(w, l, |w|) <= 1.0
  }

  /** No prefix code costs less than `c`. */
  ghost predicate LowerBound(c: int, w: Weights) {
    forall l: seq<nat> :: CodeLengths(w, l) ==> c <= Cost(w, l, |w|)
  }

  // ----- Changing one length ---------------------------------------------------

  lemma {:induction false} KraftChange(w: Weights, l: seq<nat>, k: nat, v: nat, n: nat)
    requires n <= |w| == |l| && Alive(w, k)
    ensures Kraft(w, l[k := v], n) == Kraft(w, l, n) + if k < n then Half(v) - Half(l[k]) else 0.0
    decreases n
  {
    if n > 0 { KraftChange(w, l, k, v, n - 1); }
  }

  lemma {:induction false} CostChange(w: Weights, l: seq<nat>, k: nat, v: nat, n: nat)
    requires n <= |w| == |l| && Alive(w, k)
    ensures Cost(w, l[k := v], n) == Cost(w, l, n) + if k < n then w[k] * v - w[k] * l[k] else 0
    decreases n
  {
    if n > 0 { CostChange(w, l, k, v, n - 1); }
  }

  // ----- Changing one count ----------------------------------------------------

  lemma {:induction false} KraftCount(w: Weights, l: seq<nat>, k: nat, v: nat, n: nat)
    requires n <= |w| == |l| && Alive(w, k)
    ensures Kraft(w[k := v], l, n) == Kraft(w, l, n) - if k < n && v == MERGED then Half(l[k]) else 0.0
    decreases n
  {
    if n > 0 { KraftCount(w, l, k, v, n - 1); }
  }

  lemma {:induction false} CostCount(w: Weights, l: seq<nat>, k: nat, v: nat, n: nat)
    requires n <= |w| == |l| && Alive(w, k)
    ensures Cost(w[k := v], l, n)
            == Cost(w, l, n) + if k < n then (if v == MERGED then 0 else v * l[k]) - w[k] * l[k] else 0
    decreases n
  {
    if n > 0 { CostCount(w, l, k, v, n - 1); }
  }

  // ----- The longest code is never alone -----------------------------------------

  /** `c` parts of size `h`. */
  ghost function Times(c: nat, h: real): real {
    if c == 0 then 0.0 else Times(c - 1, h) + h
  }

  lemma {:induction false} TimesAdd(a: nat, b: nat, h: real)
    ensures Times(a + b, h) == Times(a, h) + Times(b, h)
    decreases b
  {
    if b > 0 { TimesAdd(a, b - 1, h); }
  }

  lemma {:induction false} TimesHalved(c: nat, h: real)
    ensures Times(2 * c, h / 2.0) == Times(c, h)
    decreases c
  {
    if c > 0 { TimesHalved(c - 1, h); }
  }

  lemma {:induction false} TimesGap(a: nat, b: nat, h: real)
    requires h > 0.0 && Times(a, h) < Times(b, h)
    ensures Times(a, h) + h <= Times(b, h)
  {
    hide Times;
    if a >= b {
      TimesAdd(b, a - b, h);
      TimesNonnegative(a - b, h);
      assert false;
    }
    TimesAdd(a + 1, b - (a + 1), h);
    TimesNonnegative(b - (a + 1), h);
    TimesAdd(a, 1, h);
    TimesOne(h);
  }

  lemma TimesOne(h: real)
    ensures Times(1, h) == h
  {
    assert Times(1, h) == Times(0, h) + h;
  }

  lemma {:induction false} TimesNonnegative(c: nat, h: real)
    requires h > 0.0
    ensures Times(c, h) >= 0.0
    decreases c
  {
    if c > 0 { TimesNonnegative(c - 1, h); }
  }

  lemma {:induction false} TimesInjective(a: nat, b: nat, h: real)
    requires h > 0.0 && Times(a, h) == Times(b, h)
    ensures a == b
    decreases a
  {
    TimesNonnegative(if a > 0 then a - 1 else 0, h);
    TimesNonnegative(if b > 0 then b - 1 else 0, h);
    if a > 0 && b > 0 { TimesInjective(a - 1, b - 1, h); }
  }

  ghost predicate AtMost(w: Weights, l: seq<nat>, m: nat, n: nat)
    requires n <= |w| == |l|
  {
    forall i :: 0 <= i < n && Alive(w, i) ==> l[i] <= m
  }

  /** A code of length `k` covers this many codes of length `m`. */
  lemma {:induction false} HalfGrid(k: nat, m: nat)
    requires k <= m
    ensures Half(k) == Times(Pow2(m - k), Half(m))
    decreases m
  {
    if k == m {
      TimesOne(Half(m));
    } else {
      HalfGrid(k, m - 1);
      TimesHalved(Pow2(m - 1 - k), Half(m - 1));
    }
  }

  /** How many codes of length `m` the trees below `n` cover. */
  ghost function Covered(w: Weights, l: seq<nat>, m: nat, n: nat): nat
    requires n <= |w| == |l| && AtMost(w, l, m, n)
  {
    if n == 0 then 0
    else Covered(w, l, m, n - 1) + if Alive(w, n - 1) then Pow2(m - l[n - 1]) else 0
  }

  lemma {:induction false} KraftGrid(w: Weights, l: seq<nat>, m: nat, n: nat)
    requires n <= |w| == |l| && AtMost(w, l, m, n)
    ensures Kraft(w, l, n) == Times(Covered(w, l, m, n), Half(m))
    decreases n
  {
    if n > 0 {
      KraftGrid(w, l, m, n - 1);
      if Alive(w, n - 1) {
        HalfGrid(l[n - 1], m);
        TimesAdd(Covered(w, l, m, n - 1), Pow2(m - l[n - 1]), Half(m));
      }
    }
  }

  /** A Kraft sum of one covers every code of length `m`. */
  lemma FullCovers(w: Weights, l: seq<nat>, m: nat)
    requires |w| == |l| && AtMost(w, l, m, |w|) && Kraft(w, l, |w|) == 1.0
    ensures Covered(w, l, m, |w|) == Pow2(m)
  {
    KraftGrid(w, l, m, |w|);
    HalfGrid(0, m);
    TimesInjective(Covered(w, l, m, |w|), Pow2(m), Half(m));
  }

  /** A code space less than full has room for one more code as long as the
      longest one.
   */
  lemma RoomForOneMore(w: Weights, l: seq<nat>, m: nat)
    requires |w| == |l| && Kraft(w, l, |w|) < 1.0 && AtMost(w, l, m, |w|)
    ensures Kraft(w, l, |w|) + Half(m) <= 1.0
  {
    KraftGrid(w, l, m, |w|);
    HalfGrid(0, m);
    TimesGap(Covered(w, l, m, |w|), Pow2(m), Half(m));
  }

  // ----- Exchanging lengths ------------------------------------------------------

  /** `i` is merged before `j`: smaller count, then larger index. */
  predicate Sooner(w: Weights, i: nat, j: nat)
    requires i < |w| && j < |w|
  {
    w[i] < w[j] || (w[i] == w[j] && i > j)
  }

  /** `c` is the first to be merged among the trees other than `except`. */
  predicate Soonest(w: Weights, c: nat, except: int) {
    && Alive(w, c) && c != except
    && forall i :: 0 <= i < |w| && Alive(w, i) && i != except && i != c ==> Sooner(w, c, i)
  }

  /** The two trees one turn of the loop merges. */
  predicate Selected(w: Weights, c1: nat, c2: nat) {
    Soonest(w, c1, -1) && Soonest(w, c2, c1)
  }

  function Merged(w: Weights, c1: nat, c2: nat): Weights
    requires c1 < |w| && c2 < |w|
  {
    w[c1 := w[c1] + w[c2]][c2 := MERGED]
  }

  lemma Rearrangement(a: nat, b: nat, x: nat, y: nat)
    requires a <= b && x <= y
    ensures a * y + b * x <= a * x + b * y
  {
    assert (b - a) * (y - x) >= 0;
  }

  /** Giving the longer of two codes to the smaller count does not cost more. */
  lemma Exchange(w: Weights, l: seq<nat>, c: nat, p: nat) returns (l': seq<nat>)
    requires CodeLengths(w, l) && Alive(w, c) && Alive(w, p)
    requires w[c] <= w[p] && l[c] <= l[p]
    ensures CodeLengths(w, l') && Cost(w, l', |w|) <= Cost(w, l, |w|)
    ensures l' == l[c := l[p]][p := l[c]]
  {
    l' := l[c := l[p]][p := l[c]];
    KraftChange(w, l, c, l[p], |w|);
    KraftChange(w, l[c := l[p]], p, l[c], |w|);
    CostChange(w, l, c, l[p], |w|);
    CostChange(w, l[c := l[p]], p, l[c], |w|);
    Rearrangement(w[c], w[p], l[c], l[p]);
  }

  /** The alive tree other than `except` with the longest code. */
  lemma {:induction false} Longest(w: Weights, l: seq<nat>, except: int, some: nat, n: nat) returns (p: nat)
    requires n <= |w| == |l| && Alive(w, some) && some != except
    ensures Alive(w, p) && p != except && l[p] >= l[some]
    ensures forall i :: 0 <= i < n && Alive(w, i) && i != except ==> l[i] <= l[p]
    decreases n
  {
    if n == 0 {
      p := some;
    } else {
      p := Longest(w, l, except, some, n - 1);
      if Alive(w, n - 1) && n - 1 != except && l[n - 1] > l[p] {
        p := n - 1;
      }
    }
  }

  /** The code of `c`, the longest one, need not be longer than the longest of
      the others.
   */
  lemma Shorten(w: Weights, l: seq<nat>, c: nat, m: nat) returns (l': seq<nat>)
    requires CodeLengths(w, l) && Alive(w, c) && m <= l[c]
    requires forall i :: 0 <= i < |w| && Alive(w, i) && i != c ==> l[i] <= m
    ensures CodeLengths(w, l') && Cost(w, l', |w|) <= Cost(w, l, |w|) && l' == l[c := m]
  {
    hide Kraft, Cost;
    l' := l[c := m];
    var others := w[c := MERGED];
    KraftCount(w, l, c, MERGED, |w|);
    RoomForOneMore(others, l, m);
    KraftChange(w, l, c, m, |w|);
    CostChange(w, l, c, m, |w|);
    Rearrangement(0, w[c], m, l[c]);
  }

  lemma KraftOfTwo(w: Weights, l: seq<nat>, a: nat, b: nat)
    requires |w| == |l| && Alive(w, a) && Alive(w, b) && a != b
    ensures Kraft(w, l, |w|) >= Half(l[a]) + Half(l[b])
  {
    KraftCount(w, l, a, MERGED, |w|);
    KraftCount(w[a := MERGED], l, b, MERGED, |w|);
  }

  /** Any code can be rearranged, at no cost, so that the two smallest counts
      have the longest codes, of the same length.
   */
  lemma SmallestLongest(w: Weights, l: seq<nat>, c1: nat, c2: nat) returns (l': seq<nat>)
    requires CodeLengths(w, l) && Selected(w, c1, c2)
    ensures CodeLengths(w, l') && Cost(w, l', |w|) <= Cost(w, l, |w|)
    ensures l'[c1] == l'[c2] >= 1
  {
    var p := Longest(w, l, -1, c1, |w|);
    l' := Exchange(w, l, c1, p);
    var q := Longest(w, l', c1, c2, |w|);
    var m := l'[q];
    l' := Shorten(w, l', c1, m);
    l' := Exchange(w, l', c2, q);
    KraftOfTwo(w, l', c1, c2);
  }

  lemma OneBitLess(a: nat, b: nat, len: nat)
    requires len >= 1
    ensures (a + b) * (len - 1) + a + b == a * len + b * len
  {
  }

  /** The code for the merged counts that a code for the separate ones gives. */
  lemma MergeLengths(w: Weights, l: seq<nat>, c1: nat, c2: nat) returns (l': seq<nat>)
    requires CodeLengths(w, l) && Selected(w, c1, c2) && w[c1] + w[c2] != MERGED
    ensures CodeLengths(Merged(w, c1, c2), l')
    ensures Cost(Merged(w, c1, c2), l', |w|) + w[c1] + w[c2] <= Cost(w, l, |w|)
  {
    hide Kraft, Cost;
    var l1 := SmallestLongest(w, l, c1, c2);
    var len, sum := l1[c1], w[c1] + w[c2];
    var w1 := w[c1 := sum];
    l' := l1[c1 := len - 1];
    KraftCount(w, l1, c1, sum, |w|);
    KraftCount(w1, l1, c2, MERGED, |w|);
    KraftChange(Merged(w, c1, c2), l1, c1, len - 1, |w|);
    CostCount(w, l1, c1, sum, |w|);
    CostCount(w1, l1, c2, MERGED, |w|);
    CostChange(Merged(w, c1, c2), l1, c1, len - 1, |w|);
    OneBitLess(w[c1], w[c2], len);
  }

  /** Merging the two smallest counts loses nothing: a lower bound on coding
      the merged counts, and one more bit for each of the two, bounds the cost
      of coding the separate ones.
   */
  lemma MergeKeepsBound(w: Weights, c1: nat, c2: nat, c: int)
    requires Selected(w, c1, c2) && w[c1] + w[c2] != MERGED
    requires LowerBound(c, Merged(w, c1, c2))
    ensures LowerBound(c + w[c1] + w[c2], w)
  {
    forall l: seq<nat> | CodeLengths(w, l) ensures c + w[c1] + w[c2] <= Cost(w, l, |w|) {
      var l' := MergeLengths(w, l, c1, c2);
    }
  }

  /** In a code that no other beats, a symbol that occurs more often never has
      the longer code.
   */
  lemma FrequentNotLonger(w: Weights, l: seq<nat>, x: nat, y: nat)
    requires CodeLengths(w, l) && LowerBound(Cost(w, l, |w|), w)
    requires Alive(w, x) && Alive(w, y) && w[x] > w[y]
    ensures l[x] <= l[y]
  {
    if l[x] > l[y] {
      var l1 := l[x := l[y]];
      KraftChange(w, l, x, l[y], |w|);
      KraftChange(w, l1, y, l[x], |w|);
      CostChange(w, l, x, l[y], |w|);
      CostChange(w, l1, y, l[x], |w|);
      StrictRearrangement(w[y], w[x], l[y], l[x]);
      assert CodeLengths(w, l1[y := l[x]]);
    }
  }

  lemma StrictRearrangement(a: nat, b: nat, x: nat, y: nat)
    requires a < b && x < y
    ensures a * y + b * x < a * x + b * y
  {
    assert (b - a) * (y - x) > 0;
  }
}
