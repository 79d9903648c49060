/** How deep the trees of jpeg_gen_optimal_table (jchuff.c) can get: a tree with
    a symbol `d` steps down counts at least the d-th number of a Fibonacci
    sequence, so that short images never meet the error exit for long codes.
 */
module HuffmanDepth {
  import opened HuffmanCost
  import opened HuffmanForest

  /** The smallest count of a tree with a symbol `d` steps below its top. */
  function Least(d: nat): (c: nat)
    ensures c >= 1
  {
    if d <= 1 then d + 1 else Least(d - 1) + Least(d - 2)
  }

  lemma {:induction false} LeastGrows(d: nat, e: nat)
    requires d <= e
    ensures Least(d) <= Least(e)
    decreases e
  {
    if d < e {
      LeastGrows(d, e - 1);
      assert Least(e) >= Least(e - 1);
    }
  }

  /** No tree counts less than `v`, the larger count of the last two trees
      merged; a symbol `d` steps down makes both at least as large as they must be.
   */
  ghost predicate Tall(t: Forest, v: nat, n: nat)
    requires Shaped(t, n)
  {
    && (forall r :: 0 <= r < n && Alive(t.w, r) ==> t.w[r] >= v && t.w[r] >= 1)
    && forall x :: 0 <= x < n ==>
         t.w[t.root[x]] >= Least(t.size[x]) && (t.size[x] >= 1 ==> v >= Least(t.size[x] - 1))
  }

  lemma BareTall(f: Weights)
    requires Countable(f) && Shaped(Bare(f), |f|) && forall i :: 0 <= i < |f| ==> f[i] >= 1
    ensures Tall(Bare(f), 0, |f|)
  {
  }

  function Larger(a: nat, b: nat): nat {
    if a >= b then a else b
  }

  /** A merge keeps it: the two smallest trees are no smaller than those merged
      before them.
   */
  lemma JoinTall(t: Forest, v: nat, c1: nat, c2: nat, n: nat)
    requires Shaped(t, n) && Tall(t, v, n) && Selected(t.w, c1, c2) && Shaped(Join(t, c1, c2), n)
    requires t.w[c1] + t.w[c2] != MERGED
    ensures Tall(Join(t, c1, c2), Larger(t.w[c1], t.w[c2]), n)
  {
    assert c1 < |t.w| && c2 < |t.w|;
    hide Least, Deeper, Rerooted, Adopted, SunkNodes, Selected;
    var u, v' := Join(t, c1, c2), Larger(t.w[c1], t.w[c2]);
    forall r | 0 <= r < n && Alive(u.w, r) ensures u.w[r] >= v' && u.w[r] >= 1 {
      JoinedCount(t, v, c1, c2, r, n);
    }
    forall x | 0 <= x < n
      ensures u.w[u.root[x]] >= Least(u.size[x]) && (u.size[x] >= 1 ==> v' >= Least(u.size[x] - 1))
    {
      JoinedSymbol(t, v, c1, c2, x, n);
    }
  }

  lemma JoinedCount(t: Forest, v: nat, c1: nat, c2: nat, r: nat, n: nat)
    requires Shaped(t, n) && Tall(t, v, n) && Selected(t.w, c1, c2) && r < n && Alive(Join(t, c1, c2).w, r)
    requires t.w[c1] + t.w[c2] != MERGED
    ensures Join(t, c1, c2).w[r] >= Larger(t.w[c1], t.w[c2]) && Join(t, c1, c2).w[r] >= 1
  {
    hide Least, Deeper, Rerooted, Adopted, SunkNodes;
    assert Alive(t.w, r) && r != c2;
  }

  lemma JoinedSymbol(t: Forest, v: nat, c1: nat, c2: nat, x: nat, n: nat)
    requires Shaped(t, n) && Tall(t, v, n) && Selected(t.w, c1, c2) && Shaped(Join(t, c1, c2), n) && x < n
    requires t.w[c1] + t.w[c2] != MERGED
    ensures var u := Join(t, c1, c2);
            && u.w[u.root[x]] >= Least(u.size[x])
            && (u.size[x] >= 1 ==> Larger(t.w[c1], t.w[c2]) >= Least(u.size[x] - 1))
  {
    hide Least, Adopted, SunkNodes;
    var u := Join(t, c1, c2);
    if InEither(t.root, x, c1, c2) {
      JoinedTall(t, v, c1, c2, x, n);
      assert u.root[x] == c1 && u.size[x] == t.size[x] + 1;
    } else {
      assert u.root[x] == t.root[x] && u.size[x] == t.size[x];
      assert Alive(t.w, c1) && t.w[c1] >= v;
    }
  }

  /** A symbol of one of the two trees. */
  lemma JoinedTall(t: Forest, v: nat, c1: nat, c2: nat, x: nat, n: nat)
    requires Shaped(t, n) && Tall(t, v, n) && Selected(t.w, c1, c2) && x < n && InEither(t.root, x, c1, c2)
    ensures t.w[c1] + t.w[c2] >= Least(t.size[x] + 1)
    ensures Larger(t.w[c1], t.w[c2]) >= Least(t.size[x])
  {
    var d := t.size[x];
    assert t.w[t.root[x]] >= Least(d);
    if d >= 1 {
      assert Least(d + 1) == Least(d) + Least(d - 1);
    }
  }

  /** When one tree is left it holds every symbol. */
  lemma OneTall(f: Weights, t: Forest, v: nat, x: nat)
    requires Shaped(t, |f|) && Counted(f, t) && Tall(t, v, |f|) && x < |f|
    ensures Least(t.size[x]) <= Total(f, |f|)
  {
    SumAtMost(f, t.root, t.root[x], |f|);
  }

  lemma {:induction false} SumAtMost(f: Weights, root: seq<nat>, r: nat, n: nat)
    requires n <= |f| == |root|
    ensures Sum(f, root, r, n) <= Total(f, n)
    decreases n
  {
    if n > 0 { SumAtMost(f, root, r, n - 1); }
  }

  // ----- The bound is met --------------------------------------------------------------------

  /** Counts that leave every tree of the loop as small as its depth allows. */
  ghost predicate Staircase(f: Weights) {
    && |f| >= 2 && f[|f| - 1] == 1 && f[|f| - 2] == 1
    && forall i :: 0 <= i < |f| - 2 ==> f[i] == Least(|f| - 3 - i)
  }

  /** Where the one tree of several symbols is kept after `m` merges. */
  function Landing(n: nat, m: nat): (r: nat)
    requires m < n
    ensures r < n
  {
    if m <= 1 then n - 1 else n - 1 - m
  }

  /** After `m` merges one tree has the last symbol `m` steps down and the least
      count that allows; the symbols before it are still bare.
   */
  ghost predicate Climbed(f: Weights, t: Forest, m: nat)
    requires Shaped(t, |f|) && |f| >= 2
  {
    && m < |f| && t.root[|f| - 1] == Landing(|f|, m) && t.size[|f| - 1] == m && t.w[Landing(|f|, m)] == Least(m)
    && forall i :: 0 <= i < |f| && i != Landing(|f|, m) ==> t.w[i] == if i < |f| - 1 - m then f[i] else MERGED
  }

  ghost predicate OnStairs(f: Weights, t: Forest, m: nat)
    requires Shaped(t, |f|)
  {
    Staircase(f) ==> Climbed(f, t, m)
  }

  lemma BareOnStairs(f: Weights)
    requires Shaped(Bare(f), |f|)
    ensures OnStairs(f, Bare(f), 0)
  {
  }

  /** The bare symbol next to that tree comes before it, except the first time;
      those further down come after both.
   */
  lemma StairsOrder(f: Weights, t: Forest, m: nat, i: nat)
    requires Shaped(t, |f|) && Staircase(f) && Climbed(f, t, m) && m + 1 < |f| && i < |f| && Alive(t.w, i)
    ensures var p, q := Landing(|f|, m), |f| - 2 - m;
            && (if m == 0 then Sooner(t.w, p, q) else Sooner(t.w, q, p))
            && (i != p && i != q ==> Sooner(t.w, p, i) && Sooner(t.w, q, i))
  {
    hide Least;
    LeastStarts();
    if m >= 1 { StrictlyGrows(m - 1); }
    if i < |f| - 2 - m { LeastGrows(m, |f| - 3 - i); }
  }

  lemma SelectedOnce(w: Weights, a: nat, b: nat, c1: nat, c2: nat)
    requires Selected(w, a, b) && Selected(w, c1, c2)
    ensures a == c1 && b == c2
  {
  }

  /** The next merge takes that tree and the bare symbol next to it. */
  lemma StairsSelected(f: Weights, t: Forest, m: nat, c1: nat, c2: nat)
    requires Shaped(t, |f|) && Staircase(f) && Climbed(f, t, m) && AllAlive(f) && Selected(t.w, c1, c2)
    ensures m + 1 < |f|
    ensures c1 == Landing(|f|, m + 1)
    ensures c2 == if m == 0 then |f| - 2 else Landing(|f|, m)
  {
    hide Least, Staircase;
    var p, q := Landing(|f|, m), |f| - 2 - m;
    assert Alive(t.w, c1) && Alive(t.w, c2) && c1 != c2 && Alive(t.w, p);
    assert q >= 0;
    assert Alive(f, q) && Alive(t.w, q);
    forall i: nat | Alive(t.w, i)
      ensures (if m == 0 then Sooner(t.w, p, q) else Sooner(t.w, q, p))
      ensures i != p && i != q ==> Sooner(t.w, p, i) && Sooner(t.w, q, i)
    {
      StairsOrder(f, t, m, i);
    }
    if m == 0 { SelectedOnce(t.w, p, q, c1, c2); } else { SelectedOnce(t.w, q, p, c1, c2); }
  }

  lemma LeastStarts()
    ensures Least(0) == 1 && Least(1) == 2
  {
  }

  lemma StrictlyGrows(d: nat)
    ensures Least(d) < Least(d + 1)
  {
  }

  lemma JoinOnStairs(f: Weights, t: Forest, m: nat, c1: nat, c2: nat)
    requires Shaped(t, |f|) && OnStairs(f, t, m) && AllAlive(f) && Selected(t.w, c1, c2)
    requires t.w[c1] + t.w[c2] != MERGED && Shaped(Join(t, c1, c2), |f|)
    ensures OnStairs(f, Join(t, c1, c2), m + 1)
  {
    if Staircase(f) {
      StairsSelected(f, t, m, c1, c2);
      assert Least(m) + (if m == 0 then 1 else Least(m - 1)) == Least(m + 1);
      hide Least, Adopted, SunkNodes;
      var n := |f|;
      assert Join(t, c1, c2).root[n - 1] == c1 && Join(t, c1, c2).size[n - 1] == m + 1;
    }
  }

  /** When one tree is left, the last symbol has been in every merge. */
  lemma StairsTop(f: Weights, t: Forest, m: nat)
    requires Shaped(t, |f|) && OnStairs(f, t, m) && AllAlive(f) && Staircase(f)
    requires forall i, j :: Alive(t.w, i) && Alive(t.w, j) ==> i == j
    ensures t.size[|f| - 1] == |f| - 1
  {
    assert Alive(t.w, Landing(|f|, m));
    if m < |f| - 1 {
      assert Alive(f, |f| - 2 - m);
      assert Alive(t.w, |f| - 2 - m);
    }
  }

  lemma {:induction false} StairsTotal(f: Weights, k: nat)
    requires Staircase(f) && k <= |f| - 2
    ensures Total(f, k) + Least(|f| - 1 - k) == Least(|f| - 1)
    decreases k
  {
    if k > 0 {
      StairsTotal(f, k - 1);
      assert Least(|f| - k) == Least(|f| - 1 - k) + Least(|f| - 2 - k);
    }
  }

  /** `n` symbols, the pseudo-symbol among them, whose longest code is as long as
      their total allows.
   */
  lemma StairsTight(f: Weights)
    requires Staircase(f)
    ensures Total(f, |f|) == Least(|f| - 1)
  {
    StairsTotal(f, |f| - 2);
    assert Total(f, |f|) == Total(f, |f| - 2) + 2;
  }

  // ----- 32 bits -------------------------------------------------------------------------------

  /** The smallest count with a code longer than 32 bits. */
  const LONG_CODE_COUNT := 9227465

  lemma LeastOf33()
    ensures Least(33) == LONG_CODE_COUNT
  {
    assert Least(5) == 13 && Least(6) == 21;
    assert Least(9) == 89 && Least(10) == 144;
    assert Least(13) == 610 && Least(14) == 987;
    assert Least(17) == 4181 && Least(18) == 6765;
    assert Least(21) == 28657 && Least(22) == 46368;
    assert Least(25) == 196418 && Least(26) == 317811;
    assert Least(29) == 1346269 && Least(30) == 2178309;
    assert Least(31) == 3524578 && Least(32) == 5702887;
  }

  /** Code lengths of a tree whose count is smaller are at most 32. */
  lemma ShortCodes(size: seq<nat>, total: nat)
    requires total < LONG_CODE_COUNT && forall x :: 0 <= x < |size| ==> Least(size[x]) <= total
    ensures forall x :: 0 <= x < |size| ==> size[x] <= 32
  {
    hide Least;
    LeastOf33();
    forall x | 0 <= x < |size| ensures size[x] <= 32 {
      if size[x] > 32 { LeastGrows(33, size[x]); }
    }
  }
}
