/** Huffman's algorithm in place (the grouping and merge loops of
    jpeg_gen_optimal_table, jchuff.c): three arrays hold the trees' counts, the
    symbols' code lengths, and chains through the symbols of each tree.
 */
module HuffmanTree {
  import opened HuffmanCost
  import opened HuffmanForest
  import opened HuffmanOrder
  import opened HuffmanDepth

  const HUFFMAN_ALPHABET_SIZE := 257
  const PSEUDO_SYMBOL := 256

  // ----- Grouping ------------------------------------------------------------------------

  /** The symbols below `k` that occur, in order. */
  function Occurring(f: seq<nat>, k: nat): (syms: seq<nat>)
    requires k <= |f|
    ensures |syms| <= k
    ensures forall i :: 0 <= i < |syms| ==> syms[i] < k && f[syms[i]] != 0
    ensures forall i, j :: 0 <= i < j < |syms| ==> syms[i] < syms[j]
  {
    if k == 0 then []
    else Occurring(f, k - 1) + if f[k - 1] != 0 then [k - 1] else []
  }

  lemma {:induction false} OccurringAll(f: seq<nat>, k: nat, x: nat)
    requires x < k <= |f| && f[x] != 0
    ensures x in Occurring(f, k)
    decreases k
  {
    if x < k - 1 { OccurringAll(f, k - 1, x); }
  }

  function CountsOf(f: seq<nat>, syms: seq<nat>): Weights
    requires forall i :: 0 <= i < |syms| ==> syms[i] < |f|
  {
    seq(|syms|, i requires 0 <= i < |syms| => f[syms[i]])
  }

  lemma NothingOccurring(f: seq<nat>)
    ensures Occurring(f, 0) == [] && CountsOf(f, []) == []
  {
  }

  lemma NextOccurring(f: seq<nat>, k: nat)
    requires k < |f|
    ensures var syms, next := Occurring(f, k), Occurring(f, k + 1);
            if f[k] == 0 then next == syms
            else next == syms + [k] && CountsOf(f, next) == CountsOf(f, syms) + [f[k]]
  {
  }

  /** Symbols that occur move to the front of `freq`, in place. */
  method GroupNonzero(freq: array<nat>) returns (nzIndex: array<nat>, n: nat)
    requires freq.Length == HUFFMAN_ALPHABET_SIZE
    modifies freq
    ensures fresh(nzIndex) && nzIndex.Length == HUFFMAN_ALPHABET_SIZE && n <= HUFFMAN_ALPHABET_SIZE
    ensures nzIndex[..n] == Occurring(old(freq[..]), HUFFMAN_ALPHABET_SIZE)
    ensures freq[..n] == CountsOf(old(freq[..]), nzIndex[..n])
  {
    hide Occurring, CountsOf;
    ghost var f := freq[..];
    nzIndex := new nat[HUFFMAN_ALPHABET_SIZE];
    n := 0;
    NothingOccurring(f);
    for i := 0 to HUFFMAN_ALPHABET_SIZE
      invariant n <= i
      invariant nzIndex[..n] == Occurring(f, i)
      invariant freq[..n] == CountsOf(f, Occurring(f, i))
      invariant freq[i..] == f[i..]
    {
      NextOccurring(f, i);
      assert freq[i] == freq[i..][0] == f[i];
      if freq[i] != 0 {
        nzIndex[n] := i;
        freq[n] := freq[i];
        n := n + 1;
      }
    }
  }

  // ----- Selection ------------------------------------------------------------------------

  ghost predicate OneAlive(w: Weights) {
    forall i, j :: Alive(w, i) && Alive(w, j) ==> i == j
  }

  /** What the scan for the two smallest counts knows of the trees below `k`. */
  ghost predicate Scanned(w: Weights, k: nat, c1: int, c2: int, v: nat, v2: nat)
    requires k <= |w|
  {
    && -1 <= c2 && -1 <= c1 && (c1 < 0 ==> c2 < 0)
    && (if c1 < 0 then v == 1000000000 else c1 < k && Alive(w, c1) && v == w[c1])
    && (if c2 < 0 then v2 == 1000000000 else c2 < k && Alive(w, c2) && v2 == w[c2] && Sooner(w, c1, c2))
    && (forall i :: 0 <= i < k && Alive(w, i) && i != c1 ==> c2 >= 0 && (i != c2 ==> Sooner(w, c2, i)))
  }

  /** The one scan that finds both smallest counts; of equal counts the one
      with the larger index.
   */
  method SelectTwo(freq: array<nat>, n: nat) returns (c1: int, c2: int)
    requires n <= freq.Length
    requires forall i :: 0 <= i < n && freq[i] != MERGED ==> freq[i] <= 1000000000
    ensures c2 < 0 ==> OneAlive(freq[..n])
    ensures c2 >= 0 ==> c1 >= 0 && Selected(freq[..n], c1, c2)
  {
    ghost var w := freq[..n];
    c1, c2 := -1, -1;
    var v, v2 := 1000000000, 1000000000;
    for i := 0 to n
      invariant Scanned(w, i, c1, c2, v, v2)
    {
      assert freq[i] == w[i];
      if freq[i] <= v2 {
        if freq[i] <= v {
          c2 := c1;
          v2 := v;
          v := freq[i];
          c1 := i;
        } else {
          v2 := freq[i];
          c2 := i;
        }
      }
    }
  }

  // ----- Chains -------------------------------------------------------------------------

  /** `others` links the symbols of `ch` one after the other. */
  ghost predicate Chain(others: seq<int>, ch: seq<nat>) {
    && ch != []
    && (forall k :: 0 <= k < |ch| ==> ch[k] < |others|)
    && (forall j, k :: 0 <= j < k < |ch| ==> ch[j] != ch[k])
    && (forall k :: 0 <= k < |ch| - 1 ==> others[ch[k]] == ch[k + 1])
    && others[ch[|ch| - 1]] == -1
  }

  /** `ch` chains the symbols of the tree kept at `r`, `r` first. */
  ghost predicate Spans(others: seq<int>, root: seq<nat>, ch: seq<nat>, r: nat) {
    && Chain(others, ch) && ch[0] == r
    && forall x :: 0 <= x < |root| ==> (x in ch <==> root[x] == r)
  }

  ghost predicate Chained(others: seq<int>, t: Forest, chains: seq<seq<nat>>) {
    && |others| == |t.w| == |t.root| == |chains|
    && forall r: nat :: Alive(t.w, r) ==> Spans(others, t.root, chains[r], r)
  }

  lemma ChainStep(others: seq<int>, ch: seq<nat>, k: nat)
    requires Chain(others, ch) && k < |ch|
    ensures others[ch[k]] == if k == |ch| - 1 then -1 else ch[k + 1]
  {
  }

  lemma ChainJoin(others: seq<int>, a: seq<nat>, b: seq<nat>)
    requires Chain(others, a) && Chain(others, b) && forall x :: x in a ==> x !in b
    ensures Chain(others[a[|a| - 1] := b[0]], a + b)
  {
    var ch, linked := a + b, others[a[|a| - 1] := b[0]];
    assert forall j :: 0 <= j < |a| ==> ch[j] == a[j] && a[j] in a;
    assert forall j :: 0 <= j < |b| ==> ch[|a| + j] == b[j] && b[j] in b;
    forall j, k | 0 <= j < k < |ch| ensures ch[j] != ch[k] {
      if k < |a| {
        assert a[j] != a[k];
      } else if j >= |a| {
        assert b[j - |a|] != b[k - |a|];
      }
    }
    forall k | 0 <= k < |ch| - 1 ensures linked[ch[k]] == ch[k + 1] {
      if k < |a| - 1 {
        assert others[a[k]] == a[k + 1];
      } else if k >= |a| {
        assert others[b[k - |a|]] == b[k - |a| + 1];
      }
    }
  }

  lemma ChainApart(others: seq<int>, a: seq<nat>, x: nat, v: int)
    requires Chain(others, a) && x < |others| && x !in a
    ensures Chain(others[x := v], a)
  {
  }

  lemma ChainedJoin(others: seq<int>, t: Forest, chains: seq<seq<nat>>, c1: nat, c2: nat)
    requires Shaped(t, |others|) && Chained(others, t, chains) && Selected(t.w, c1, c2)
    requires t.w[c1] + t.w[c2] != MERGED
    ensures Chained(others[chains[c1][|chains[c1]| - 1] := c2], Join(t, c1, c2), chains[c1 := chains[c1] + chains[c2]])
  {
    hide Chain, Deeper, Adopted, SunkNodes;
    var u, last := Join(t, c1, c2), chains[c1][|chains[c1]| - 1];
    var chains' := chains[c1 := chains[c1] + chains[c2]];
    JoinShaped(t, c1, c2, |others|);
    ChainInRange(others, chains[c1]);
    ChainInRange(others, chains[c2]);
    assert last in chains[c1];
    ChainJoin(others, chains[c1], chains[c2]);
    forall r: nat | Alive(u.w, r) ensures Spans(others[last := c2], u.root, chains'[r], r) {
      if r != c1 { ChainApart(others, chains[r], last, c2); }
    }
  }

  lemma ChainInRange(others: seq<int>, ch: seq<nat>)
    requires Chain(others, ch)
    ensures ch != [] && forall x :: x in ch ==> x < |others|
  {
  }

  /** Every code length in the branch that starts at `c` grows by one. */
  method Descend(codesize: array<nat>, others: array<int>, n: nat, c: nat, ghost ch: seq<nat>) returns (last: nat)
    requires n <= codesize.Length && n <= others.Length
    requires Chain(others[..n], ch) && ch[0] == c
    modifies codesize
    ensures last == ch[|ch| - 1]
    ensures forall x :: 0 <= x < codesize.Length ==> codesize[x] == old(codesize[x]) + if x in ch then 1 else 0
  {
    ghost var links := others[..n];
    last := c;
    ghost var k := 0;
    assert ch[0] in ch;
    codesize[last] := codesize[last] + 1;
    while others[last] >= 0
      invariant k < |ch| && last == ch[k]
      invariant forall x :: 0 <= x < codesize.Length ==>
                  codesize[x] == old(codesize[x]) + if x in ch[..k + 1] then 1 else 0
      decreases |ch| - k
    {
      ChainStep(links, ch, k);
      k := k + 1;
      last := others[last];
      assert ch[k] !in ch[..k] && ch[..k + 1] == ch[..k] + [ch[k]];
      codesize[last] := codesize[last] + 1;
    }
    ChainStep(links, ch, k);
    assert ch[..k + 1] == ch;
  }

  // ----- Merging ------------------------------------------------------------------------

  /** The arrays hold the forest `t`. */
  ghost predicate Holds(freq: seq<nat>, codesize: seq<nat>, others: seq<int>, t: Forest, chains: seq<seq<nat>>) {
    freq == t.w && codesize == t.size && Chained(others, t, chains)
  }

  /** One merge: counts, code lengths and chains of both trees. */
  method MergeTrees(freq: array<nat>, codesize: array<nat>, others: array<int>, n: nat, c1: nat, c2: nat,
                    ghost t: Forest, ghost chains: seq<seq<nat>>) returns (ghost chains': seq<seq<nat>>)
    requires n <= freq.Length && n <= codesize.Length && n <= others.Length && freq != codesize
    requires Shaped(t, n) && Holds(freq[..n], codesize[..n], others[..n], t, chains)
    requires Selected(t.w, c1, c2) && t.w[c1] + t.w[c2] != MERGED
    modifies freq, codesize, others
    ensures Holds(freq[..n], codesize[..n], others[..n], Join(t, c1, c2), chains') == true
  {
    assert c1 < n && c2 < n && c1 != c2 && Alive(t.w, c1) && Alive(t.w, c2);
    hide Selected, Alive, Deeper, Rerooted, Adopted, SunkNodes, Chain;
    freq[c1] := freq[c1] + freq[c2];
    freq[c2] := MERGED;
    var last := Descend(codesize, others, n, c1, chains[c1]);
    ghost var before := others[..n];
    ChainInRange(before, chains[c1]);
    ChainInRange(before, chains[c2]);
    assert last in chains[c1];
    ChainApart(before, chains[c2], last, c2);
    ChainedJoin(before, t, chains, c1, c2);
    others[last] := c2;
    assert others[..n] == before[last := c2];
    var tail := Descend(codesize, others, n, c2, chains[c2]);
    chains' := chains[c1 := chains[c1] + chains[c2]];
    assert freq[..n] == Merged(t.w, c1, c2);
    assert codesize[..n] == Deeper(t.size, t.root, c1, c2);
  }

  ghost function AliveBelow(w: Weights, n: nat): nat
    requires n <= |w|
  {
    if n == 0 then 0 else AliveBelow(w, n - 1) + if Alive(w, n - 1) then 1 else 0
  }

  lemma {:induction false} MergedFewer(w: Weights, c1: nat, c2: nat, n: nat)
    requires n <= |w| && Alive(w, c1) && Alive(w, c2) && c1 != c2 && w[c1] + w[c2] != MERGED
    ensures AliveBelow(Merged(w, c1, c2), n) == AliveBelow(w, n) - if c2 < n then 1 else 0
    decreases n
  {
    if n > 0 { MergedFewer(w, c1, c2, n - 1); }
  }

  lemma CountsBelowSentinel(f: Weights, t: Forest)
    requires Grown(f, t) && Countable(f)
    ensures forall i :: 0 <= i < |t.w| && t.w[i] != MERGED ==> t.w[i] <= 1000000000
  {
    forall i | 0 <= i < |t.w| && t.w[i] != MERGED ensures t.w[i] <= 1000000000 {
      SumOfTwo(f, t.root, i, i + 1, |f|);
    }
  }

  lemma JoinKeeps(f: Weights, t: Forest, c1: nat, c2: nat)
    requires Countable(f) && LastRarest(f) && Grown(f, t) && Ordered(f, t) && Selected(t.w, c1, c2)
    ensures c1 < |f| && c2 < |f| && t.w[c1] + t.w[c2] != MERGED
    ensures Shaped(Join(t, c1, c2), |f|) && Grown(f, Join(t, c1, c2)) && Ordered(f, Join(t, c1, c2))
    ensures AliveBelow(Join(t, c1, c2).w, |f|) < AliveBelow(t.w, |f|)
  {
    hide Ordered, Counted, Full, NothingLost, AliveBelow, Merged;
    CountableAlive(f);
    JoinCountable(f, t, c1, c2);
    JoinShaped(t, c1, c2, |f|);
    JoinGrown(f, t, c1, c2);
    JoinOrdered(f, t, c1, c2);
    MergedFewer(t.w, c1, c2, |f|);
  }

  lemma BareKept(f: Weights)
    requires Countable(f) && LastRarest(f)
    ensures f != [] && Shaped(Bare(f), |f|) && Grown(f, Bare(f)) && Ordered(f, Bare(f))
    ensures Chained(seq(|f|, _ => -1), Bare(f), seq(|f|, i => [i]))
  {
    hide Grown, Ordered;
    BareGrown(f);
    BareOrdered(f);
    var t, others: seq<int>, chains: seq<seq<nat>> := Bare(f), seq(|f|, _ => -1), seq(|f|, i => [i]);
    forall r: nat | Alive(t.w, r) ensures Spans(others, t.root, chains[r], r) {
      assert chains[r] == [r] && others[r] == -1;
    }
  }

  /** Code lengths as good as any prefix code's. */
  ghost predicate OptimalLengths(f: Weights, size: seq<nat>) {
    && |size| == |f|
    && Kraft(f, size, |f|) == 1.0
    && LowerBound(Cost(f, size, |f|), f)
  }

  /** The merge loop: code lengths that fill the code space exactly and cost no
      more than those of any prefix code; the last symbol's is the longest, and
      no code is long unless the counts are large.
   */
  method FindCodeSizes(freq: array<nat>, n: nat, codesize: array<nat>)
    requires n <= freq.Length && n <= codesize.Length && freq != codesize
    requires Countable(freq[..n]) && LastRarest(freq[..n])
    requires forall i :: 0 <= i < n ==> freq[i] >= 1
    requires forall i :: 0 <= i < codesize.Length ==> codesize[i] == 0
    modifies freq, codesize
    ensures OptimalLengths(old(freq[..n]), codesize[..n])
    ensures forall x :: 0 <= x < n ==> codesize[x] <= codesize[n - 1]
    ensures forall x :: 0 <= x < n ==> Least(codesize[x]) <= Total(old(freq[..n]), n)
    ensures Staircase(old(freq[..n])) ==> codesize[n - 1] == n - 1
  {
    hide Grown, Ordered, Tall, OnStairs, Staircase, AllAlive, Least, Total, Chained, Countable, LastRarest, Selected,
         Join, OptimalLengths, Alive, AliveBelow;
    ghost var f := freq[..n];
    ghost var t := Bare(f);
    ghost var chains: seq<seq<nat>> := seq(n, i => [i]);
    var others := new int[n](_ => -1);
    BareKept(f);
    BareTall(f);
    BareOnStairs(f);
    CountableAlive(f);
    ghost var v, m := 0, 0;
    assert others[..n] == seq(n, _ => -1) && codesize[..n] == t.size;
    while true
      invariant Shaped(t, n) && Grown(f, t) && Ordered(f, t) == true
      invariant Tall(t, v, n)
      invariant OnStairs(f, t, m)
      invariant Holds(freq[..n], codesize[..n], others[..n], t, chains)
      decreases AliveBelow(t.w, n)
    {
      CountsBelowSentinel(f, t);
      assert freq[..n] == t.w && forall i :: 0 <= i < n ==> freq[i] == t.w[i];
      var c1, c2 := SelectTwo(freq, n);
      if c2 < 0 {
        OneTreeLeft(f, t);
        forall x | 0 <= x < n ensures Least(t.size[x]) <= Total(f, n) { GrownTall(f, t, v, x); }
        if Staircase(f) { StairsTop(f, t, m); }
        break;
      }
      JoinKeeps(f, t, c1, c2);
      JoinTall(t, v, c1, c2, n);
      JoinOnStairs(f, t, m, c1, c2);
      v, m := Larger(t.w[c1], t.w[c2]), m + 1;
      chains := MergeTrees(freq, codesize, others, n, c1, c2, t, chains);
      t := Join(t, c1, c2);
    }
  }

  lemma GrownTall(f: Weights, t: Forest, v: nat, x: nat)
    requires Grown(f, t) && Shaped(t, |f|) && Tall(t, v, |f|) && x < |f|
    ensures Least(t.size[x]) <= Total(f, |f|)
  {
    hide Least, Total, Full, NothingLost, Tall;
    OneTall(f, t, v, x);
  }

  lemma OneTreeLeft(f: Weights, t: Forest)
    requires Grown(f, t) && Ordered(f, t) && Countable(f) && f != []
    requires OneAlive(t.w)
    ensures OptimalLengths(f, t.size)
    ensures forall x :: 0 <= x < |f| ==> t.size[x] <= t.size[|f| - 1]
  {
    CountableAlive(f);
    var r := t.root[0];
    GrownOptimal(f, t, r);
    forall x | 0 <= x < |f| ensures t.size[x] <= t.size[|f| - 1] {
      LastDeepest(f, t, r, x);
    }
  }
}
