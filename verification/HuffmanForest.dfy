/** The trees that jpeg_gen_optimal_table (jchuff.c) builds, as values: what one
    merge does to them, and what every merge keeps.
 */
module HuffmanForest {
  import opened HuffmanCost

  /** A merged tree's top node, in the order of creation: the index the tree was
      left at, its count, how far the node now is below the top of its tree,
      and which node that top is.
   */
  datatype Node = Node(at: nat, count: nat, depth: nat, top: nat)

  datatype Forest = Forest(
    w: Weights,         // count of each tree, by the index it is kept at
    size: seq<nat>,     // code length of each symbol so far
    root: seq<nat>,     // index of the tree each symbol is in
    top: seq<int>,      // top node of the tree kept at each index, -1 for a bare symbol
    parent: seq<int>,   // node each symbol hangs from, -1 for none
    nodes: seq<Node>)

  /** One tree for each symbol. */
  function Bare(f: Weights): Forest {
    var n := |f|;
    Forest(f, seq(n, _ => 0), seq(n, i => i), seq(n, _ => -1), seq(n, _ => -1), [])
  }

  ghost predicate Shaped(t: Forest, n: nat) {
    && |t.w| == |t.size| == |t.root| == |t.top| == |t.parent| == n
    && (forall x :: 0 <= x < n ==> Alive(t.w, t.root[x]))
    && (forall r :: 0 <= r < n && Alive(t.w, r) ==> t.root[r] == r)
  }

  predicate InEither(root: seq<nat>, x: nat, c1: nat, c2: nat)
    requires x < |root|
  {
    root[x] == c1 || root[x] == c2
  }

  /** Everything in the two trees moves one step down. */
  function Deeper(size: seq<nat>, root: seq<nat>, c1: nat, c2: nat): (s: seq<nat>)
    requires |root| == |size|
    ensures |s| == |size|
  {
    seq(|size|, x requires 0 <= x < |size| => if InEither(root, x, c1, c2) then size[x] + 1 else size[x])
  }

  function Rerooted(root: seq<nat>, c1: nat, c2: nat): (s: seq<nat>)
    ensures |s| == |root|
  {
    seq(|root|, x requires 0 <= x < |root| => if root[x] == c2 then c1 else root[x])
  }

  function Adopted(t: Forest, c1: nat, c2: nat): (s: seq<int>)
    requires |t.root| == |t.parent|
    ensures |s| == |t.parent|
  {
    seq(|t.parent|, x requires 0 <= x < |t.parent| =>
      if t.parent[x] == -1 && InEither(t.root, x, c1, c2) then |t.nodes| else t.parent[x])
  }

  /** A node after the trees with tops `a` and `b` are joined under node `n`. */
  function Sunk(x: Node, a: int, b: int, n: nat): Node {
    if x.top == a || x.top == b then Node(x.at, x.count, x.depth + 1, n) else x
  }

  function SunkNodes(nodes: seq<Node>, a: int, b: int): (s: seq<Node>)
    ensures |s| == |nodes|
  {
    seq(|nodes|, i requires 0 <= i < |nodes| => Sunk(nodes[i], a, b, |nodes|))
  }

  /** The tree at `c2` joins the one at `c1` under a new node. */
  function Join(t: Forest, c1: nat, c2: nat): (u: Forest)
    requires c1 < |t.w| && c2 < |t.w| && |t.w| == |t.size| == |t.root| == |t.top| == |t.parent|
  {
    Forest(Merged(t.w, c1, c2), Deeper(t.size, t.root, c1, c2), Rerooted(t.root, c1, c2),
           t.top[c1 := |t.nodes|], Adopted(t, c1, c2),
           SunkNodes(t.nodes, t.top[c1], t.top[c2]) + [Node(c1, t.w[c1] + t.w[c2], 0, |t.nodes|)])
  }

  // ----- Counts --------------------------------------------------------------------

  /** The counts of the symbols below `n` in the tree kept at `r`. */
  ghost function Sum(f: Weights, root: seq<nat>, r: nat, n: nat): nat
    requires n <= |f| == |root|
  {
    if n == 0 then 0
    else Sum(f, root, r, n - 1) + if root[n - 1] == r then f[n - 1] else 0
  }

  ghost function Total(f: Weights, n: nat): nat
    requires n <= |f|
  {
    if n == 0 then 0 else Total(f, n - 1) + f[n - 1]
  }

  lemma {:induction false} SumOfTwo(f: Weights, root: seq<nat>, a: nat, b: nat, n: nat)
    requires n <= |f| == |root| && a != b
    ensures Sum(f, root, a, n) + Sum(f, root, b, n) <= Total(f, n)
    decreases n
  {
    if n > 0 { SumOfTwo(f, root, a, b, n - 1); }
  }

  lemma {:induction false} SumJoined(f: Weights, root: seq<nat>, c1: nat, c2: nat, r: nat, n: nat)
    requires n <= |f| == |root| && c1 != c2 && r != c2
    ensures Sum(f, Rerooted(root, c1, c2), r, n) == Sum(f, root, r, n) + if r == c1 then Sum(f, root, c2, n) else 0
    decreases n
  {
    if n > 0 { SumJoined(f, root, c1, c2, r, n - 1); }
  }

  lemma {:induction false} SumBare(f: Weights, r: nat, n: nat)
    requires n <= |f|
    ensures Sum(f, Bare(f).root, r, n) == if r < n then f[r] else 0
    decreases n
  {
    if n > 0 { SumBare(f, r, n - 1); }
  }

  /** Each tree's count is the sum of its symbols' counts. */
  ghost predicate Counted(f: Weights, t: Forest)
    requires Shaped(t, |f|)
  {
    forall r :: 0 <= r < |f| && Alive(t.w, r) ==> t.w[r] == Sum(f, t.root, r, |f|)
  }

  // ----- The code space of each tree --------------------------------------------------

  /** The Kraft sum of the symbols below `n` in the tree kept at `r`. */
  ghost function Space(size: seq<nat>, root: seq<nat>, r: nat, n: nat): real
    requires n <= |size| == |root|
  {
    if n == 0 then 0.0
    else Space(size, root, r, n - 1) + if root[n - 1] == r then Half(size[n - 1]) else 0.0
  }

  lemma {:induction false} SpaceJoined(size: seq<nat>, root: seq<nat>, c1: nat, c2: nat, r: nat, n: nat)
    requires n <= |size| == |root| && c1 != c2 && r != c2
    ensures Space(Deeper(size, root, c1, c2), Rerooted(root, c1, c2), r, n)
         == if r == c1 then (Space(size, root, c1, n) + Space(size, root, c2, n)) / 2.0 else Space(size, root, r, n)
    decreases n
  {
    if n > 0 { SpaceJoined(size, root, c1, c2, r, n - 1); }
  }

  lemma {:induction false} SpaceBare(f: Weights, r: nat, n: nat)
    requires n <= |f|
    ensures Space(Bare(f).size, Bare(f).root, r, n) == if r < n then 1.0 else 0.0
    decreases n
  {
    if n > 0 { SpaceBare(f, r, n - 1); }
  }

  /** Every tree is full: its codes use up its whole code space. */
  ghost predicate Full(t: Forest, n: nat)
    requires Shaped(t, n)
  {
    forall r :: 0 <= r < n && Alive(t.w, r) ==> Space(t.size, t.root, r, n) == 1.0
  }

  // ----- Cost --------------------------------------------------------------------------

  ghost predicate AllAlive(f: Weights) {
    forall i :: 0 <= i < |f| ==> Alive(f, i)
  }

  lemma {:induction false} CostJoined(f: Weights, size: seq<nat>, root: seq<nat>, c1: nat, c2: nat, n: nat)
    requires n <= |f| == |size| == |root| && c1 != c2 && AllAlive(f)
    ensures Cost(f, Deeper(size, root, c1, c2), n)
         == Cost(f, size, n) + Sum(f, root, c1, n) + Sum(f, root, c2, n)
    decreases n
  {
    if n > 0 {
      CostJoined(f, size, root, c1, c2, n - 1);
      assert f[n - 1] * (size[n - 1] + 1) == f[n - 1] * size[n - 1] + f[n - 1];
    }
  }

  lemma {:induction false} CostBare(f: Weights, n: nat)
    requires n <= |f|
    ensures Cost(f, Bare(f).size, n) == 0
    decreases n
  {
    if n > 0 { CostBare(f, n - 1); }
  }

  /** What is spent so far, and the best that can be done with the trees, bound
      every prefix code from below.
   */
  ghost predicate NothingLost(f: Weights, t: Forest)
    requires Shaped(t, |f|)
  {
    forall c: int :: LowerBound(c, t.w) ==> LowerBound(c + Cost(f, t.size, |f|), f)
  }

  // ----- What every merge keeps -----------------------------------------------------------

  /** The trees built from the counts `f`, at any point of the loop. */
  ghost predicate Grown(f: Weights, t: Forest) {
    Shaped(t, |f|) && Counted(f, t) && Full(t, |f|) && NothingLost(f, t)
  }

  /** Counts the sentinels of the source leave room for. */
  ghost predicate Countable(f: Weights) {
    Total(f, |f|) <= 1000000000
  }

  lemma {:induction false} TotalBounds(f: Weights, x: nat, n: nat)
    requires x < n <= |f|
    ensures f[x] <= Total(f, n)
    decreases n
  {
    if x < n - 1 { TotalBounds(f, x, n - 1); }
  }

  lemma CountableAlive(f: Weights)
    requires Countable(f)
    ensures AllAlive(f)
  {
    forall i | 0 <= i < |f| ensures Alive(f, i) { TotalBounds(f, i, |f|); }
  }

  lemma BareGrown(f: Weights)
    requires Countable(f)
    ensures Grown(f, Bare(f))
  {
    CountableAlive(f);
    CostBare(f, |f|);
    forall r | 0 <= r < |f|
      ensures f[r] == Sum(f, Bare(f).root, r, |f|) && Space(Bare(f).size, Bare(f).root, r, |f|) == 1.0
    {
      SumBare(f, r, |f|);
      SpaceBare(f, r, |f|);
    }
  }

  lemma JoinShaped(t: Forest, c1: nat, c2: nat, n: nat)
    requires Shaped(t, n) && Selected(t.w, c1, c2) && t.w[c1] + t.w[c2] != MERGED
    ensures Shaped(Join(t, c1, c2), n)
    ensures forall r :: 0 <= r < n && Alive(Join(t, c1, c2).w, r) ==> r != c2 && Alive(t.w, r)
  {
  }

  /** No count ever reaches the values that mark a merged tree. */
  lemma JoinCountable(f: Weights, t: Forest, c1: nat, c2: nat)
    requires Shaped(t, |f|) && Counted(f, t) && Countable(f) && Selected(t.w, c1, c2)
    ensures t.w[c1] + t.w[c2] <= 1000000000
  {
    SumOfTwo(f, t.root, c1, c2, |f|);
  }

  lemma JoinGrown(f: Weights, t: Forest, c1: nat, c2: nat)
    requires Grown(f, t) && Countable(f) && Selected(t.w, c1, c2)
    ensures Grown(f, Join(t, c1, c2))
  {
    JoinCountable(f, t, c1, c2);
    JoinShaped(t, c1, c2, |f|);
    CountableAlive(f);
    JoinCounted(f, t, c1, c2);
    JoinFull(t, c1, c2, |f|);
    JoinLosesNothing(f, t, c1, c2);
  }

  lemma JoinCounted(f: Weights, t: Forest, c1: nat, c2: nat)
    requires Shaped(t, |f|) && Counted(f, t) && Selected(t.w, c1, c2) && Shaped(Join(t, c1, c2), |f|)
    requires t.w[c1] + t.w[c2] != MERGED
    ensures Counted(f, Join(t, c1, c2))
  {
    hide Sum, Rerooted;
    var u := Join(t, c1, c2);
    forall r | 0 <= r < |f| && Alive(u.w, r) ensures u.w[r] == Sum(f, u.root, r, |f|) {
      SumJoined(f, t.root, c1, c2, r, |f|);
    }
  }

  lemma JoinFull(t: Forest, c1: nat, c2: nat, n: nat)
    requires Shaped(t, n) && Full(t, n) && Selected(t.w, c1, c2) && Shaped(Join(t, c1, c2), n)
    ensures Full(Join(t, c1, c2), n)
  {
    hide Space, Rerooted, Deeper;
    var u := Join(t, c1, c2);
    forall r | 0 <= r < n && Alive(u.w, r) ensures Space(u.size, u.root, r, n) == 1.0 {
      SpaceJoined(t.size, t.root, c1, c2, r, n);
    }
  }

  lemma JoinLosesNothing(f: Weights, t: Forest, c1: nat, c2: nat)
    requires Shaped(t, |f|) && Counted(f, t) && NothingLost(f, t) && AllAlive(f)
    requires Selected(t.w, c1, c2) && t.w[c1] + t.w[c2] != MERGED && Shaped(Join(t, c1, c2), |f|)
    ensures NothingLost(f, Join(t, c1, c2))
  {
    hide Sum, Rerooted, Deeper, Cost;
    var u := Join(t, c1, c2);
    CostJoined(f, t.size, t.root, c1, c2, |f|);
    forall c: int | LowerBound(c, u.w) ensures LowerBound(c + Cost(f, u.size, |f|), f) {
      MergeKeepsBound(t.w, c1, c2, c);
    }
  }

  // ----- The finished tree --------------------------------------------------------------

  lemma {:induction false} SpaceIsKraft(f: Weights, size: seq<nat>, root: seq<nat>, r: nat, n: nat)
    requires n <= |f| == |size| == |root| && AllAlive(f)
    requires forall x :: 0 <= x < n ==> root[x] == r
    ensures Space(size, root, r, n) == Kraft(f, size, n)
    decreases n
  {
    if n > 0 { SpaceIsKraft(f, size, root, r, n - 1); }
  }

  /** When one tree is left its code lengths fill the code space exactly, and no
      prefix code for the counts costs less.
   */
  lemma GrownOptimal(f: Weights, t: Forest, r: nat)
    requires Grown(f, t) && Countable(f) && Alive(t.w, r) && forall i :: Alive(t.w, i) ==> i == r
    ensures Kraft(f, t.size, |f|) == 1.0
    ensures LowerBound(Cost(f, t.size, |f|), f)
  {
    CountableAlive(f);
    SpaceIsKraft(f, t.size, t.root, r, |f|);
    assert LowerBound(0, t.w);
    assert LowerBound(0 + Cost(f, t.size, |f|), f);
  }
}
