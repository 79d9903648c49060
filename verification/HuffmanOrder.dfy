/** Why the pseudo-symbol 256 always gets a longest code (jchuff.c relies on it
    to drop that symbol from the table): merged trees are merged again in the
    order they were made, so no node lies deeper than the first one, and the
    pseudo-symbol hangs from that one.
 */
module HuffmanOrder {
  import opened HuffmanCost
  import opened HuffmanForest

  /** Node `i` is the top of a tree that is still there. */
  predicate IsTop(nodes: seq<Node>, i: int) {
    0 <= i < |nodes| && nodes[i].top == i
  }

  /** Trees and their top nodes correspond. */
  ghost predicate Linked(t: Forest, n: nat)
    requires Shaped(t, n)
  {
    && (forall i :: 0 <= i < |t.nodes| ==> IsTop(t.nodes, t.nodes[i].top))
    && (forall i :: IsTop(t.nodes, i) ==>
          Alive(t.w, t.nodes[i].at) && t.w[t.nodes[i].at] == t.nodes[i].count && t.top[t.nodes[i].at] == i)
    && (forall r :: 0 <= r < n && Alive(t.w, r) && t.top[r] != -1 ==>
          IsTop(t.nodes, t.top[r]) && t.nodes[t.top[r]].at == r)
  }

  /** Counts are positive, and no merged count is more than twice any other; at
      exactly twice, the merged tree has the larger index.
   */
  ghost predicate Heavy(t: Forest, n: nat)
    requires Shaped(t, n)
  {
    && (forall x :: 0 <= x < n && Alive(t.w, x) ==> t.w[x] > 0)
    && (forall i, x :: IsTop(t.nodes, i) && 0 <= x < n && Alive(t.w, x) ==>
          t.nodes[i].count <= 2 * t.w[x]
              && (t.nodes[i].count == 2 * t.w[x] && x != t.nodes[i].at ==> x < t.nodes[i].at))
  }

  /** Of two merged trees the older will be merged first. */
  ghost predicate InOrder(t: Forest) {
    forall i, j :: IsTop(t.nodes, i) && IsTop(t.nodes, j) && i < j ==>
      t.nodes[i].at < |t.w| && t.nodes[j].at < |t.w| && Sooner(t.w, t.nodes[i].at, t.nodes[j].at)
  }

  /** Of two nodes the older lies at least as deep; of two at the same depth,
      the older is in the older tree.
   */
  ghost predicate Sinking(nodes: seq<Node>) {
    forall i, j :: 0 <= i < j < |nodes| ==>
      nodes[i].depth >= nodes[j].depth && (nodes[i].depth == nodes[j].depth ==> nodes[i].top <= nodes[j].top)
  }

  /** Each merged symbol hangs one step below its node, in the same tree. */
  ghost predicate Hanging(t: Forest, n: nat)
    requires Shaped(t, n)
  {
    forall x :: 0 <= x < n ==>
      if t.parent[x] == -1 then t.top[t.root[x]] == -1 && t.size[x] == 0
      else
        && 0 <= t.parent[x] < |t.nodes|
        && t.size[x] == t.nodes[t.parent[x]].depth + 1
        && t.nodes[t.parent[x]].top == t.top[t.root[x]]
  }

  /** The last symbol, if merged at all, hangs from the first node. */
  ghost predicate LastFirst(f: Weights, t: Forest) {
    && |t.parent| == |f| > 0
    && if t.nodes == [] then t.w == f else t.parent[|f| - 1] == 0
  }

  ghost predicate Ordered(f: Weights, t: Forest)
    requires Shaped(t, |f|)
  {
    Linked(t, |f|) && Heavy(t, |f|) && InOrder(t) && Sinking(t.nodes) && Hanging(t, |f|) && LastFirst(f, t)
  }

  /** Counts of symbols that occur, the last one once: the pseudo-symbol. */
  ghost predicate LastRarest(f: Weights) {
    && f != [] && f[|f| - 1] == 1
    && forall i :: 0 <= i < |f| ==> f[i] > 0
  }

  lemma BareOrdered(f: Weights)
    requires LastRarest(f) && Countable(f)
    ensures Shaped(Bare(f), |f|) && Ordered(f, Bare(f))
  {
    CountableAlive(f);
  }

  // ----- One merge ---------------------------------------------------------------------

  /** The nodes of the two trees that are merged. */
  ghost predicate Sinks(t: Forest, i: nat, c1: nat, c2: nat)
    requires i < |t.nodes| && c1 < |t.top| && c2 < |t.top|
  {
    t.nodes[i].top == t.top[c1] || t.nodes[i].top == t.top[c2]
  }

  /** Merged trees are merged again in the order they were made. */
  lemma FirstInFirstOut(t: Forest, c1: nat, c2: nat, i: nat, j: nat, n: nat)
    requires Shaped(t, n) && Linked(t, n) && InOrder(t) && Selected(t.w, c1, c2)
    requires IsTop(t.nodes, i) && IsTop(t.nodes, j) && i <= j && Sinks(t, j, c1, c2)
    ensures Sinks(t, i, c1, c2)
  {
    if i < j {
      assert Sooner(t.w, t.nodes[i].at, t.nodes[j].at);
    }
  }

  lemma JoinNodes(t: Forest, c1: nat, c2: nat, n: nat, i: nat)
    requires Shaped(t, n) && c1 < n && c2 < n && i <= |t.nodes|
    ensures |Join(t, c1, c2).nodes| == |t.nodes| + 1
    ensures Join(t, c1, c2).nodes[i] ==
            if i == |t.nodes| then Node(c1, t.w[c1] + t.w[c2], 0, i)
            else if Sinks(t, i, c1, c2) then Node(t.nodes[i].at, t.nodes[i].count, t.nodes[i].depth + 1, |t.nodes|)
            else t.nodes[i]
  {
  }

  /** The tops after a merge: the new node, and the tops of the other trees. */
  lemma JoinTops(t: Forest, c1: nat, c2: nat, n: nat, i: nat)
    requires Shaped(t, n) && Linked(t, n) && Selected(t.w, c1, c2) && i < |t.nodes|
    ensures IsTop(Join(t, c1, c2).nodes, i) <==> IsTop(t.nodes, i) && !Sinks(t, i, c1, c2)
    ensures IsTop(t.nodes, i) && !Sinks(t, i, c1, c2) ==>
              Join(t, c1, c2).nodes[i] == t.nodes[i] && t.nodes[i].at != c1 && t.nodes[i].at != c2
  {
    hide Rerooted, Deeper, Adopted, Merged;
    JoinNodes(t, c1, c2, n, i);
  }

  lemma JoinLinked(t: Forest, c1: nat, c2: nat, n: nat)
    requires Shaped(t, n) && Linked(t, n) && Selected(t.w, c1, c2) && Shaped(Join(t, c1, c2), n)
    requires t.w[c1] + t.w[c2] != MERGED
    ensures Linked(Join(t, c1, c2), n)
  {
    hide Rerooted, Deeper, Adopted, SunkNodes;
    var u := Join(t, c1, c2);
    JoinNodes(t, c1, c2, n, |t.nodes|);
    forall i | 0 <= i < |u.nodes| ensures IsTop(u.nodes, u.nodes[i].top) {
      JoinNodes(t, c1, c2, n, i);
      if i < |t.nodes| && !Sinks(t, i, c1, c2) {
        JoinTops(t, c1, c2, n, t.nodes[i].top);
      }
    }
    forall i | IsTop(u.nodes, i)
      ensures Alive(u.w, u.nodes[i].at) && u.w[u.nodes[i].at] == u.nodes[i].count && u.top[u.nodes[i].at] == i
    {
      if i < |t.nodes| { JoinTops(t, c1, c2, n, i); }
    }
    forall r | 0 <= r < n && Alive(u.w, r) && u.top[r] != -1
      ensures IsTop(u.nodes, u.top[r]) && u.nodes[u.top[r]].at == r
    {
      if r != c1 { JoinTops(t, c1, c2, n, t.top[r]); }
    }
  }

  lemma JoinHeavy(t: Forest, c1: nat, c2: nat, n: nat)
    requires Shaped(t, n) && Linked(t, n) && Heavy(t, n) && Selected(t.w, c1, c2) && Shaped(Join(t, c1, c2), n)
    requires t.w[c1] + t.w[c2] != MERGED
    ensures Heavy(Join(t, c1, c2), n)
  {
    hide Rerooted, Deeper, Adopted, SunkNodes, Linked;
    var u := Join(t, c1, c2);
    JoinNodes(t, c1, c2, n, |t.nodes|);
    forall i, x | IsTop(u.nodes, i) && 0 <= x < n && Alive(u.w, x)
      ensures u.nodes[i].count <= 2 * u.w[x]
      ensures u.nodes[i].count == 2 * u.w[x] && x != u.nodes[i].at ==> x < u.nodes[i].at
    {
      if i < |t.nodes| { JoinTops(t, c1, c2, n, i); }
      assert x == c1 || (Alive(t.w, x) && Sooner(t.w, c2, x));
    }
  }

  lemma JoinInOrder(t: Forest, c1: nat, c2: nat, n: nat)
    requires Shaped(t, n) && Linked(t, n) && Heavy(t, n) && InOrder(t)
    requires Selected(t.w, c1, c2) && Shaped(Join(t, c1, c2), n)
    requires t.w[c1] + t.w[c2] != MERGED
    ensures InOrder(Join(t, c1, c2))
  {
    hide Rerooted, Deeper, Adopted, SunkNodes;
    var u := Join(t, c1, c2);
    JoinNodes(t, c1, c2, n, |t.nodes|);
    forall i, j | IsTop(u.nodes, i) && IsTop(u.nodes, j) && i < j
      ensures u.nodes[i].at < |u.w| && u.nodes[j].at < |u.w| && Sooner(u.w, u.nodes[i].at, u.nodes[j].at)
    {
      JoinTops(t, c1, c2, n, i);
      if j < |t.nodes| { JoinTops(t, c1, c2, n, j); }
    }
  }

  lemma JoinSinking(t: Forest, c1: nat, c2: nat, n: nat)
    requires Shaped(t, n) && Linked(t, n) && InOrder(t) && Sinking(t.nodes) && Selected(t.w, c1, c2)
    ensures Sinking(Join(t, c1, c2).nodes)
  {
    hide Rerooted, Deeper, Adopted, SunkNodes;
    var u := Join(t, c1, c2);
    JoinNodes(t, c1, c2, n, |t.nodes|);
    forall i, j | 0 <= i < j < |u.nodes|
      ensures u.nodes[i].depth >= u.nodes[j].depth
      ensures u.nodes[i].depth == u.nodes[j].depth ==> u.nodes[i].top <= u.nodes[j].top
    {
      JoinNodes(t, c1, c2, n, i);
      JoinNodes(t, c1, c2, n, j);
      if j < |t.nodes| && Sinks(t, j, c1, c2) && t.nodes[i].depth == t.nodes[j].depth {
        FirstInFirstOut(t, c1, c2, t.nodes[i].top, t.nodes[j].top, n);
      }
    }
  }

  lemma JoinHanging(t: Forest, c1: nat, c2: nat, n: nat)
    requires Shaped(t, n) && Linked(t, n) && Hanging(t, n) && Selected(t.w, c1, c2) && Shaped(Join(t, c1, c2), n)
    ensures Hanging(Join(t, c1, c2), n)
  {
    hide SunkNodes;
    var u := Join(t, c1, c2);
    JoinNodes(t, c1, c2, n, |t.nodes|);
    forall x | 0 <= x < n
      ensures if u.parent[x] == -1 then u.top[u.root[x]] == -1 && u.size[x] == 0
              else 0 <= u.parent[x] < |u.nodes| && u.size[x] == u.nodes[u.parent[x]].depth + 1
                   && u.nodes[u.parent[x]].top == u.top[u.root[x]]
    {
      if t.parent[x] != -1 {
        JoinNodes(t, c1, c2, n, t.parent[x]);
        SameTree(t, t.root[x], c1, n);
        SameTree(t, t.root[x], c2, n);
      }
    }
  }

  /** A tree is known by its top node. */
  lemma SameTree(t: Forest, r: nat, c: nat, n: nat)
    requires Shaped(t, n) && Linked(t, n) && Alive(t.w, r) && Alive(t.w, c) && t.top[r] != -1
    ensures t.top[r] == t.top[c] <==> r == c
  {
  }

  lemma JoinLastFirst(f: Weights, t: Forest, c1: nat, c2: nat)
    requires Shaped(t, |f|) && Hanging(t, |f|) && LastFirst(f, t) && LastRarest(f) && AllAlive(f)
    requires Selected(t.w, c1, c2)
    ensures LastFirst(f, Join(t, c1, c2))
  {
    var x := |f| - 1;
    if t.nodes == [] {
      assert Alive(f, x) && c1 == x;
      assert t.parent[x] == -1;
    }
  }

  lemma JoinOrdered(f: Weights, t: Forest, c1: nat, c2: nat)
    requires Shaped(t, |f|) && Ordered(f, t) && LastRarest(f) && AllAlive(f)
    requires Selected(t.w, c1, c2) && t.w[c1] + t.w[c2] != MERGED && Shaped(Join(t, c1, c2), |f|)
    ensures Ordered(f, Join(t, c1, c2))
  {
    hide Join, Linked, Heavy, InOrder, Sinking, Hanging, LastFirst;
    JoinLinked(t, c1, c2, |f|);
    JoinHeavy(t, c1, c2, |f|);
    JoinInOrder(t, c1, c2, |f|);
    JoinSinking(t, c1, c2, |f|);
    JoinHanging(t, c1, c2, |f|);
    JoinLastFirst(f, t, c1, c2);
  }

  // ----- The finished tree ----------------------------------------------------------------

  /** No symbol has a longer code than the last one. */
  lemma LastDeepest(f: Weights, t: Forest, r: nat, x: nat)
    requires Shaped(t, |f|) && Ordered(f, t) && AllAlive(f) && x < |f|
    requires Alive(t.w, r) && forall i :: Alive(t.w, i) ==> i == r
    ensures t.size[x] <= t.size[|f| - 1]
  {
    if t.nodes == [] {
      assert Alive(t.w, x) && Alive(t.w, |f| - 1);
    }
  }
}
