/** The symbol list of a Huffman table, sorted by code length in place
    (jpeg_gen_optimal_table, jchuff.c).
 */
module SymbolOrder {
  import opened CodeBytes
  import opened HuffmanLimit

  /** The symbols among the first `n` whose code length is `k`, in order. */
  ghost function OfLength(size: seq<nat>, syms: seq<nat>, n: nat, k: nat): (s: seq<nat>)
    requires n <= |size| && n <= |syms|
    ensures |s| == Having(size, n, k)
  {
    if n == 0 then []
    else OfLength(size, syms, n - 1, k) + if size[n - 1] == k then [syms[n - 1]] else []
  }

  /** The first `n` symbols whose code length is 1 to `k`, by length. */
  ghost function ByLength(size: seq<nat>, syms: seq<nat>, n: nat, k: nat): seq<nat>
    requires n <= |size| && n <= |syms|
  {
    if k == 0 then [] else ByLength(size, syms, n, k - 1) + OfLength(size, syms, n, k)
  }

  /** Only the first `n` symbols matter. */
  lemma {:induction false} HavingPrefix(size: seq<nat>, size': seq<nat>, n: nat, k: nat)
    requires n <= |size| && n <= |size'| && size[..n] == size'[..n]
    ensures Having(size, n, k) == Having(size', n, k)
    decreases n
  {
    if n > 0 {
      assert size[n - 1] == size[..n][n - 1] == size'[n - 1];
      assert size[..n - 1] == size[..n][..n - 1] == size'[..n - 1];
      HavingPrefix(size, size', n - 1, k);
    }
  }

  lemma {:induction false} OfLengthPrefix(size: seq<nat>, syms: seq<nat>, size': seq<nat>, syms': seq<nat>, n: nat,
                                          k: nat)
    requires n <= |size| && n <= |size'| && n <= |syms| && n <= |syms'|
    requires size[..n] == size'[..n] && syms[..n] == syms'[..n]
    ensures OfLength(size, syms, n, k) == OfLength(size', syms', n, k)
    decreases n
  {
    if n > 0 {
      assert size[n - 1] == size[..n][n - 1] == size'[n - 1] && syms[n - 1] == syms[..n][n - 1] == syms'[n - 1];
      assert size[..n - 1] == size[..n][..n - 1] == size'[..n - 1];
      assert syms[..n - 1] == syms[..n][..n - 1] == syms'[..n - 1];
      OfLengthPrefix(size, syms, size', syms', n - 1, k);
    }
  }

  lemma {:induction false} ByLengthPrefix(size: seq<nat>, syms: seq<nat>, size': seq<nat>, syms': seq<nat>, n: nat,
                                          k: nat)
    requires n <= |size| && n <= |size'| && n <= |syms| && n <= |syms'|
    requires size[..n] == size'[..n] && syms[..n] == syms'[..n]
    ensures ByLength(size, syms, n, k) == ByLength(size', syms', n, k)
    decreases k
  {
    if k > 0 {
      ByLengthPrefix(size, syms, size', syms', n, k - 1);
      OfLengthPrefix(size, syms, size', syms', n, k);
    }
  }

  /** How many symbols of the first `n` have code length 1 to `k`. */
  ghost function HavingUpTo(size: seq<nat>, n: nat, k: nat): nat
    requires n <= |size|
  {
    if k == 0 then 0 else HavingUpTo(size, n, k - 1) + Having(size, n, k)
  }

  lemma {:induction false} ByLengthCount(size: seq<nat>, syms: seq<nat>, n: nat, k: nat)
    requires n <= |size| && n <= |syms|
    ensures |ByLength(size, syms, n, k)| == HavingUpTo(size, n, k)
    decreases k
  {
    if k > 0 { ByLengthCount(size, syms, n, k - 1); }
  }

  lemma {:induction false} HavingGrows(size: seq<nat>, i: nat, n: nat, k: nat)
    requires i <= n <= |size|
    ensures Having(size, i, k) <= Having(size, n, k)
    ensures i < n && size[i] == k ==> Having(size, i, k) < Having(size, n, k)
    decreases n
  {
    if i < n - 1 { HavingGrows(size, i, n - 1, k); }
  }

  lemma {:induction false} HavingUpToGrows(size: seq<nat>, n: nat, j: nat, k: nat)
    requires n <= |size| && j <= k
    ensures HavingUpTo(size, n, j) <= HavingUpTo(size, n, k)
    decreases k
  {
    if j < k { HavingUpToGrows(size, n, j, k - 1); }
  }

  /** One symbol counts for its own length and the longer ones. */
  lemma {:induction false} UpToNext(size: seq<nat>, n: nat, k: nat)
    requires 1 <= n <= |size|
    ensures HavingUpTo(size, n, k) == HavingUpTo(size, n - 1, k) + if 1 <= size[n - 1] <= k then 1 else 0
    decreases k
  {
    if k > 0 { UpToNext(size, n, k - 1); }
  }

  lemma {:induction false} UpToAll(size: seq<nat>, n: nat, k: nat)
    requires n <= |size|
    ensures HavingUpTo(size, n, k) <= n
    ensures (forall x :: 0 <= x < n ==> 1 <= size[x] <= k) ==> HavingUpTo(size, n, k) == n
    decreases n
  {
    if n == 0 {
      NoneUpTo(size, k);
    } else {
      UpToAll(size, n - 1, k);
      UpToNext(size, n, k);
    }
  }

  lemma {:induction false} NoneUpTo(size: seq<nat>, k: nat)
    ensures HavingUpTo(size, 0, k) == 0
    decreases k
  {
    if k > 0 { NoneUpTo(size, k - 1); }
  }

  /** How often `v` is in the list. */
  ghost function Occurs(s: seq<nat>, v: nat): nat {
    multiset(s)[v]
  }

  lemma OccursConcat(a: seq<nat>, b: seq<nat>, v: nat)
    ensures Occurs(a + b, v) == Occurs(a, v) + Occurs(b, v)
  {
  }

  lemma OccursOne(x: nat, v: nat)
    ensures Occurs([x], v) == if x == v then 1 else 0
  {
  }

  lemma {:induction false} OccursSomewhere(s: seq<nat>, v: nat)
    ensures v in s <==> Occurs(s, v) > 0
  {
  }

  lemma OccursTwice(s: seq<nat>, p: nat, q: nat)
    requires p < q < |s| && s[p] == s[q]
    ensures Occurs(s, s[p]) >= 2
  {
    hide Occurs;
    assert s == s[..q] + s[q..] && s[..q][p] == s[p] && s[q..][0] == s[q];
    OccursConcat(s[..q], s[q..], s[p]);
    OccursSomewhere(s[..q], s[p]);
    OccursSomewhere(s[q..], s[p]);
  }

  lemma {:induction false} OccursOnce(s: seq<nat>, v: nat)
    requires forall i, j :: 0 <= i < j < |s| ==> s[i] < s[j]
    ensures Occurs(s, v) <= 1
    decreases |s|
  {
    hide Occurs;
    if s == [] {
      OccursSomewhere(s, v);
    } else {
      var rest, x := s[..|s| - 1], s[|s| - 1];
      assert s == rest + [x];
      OccursConcat(rest, [x], v);
      OccursOne(x, v);
      OccursOnce(rest, v);
      OccursSomewhere(rest, v);
    }
  }

  lemma OneMoreOfLength(size: seq<nat>, syms: seq<nat>, n: nat, k: nat, v: nat)
    requires 1 <= n <= |size| && n <= |syms|
    ensures Occurs(OfLength(size, syms, n, k), v)
         == Occurs(OfLength(size, syms, n - 1, k), v) + if size[n - 1] == k && syms[n - 1] == v then 1 else 0
  {
    hide Occurs;
    OccursOne(syms[n - 1], v);
    OccursConcat(OfLength(size, syms, n - 1, k), [syms[n - 1]], v);
    assert OfLength(size, syms, n - 1, k) + [] == OfLength(size, syms, n - 1, k);
  }

  lemma {:induction false} OneMore(size: seq<nat>, syms: seq<nat>, n: nat, k: nat, v: nat)
    requires 1 <= n <= |size| && n <= |syms|
    ensures Occurs(ByLength(size, syms, n, k), v)
         == Occurs(ByLength(size, syms, n - 1, k), v) + if 1 <= size[n - 1] <= k && syms[n - 1] == v then 1 else 0
    decreases k
  {
    hide Occurs, OfLength;
    if k > 0 {
      OneMore(size, syms, n, k - 1, v);
      OneMoreOfLength(size, syms, n, k, v);
      OccursConcat(ByLength(size, syms, n - 1, k - 1), OfLength(size, syms, n - 1, k), v);
      OccursConcat(ByLength(size, syms, n, k - 1), OfLength(size, syms, n, k), v);
    }
  }

  /** Sorting keeps each symbol, as often as it was there. */
  lemma {:induction false} SameOccurrences(size: seq<nat>, syms: seq<nat>, n: nat, k: nat, v: nat)
    requires n <= |size| && n <= |syms| && forall x :: 0 <= x < n ==> 1 <= size[x] <= k
    ensures Occurs(ByLength(size, syms, n, k), v) == Occurs(syms[..n], v)
    decreases n
  {
    hide Occurs, OfLength, ByLength;
    if n == 0 {
      NoneByLength(size, syms, k);
      assert syms[..0] == [];
    } else {
      SameOccurrences(size, syms, n - 1, k, v);
      OneMore(size, syms, n, k, v);
      OccursOne(syms[n - 1], v);
      OccursConcat(syms[..n - 1], [syms[n - 1]], v);
      assert syms[..n] == syms[..n - 1] + [syms[n - 1]];
    }
  }

  lemma {:induction false} NoneByLength(size: seq<nat>, syms: seq<nat>, k: nat)
    ensures ByLength(size, syms, 0, k) == []
    decreases k
  {
    if k > 0 { NoneByLength(size, syms, k - 1); }
  }

  // ----- In place ----------------------------------------------------------------------------

  /** The first position for each code length. */
  method BitPositions(bits: array<byte>, ghost size: seq<nat>, ghost n: nat) returns (bitPos: array<nat>)
    requires bits.Length == MAX_CLEN + 1 && n <= |size|
    requires forall k :: 0 <= k < bits.Length ==> bits[k] as nat == Having(size, n, k)
    ensures fresh(bitPos) && bitPos.Length == MAX_CLEN + 1
    ensures forall k :: 1 <= k <= MAX_CLEN ==> bitPos[k] == HavingUpTo(size, n, k - 1)
  {
    hide Having;
    bitPos := new nat[MAX_CLEN + 1];
    var p: nat := 0;
    for i := 1 to MAX_CLEN + 1
      invariant p == HavingUpTo(size, n, i - 1)
      invariant forall k :: 1 <= k < i ==> bitPos[k] == HavingUpTo(size, n, k - 1)
    {
      bitPos[i] := p;
      p := p + bits[i] as nat;
    }
  }

  /** The list holds the symbols of length `k` among the first `i` at their places. */
  ghost predicate Placed(list: seq<byte>, bitPos: seq<nat>, size: seq<nat>, syms: seq<nat>, i: nat, n: nat, k: nat)
    requires i <= n <= |size| && n <= |syms| && k < |bitPos|
  {
    var first, part := if k == 0 then 0 else HavingUpTo(size, n, k - 1), OfLength(size, syms, i, k);
    && bitPos[k] == first + |part| <= |list|
    && forall j :: 0 <= j < |part| ==> list[first + j] as nat == part[j]
  }

  /** Symbol `i` is placed; the places of the other lengths are untouched. */
  lemma PlaceNext(list: seq<byte>, bitPos: seq<nat>, size: seq<nat>, syms: seq<nat>, i: nat, n: nat, k: nat, v: byte)
    requires i < n <= |size| && n <= |syms| && 1 <= k < |bitPos| && 1 <= size[i] < |bitPos|
    requires Placed(list, bitPos, size, syms, i, n, k) && Placed(list, bitPos, size, syms, i, n, size[i])
    requires bitPos[size[i]] < |list| && v as nat == syms[i]
    ensures Placed(list[bitPos[size[i]] := v], bitPos[size[i] := bitPos[size[i]] + 1], size, syms, i + 1, n, k)
  {
    if k == size[i] {
      PlaceHere(list, bitPos, size, syms, i, n, v);
    } else {
      PlaceElsewhere(list, bitPos, size, syms, i, n, k, v);
    }
  }

  lemma PlaceHere(list: seq<byte>, bitPos: seq<nat>, size: seq<nat>, syms: seq<nat>, i: nat, n: nat, v: byte)
    requires i < n <= |size| && n <= |syms| && 1 <= size[i] < |bitPos|
    requires Placed(list, bitPos, size, syms, i, n, size[i])
    requires bitPos[size[i]] < |list| && v as nat == syms[i]
    ensures Placed(list[bitPos[size[i]] := v], bitPos[size[i] := bitPos[size[i]] + 1], size, syms, i + 1, n, size[i])
  {
    hide Having, HavingUpTo;
    var part := OfLength(size, syms, i, size[i]);
    assert OfLength(size, syms, i + 1, size[i]) == part + [syms[i]];
  }

  lemma PlaceElsewhere(list: seq<byte>, bitPos: seq<nat>, size: seq<nat>, syms: seq<nat>, i: nat, n: nat, k: nat,
                       v: byte)
    requires i < n <= |size| && n <= |syms| && 1 <= k < |bitPos| && 1 <= size[i] < |bitPos| && k != size[i]
    requires Placed(list, bitPos, size, syms, i, n, k) && Placed(list, bitPos, size, syms, i, n, size[i])
    requires bitPos[size[i]] < |list|
    ensures Placed(list[bitPos[size[i]] := v], bitPos[size[i] := bitPos[size[i]] + 1], size, syms, i + 1, n, k)
  {
    var l := size[i];
    var part := OfLength(size, syms, i, k);
    assert OfLength(size, syms, i + 1, k) == part;
    Apart(size, i, n, l, k);
  }

  /** The places of different lengths do not meet. */
  lemma Apart(size: seq<nat>, i: nat, n: nat, l: nat, k: nat)
    requires i < n <= |size| && size[i] == l && l >= 1 && k >= 1 && k != l
    ensures k < l ==> HavingUpTo(size, n, k - 1) + Having(size, i, k) <= HavingUpTo(size, n, l - 1)
    ensures l < k ==> HavingUpTo(size, n, l - 1) + Having(size, i, l) < HavingUpTo(size, n, k - 1)
  {
    hide Having, HavingUpTo;
    HavingGrows(size, i, n, l);
    HavingGrows(size, i, n, k);
    OneLength(size, n, l);
    OneLength(size, n, k);
    if k < l {
      HavingUpToGrows(size, n, k, l - 1);
    } else {
      HavingUpToGrows(size, n, l, k - 1);
    }
  }

  lemma OneLength(size: seq<nat>, n: nat, k: nat)
    requires n <= |size| && k >= 1
    ensures HavingUpTo(size, n, k) == HavingUpTo(size, n, k - 1) + Having(size, n, k)
  {
  }

  lemma NonePlaced(list: seq<byte>, bitPos: seq<nat>, size: seq<nat>, syms: seq<nat>, n: nat, k: nat)
    requires n <= |size| && n <= |syms| && n <= |list| && 1 <= k < |bitPos|
    requires bitPos[k] == HavingUpTo(size, n, k - 1)
    ensures Placed(list, bitPos, size, syms, 0, n, k)
  {
    UpToAll(size, n, k - 1);
  }

  /** The list is the sorted one once every symbol is at its place. */
  lemma {:induction false} AllPlaced(list: seq<byte>, bitPos: seq<nat>, size: seq<nat>, syms: seq<nat>, n: nat, k: nat)
    requires n <= |size| && n <= |syms| && k < |bitPos|
    requires forall l :: 1 <= l <= k ==> Placed(list, bitPos, size, syms, n, n, l)
    ensures HavingUpTo(size, n, k) == |ByLength(size, syms, n, k)| <= |list|
    ensures forall p :: 0 <= p < |ByLength(size, syms, n, k)| ==> list[p] as nat == ByLength(size, syms, n, k)[p]
    decreases k
  {
    hide Having;
    if k > 0 {
      AllPlaced(list, bitPos, size, syms, n, k - 1);
      var before, part := ByLength(size, syms, n, k - 1), OfLength(size, syms, n, k);
      assert Placed(list, bitPos, size, syms, n, n, k);
      forall p | 0 <= p < |before + part| ensures list[p] as nat == (before + part)[p] {
        if p >= |before| { assert list[|before| + (p - |before|)] as nat == part[p - |before|]; }
      }
    }
  }

  /** Each symbol goes to the next free place of its code length. */
  method ListSymbols(codesize: array<nat>, nzIndex: array<nat>, n: nat, bitPos: array<nat>, huffval: array<byte>,
                     ghost top: nat)
    requires n <= codesize.Length && n <= nzIndex.Length && bitPos.Length == MAX_CLEN + 1 && huffval.Length == 256
    requires bitPos != codesize && bitPos != nzIndex && n <= 256 && top <= MAX_CLEN
    requires forall x :: 0 <= x < n ==> 1 <= codesize[x] <= top && nzIndex[x] < 256
    requires forall k :: 1 <= k <= top ==> bitPos[k] == HavingUpTo(codesize[..], n, k - 1)
    modifies bitPos, huffval
    ensures |ByLength(codesize[..], nzIndex[..], n, top)| == n
    ensures forall p :: 0 <= p < n ==> huffval[p] as nat == ByLength(codesize[..], nzIndex[..], n, top)[p]
  {
    hide Having, HavingUpTo, ByLength, Placed;
    ghost var size, syms := codesize[..], nzIndex[..];
    forall k | 1 <= k <= top ensures Placed(huffval[..], bitPos[..], size, syms, 0, n, k) {
      NonePlaced(huffval[..], bitPos[..], size, syms, n, k);
    }
    for i := 0 to n
      invariant codesize[..] == size && nzIndex[..] == syms
      invariant forall k :: 1 <= k <= top ==> Placed(huffval[..], bitPos[..], size, syms, i, n, k)
    {
      assert codesize[i] == size[i] && nzIndex[i] == syms[i];
      ghost var list, pos := huffval[..], bitPos[..];
      PlaceFree(list, pos, size, syms, i, n);
      ghost var next := i + 1;
      ghost var list', pos' := list[pos[size[i]] := syms[i]], pos[size[i] := pos[size[i]] + 1];
      forall k | 1 <= k <= top ensures Placed(list', pos', size, syms, next, n, k) {
        PlaceNext(list, pos, size, syms, i, n, k, syms[i]);
      }
      huffval[bitPos[codesize[i]]] := nzIndex[i];
      bitPos[codesize[i]] := bitPos[codesize[i]] + 1;
      assert huffval[..] == list' && bitPos[..] == pos';
    }
    AllPlaced(huffval[..], bitPos[..], size, syms, n, top);
    UpToAll(size, n, top);
  }

  /** There is a free place. */
  lemma PlaceFree(list: seq<byte>, bitPos: seq<nat>, size: seq<nat>, syms: seq<nat>, i: nat, n: nat)
    requires i < n <= |size| && n <= |syms| && n <= |list| && 1 <= size[i] < |bitPos|
    requires Placed(list, bitPos, size, syms, i, n, size[i])
    ensures bitPos[size[i]] < n
  {
    HavingGrows(size, i, n, size[i]);
    OneLength(size, n, size[i]);
    UpToAll(size, n, size[i]);
  }

  // ----- Where a symbol is ---------------------------------------------------------------------

  lemma {:induction false} OfLengthAt(size: seq<nat>, syms: seq<nat>, x: nat, n: nat)
    requires x < n <= |size| && n <= |syms|
    ensures Having(size, x, size[x]) < |OfLength(size, syms, n, size[x])|
    ensures OfLength(size, syms, n, size[x])[Having(size, x, size[x])] == syms[x]
    decreases n
  {
    if x < n - 1 {
      OfLengthAt(size, syms, x, n - 1);
      assert OfLength(size, syms, n - 1, size[x]) <= OfLength(size, syms, n, size[x]);
    }
  }

  /** Symbol `x` stands among those of its own length. */
  lemma {:induction false} ByLengthAt(size: seq<nat>, syms: seq<nat>, x: nat, n: nat, k: nat)
    requires x < n <= |size| && n <= |syms| && 1 <= size[x] <= k
    ensures var p := HavingUpTo(size, n, size[x] - 1) + Having(size, x, size[x]);
            p < HavingUpTo(size, n, size[x]) <= |ByLength(size, syms, n, k)| && ByLength(size, syms, n, k)[p] == syms[x]
    decreases k
  {
    hide Having;
    OfLengthAt(size, syms, x, n);
    OneLength(size, n, size[x]);
    ByLengthCount(size, syms, n, k);
    HavingUpToGrows(size, n, size[x], k);
    if k == size[x] {
      ByLengthCount(size, syms, n, k - 1);
    } else {
      ByLengthAt(size, syms, x, n, k - 1);
      ByLengthCount(size, syms, n, k - 1);
      HavingUpToGrows(size, n, size[x], k - 1);
    }
  }
}
