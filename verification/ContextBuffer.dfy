/** The circular buffer of three row groups that context mode downsamples from
    (create_context_buffer and pre_process_context, jcprepct.c), as values.
 */
module ContextBuffer {
  import opened RowWindows

  /** The row pointers: three row groups in the middle, the last one again above
      them and the first one again below.
   */
  ghost predicate Pointers(ptr: seq<nat>, rowGroup: nat) {
    |ptr| == 5 * rowGroup && forall i :: 0 <= i < 5 * rowGroup ==> ptr[i] == PointsTo(i, rowGroup)
  }

  function PointsTo(i: nat, rowGroup: nat): int {
    if i < rowGroup then 2 * rowGroup + i else if i < 4 * rowGroup then i - rowGroup else i - 4 * rowGroup
  }

  function Above(own: nat, rowGroup: nat): int {
    if own == 0 then 2 * rowGroup else own - rowGroup
  }

  function Below(own: nat, rowGroup: nat): int {
    if own == 2 * rowGroup then 0 else own + rowGroup
  }

  function Min(a: int, b: int): int {
    if a < b then a else b
  }

  /** The row group at `own` starts with image row `at`; `have` rows have been
      stored, counting repetitions of the last one.  Once `topped`, the group above
      is there too.
   */
  ghost predicate State(buf: seq<Row>, image: seq<Row>, rowGroup: nat, own: nat, at: nat, have: nat, topped: bool) {
    && image != [] && rowGroup >= 1 && |buf| == 3 * rowGroup && (own == 0 || own == rowGroup || own == 2 * rowGroup)
    && at <= have <= at + 2 * rowGroup
    && (at == 0 ==> own == 0) && (at > 0 ==> topped && at >= rowGroup && have >= at + rowGroup)
    && (topped ==> Holds(buf, Above(own, rowGroup), image, at - rowGroup, rowGroup))
    && Holds(buf, own, image, at, Min(rowGroup, have - at))
    && (have > at + rowGroup ==> Holds(buf, Below(own, rowGroup), image, at + rowGroup, have - at - rowGroup))
  }

  /** Where the next row goes. */
  function NextRow(rowGroup: nat, own: nat, at: nat, have: nat): int {
    if at == 0 then have else Below(own, rowGroup) + (have - at - rowGroup)
  }

  lemma StoreOne(buf: seq<Row>, image: seq<Row>, rowGroup: nat, own: nat, at: nat, have: nat, topped: bool, p: nat)
    requires State(buf, image, rowGroup, own, at, have, topped) && have < at + 2 * rowGroup
    requires p == NextRow(rowGroup, own, at, have)
    ensures p < |buf| == 3 * rowGroup
            && State(buf[p := Clamped(image, have)], image, rowGroup, own, at, have + 1, topped)
  {
    hide Holds, Clamped;
    var x := Clamped(image, have);
    var above, below := Above(own, rowGroup), Below(own, rowGroup);
    HoldsBounds(buf, own, image, at, Min(rowGroup, have - at));
    if topped { HoldsApart(buf, above, image, at - rowGroup, rowGroup, p, x); }
    if have < at + rowGroup {
      assert p == own + (have - at);
      HoldsMore(buf, own, image, at, have - at, x);
    } else {
      assert p == below + (have - at - rowGroup);
      HoldsApart(buf, own, image, at, rowGroup, p, x);
      if have == at + rowGroup { HoldsNone(buf, below, image, at + rowGroup); }
      HoldsMore(buf, below, image, at + rowGroup, have - at - rowGroup, x);
    }
  }

  lemma HoldsBounds(buf: seq<Row>, off: int, image: seq<Row>, from: int, n: int)
    requires image != [] && Holds(buf, off, image, from, n)
    ensures 0 <= off && off + n <= |buf|
  {
  }

  lemma HoldsNone(buf: seq<Row>, off: int, image: seq<Row>, from: int)
    requires image != [] && 0 <= off <= |buf|
    ensures Holds(buf, off, image, from, 0)
  {
  }

  lemma HoldsApart(buf: seq<Row>, off: int, image: seq<Row>, from: int, n: int, p: nat, x: Row)
    requires image != [] && Holds(buf, off, image, from, n) && p < |buf| && (p < off || p >= off + n)
    ensures Holds(buf[p := x], off, image, from, n)
  {
  }

  lemma HoldsMore(buf: seq<Row>, off: int, image: seq<Row>, from: int, n: nat, x: Row)
    requires image != [] && Holds(buf, off, image, from, n) && off + n < |buf| && x == Clamped(image, from + n)
    ensures Holds(buf[off + n := x], off, image, from, n + 1)
  {
  }

  /** Rows above the image repeat its first row. */
  lemma Topped(buf: seq<Row>, buf': seq<Row>, image: seq<Row>, rowGroup: nat, have: nat)
    requires State(buf, image, rowGroup, 0, 0, have, false) && have >= 1 && |buf'| == |buf|
    requires forall p :: 0 <= p < 2 * rowGroup ==> buf'[p] == buf[p]
    requires forall p :: 2 * rowGroup <= p < 3 * rowGroup ==> buf'[p] == buf[0]
    ensures State(buf', image, rowGroup, 0, 0, have, true)
  {
  }

  /** The row before the next one, through the pointers: the last row stored. */
  lemma LastStored(buf: seq<Row>, ptr: seq<nat>, image: seq<Row>, rowGroup: nat, own: nat, at: nat, have: nat)
    requires State(buf, image, rowGroup, own, at, have, true) && Pointers(ptr, rowGroup) && have >= 1
    ensures var i := rowGroup + NextRow(rowGroup, own, at, have) - 1;
            0 <= i < |ptr| && 0 <= ptr[i] < |buf| && buf[ptr[i]] == Clamped(image, have - 1)
  {
  }

  /** The group, the one above and the one below, through the pointers. */
  lemma WindowThrough(buf: seq<Row>, ptr: seq<nat>, image: seq<Row>, rowGroup: nat, own: nat, at: nat, j: nat)
    requires State(buf, image, rowGroup, own, at, at + 2 * rowGroup, true) && Pointers(ptr, rowGroup)
             && j < 3 * rowGroup
    ensures own + j < |ptr| && 0 <= ptr[own + j] < |buf| && buf[ptr[own + j]] == Clamped(image, at - rowGroup + j)
  {
  }

  /** The group below becomes the group. */
  lemma Advance(buf: seq<Row>, image: seq<Row>, rowGroup: nat, own: nat, at: nat)
    requires State(buf, image, rowGroup, own, at, at + 2 * rowGroup, true)
    ensures State(buf, image, rowGroup, Below(own, rowGroup), at + rowGroup, at + 2 * rowGroup, true)
  {
  }
}
