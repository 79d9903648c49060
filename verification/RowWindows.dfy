/** What the downsampler is meant to see: the image with its first and last rows
    repeated above and below it.
 */
module RowWindows {
  import opened Arithmetic

  /** One component's samples of a color-converted row. */
  type Row = seq<int>

  /** Row `l` of the image, or the nearest one. */
  function Clamped(image: seq<Row>, l: int): Row
    requires image != []
  {
    if l < 0 then image[0] else if l >= |image| then image[|image| - 1] else image[l]
  }

  /** `n` rows from row `from` on. */
  function Window(image: seq<Row>, from: int, n: nat): (w: seq<Row>)
    requires image != []
    ensures |w| == n
  {
    seq(n, j requires 0 <= j < n => Clamped(image, from + j))
  }

  /** Rows `from..from + n` of the clamped image lie in the buffer from `off` on. */
  ghost predicate Holds(buf: seq<Row>, off: int, image: seq<Row>, from: int, n: int)
    requires image != []
  {
    0 <= off && off + n <= |buf| && forall p :: off <= p < off + n ==> buf[p] == Clamped(image, from + (p - off))
  }

  /** An output row: the r-th row that downsampling a window of rows gives. */
  datatype OutRow = OutRow(window: seq<Row>, r: nat)

  /** All output rows of one row group. */
  function Downsampled(window: seq<Row>, rows: nat): (g: seq<OutRow>)
    ensures |g| == rows
  {
    seq(rows, r requires 0 <= r < rows => OutRow(window, r))
  }

  /** The first image row of row group `m`. */
  ghost function Start(rowGroup: nat, m: nat): nat {
    if m == 0 then 0 else Start(rowGroup, m - 1) + rowGroup
  }

  lemma {:induction false} StartGrows(rowGroup: nat, m: nat, n: nat)
    requires m <= n
    ensures Start(rowGroup, m) <= Start(rowGroup, n)
    decreases n
  {
    if m < n { StartGrows(rowGroup, m, n - 1); }
  }

  /** Row group `m` with context: the group above, its own rows and the group below. */
  ghost function ContextGroup(image: seq<Row>, rowGroup: nat, rows: nat, m: nat): (g: seq<OutRow>)
    requires image != []
    ensures |g| == rows
  {
    Downsampled(Window(image, Start(rowGroup, m) - rowGroup, 3 * rowGroup), rows)
  }

  /** Row group `m` without context; past the image the last output row repeats. */
  ghost function SimpleGroup(image: seq<Row>, rowGroup: nat, rows: nat, m: nat): (g: seq<OutRow>)
    requires image != [] && rows >= 1
    ensures |g| == rows
    decreases m
  {
    if m == 0 || Start(rowGroup, m) < |image| then Downsampled(Window(image, Start(rowGroup, m), rowGroup), rows)
    else seq(rows, _ => SimpleGroup(image, rowGroup, rows, m - 1)[rows - 1])
  }

  ghost function Group(image: seq<Row>, context: bool, rowGroup: nat, rows: nat, m: nat): (g: seq<OutRow>)
    requires image != [] && rows >= 1
    ensures |g| == rows
  {
    if context then ContextGroup(image, rowGroup, rows, m) else SimpleGroup(image, rowGroup, rows, m)
  }

  // ----- What that is -------------------------------------------------------------------------------

  /** Every row shown is the image's own or, outside the image, the nearest one. */
  lemma ClampedIsNearest(image: seq<Row>, l: int) returns (k: nat)
    requires image != []
    ensures k < |image| && Clamped(image, l) == image[k]
    ensures (0 <= l < |image| ==> k == l) && forall j :: 0 <= j < |image| ==> Distance(k, l) <= Distance(j, l)
  {
    k := if l < 0 then 0 else if l >= |image| then |image| - 1 else l;
  }

  function Distance(a: int, b: int): nat {
    if a < b then b - a else a - b
  }

  lemma {:induction false} StartIs(rowGroup: nat, m: nat)
    ensures Start(rowGroup, m) == rowGroup * m
    decreases m
  {
    if m > 0 { StartIs(rowGroup, m - 1); }
  }

  /** With context rows each output row is made from its row group, the one above
      and the one below.
   */
  lemma ContextGroupAt(image: seq<Row>, rowGroup: nat, rows: nat, m: nat, r: nat, j: nat)
    requires image != [] && r < rows && j < 3 * rowGroup
    ensures var w := Group(image, true, rowGroup, rows, m)[r];
            w.r == r && |w.window| == 3 * rowGroup && w.window[j] == Clamped(image, rowGroup * m - rowGroup + j)
  {
    StartIs(rowGroup, m);
  }

  /** Without them it is made from its row group alone, and below the image the last
      output row goes on.
   */
  lemma SimpleGroupAt(image: seq<Row>, rowGroup: nat, rows: nat, m: nat, r: nat, j: nat)
    requires image != [] && r < rows && j < rowGroup && (m == 0 || rowGroup * m < |image|)
    ensures var w := Group(image, false, rowGroup, rows, m)[r];
            w.r == r && |w.window| == rowGroup && w.window[j] == Clamped(image, rowGroup * m + j)
  {
    StartIs(rowGroup, m);
  }

  lemma {:induction false} LastRowGoesOn(image: seq<Row>, rowGroup: nat, rows: nat, last: nat, m: nat, r: nat)
    requires image != [] && rowGroup >= 1 && r < rows && last < m
    requires last == 0 || rowGroup * last < |image|
    requires |image| <= rowGroup * last + rowGroup
    ensures Group(image, false, rowGroup, rows, m)[r] == Group(image, false, rowGroup, rows, last)[rows - 1]
    decreases m
  {
    assert Start(rowGroup, m) >= |image| by {
      hide SimpleGroup;
      StartIs(rowGroup, m);
      MultipleApart(last, m, rowGroup);
    }
    if last < m - 1 { LastRowGoesOn(image, rowGroup, rows, last, m - 1, rows - 1); }
  }
}
