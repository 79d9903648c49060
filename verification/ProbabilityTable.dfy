/** The probability estimation state machine that both arithmetic coders share
    (jaricom.c): Table D.2 of ITU-T T.81.  The source packs a row into one
    integer and unpacks it at each use; here a row is a record.  Everything
    else is stated for any table of this shape, of which JPEG_ARITAB is one.
 */
module ProbabilityTable {

  /** Qe value, next state after an LPS, next state after an MPS, and whether
      coding an LPS exchanges the sense of the more probable symbol.
   */
  datatype Estimate = Estimate(qe: nat, nextLps: nat, nextMps: nat, exchange: bool) {
    predicate InRange() {
      1 <= qe < 0x8000 && nextLps < 114 && nextMps < 114
    }
  }

  function Rows0To35(i: nat): (row: Estimate)
    ensures row.InRange()
  {
    match i
    case 0 => Estimate(0x5a1d, 1, 1, true)
    case 1 => Estimate(0x2586, 14, 2, false)
    case 2 => Estimate(0x1114, 16, 3, false)
    case 3 => Estimate(0x080b, 18, 4, false)
    case 4 => Estimate(0x03d8, 20, 5, false)
    case 5 => Estimate(0x01da, 23, 6, false)
    case 6 => Estimate(0x00e5, 25, 7, false)
    case 7 => Estimate(0x006f, 28, 8, false)
    case 8 => Estimate(0x0036, 30, 9, false)
    case 9 => Estimate(0x001a, 33, 10, false)
    case 10 => Estimate(0x000d, 35, 11, false)
    case 11 => Estimate(0x0006, 9, 12, false)
    case 12 => Estimate(0x0003, 10, 13, false)
    case 13 => Estimate(0x0001, 12, 13, false)
    case 14 => Estimate(0x5a7f, 15, 15, true)
    case 15 => Estimate(0x3f25, 36, 16, false)
    case 16 => Estimate(0x2cf2, 38, 17, false)
    case 17 => Estimate(0x207c, 39, 18, false)
    case 18 => Estimate(0x17b9, 40, 19, false)
    case 19 => Estimate(0x1182, 42, 20, false)
    case 20 => Estimate(0x0cef, 43, 21, false)
    case 21 => Estimate(0x09a1, 45, 22, false)
    case 22 => Estimate(0x072f, 46, 23, false)
    case 23 => Estimate(0x055c, 48, 24, false)
    case 24 => Estimate(0x0406, 49, 25, false)
    case 25 => Estimate(0x0303, 51, 26, false)
    case 26 => Estimate(0x0240, 52, 27, false)
    case 27 => Estimate(0x01b1, 54, 28, false)
    case 28 => Estimate(0x0144, 56, 29, false)
    case 29 => Estimate(0x00f5, 57, 30, false)
    case 30 => Estimate(0x00b7, 59, 31, false)
    case 31 => Estimate(0x008a, 60, 32, false)
    case 32 => Estimate(0x0068, 62, 33, false)
    case 33 => Estimate(0x004e, 63, 34, false)
    case 34 => Estimate(0x003b, 32, 35, false)
    case _ => Estimate(0x002c, 33, 9, false)
  }

  function Rows36To63(i: nat): (row: Estimate)
    ensures row.InRange()
  {
    match i
    case 36 => Estimate(0x5ae1, 37, 37, true)
    case 37 => Estimate(0x484c, 64, 38, false)
    case 38 => Estimate(0x3a0d, 65, 39, false)
    case 39 => Estimate(0x2ef1, 67, 40, false)
    case 40 => Estimate(0x261f, 68, 41, false)
    case 41 => Estimate(0x1f33, 69, 42, false)
    case 42 => Estimate(0x19a8, 70, 43, false)
    case 43 => Estimate(0x1518, 72, 44, false)
    case 44 => Estimate(0x1177, 73, 45, false)
    case 45 => Estimate(0x0e74, 74, 46, false)
    case 46 => Estimate(0x0bfb, 75, 47, false)
    case 47 => Estimate(0x09f8, 77, 48, false)
    case 48 => Estimate(0x0861, 78, 49, false)
    case 49 => Estimate(0x0706, 79, 50, false)
    case 50 => Estimate(0x05cd, 48, 51, false)
    case 51 => Estimate(0x04de, 50, 52, false)
    case 52 => Estimate(0x040f, 50, 53, false)
    case 53 => Estimate(0x0363, 51, 54, false)
    case 54 => Estimate(0x02d4, 52, 55, false)
    case 55 => Estimate(0x025c, 53, 56, false)
    case 56 => Estimate(0x01f8, 54, 57, false)
    case 57 => Estimate(0x01a4, 55, 58, false)
    case 58 => Estimate(0x0160, 56, 59, false)
    case 59 => Estimate(0x0125, 57, 60, false)
    case 60 => Estimate(0x00f6, 58, 61, false)
    case 61 => Estimate(0x00cb, 59, 62, false)
    case 62 => Estimate(0x00ab, 61, 63, false)
    case _ => Estimate(0x008f, 61, 32, false)
  }

  function Rows64To87(i: nat): (row: Estimate)
    ensures row.InRange()
  {
    match i
    case 64 => Estimate(0x5b12, 65, 65, true)
    case 65 => Estimate(0x4d04, 80, 66, false)
    case 66 => Estimate(0x412c, 81, 67, false)
    case 67 => Estimate(0x37d8, 82, 68, false)
    case 68 => Estimate(0x2fe8, 83, 69, false)
    case 69 => Estimate(0x293c, 84, 70, false)
    case 70 => Estimate(0x2379, 86, 71, false)
    case 71 => Estimate(0x1edf, 87, 72, false)
    case 72 => Estimate(0x1aa9, 87, 73, false)
    case 73 => Estimate(0x174e, 72, 74, false)
    case 74 => Estimate(0x1424, 72, 75, false)
    case 75 => Estimate(0x119c, 74, 76, false)
    case 76 => Estimate(0x0f6b, 74, 77, false)
    case 77 => Estimate(0x0d51, 75, 78, false)
    case 78 => Estimate(0x0bb6, 77, 79, false)
    case 79 => Estimate(0x0a40, 77, 48, false)
    case 80 => Estimate(0x5832, 80, 81, true)
    case 81 => Estimate(0x4d1c, 88, 82, false)
    case 82 => Estimate(0x438e, 89, 83, false)
    case 83 => Estimate(0x3bdd, 90, 84, false)
    case 84 => Estimate(0x34ee, 91, 85, false)
    case 85 => Estimate(0x2eae, 92, 86, false)
    case 86 => Estimate(0x299a, 93, 87, false)
    case _ => Estimate(0x2516, 86, 71, false)
  }

  function Rows88To113(i: nat): (row: Estimate)
    ensures row.InRange()
  {
    match i
    case 88 => Estimate(0x5570, 88, 89, true)
    case 89 => Estimate(0x4ca9, 95, 90, false)
    case 90 => Estimate(0x44d9, 96, 91, false)
    case 91 => Estimate(0x3e22, 97, 92, false)
    case 92 => Estimate(0x3824, 99, 93, false)
    case 93 => Estimate(0x32b4, 99, 94, false)
    case 94 => Estimate(0x2e17, 93, 86, false)
    case 95 => Estimate(0x56a8, 95, 96, true)
    case 96 => Estimate(0x4f46, 101, 97, false)
    case 97 => Estimate(0x47e5, 102, 98, false)
    case 98 => Estimate(0x41cf, 103, 99, false)
    case 99 => Estimate(0x3c3d, 104, 100, false)
    case 100 => Estimate(0x375e, 99, 93, false)
    case 101 => Estimate(0x5231, 105, 102, false)
    case 102 => Estimate(0x4c0f, 106, 103, false)
    case 103 => Estimate(0x4639, 107, 104, false)
    case 104 => Estimate(0x415e, 103, 99, false)
    case 105 => Estimate(0x5627, 105, 106, true)
    case 106 => Estimate(0x50e7, 108, 107, false)
    case 107 => Estimate(0x4b85, 109, 103, false)
    case 108 => Estimate(0x5597, 110, 109, false)
    case 109 => Estimate(0x504f, 111, 107, false)
    case 110 => Estimate(0x5a10, 110, 111, true)
    case 111 => Estimate(0x5522, 112, 109, false)
    case 112 => Estimate(0x59eb, 112, 111, true)
    case _ => Estimate(0x5a1d, 113, 113, false)
  }

  /** The table, by state index. */
  function Row(i: nat): (row: Estimate)
    requires i < 114
    ensures row.InRange()
  {
    if i < 36 then Rows0To35(i)
    else if i < 64 then Rows36To63(i)
    else if i < 88 then Rows64To87(i)
    else Rows88To113(i)
  }

  type Table = t: seq<Estimate> | |t| == 114 && (forall i :: 0 <= i < 114 ==> t[i].InRange())
    witness AllRows()

  function AllRows(): (t: seq<Estimate>)
    ensures |t| == 114 && forall i :: 0 <= i < 114 ==> t[i].InRange()
  {
    seq(114, i requires 0 <= i < 114 => Row(i))
  }

  /** A row of the state machine does what it is for: a more probable symbol lowers
      the estimate of the other one, except in the last state of the first chain;
      a less probable symbol raises it, except in rows that exchange the two.
   */
  predicate Adapts(i: nat)
    requires i < 114
  {
    var row := Row(i);
    (Row(row.nextMps).qe < row.qe <==> i != 13) && (Row(row.nextLps).qe <= row.qe <==> row.exchange)
  }

  lemma Adapts0To17(i: nat)
    requires 0 <= i <= 17
    ensures Adapts(i)
  {
  }

  lemma Adapts18To26(i: nat)
    requires 18 <= i <= 26
    ensures Adapts(i)
  {
  }

  lemma Adapts27To35(i: nat)
    requires 27 <= i <= 35
    ensures Adapts(i)
  {
  }

  lemma Adapts36To49(i: nat)
    requires 36 <= i <= 49
    ensures Adapts(i)
  {
  }

  lemma Adapts50To56(i: nat)
    requires 50 <= i <= 56
    ensures Adapts(i)
  {
  }

  lemma Adapts57To63(i: nat)
    requires 57 <= i <= 63
    ensures Adapts(i)
  {
  }

  lemma Adapts64To75(i: nat)
    requires 64 <= i <= 75
    ensures Adapts(i)
  {
  }

  lemma Adapts76To87(i: nat)
    requires 76 <= i <= 87
    ensures Adapts(i)
  {
  }

  lemma Adapts88To100(i: nat)
    requires 88 <= i <= 100
    ensures Adapts(i)
  {
  }

  lemma Adapts101To106(i: nat)
    requires 101 <= i <= 106
    ensures Adapts(i)
  {
  }

  lemma Adapts107To112(i: nat)
    requires 107 <= i <= 112
    ensures Adapts(i)
  {
  }

  /** All rows adapt so, except the reserved one. */
  lemma EstimatesAdapt(i: nat)
    requires i < 113
    ensures Row(Row(i).nextMps).qe < Row(i).qe <==> i != 13
    ensures Row(Row(i).nextLps).qe <= Row(i).qe <==> Row(i).exchange
  {
    assert Adapts(i) by {
      hide Adapts;
      if i <= 17 { Adapts0To17(i); }
      else if i <= 26 { Adapts18To26(i); }
      else if i <= 35 { Adapts27To35(i); }
      else if i <= 49 { Adapts36To49(i); }
      else if i <= 56 { Adapts50To56(i); }
      else if i <= 63 { Adapts57To63(i); }
      else if i <= 75 { Adapts64To75(i); }
      else if i <= 87 { Adapts76To87(i); }
      else if i <= 100 { Adapts88To100(i); }
      else if i <= 106 { Adapts101To106(i); }
      else { Adapts107To112(i); }
    }
    hide Row;
  }

  const JPEG_ARITAB: Table := AllRows()

  /** One byte of statistics: the sense of the more probable symbol in the top
      bit and the state index in the other seven.
   */
  type Stat = s: int | 0 <= s < 256 && s % 128 < 114

  /** The state both coders reserve for decisions of fixed probability one half. */
  const FIXED_STAT: Stat := 113

  /** True exactly when the more probable symbol is 1. */
  predicate Mps(s: Stat) {
    s >= 128
  }

  function Qe(t: Table, s: Stat): (qe: nat)
    ensures 1 <= qe < 0x8000
  {
    t[s % 128].qe
  }

  function WithSense(sense: bool, state: nat): Stat
    requires state < 114
  {
    if sense then 128 + state else state
  }

  function AfterLps(t: Table, s: Stat): Stat {
    WithSense(Mps(s) != t[s % 128].exchange, t[s % 128].nextLps)
  }

  function AfterMps(t: Table, s: Stat): Stat {
    WithSense(Mps(s), t[s % 128].nextMps)
  }

  /** The more probable symbol changes sides exactly after a less probable one in
      a row marked for it, and the next row is the one listed for what was coded.
   */
  lemma SenseAfter(t: Table, s: Stat)
    ensures Mps(AfterMps(t, s)) == Mps(s) && AfterMps(t, s) % 128 == t[s % 128].nextMps
    ensures (Mps(AfterLps(t, s)) != Mps(s) <==> t[s % 128].exchange) && AfterLps(t, s) % 128 == t[s % 128].nextLps
  {
  }

  /** The reserved state never adapts. */
  lemma FixedStays()
    ensures AfterMps(JPEG_ARITAB, FIXED_STAT) == FIXED_STAT == AfterLps(JPEG_ARITAB, FIXED_STAT)
  {
  }
}
