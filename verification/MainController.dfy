/** The main controller (process_data_simple_main, jcmainct.c) and the call that
    drives it (jpeg_write_scanlines, jcapistd.c).
 */
module MainController {
  import opened Arithmetic
  import opened RowWindows
  import opened PrepController

  const DCTSIZE := 8

  /** The k-th iMCU row of the downsampled image. */
  ghost function IMcuRow(image: seq<Row>, context: bool, rowGroup: nat, rows: nat, k: nat): (r: seq<seq<OutRow>>)
    requires image != [] && rows >= 1
    ensures |r| == DCTSIZE
  {
    seq(DCTSIZE, i requires 0 <= i < DCTSIZE => Group(image, context, rowGroup, rows, DCTSIZE * k + i))
  }

  /** As many iMCU rows as hold rows of the image. */
  ghost predicate Total(total: nat, rowGroup: nat, height: nat) {
    total >= 1 && Start(rowGroup, DCTSIZE * (total - 1)) < height <= Start(rowGroup, DCTSIZE * total)
  }

  /** total_iMCU_rows in initial_setup: a division rounding up. */
  function IMcuRows(rowGroup: nat, height: nat): int
    requires rowGroup >= 1
  {
    (height + DCTSIZE * rowGroup - 1) / (DCTSIZE * rowGroup)
  }

  lemma IMcuRowsCover(rowGroup: nat, height: nat)
    requires rowGroup >= 1 && height >= 1
    ensures IMcuRows(rowGroup, height) >= 1 && Total(IMcuRows(rowGroup, height), rowGroup, height)
  {
    hide Start;
    var d, n := DCTSIZE * rowGroup, height + DCTSIZE * rowGroup - 1;
    var t := n / d;
    assert n == t * d + n % d;
    Cancel(0, t, d);
    StartIs(rowGroup, DCTSIZE * (t - 1));
    StartIs(rowGroup, DCTSIZE * t);
    Associate(DCTSIZE, t - 1, rowGroup);
    Associate(DCTSIZE, t, rowGroup);
    DistributeMinus(d, t, 1);
    Distribute(d, t, 1);
    Associate(t - 1, DCTSIZE, rowGroup);
    Associate(t, DCTSIZE, rowGroup);
  }

  /** An iMCU row is eight row groups, and so many of them are counted that the last
      one holds the last row of the image.
   */
  lemma IMcuRowAt(image: seq<Row>, context: bool, rowGroup: nat, rows: nat, k: nat, i: nat, total: nat)
    requires image != [] && rows >= 1 && i < 8
    ensures |IMcuRow(image, context, rowGroup, rows, k)| == 8
    ensures IMcuRow(image, context, rowGroup, rows, k)[i] == Group(image, context, rowGroup, rows, 8 * k + i)
    ensures Total(total, rowGroup, |image|) <==>
              total >= 1 && rowGroup * (8 * (total - 1)) < |image| <= rowGroup * (8 * total)
  {
    hide Group, Start;
    StartIs(rowGroup, 8 * total);
    if total >= 1 { StartIs(rowGroup, 8 * (total - 1)); }
  }

  class Main {
    const prep: Prep
    const totalIMcuRows: nat
    const buffer: array<seq<OutRow>>
    var curIMcuRow: nat
    var rowgroupCtr: nat
    var suspended: bool
    var nextScanline: nat
    ghost var sent: seq<seq<seq<OutRow>>>

    /** start_pass_main. */
    constructor (prep: Prep, totalIMcuRows: nat)
      requires prep.Ready() && prep.converted == [] && prep.group == 0 && prep.rowsToGo == prep.imageHeight
      requires Total(totalIMcuRows, prep.maxVSampFactor, prep.imageHeight)
      ensures this.prep == prep && Valid() && nextScanline == 0 && sent == [] && fresh(buffer)
    {
      hide Group;
      prep.AllRead();
      this.prep, this.totalIMcuRows := prep, totalIMcuRows;
      buffer := new seq<OutRow>[DCTSIZE](_ => []);
      curIMcuRow, rowgroupCtr, suspended, nextScanline, sent := 0, 0, false, 0, [];
    }

    ghost function GroupAt(m: nat): seq<OutRow>
      requires prep.image != [] && prep.vSampFactor >= 1
    {
      Group(prep.image, prep.needContextRows, prep.maxVSampFactor, prep.vSampFactor, m)
    }

    /** The buffered row groups and the rows already sent are the image's. */
    ghost predicate Buffered()
      requires prep.image != [] && prep.vSampFactor >= 1
      reads `rowgroupCtr, `curIMcuRow, `sent, prep, buffer
    {
      && buffer.Length == DCTSIZE && rowgroupCtr <= DCTSIZE && curIMcuRow <= totalIMcuRows
      && prep.group == DCTSIZE * curIMcuRow + rowgroupCtr
      && (forall i :: 0 <= i < rowgroupCtr ==> buffer[i] == GroupAt(DCTSIZE * curIMcuRow + i))
      && |sent| == curIMcuRow
      && forall k :: 0 <= k < |sent| ==>
           sent[k] == IMcuRow(prep.image, prep.needContextRows, prep.maxVSampFactor, prep.vSampFactor, k)
    }

    ghost predicate Valid()
      reads this, prep, prep.trueBuffer, prep.colorBuf, buffer
    {
      ValidAt(nextScanline)
    }

    /** The state when the application was told of `next` lines taken. */
    ghost predicate ValidAt(next: nat)
      reads `rowgroupCtr, `curIMcuRow, `sent, `suspended, prep, prep.trueBuffer, prep.colorBuf, buffer
    {
      && prep.Ready() && prep.image != [] && prep.vSampFactor >= 1 && Buffered()
      && Total(totalIMcuRows, prep.maxVSampFactor, prep.imageHeight)
      && |prep.converted| == next + (if suspended then 1 else 0)
      && curIMcuRow <= totalIMcuRows && (suspended ==> rowgroupCtr == DCTSIZE && curIMcuRow < totalIMcuRows)
      && (!suspended && curIMcuRow < totalIMcuRows ==> rowgroupCtr < DCTSIZE && prep.rowsToGo > 0)
      && (curIMcuRow == totalIMcuRows ==> rowgroupCtr == 0)
    }

    /** The application knows that it is done exactly when the compressor has
        everything: the last line is not accepted while output is suspended.
     */
    lemma DoneExactly()
      requires Valid()
      ensures nextScanline == prep.imageHeight <==> curIMcuRow == totalIMcuRows
      ensures curIMcuRow == totalIMcuRows ==>
                prep.converted == prep.image && forall k :: 0 <= k < totalIMcuRows ==>
                  sent[k] == IMcuRow(prep.image, prep.needContextRows, prep.maxVSampFactor, prep.vSampFactor, k)
    {
      hide Group, Start;
      prep.AllRead();
      if curIMcuRow == totalIMcuRows {
        assert prep.image[..|prep.image|] == prep.image;
      }
    }

    /** compress_data, which may refuse the row and be called again with it. */
    method CompressData() returns (ok: bool)
      modifies `sent
      ensures sent == if ok then old(sent) + [buffer[..]] else old(sent)
    {
      ok := *;
      if ok {
        sent := sent + [buffer[..]];
      }
    }

    /** The application's lines are the image's next ones. */
    ghost predicate Lines(input: seq<Row>, avail: nat)
      reads `nextScanline
    {
      |input| >= avail && nextScanline + avail <= |prep.image|
          && input[..avail] == prep.image[nextScanline..nextScanline + avail]
    }

    /** What holds throughout process_data_simple_main after `inRow` of the lines. */
    ghost predicate Underway(inRow: nat)
      reads this, prep, prep.trueBuffer, prep.colorBuf, buffer
    {
      && prep.Ready() && prep.image != [] && prep.vSampFactor >= 1 && Buffered()
      && Total(totalIMcuRows, prep.maxVSampFactor, prep.imageHeight)
      && nextScanline + inRow + (if suspended then 1 else 0) == |prep.converted|
      && curIMcuRow <= totalIMcuRows && rowgroupCtr <= DCTSIZE
         && (suspended ==> rowgroupCtr == DCTSIZE && inRow == 0 && curIMcuRow < totalIMcuRows)
    }

    /** At the head of its loop. */
    ghost predicate AtHead(inRow: nat)
      reads this, prep, prep.trueBuffer, prep.colorBuf, buffer
    {
      Underway(inRow)
      && if curIMcuRow == totalIMcuRows then rowgroupCtr == 0
         else !suspended ==>
           rowgroupCtr < DCTSIZE && (prep.rowsToGo > 0 || (inRow >= 1 && rowgroupCtr == 0))
    }

    /** The buffer filled up as far as the lines go. */
    method ReadGroups(input: seq<Row>, inRow: nat, avail: nat) returns (next: nat)
      requires Lines(input, avail) && AtHead(inRow) && curIMcuRow < totalIMcuRows && !suspended
      modifies `rowgroupCtr, prep, prep.trueBuffer, buffer
      ensures Underway(next)
      ensures if rowgroupCtr == DCTSIZE then next >= 1 else next >= avail && prep.rowsToGo > 0
    {
      hide Group, Start, Slice, Prep.Ready, Filled, IMcuRow;
      prep.AllRead();
      if rowgroupCtr == 0 {
        StartGrows(prep.maxVSampFactor, DCTSIZE * curIMcuRow, DCTSIZE * (totalIMcuRows - 1));
      }
      LinesLeft(input, inRow, avail, prep.image, nextScanline);
      ghost var ctr, g, before := rowgroupCtr, prep.group, buffer[..];
      next, rowgroupCtr := prep.PreProcess(input, inRow, avail, buffer, rowgroupCtr);
      SliceLength(input, inRow, next);
      FilledBuffer(buffer[..], before, ctr, rowgroupCtr, prep.image, prep.needContextRows, prep.maxVSampFactor,
                   prep.vSampFactor, DCTSIZE * curIMcuRow);
    }

    /** A complete iMCU row offered to the compressor. */
    method SendRow(inRow: nat) returns (next: nat, more: bool)
      requires Underway(inRow) && rowgroupCtr == DCTSIZE && curIMcuRow < totalIMcuRows && (!suspended ==> inRow >= 1)
      modifies `sent, `suspended, `rowgroupCtr, `curIMcuRow
      ensures if more then AtHead(next) && !suspended && curIMcuRow == old(curIMcuRow) + 1
                else ValidAt(nextScanline + next) && suspended
      ensures more ==> next >= 1
    {
      hide Group, Start;
      next := inRow;
      var ok := CompressData();
      if !ok {
        if !suspended {
          next := next - 1;
          suspended := true;
        }
        return next, false;
      }
      if suspended {
        next := next + 1;
        suspended := false;
      }
      ghost var k := curIMcuRow;
      assert sent[k] == IMcuRow(prep.image, prep.needContextRows, prep.maxVSampFactor, prep.vSampFactor, k);
      rowgroupCtr := 0;
      curIMcuRow := curIMcuRow + 1;
      more := true;
    }

    /** process_data_simple_main: the number of lines taken. */
    method ProcessData(input: seq<Row>, avail: nat) returns (inRow: nat)
      requires Valid() && Lines(input, avail)
      modifies this, prep, prep.trueBuffer, buffer
      ensures nextScanline == old(nextScanline) && ValidAt(nextScanline + inRow)
      ensures suspended || inRow >= avail
    {
      hide Group, Start, Lines, Buffered, Total;
      inRow := 0;
      while curIMcuRow < totalIMcuRows
        invariant AtHead(inRow) && nextScanline == old(nextScanline) && Lines(input, avail)
        invariant curIMcuRow == totalIMcuRows ==> !suspended
        decreases totalIMcuRows - curIMcuRow
      {
        if rowgroupCtr < DCTSIZE {
          inRow := ReadGroups(input, inRow, avail);
        }
        if rowgroupCtr != DCTSIZE {
          return;
        }
        var more;
        inRow, more := SendRow(inRow);
        if !more {
          return;
        }
      }
      AllTaken(input, avail, inRow);
    }

    lemma AllTaken(input: seq<Row>, avail: nat, inRow: nat)
      requires AtHead(inRow) && Lines(input, avail) && curIMcuRow == totalIMcuRows && !suspended
      ensures inRow >= avail
    {
      hide Group, Start;
      prep.AllRead();
    }

    /** jpeg_write_scanlines: as many of the lines as are accepted. */
    method WriteScanlines(scanlines: seq<Row>, numLines: nat) returns (accepted: nat)
      requires Valid() && |scanlines| >= numLines
      requires var n := if numLines < |prep.image| - nextScanline then numLines else |prep.image| - nextScanline;
               n >= 0 && scanlines[..n] == prep.image[nextScanline..nextScanline + n]
      modifies this, prep, prep.trueBuffer, buffer
      ensures Valid() && nextScanline == old(nextScanline) + accepted
      ensures suspended || nextScanline == prep.imageHeight || accepted >= numLines
    {
      hide Group, Start, Buffered, Total;
      prep.AllRead();
      var rowsLeft := prep.imageHeight - nextScanline;
      var lines := if numLines > rowsLeft then rowsLeft else numLines;
      accepted := ProcessData(scanlines, lines);
      nextScanline := nextScanline + accepted;
      prep.AllRead();
    }
  }

  lemma FilledBuffer(buffer: seq<seq<OutRow>>, before: seq<seq<OutRow>>, from: nat, to: nat,
                     image: seq<Row>, context: bool, rowGroup: nat, rows: nat, g: nat)
    requires image != [] && rows >= 1 && Filled(buffer, before, from, to, image, context, rowGroup, rows, g + from)
    requires forall i :: 0 <= i < from ==> before[i] == Group(image, context, rowGroup, rows, g + i)
    ensures from <= to <= |buffer|
            && forall i :: 0 <= i < to ==> buffer[i] == Group(image, context, rowGroup, rows, g + i)
  {
    hide Group;
  }

  lemma LinesLeft(input: seq<Row>, from: nat, avail: nat, image: seq<Row>, at: nat)
    requires avail <= |input| && at + avail <= |image| && input[..avail] == image[at..at + avail]
    ensures from <= avail ==> input[from..avail] == image[at + from..at + avail]
  {
    if from <= avail {
      assert input[..avail][from..] == input[from..avail];
      assert image[at..at + avail][from..] == image[at + from..at + avail];
    }
  }

  lemma SliceLength(input: seq<Row>, a: nat, b: nat)
    requires a <= b && (b == a || b <= |input|)
    ensures |Slice(input, a, b)| == b - a
  {
  }
}
