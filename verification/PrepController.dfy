/** The preprocessing controller (jcprepct.c): rows in from the application, row
    groups out of the downsampler.
 */
module PrepController {
  import opened RowWindows
  import opened ContextBuffer

  class Prep {
    ghost const image: seq<Row>
    const imageHeight: nat
    const maxVSampFactor: nat
    const vSampFactor: nat
    const needContextRows: bool
    const trueBuffer: array<Row>
    const colorBuf: array<nat>  // row pointers into the true buffer, one row group of them above row 0
    var rowsToGo: nat
    var nextBufRow: nat
    var thisRowGroup: nat
    var nextBufStop: nat
    ghost var converted: seq<Row>
    ghost var have: nat
    ghost var group: nat

    /** _jinit_c_prep_controller with create_context_buffer, then start_pass_prep. */
    constructor (ghost image: seq<Row>, imageHeight: nat, maxVSampFactor: nat, vSampFactor: nat, needContextRows: bool)
      requires |image| == imageHeight >= 1 && maxVSampFactor >= 1 && vSampFactor >= 1
      ensures this.image == image && this.imageHeight == imageHeight && this.maxVSampFactor == maxVSampFactor
      ensures this.vSampFactor == vSampFactor && this.needContextRows == needContextRows
      ensures Ready() && converted == [] && group == 0 && rowsToGo == imageHeight && fresh(trueBuffer)
              && fresh(colorBuf)
    {
      hide State, Holds, Pointers;
      this.image, this.imageHeight, this.maxVSampFactor, this.vSampFactor :=
        image, imageHeight, maxVSampFactor, vSampFactor;
      this.needContextRows := needContextRows;
      trueBuffer := new Row[if needContextRows then 3 * maxVSampFactor else maxVSampFactor](_ => []);
      colorBuf := new nat[if needContextRows then 5 * maxVSampFactor else 0](_ => 0);
      rowsToGo, nextBufRow, thisRowGroup, nextBufStop := imageHeight, 0, 0, 2 * maxVSampFactor;
      converted, have, group := [], 0, 0;
      new;
      if needContextRows {
        MakePointers(colorBuf, maxVSampFactor);
        EmptyState(trueBuffer[..], image, maxVSampFactor);
      } else {
        HoldsNone(trueBuffer[..], 0, image, 0);
      }
    }

    /** Ready for the next rows. */
    ghost predicate Ready()
      reads this, trueBuffer, colorBuf
    {
      if needContextRows then Valid() else SimpleValid()
    }

    /** Row groups done to the end of the image: all rows were read. */
    lemma AllRead()
      requires Ready()
      ensures |converted| + rowsToGo == imageHeight && image != [] && maxVSampFactor >= 1 && vSampFactor >= 1
              && imageHeight == |image|
      ensures converted == image[..|converted|]
      ensures At() >= imageHeight ==> rowsToGo == 0
      ensures !needContextRows && At() < imageHeight ==> rowsToGo > 0
    {
      hide State, Holds, Pointers, Start;
      if needContextRows {
        Sizes(trueBuffer[..], colorBuf[..], image, maxVSampFactor, thisRowGroup, At(), have, have > 0);
      }
    }

    /** The routine for the mode. */
    method PreProcess(input: seq<Row>, inRowCtr: nat, inRowsAvail: nat, output: array<seq<OutRow>>, outRowGroupCtr: nat)
        returns (inRow: nat, outRowGroup: nat)
      requires Ready() && outRowGroupCtr <= output.Length && NextRows(input, inRowCtr, inRowsAvail)
               && (needContextRows || rowsToGo > 0)
      modifies this, trueBuffer, output
      ensures Ready() && inRowCtr <= inRow && (inRow == inRowCtr || inRow <= inRowsAvail)
      ensures converted == old(converted) + Slice(input, inRowCtr, inRow)
      ensures group == old(group) + (outRowGroup - outRowGroupCtr)
      ensures Filled(output[..], old(output[..]), outRowGroupCtr, outRowGroup, image, needContextRows, maxVSampFactor,
                     vSampFactor, old(group))
      ensures outRowGroup < output.Length ==> inRow >= inRowsAvail && rowsToGo > 0
      ensures inRow == inRowCtr && old(rowsToGo) > 0 ==> outRowGroup == outRowGroupCtr
    {
      hide State, Holds, Pointers, Start, Filled, Group, NextRows, Slice, Clamped;
      if needContextRows {
        inRow, outRowGroup := PreProcessContext(input, inRowCtr, inRowsAvail, output, outRowGroupCtr);
      } else {
        inRow, outRowGroup := PreProcessData(input, inRowCtr, inRowsAvail, output, outRowGroupCtr);
      }
    }

    ghost function At(): nat
      reads this
    {
      Start(maxVSampFactor, group)
    }

    /** Every row read so far was converted once, in order, and the buffer holds
        what the row groups still to come need.
     */
    ghost predicate Consistent()
      reads this, trueBuffer, colorBuf
    {
      && |image| == imageHeight >= 1 && maxVSampFactor >= 1 && vSampFactor >= 1
      && |converted| + rowsToGo == imageHeight && converted == image[..|converted|]
      && Pointers(colorBuf[..], maxVSampFactor) && (group == 0 <==> At() == 0)
      && State(trueBuffer[..], image, maxVSampFactor, thisRowGroup, At(), have, have > 0)
      && nextBufRow == NextRow(maxVSampFactor, thisRowGroup, At(), have)
      && nextBufStop == Below(thisRowGroup, maxVSampFactor) + maxVSampFactor
      && (if rowsToGo > 0 then have == |converted| else have >= imageHeight)
    }

    /** Between calls the row group is not complete. */
    ghost predicate Valid()
      reads this, trueBuffer, colorBuf
    {
      Consistent() && have < At() + 2 * maxVSampFactor
    }

    /** Rows of the application: the image's next ones. */
    ghost predicate NextRows(input: seq<Row>, from: nat, to: nat)
      reads `converted
    {
      from <= to ==>
        to <= |input| && |converted| + (to - from) <= |image|
        && input[from..to] == image[|converted|..|converted| + (to - from)]
    }

    /** One row stored through its pointer. */
    method StoreRow(p: nat, x: Row, ghost at: nat, ghost topped: bool)
      requires Pointers(colorBuf[..], maxVSampFactor)
               && State(trueBuffer[..], image, maxVSampFactor, thisRowGroup, at, have, topped)
      requires have < at + 2 * maxVSampFactor && p == NextRow(maxVSampFactor, thisRowGroup, at, have)
               && x == Clamped(image, have)
      modifies trueBuffer, `have
      ensures have == old(have) + 1 && State(trueBuffer[..], image, maxVSampFactor, thisRowGroup, at, have, topped)
      ensures p < trueBuffer.Length && trueBuffer[..] == old(trueBuffer[..])[p := x]
    {
      hide State, Pointers, NextRow, Clamped;
      StoreOne(trueBuffer[..], image, maxVSampFactor, thisRowGroup, at, have, topped, p);
      PointerTo(colorBuf[..], maxVSampFactor, p);
      ghost var before := trueBuffer[..];
      trueBuffer[colorBuf[maxVSampFactor + p]] := x;
      assert trueBuffer[..] == before[p := x];
      have := have + 1;
    }

    /** Color conversion of `n` rows into the buffer. */
    method ConvertRows(input: seq<Row>, from: nat, n: nat)
      requires Valid() && NextRows(input, from, from + n) && n <= rowsToGo && have + n <= At() + 2 * maxVSampFactor
               && n >= 1
      modifies trueBuffer, `have
      ensures have == old(have) + n
      ensures State(trueBuffer[..], image, maxVSampFactor, thisRowGroup, At(), have, old(have) > 0)
    {
      hide State, Pointers, Start, Clamped;
      ghost var first, at, done := have, At(), |converted|;
      Sizes(trueBuffer[..], colorBuf[..], image, maxVSampFactor, thisRowGroup, at, have, have > 0);
      for k := 0 to n
        invariant have == first + k
        invariant State(trueBuffer[..], image, maxVSampFactor, thisRowGroup, at, have, first > 0)
        modifies trueBuffer, `have
      {
        RowOf(input, from, n, image, done, k);
        StoreRow(nextBufRow + k, input[from + k], at, first > 0);
      }
    }

    /** Padding above the image: row 0 into the rows before it. */
    method PadTop()
      requires Pointers(colorBuf[..], maxVSampFactor) && have >= 1 && At() == 0 && thisRowGroup == 0
      requires State(trueBuffer[..], image, maxVSampFactor, 0, 0, have, false)
      modifies trueBuffer
      ensures State(trueBuffer[..], image, maxVSampFactor, 0, 0, have, true)
    {
      hide State, Pointers, Start;
      ghost var before := trueBuffer[..];
      Sizes(before, colorBuf[..], image, maxVSampFactor, 0, 0, have, false);
      var height: nat := maxVSampFactor;
      for row := 1 to height + 1
        invariant forall p :: 0 <= p < 3 * height - (row - 1) ==> trueBuffer[p] == before[p]
        invariant forall p :: 3 * height - (row - 1) <= p < 3 * height ==> trueBuffer[p] == before[0]
      {
        PointerAbove(colorBuf[..], height, height - row);
        PointerTo(colorBuf[..], height, 0);
        trueBuffer[colorBuf[height - row]] := trueBuffer[colorBuf[height + 0]];
      }
      Topped(before, trueBuffer[..], image, maxVSampFactor, have);
    }

    /** expand_bottom_edge: the last row again until the row group is complete.
        When the buffer has just wrapped around, that row is row -1.
     */
    method PadBottom()
      requires Consistent() && rowsToGo == 0 && have < At() + 2 * maxVSampFactor
      modifies trueBuffer, `have, `nextBufRow
      ensures Consistent() && have == At() + 2 * maxVSampFactor
    {
      hide State, Pointers, Start, Clamped;
      ghost var first, at := have, At();
      Sizes(trueBuffer[..], colorBuf[..], image, maxVSampFactor, thisRowGroup, at, have, true);
      LastStored(trueBuffer[..], colorBuf[..], image, maxVSampFactor, thisRowGroup, at, have);
      var source := colorBuf[maxVSampFactor + nextBufRow - 1];
      for row := nextBufRow to nextBufStop
        invariant have == first + (row - nextBufRow) && first <= have <= at + 2 * maxVSampFactor
        invariant State(trueBuffer[..], image, maxVSampFactor, thisRowGroup, at, have, true)
        invariant source < trueBuffer.Length && trueBuffer[source] == Clamped(image, first - 1)
        modifies trueBuffer, `have
      {
        PastEnd(image, first - 1, have);
        StoreRow(row, trueBuffer[source], at, true);
      }
      nextBufRow := nextBufStop;
    }

    /** A row group downsampled. */
    method Downsample(output: array<seq<OutRow>>, outRowGroupCtr: nat)
      requires Consistent() && have == At() + 2 * maxVSampFactor && outRowGroupCtr < output.Length
      modifies output
      ensures output[..] == old(output[..])[outRowGroupCtr := Group(image, true, maxVSampFactor, vSampFactor, group)]
    {
      hide State, Pointers, Clamped, Start, Downsampled, Window;
      var buf, ptr, own := trueBuffer[..], colorBuf[..], thisRowGroup;
      Sizes(buf, ptr, image, maxVSampFactor, own, At(), have, have > 0);
      var window := seq(3 * maxVSampFactor, j requires j >= 0 => Through(buf, ptr, own + j));
      ReadWindow(buf, ptr, image, maxVSampFactor, own, At(), window);
      output[outRowGroupCtr] := Downsampled(window, vSampFactor);
    }

    /** The pointers advanced, with wraparound as necessary. */
    method NextGroup()
      requires Consistent() && have == At() + 2 * maxVSampFactor
      modifies `thisRowGroup, `nextBufRow, `nextBufStop, `group
      ensures Valid() && group == old(group) + 1
    {
      hide State, Pointers, Clamped, Start;
      Sizes(trueBuffer[..], colorBuf[..], image, maxVSampFactor, thisRowGroup, At(), have, have > 0);
      StartNext(maxVSampFactor, group);
      Advance(trueBuffer[..], image, maxVSampFactor, thisRowGroup, At());
      group := group + 1;
      thisRowGroup := thisRowGroup + maxVSampFactor;
      if thisRowGroup >= 3 * maxVSampFactor {
        thisRowGroup := 0;
      }
      if nextBufRow >= 3 * maxVSampFactor {
        nextBufRow := 0;
      }
      nextBufStop := nextBufRow + maxVSampFactor;
    }

    /** Rows read into the buffer, padded above if they are the first. */
    method ReadRows(input: seq<Row>, from: nat, n: nat)
      requires Valid() && NextRows(input, from, from + n) && 1 <= n <= rowsToGo && have + n <= At() + 2 * maxVSampFactor
      modifies trueBuffer, `have, `nextBufRow, `rowsToGo, `converted
      ensures Consistent() && have == old(have) + n && converted == old(converted) + input[from..from + n]
    {
      hide State, Pointers, Clamped, Start;
      ghost var at, first := At(), have;
      Sizes(trueBuffer[..], colorBuf[..], image, maxVSampFactor, thisRowGroup, at, have, have > 0);
      ConvertRows(input, from, n);
      if rowsToGo == imageHeight {
        PadTop();
      }
      nextBufRow := nextBufRow + n;
      rowsToGo := rowsToGo - n;
      MoreRows(image, |converted|, n);
      converted := converted + input[from..from + n];
    }

    lemma GroupComplete()
      requires Consistent()
      ensures nextBufRow == nextBufStop <==> have == At() + 2 * maxVSampFactor
      ensures have <= At() + 2 * maxVSampFactor && image != [] && vSampFactor >= 1
    {
      hide State, Pointers, Clamped, Start;
      Sizes(trueBuffer[..], colorBuf[..], image, maxVSampFactor, thisRowGroup, At(), have, have > 0);
    }

    /** As many rows as there are and as the row group needs. */
    method ReadMore(input: seq<Row>, inRow: nat, inRowsAvail: nat) returns (next: nat)
      requires Valid() && inRow < inRowsAvail && NextRows(input, inRow, inRowsAvail)
      modifies trueBuffer, `have, `nextBufRow, `rowsToGo, `converted
      ensures Consistent() && inRow < next <= inRowsAvail <= |input| && NextRows(input, next, inRowsAvail)
              && have == old(have) + (next - inRow)
      ensures converted == old(converted) + Slice(input, inRow, next)
    {
      hide State, Pointers, Clamped, Start;
      Sizes(trueBuffer[..], colorBuf[..], image, maxVSampFactor, thisRowGroup, At(), have, have > 0);
      var numRows := Min(nextBufStop - nextBufRow, inRowsAvail - inRow);
      NextRowsPrefix(input, inRow, inRowsAvail, numRows, image, |converted|);
      ReadRows(input, inRow, numRows);
      next := inRow + numRows;
    }

    /** pre_process_context: row groups of the image with the rows around them,
        until the output is full or the application's rows are used up.
     */
    method PreProcessContext(input: seq<Row>, inRowCtr: nat, inRowsAvail: nat, output: array<seq<OutRow>>,
                             outRowGroupCtr: nat)
        returns (inRow: nat, outRowGroup: nat)
      requires Valid() && outRowGroupCtr <= output.Length && NextRows(input, inRowCtr, inRowsAvail)
      modifies this, trueBuffer, output
      ensures Valid() && inRowCtr <= inRow && (inRow == inRowCtr || inRow <= inRowsAvail)
      ensures converted == old(converted) + Slice(input, inRowCtr, inRow)
      ensures outRowGroupCtr <= outRowGroup <= output.Length && group == old(group) + (outRowGroup - outRowGroupCtr)
      ensures Filled(output[..], old(output[..]), outRowGroupCtr, outRowGroup, image, true, maxVSampFactor, vSampFactor,
                     old(group))
      ensures outRowGroup < output.Length ==> inRow >= inRowsAvail && rowsToGo > 0
      ensures inRow == inRowCtr && old(rowsToGo) > 0 ==> outRowGroup == outRowGroupCtr
    {
      hide State, Pointers, Clamped, Start, Group, Slice, NextRow, Below, Filled, Consistent, NextRows;
      NoSlice(input, inRowCtr);
      GroupComplete();
      FilledNone(output[..], outRowGroupCtr, image, true, maxVSampFactor, vSampFactor, group);
      ghost var out0 := output[..];
      inRow, outRowGroup := inRowCtr, outRowGroupCtr;
      while outRowGroup < output.Length
        invariant Valid() && inRowCtr <= inRow && (inRow == inRowCtr || inRow <= inRowsAvail)
        invariant outRowGroupCtr <= outRowGroup <= output.Length && group == old(group) + (outRowGroup - outRowGroupCtr)
        invariant NextRows(input, inRow, inRowsAvail)
        invariant converted == old(converted) + Slice(input, inRowCtr, inRow)
        invariant Filled(output[..], out0, outRowGroupCtr, outRowGroup, image, true, maxVSampFactor, vSampFactor,
                         old(group))
        invariant inRow == inRowCtr && old(rowsToGo) > 0 ==> outRowGroup == outRowGroupCtr && rowsToGo > 0
        decreases output.Length - outRowGroup, At() + 2 * maxVSampFactor - have
      {
        ghost var from := inRow;
        if inRow < inRowsAvail {
          inRow := ReadMore(input, inRow, inRowsAvail);
          SliceMore(input, inRowCtr, from, inRow);
        } else {
          if rowsToGo != 0 {
            break;
          }
          PadBottom();
        }
        GroupComplete();
        if nextBufRow == nextBufStop {
          FilledMore(output[..], out0, outRowGroupCtr, outRowGroup, image, true, maxVSampFactor, vSampFactor,
                     old(group));
          Downsample(output, outRowGroup);
          outRowGroup := outRowGroup + 1;
          NextGroup();
        }
      }
    }

    // ----- Without context rows ------------------------------------------------------------------

    /** The buffer holds the first rows of the next row group. */
    ghost predicate SimpleValid()
      reads this, trueBuffer
    {
      && |image| == imageHeight >= 1 && maxVSampFactor >= 1 && vSampFactor >= 1 && trueBuffer.Length >= maxVSampFactor
      && |converted| + rowsToGo == imageHeight && converted == image[..|converted|]
      && nextBufRow < maxVSampFactor && Holds(trueBuffer[..], 0, image, At(), nextBufRow)
      && (if rowsToGo > 0 then |converted| == At() + nextBufRow else nextBufRow == 0 && At() >= imageHeight)
    }

    method ConvertSimple(input: seq<Row>, from: nat, n: nat, ghost at: nat)
      requires image != [] && nextBufRow + n <= trueBuffer.Length && from + n <= |input|
               && |converted| == at + nextBufRow
      requires |converted| + n <= |image| && input[from..from + n] == image[|converted|..|converted| + n]
      requires Holds(trueBuffer[..], 0, image, at, nextBufRow)
      modifies trueBuffer
      ensures Holds(trueBuffer[..], 0, image, at, nextBufRow + n)
    {
      hide Clamped, Holds;
      for k := 0 to n
        invariant Holds(trueBuffer[..], 0, image, at, nextBufRow + k)
        modifies trueBuffer
      {
        RowOf(input, from, n, image, |converted|, k);
        HoldsMore(trueBuffer[..], 0, image, at, nextBufRow + k, input[from + k]);
        ghost var before := trueBuffer[..];
        trueBuffer[nextBufRow + k] := input[from + k];
        assert trueBuffer[..] == before[0 + (nextBufRow + k) := input[from + k]];
      }
    }

    /** Rows converted into the buffer; at the bottom of the image it is filled up. */
    method FillSimple(input: seq<Row>, inRow: nat, inRowsAvail: nat) returns (next: nat)
      requires SimpleValid() && rowsToGo > 0 && inRow < inRowsAvail && NextRows(input, inRow, inRowsAvail)
      modifies trueBuffer, `nextBufRow, `rowsToGo, `converted
      ensures inRow < next <= inRowsAvail <= |input| && NextRows(input, next, inRowsAvail)
      ensures converted == old(converted) + Slice(input, inRow, next)
      ensures |converted| + rowsToGo == imageHeight && converted == image[..|converted|] && old(rowsToGo) > rowsToGo
      ensures nextBufRow <= maxVSampFactor <= trueBuffer.Length && Holds(trueBuffer[..], 0, image, At(), nextBufRow)
      ensures if rowsToGo > 0 then |converted| == At() + nextBufRow
                else nextBufRow == maxVSampFactor && At() + maxVSampFactor >= imageHeight
    {
      hide Clamped, Start, Holds;
      ghost var at, done := At(), |converted|;
      assert |converted| == at + nextBufRow && nextBufRow < maxVSampFactor;
      var numRows := Min(maxVSampFactor - nextBufRow, inRowsAvail - inRow);
      NextRowsPrefix(input, inRow, inRowsAvail, numRows, image, done);
      ConvertSimple(input, inRow, numRows, at);
      next := inRow + numRows;
      nextBufRow := nextBufRow + numRows;
      rowsToGo := rowsToGo - numRows;
      MoreRows(image, done, numRows);
      converted := converted + Slice(input, inRow, next);
      if rowsToGo == 0 && nextBufRow < maxVSampFactor {
        PadSimple(at);
      }
    }

    /** expand_bottom_edge on the conversion buffer. */
    method PadSimple(ghost at: nat)
      requires image != [] && 1 <= nextBufRow < maxVSampFactor <= trueBuffer.Length && at + nextBufRow >= |image|
      requires Holds(trueBuffer[..], 0, image, at, nextBufRow)
      modifies trueBuffer, `nextBufRow
      ensures nextBufRow == maxVSampFactor && Holds(trueBuffer[..], 0, image, at, maxVSampFactor)
    {
      hide Clamped;
      for row := nextBufRow to maxVSampFactor
        invariant Holds(trueBuffer[..], 0, image, at, row)
                  && trueBuffer[nextBufRow - 1] == Clamped(image, at + nextBufRow - 1)
        modifies trueBuffer
      {
        PastEnd(image, at + nextBufRow - 1, at + row);
        HoldsMore(trueBuffer[..], 0, image, at, row, trueBuffer[nextBufRow - 1]);
        ghost var before := trueBuffer[..];
        trueBuffer[row] := trueBuffer[nextBufRow - 1];
        assert trueBuffer[..] == before[0 + row := before[nextBufRow - 1]];
      }
      nextBufRow := maxVSampFactor;
    }

    /** A row group downsampled and the buffer marked empty. */
    method EmitSimple(output: array<seq<OutRow>>, outRowGroupCtr: nat)
      requires image != [] && vSampFactor >= 1 && outRowGroupCtr < output.Length && At() < |image|
      requires maxVSampFactor <= trueBuffer.Length && Holds(trueBuffer[..], 0, image, At(), maxVSampFactor)
      modifies output, `nextBufRow, `group
      ensures nextBufRow == 0 && group == old(group) + 1 && At() == old(At()) + maxVSampFactor
      ensures output[..] ==
              old(output[..])[outRowGroupCtr := Group(image, false, maxVSampFactor, vSampFactor, old(group))]
    {
      hide Clamped, Start, Downsampled, Window;
      StartNext(maxVSampFactor, group);
      var window := trueBuffer[..maxVSampFactor];
      HeldWindow(trueBuffer[..], image, At(), maxVSampFactor);
      output[outRowGroupCtr] := Downsampled(window, vSampFactor);
      nextBufRow := 0;
      group := group + 1;
    }

    /** expand_bottom_edge on the output: its last row again to the end. */
    method PadOutput(output: array<seq<OutRow>>, outRowGroupCtr: nat)
      requires image != [] && vSampFactor >= 1 && 1 <= outRowGroupCtr <= output.Length && group >= 1 && At() >= |image|
      requires output[outRowGroupCtr - 1] == Group(image, false, maxVSampFactor, vSampFactor, group - 1)
      modifies output, `group
      ensures group == old(group) + (output.Length - outRowGroupCtr) && At() >= |image|
      ensures Filled(output[..], old(output[..]), outRowGroupCtr, output.Length, image, false, maxVSampFactor,
                     vSampFactor, old(group))
    {
      hide Clamped, Start, Group, Filled;
      ghost var out0, first := output[..], group;
      var last := output[outRowGroupCtr - 1][vSampFactor - 1];
      FilledNone(out0, outRowGroupCtr, image, false, maxVSampFactor, vSampFactor, group);
      for g := outRowGroupCtr to output.Length
        invariant group == first + (g - outRowGroupCtr) && At() >= |image|
        invariant Group(image, false, maxVSampFactor, vSampFactor, group - 1)[vSampFactor - 1] == last
        invariant Filled(output[..], out0, outRowGroupCtr, g, image, false, maxVSampFactor, vSampFactor, first)
        modifies output, `group
      {
        PaddedGroup(image, maxVSampFactor, vSampFactor, group, last);
        FilledMore(output[..], out0, outRowGroupCtr, g, image, false, maxVSampFactor, vSampFactor, first);
        ghost var before := output[..];
        output[g] := seq(vSampFactor, _ => last);
        assert output[..] == before[g := seq(vSampFactor, _ => last)];
        StartNext(maxVSampFactor, group);
        group := group + 1;
      }
    }

    /** pre_process_data: row groups of the image, padded at the end to fill the output. */
    method PreProcessData(input: seq<Row>, inRowCtr: nat, inRowsAvail: nat, output: array<seq<OutRow>>,
                          outRowGroupCtr: nat)
        returns (inRow: nat, outRowGroup: nat)
      requires SimpleValid() && outRowGroupCtr <= output.Length && NextRows(input, inRowCtr, inRowsAvail)
               && rowsToGo > 0
      modifies this, trueBuffer, output
      ensures SimpleValid() && inRowCtr <= inRow && (inRow == inRowCtr || inRow <= inRowsAvail)
      ensures converted == old(converted) + Slice(input, inRowCtr, inRow)
      ensures group == old(group) + (outRowGroup - outRowGroupCtr)
      ensures Filled(output[..], old(output[..]), outRowGroupCtr, outRowGroup, image, false, maxVSampFactor,
                     vSampFactor, old(group))
      ensures outRowGroup < output.Length ==> inRow >= inRowsAvail && rowsToGo > 0
      ensures inRow == inRowCtr && old(rowsToGo) > 0 ==> outRowGroup == outRowGroupCtr
    {
      hide Clamped, Start, Group, Slice, Filled, Holds, NextRows;
      ghost var out0, g0 := output[..], group;
      NoSlice(input, inRowCtr);
      FilledNone(out0, outRowGroupCtr, image, false, maxVSampFactor, vSampFactor, group);
      inRow, outRowGroup := inRowCtr, outRowGroupCtr;
      while inRow < inRowsAvail && outRowGroup < output.Length
        invariant SimpleValid() && inRowCtr <= inRow && (inRow == inRowCtr || inRow <= inRowsAvail)
                  && NextRows(input, inRow, inRowsAvail)
        invariant converted == old(converted) + Slice(input, inRowCtr, inRow)
        invariant outRowGroupCtr <= outRowGroup <= output.Length && group == g0 + (outRowGroup - outRowGroupCtr)
        invariant Filled(output[..], out0, outRowGroupCtr, outRowGroup, image, false, maxVSampFactor, vSampFactor, g0)
        invariant rowsToGo == 0 ==> outRowGroup == output.Length
        invariant inRow == inRowCtr ==> outRowGroup == outRowGroupCtr && rowsToGo > 0
        decreases inRowsAvail - inRow
      {
        ghost var from := inRow;
        inRow := FillSimple(input, inRow, inRowsAvail);
        SliceMore(input, inRowCtr, from, inRow);
        if nextBufRow == maxVSampFactor {
          FilledMore(output[..], out0, outRowGroupCtr, outRowGroup, image, false, maxVSampFactor, vSampFactor, g0);
          EmitSimple(output, outRowGroup);
          outRowGroup := outRowGroup + 1;
          HoldsNone(trueBuffer[..], 0, image, At());
        }
        if rowsToGo == 0 && outRowGroup < output.Length {
          ghost var g1, out1 := group, output[..];
          PadOutput(output, outRowGroup);
          FilledOn(output[..], out1, out0, outRowGroupCtr, outRowGroup, output.Length, image, false, maxVSampFactor,
                   vSampFactor, g0);
          outRowGroup := output.Length;
          HoldsNone(trueBuffer[..], 0, image, At());
          break;
        }
      }
    }
  }

  /** Groups `g0`, `g0 + 1`, ... of the image in the output from `from` to `to`. */
  ghost predicate Filled(output: seq<seq<OutRow>>, before: seq<seq<OutRow>>, from: nat, to: nat, image: seq<Row>,
                         context: bool, rowGroup: nat, rows: nat, g0: nat)
    requires image != [] && rows >= 1
  {
    && from <= to <= |output| == |before|
    && (forall i :: 0 <= i < from ==> output[i] == before[i])
    && forall i :: from <= i < to ==> output[i] == Group(image, context, rowGroup, rows, g0 + (i - from))
  }

  lemma FilledMore(output: seq<seq<OutRow>>, before: seq<seq<OutRow>>, from: nat, to: nat, image: seq<Row>,
                   context: bool, rowGroup: nat, rows: nat, g0: nat)
    requires image != [] && rows >= 1 && to < |output|
             && Filled(output, before, from, to, image, context, rowGroup, rows, g0)
    ensures Filled(output[to := Group(image, context, rowGroup, rows, g0 + (to - from))], before, from, to + 1, image,
                   context, rowGroup, rows, g0)
  {
    hide Group;
  }

  lemma FilledOn(output: seq<seq<OutRow>>, mid: seq<seq<OutRow>>, before: seq<seq<OutRow>>, from: nat, at: nat, to: nat,
                 image: seq<Row>, context: bool, rowGroup: nat, rows: nat, g0: nat)
    requires image != [] && rows >= 1 && from <= at <= to
             && Filled(mid, before, from, at, image, context, rowGroup, rows, g0)
    requires Filled(output, mid, at, to, image, context, rowGroup, rows, g0 + (at - from))
    ensures Filled(output, before, from, to, image, context, rowGroup, rows, g0)
  {
    hide Group;
  }

  /** Past the image every output row is the last one. */
  lemma PaddedGroup(image: seq<Row>, rowGroup: nat, rows: nat, m: nat, last: OutRow)
    requires image != [] && rows >= 1 && m >= 1 && Start(rowGroup, m) >= |image|
    requires Group(image, false, rowGroup, rows, m - 1)[rows - 1] == last
    ensures Group(image, false, rowGroup, rows, m) == seq(rows, _ => last)
    ensures Group(image, false, rowGroup, rows, m)[rows - 1] == last
  {
    hide Downsampled, Window, Start;
  }

  lemma HeldWindow(buf: seq<Row>, image: seq<Row>, at: nat, n: nat)
    requires image != [] && n <= |buf| && Holds(buf, 0, image, at, n)
    ensures buf[..n] == Window(image, at, n)
  {
    hide Clamped;
  }

  lemma FilledNone(output: seq<seq<OutRow>>, from: nat, image: seq<Row>, context: bool, rowGroup: nat, rows: nat,
                   g0: nat)
    requires image != [] && rows >= 1 && from <= |output|
    ensures Filled(output, output, from, from, image, context, rowGroup, rows, g0)
  {
  }

  function Slice(input: seq<Row>, a: nat, b: nat): seq<Row> {
    if a <= b <= |input| then input[a..b] else []
  }

  lemma NoSlice(input: seq<Row>, a: nat)
    ensures Slice(input, a, a) == []
  {
  }

  lemma SliceMore(input: seq<Row>, a: nat, b: nat, c: nat)
    requires a <= b <= c <= |input|
    ensures Slice(input, a, b) + Slice(input, b, c) == Slice(input, a, c)
  {
  }

  /** Some of the next rows, and the rows after those. */
  lemma NextRowsPrefix(input: seq<Row>, from: nat, to: nat, n: nat, image: seq<Row>, done: nat)
    requires from + n <= to <= |input| && done + (to - from) <= |image|
             && input[from..to] == image[done..done + (to - from)]
    ensures input[from..from + n] == image[done..done + n]
    ensures input[from + n..to] == image[done + n..done + (to - from)]
  {
    assert input[from..to][..n] == input[from..from + n] && input[from..to][n..] == input[from + n..to];
    var m := to - from;
    assert image[done..done + m][..n] == image[done..done + n]
           && image[done..done + m][n..] == image[done + n..done + m];
  }

  /** create_context_buffer: three row groups, with pointers to the last above them
      and pointers to the first below.
   */
  method MakePointers(colorBuf: array<nat>, rowGroup: nat)
    requires colorBuf.Length == 5 * rowGroup
    modifies colorBuf
    ensures Pointers(colorBuf[..], rowGroup)
  {
    for i := 0 to 3 * rowGroup
      invariant forall k :: rowGroup <= k < rowGroup + i ==> colorBuf[k] == k - rowGroup
    {
      colorBuf[rowGroup + i] := i;
    }
    for i := 0 to rowGroup
      invariant forall k :: rowGroup <= k < 4 * rowGroup ==> colorBuf[k] == k - rowGroup
      invariant forall k :: 0 <= k < i ==> colorBuf[k] == 2 * rowGroup + k
      invariant forall k :: 4 * rowGroup <= k < 4 * rowGroup + i ==> colorBuf[k] == k - 4 * rowGroup
    {
      colorBuf[i] := 2 * rowGroup + i;
      colorBuf[4 * rowGroup + i] := i;
    }
  }

  lemma EmptyState(buf: seq<Row>, image: seq<Row>, rowGroup: nat)
    requires image != [] && rowGroup >= 1 && |buf| == 3 * rowGroup
    ensures State(buf, image, rowGroup, 0, 0, 0, false)
  {
  }

  lemma MoreRows(image: seq<Row>, done: nat, n: nat)
    requires done + n <= |image|
    ensures image[..done] + image[done..done + n] == image[..done + n]
  {
  }

  lemma StartNext(rowGroup: nat, m: nat)
    ensures Start(rowGroup, m + 1) == Start(rowGroup, m) + rowGroup
  {
  }

  /** Rows past the end all repeat the last one. */
  lemma PastEnd(image: seq<Row>, l: int, l': int)
    requires image != [] && l >= |image| - 1 && l' >= |image| - 1
    ensures Clamped(image, l) == Clamped(image, l')
  {
  }

  /** The row that pointer `i` points to. */
  function Through(buf: seq<Row>, ptr: seq<nat>, i: nat): Row {
    if i < |ptr| && ptr[i] < |buf| then buf[ptr[i]] else []
  }

  lemma ReadWindow(buf: seq<Row>, ptr: seq<nat>, image: seq<Row>, rowGroup: nat, own: nat, at: nat, window: seq<Row>)
    requires State(buf, image, rowGroup, own, at, at + 2 * rowGroup, true) && Pointers(ptr, rowGroup)
    requires |window| == 3 * rowGroup && forall j :: 0 <= j < |window| ==> window[j] == Through(buf, ptr, own + j)
    ensures window == Window(image, at - rowGroup, 3 * rowGroup)
  {
    hide State, Pointers, Clamped;
    Sizes(buf, ptr, image, rowGroup, own, at, at + 2 * rowGroup, true);
    forall j | 0 <= j < |window| ensures window[j] == Clamped(image, at - rowGroup + j) {
      WindowThrough(buf, ptr, image, rowGroup, own, at, j);
    }
  }

  lemma RowOf(input: seq<Row>, from: nat, n: nat, image: seq<Row>, done: nat, k: nat)
    requires k < n && from + n <= |input| && done + n <= |image| && input[from..from + n] == image[done..done + n]
    ensures input[from + k] == Clamped(image, done + k)
  {
    assert input[from..from + n][k] == image[done..done + n][k];
  }

  /** A row of the buffer is its own pointer's. */
  lemma PointerTo(ptr: seq<nat>, rowGroup: nat, p: nat)
    requires Pointers(ptr, rowGroup) && p < 3 * rowGroup
    ensures rowGroup + p < |ptr| && ptr[rowGroup + p] == p
  {
  }

  /** The rows above row 0 are those of the last row group. */
  lemma PointerAbove(ptr: seq<nat>, rowGroup: nat, i: nat)
    requires Pointers(ptr, rowGroup) && i < rowGroup
    ensures i < |ptr| && ptr[i] == 2 * rowGroup + i
  {
  }

  lemma Sizes(buf: seq<Row>, ptr: seq<nat>, image: seq<Row>, rowGroup: nat, own: nat, at: nat, have: nat, topped: bool)
    requires State(buf, image, rowGroup, own, at, have, topped) && Pointers(ptr, rowGroup)
    ensures |buf| == 3 * rowGroup && |ptr| == 5 * rowGroup && rowGroup >= 1 && image != []
    ensures (own == 0 || own == rowGroup || own == 2 * rowGroup) && (at == 0 ==> own == 0)
    ensures at <= have <= at + 2 * rowGroup && (at > 0 ==> at >= rowGroup && have >= at + rowGroup)
  {
  }
}
