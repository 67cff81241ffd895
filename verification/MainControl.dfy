/**
 The main controller (jpeg/jcmainct.c) and jpeg_write_scanlines (jpeg/jcapistd.c): rows come in
 through the preprocessor, full iMCU rows go to the coefficient controller, which may refuse them.
 While a row is refused, the last input row is reported as not consumed yet.
 */
module MainControl {
  import opened JpegLimits
  import opened Preprocessing

  /** The next answer; what follows the given answers is acceptance. */
  predicate Accepts(answers: seq<bool>)
  {
    answers == [] || answers[0]
  }

  function Later(answers: seq<bool>): seq<bool>
  {
    if answers == [] then [] else answers[1..]
  }

  /** The coefficient controller as it is seen from here: it accepts or refuses. */
  class CoefSink {
    var answers: seq<bool>
    var received: seq<seq<Group>>

    constructor (answers: seq<bool>)
      ensures this.answers == answers && received == []
    {
      this.answers, received := answers, [];
    }

    /** compress_data: a refused row has not been consumed. After the given answers it accepts everything. */
    method CompressData(row: seq<Group>) returns (ok: bool)
      modifies this
      ensures ok == Accepts(old(answers)) && answers == Later(old(answers))
      ensures received == if ok then old(received) + [row] else old(received)
    {
      ok := if |answers| > 0 then answers[0] else true;
      if |answers| > 0 {
        answers := answers[1..];
      }
      if ok {
        received := received + [row];
      }
    }
  }

  /** iMCU row number m of the image. */
  function IMcuRow(image: Image, context: bool, v: nat, m: nat): (r: seq<Group>)
    ensures |r| == DCTSIZE
  {
    seq(DCTSIZE, k requires 0 <= k < DCTSIZE => GroupOf(image, context, v, DCTSIZE * m + k))
  }

  /** The first n iMCU rows. */
  function IMcuRows(image: Image, context: bool, v: nat, n: nat): (r: seq<seq<Group>>)
    ensures |r| == n
  {
    seq(n, m requires 0 <= m < n => IMcuRow(image, context, v, m))
  }

  class Compressor {
    const prep: Prep
    const coef: CoefSink
    const buffer: array<Group>
    const totalRows: nat
    var curIMcuRow: nat
    var rowgroupCtr: nat
    var suspended: bool
    var nextScanline: nat

    /** jpeg_start_compress, for the first pass. */
    constructor (image: Image, context: bool, v: nat, totalRows: nat, answers: seq<bool>)
      requires v >= 1 && totalRows >= 1
      requires DCTSIZE * (totalRows - 1) * v < |image| <= DCTSIZE * totalRows * v
      ensures Valid() && nextScanline == 0 && curIMcuRow == 0 && this.totalRows == totalRows && coef.answers == answers
      ensures prep.image == image && prep.context == context && prep.v == v
      ensures fresh(prep) && fresh(prep.buffer) && fresh(coef) && fresh(buffer)
    {
      prep := new Prep(image, context, v);
      coef := new CoefSink(answers);
      buffer := new Group[DCTSIZE](_ => Replica);
      this.totalRows := totalRows;
      curIMcuRow, rowgroupCtr, suspended, nextScanline := 0, 0, false, 0;
    }

    /** Between calls of jpeg_write_scanlines. */
    ghost predicate Valid()
      reads this, prep, prep.buffer, prep.pointers, coef, buffer
    {
      && Going()
      && nextScanline == prep.Consumed() - (if suspended then 1 else 0) && nextScanline >= 0
      && (!suspended && curIMcuRow < totalRows ==> prep.rowsToGo > 0 && rowgroupCtr < DCTSIZE)
      && (suspended ==> rowgroupCtr == DCTSIZE && curIMcuRow < totalRows)
    }

    /** What holds at every moment: the row groups so far are those of the image, and so are the accepted rows. */
    ghost predicate Going()
      reads this, prep, prep.buffer, prep.pointers, coef, buffer
    {
      && prep.Valid() && buffer.Length == DCTSIZE && totalRows >= 1
      && DCTSIZE * (totalRows - 1) * prep.v < |prep.image| <= DCTSIZE * totalRows * prep.v
      && curIMcuRow <= totalRows && rowgroupCtr <= DCTSIZE && prep.groups == DCTSIZE * curIMcuRow + rowgroupCtr
      && (curIMcuRow == totalRows ==> rowgroupCtr == 0)
      && (forall k :: 0 <= k < rowgroupCtr ==> buffer[k] == GroupOf(prep.image, prep.context, prep.v, DCTSIZE * curIMcuRow + k))
      && coef.received == IMcuRows(prep.image, prep.context, prep.v, curIMcuRow)
    }

    /** The rows passed in continue where the application has been told that the last call stopped. */
    ghost predicate InputOk(scanlines: seq<Row>, n: nat, from: nat)
      reads this, prep
    {
      && n <= |scanlines| && from + n <= |prep.image|
      && forall i :: 0 <= i < n ==> scanlines[i] == Clamped(prep.image, from + i)
    }

    /** The preprocessor's turn. */
    method FillBuffer(scanlines: seq<Row>, n: nat, inRow: nat, ghost from: nat) returns (next: nat)
      requires Going() && !suspended && rowgroupCtr < DCTSIZE && curIMcuRow < totalRows
      requires InputOk(scanlines, n, from) && prep.Consumed() == from + inRow
      requires !prep.context || inRow == 0 ==> prep.rowsToGo > 0
      modifies this`rowgroupCtr, prep, prep.buffer, buffer
      ensures Going() && next >= inRow && (next <= n || next == inRow) && prep.Consumed() == from + next
      ensures rowgroupCtr < DCTSIZE ==> prep.rowsToGo > 0 && next >= n
      ensures rowgroupCtr == DCTSIZE ==> next > 0
    {
      hide Clamped, GroupOf;
      assert prep.Continues(scanlines, inRow, n);
      if prep.context {
        next, rowgroupCtr := prep.PreProcessContext(scanlines, inRow, n, buffer, rowgroupCtr);
      } else {
        next, rowgroupCtr := prep.PreProcessData(scanlines, inRow, n, buffer, rowgroupCtr);
      }
    }

    /**
     A full buffer is offered to the coefficient controller. If it is refused, the last input row is
     withheld from the count until the row is accepted.
     */
    method OfferRow(inRow: nat) returns (ok: bool, rows: nat)
      requires Going() && rowgroupCtr == DCTSIZE && curIMcuRow < totalRows && (suspended || inRow > 0)
      modifies this`curIMcuRow, this`rowgroupCtr, this`suspended, coef
      ensures Going() && ok == Accepts(old(coef.answers)) && coef.answers == Later(old(coef.answers))
      ensures !ok ==> suspended && rowgroupCtr == DCTSIZE && curIMcuRow == old(curIMcuRow)
      ensures ok ==> !suspended && rowgroupCtr == 0 && curIMcuRow == old(curIMcuRow) + 1
      ensures rows - (if old(suspended) then 1 else 0) == inRow - (if suspended then 1 else 0)
      ensures curIMcuRow < totalRows && !prep.context && ok ==> prep.rowsToGo > 0
    {
      hide Clamped, GroupOf, prep.ContextValid, prep.SimpleValid, IMcuRows;
      rows := inRow;
      ok := coef.CompressData(buffer[..]);
      if !ok {
        if !suspended {
          rows := rows - 1;
          suspended := true;
        }
        return;
      }
      if suspended {
        rows := rows + 1;
        suspended := false;
      }
      RowComplete(prep.image, prep.context, prep.v, curIMcuRow, buffer[..]);
      rowgroupCtr := 0;
      curIMcuRow := curIMcuRow + 1;
      if curIMcuRow < totalRows && !prep.context {
        SimpleHasRows();
      }
    }

    /**
     process_data_simple_main. The counter inRow never goes below zero. On return either the
     compressor has refused a row, and the last input row is withheld from the count; or all input
     has been used up, and the image is complete or more input is needed.
     */
    method ProcessData(scanlines: seq<Row>, n: nat) returns (inRow: nat)
      requires Valid() && InputOk(scanlines, n, nextScanline)
      modifies this`curIMcuRow, this`rowgroupCtr, this`suspended, prep, prep.buffer, coef, buffer
      ensures Going() && nextScanline + inRow == prep.Consumed() - (if suspended then 1 else 0)
      ensures !suspended && curIMcuRow < totalRows ==> prep.rowsToGo > 0 && rowgroupCtr < DCTSIZE && inRow >= n
      ensures suspended ==> rowgroupCtr == DCTSIZE && curIMcuRow < totalRows
      ensures inRow <= n || (old(suspended) && !suspended && n == 0 && inRow == 1)
      ensures old(suspended) && !suspended && n == 0 ==> inRow == 1
      ensures old(coef.answers) == [] ==> !suspended
      ensures !Accepts(old(coef.answers)) ==> curIMcuRow == old(curIMcuRow) && (suspended ==> coef.answers == Later(old(coef.answers)))
    {
      hide Clamped, GroupOf, prep.ContextValid, prep.SimpleValid, IMcuRows;
      inRow := 0;
      while curIMcuRow < totalRows
        invariant Going() && nextScanline == old(nextScanline) && InputOk(scanlines, n, nextScanline)
        invariant prep.Consumed() == nextScanline + inRow + (if suspended then 1 else 0)
        invariant suspended ==> rowgroupCtr == DCTSIZE && curIMcuRow < totalRows
        invariant !suspended && curIMcuRow < totalRows ==> rowgroupCtr < DCTSIZE && (!prep.context || inRow == 0 ==> prep.rowsToGo > 0)
        invariant curIMcuRow == totalRows ==> !suspended
        invariant suspended ==> inRow == 0 && old(suspended)
        invariant inRow <= n || (old(suspended) && n == 0 && inRow == 1)
        invariant n == 0 ==> prep.Consumed() == old(prep.Consumed())
        invariant old(coef.answers) == [] ==> coef.answers == []
        invariant !Accepts(old(coef.answers)) ==> curIMcuRow == old(curIMcuRow) && coef.answers == old(coef.answers)
        decreases totalRows - curIMcuRow
      {
        if rowgroupCtr < DCTSIZE {
          inRow := FillBuffer(scanlines, n, inRow, nextScanline);
        }
        if rowgroupCtr != DCTSIZE {
          return;
        }
        var ok;
        ok, inRow := OfferRow(inRow);
        if !ok {
          return;
        }
      }
    }

    /**
     jpeg_write_scanlines: returns how far the application has come. The image is never reported as
     complete while an iMCU row is still refused, and then every iMCU row has been accepted once, in
     order, made from the rows of the image.
     */
    method WriteScanlines(scanlines: seq<Row>, numLines: nat) returns (rows: nat)
      requires Valid() && numLines <= |scanlines|
      requires InputOk(scanlines, if numLines <= |prep.image| - nextScanline then numLines else |prep.image| - nextScanline, nextScanline)
      modifies this, prep, prep.buffer, coef, buffer
      ensures Valid() && nextScanline == old(nextScanline) + rows <= |prep.image|
      ensures nextScanline == |prep.image| ==>
                !suspended && curIMcuRow == totalRows && coef.received == IMcuRows(prep.image, prep.context, prep.v, totalRows)
      ensures !suspended && nextScanline < |prep.image| ==> rows >= numLines
      ensures rows > numLines <==> numLines == 0 && old(suspended) && !suspended
      ensures rows > numLines ==> rows == 1
      ensures old(coef.answers) == [] ==> !suspended
      ensures !Accepts(old(coef.answers)) ==> curIMcuRow == old(curIMcuRow) && (suspended ==> coef.answers == Later(old(coef.answers)))
    {
      var rowsLeft := |prep.image| - nextScanline;
      var n := if numLines > rowsLeft then rowsLeft else numLines;
      rows := ProcessData(scanlines, n);
      nextScanline := nextScanline + rows;
      if curIMcuRow == totalRows {
        CompleteMeansAll();
      }
    }

    /** When all iMCU rows are done, all rows have been taken in. */
    lemma CompleteMeansAll()
      requires Going() && curIMcuRow == totalRows
      ensures prep.rowsToGo == 0
    {
    }

    /** Without context rows, an iMCU row that is still to come needs rows that are still to come. */
    lemma SimpleHasRows()
      requires Going() && curIMcuRow < totalRows && !prep.context && rowgroupCtr == 0
      ensures prep.rowsToGo > 0
    {
      AtMost(prep.groups, DCTSIZE * (totalRows - 1), prep.v);
    }
  }

  /**
   The one way in which jpeg_write_scanlines reports more rows than it was given: it is called
   with none to resume after a refusal, and then reports the row withheld before.
   */
  method ResumeWithoutRows(image: Image) returns (first: nat, second: nat)
    requires |image| == DCTSIZE
    ensures first == DCTSIZE - 1 && second == 1
  {
    var c := new Compressor(image, false, 1, 1, [false]);
    first := c.WriteScanlines(image, DCTSIZE);
    second := c.WriteScanlines([], 0);
  }

  /** A full buffer is the next iMCU row. */
  lemma RowComplete(image: Image, context: bool, v: nat, m: nat, row: seq<Group>)
    requires |row| == DCTSIZE && forall k :: 0 <= k < DCTSIZE ==> row[k] == GroupOf(image, context, v, DCTSIZE * m + k)
    ensures IMcuRows(image, context, v, m) + [row] == IMcuRows(image, context, v, m + 1)
  {
    hide GroupOf;
    assert row == IMcuRow(image, context, v, m);
  }

  lemma AtMost(x: nat, y: nat, v: nat)
    requires x <= y
    ensures x * v <= y * v
  {
  }
}
