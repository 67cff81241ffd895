/**
 The compression preprocessor (jpeg/jcprepct.c): it collects rows into row groups for the
 downsampler, in context mode through a ring of three row groups whose row pointers wrap around.
 Rows are those of one component after colour conversion.
 */
module Preprocessing {

  type Row = seq<int>

  type Image = s: seq<Row> | |s| > 0 witness [[]]

  /** The image with its first and last rows repeated beyond its edges. */
  function Clamped(image: Image, i: int): Row
  {
    image[if i < 0 then 0 else if i >= |image| then |image| - 1 else i]
  }

  /** The rows from `from` on, n of them, of the image so extended. */
  function Rows(image: Image, from: int, n: nat): (r: seq<Row>)
    ensures |r| == n && forall j :: 0 <= j < n ==> r[j] == Clamped(image, from + j)
  {
    seq(n, j requires 0 <= j < n => Clamped(image, from + j))
  }

  /**
   A row group of output: what the downsampler made of some rows, or copies of the row before it
   that fill up the last iMCU row.
   */
  datatype Group = Downsampled(rows: seq<Row>) | Replica

  /** Row group number g of the output, for vertical sampling factor v. */
  function GroupOf(image: Image, context: bool, v: nat, g: nat): Group
  {
    if context then Downsampled(Rows(image, g * v - v, 3 * v))
    else if g * v < |image| then Downsampled(Rows(image, g * v, v))
    else Replica
  }

  class Prep {
    const image: Image
    const context: bool
    const v: nat
    const buffer: array<Row>
    const pointers: array<nat>
    var rowsToGo: nat
    var nextBufRow: nat
    var thisRowGroup: nat
    var nextBufStop: nat
    ghost var groups: nat
    ghost var start: int
    ghost var base: int

    /** jinit_c_prep_controller and start_pass_prep. */
    constructor (image: Image, context: bool, v: nat)
      requires v >= 1
      ensures Valid() && this.image == image && this.context == context && this.v == v
      ensures groups == 0 && rowsToGo == |image| && fresh(buffer) && fresh(pointers)
    {
      this.image, this.context, this.v := image, context, v;
      buffer := new Row[if context then 3 * v else v](_ => []);
      pointers := new nat[5 * v](_ => 0);
      rowsToGo, nextBufRow, thisRowGroup, nextBufStop := |image|, 0, 0, 2 * v;
      groups, start, base := 0, 0, 0;
      new;
      CreateContextBuffer();
    }

    /** create_context_buffer: the pointers above and below wrap around to the last and first row groups. */
    method CreateContextBuffer()
      requires pointers.Length == 5 * v
      modifies pointers
      ensures Wrapped()
    {
      for i := 0 to 3 * v
        invariant forall k :: v <= k < v + i ==> pointers[k] == k - v
      {
        pointers[v + i] := i;
      }
      for i := 0 to v
        invariant forall k :: v <= k < 4 * v ==> pointers[k] == k - v
        invariant forall k :: 0 <= k < i ==> pointers[k] == 2 * v + k
        invariant forall k :: 4 * v <= k < 4 * v + i ==> pointers[k] == k - 4 * v
      {
        pointers[i] := 2 * v + i;
        pointers[4 * v + i] := i;
      }
    }

    /** Row pointer j - v leads to the physical row with that number, around the ring of 3 v rows. */
    ghost predicate Wrapped()
      reads pointers
    {
      && pointers.Length == 5 * v
      && forall k :: 0 <= k < 5 * v ==> pointers[k] == if k < v then k + 2 * v else if k < 4 * v then k - v else k - 4 * v
    }

    /** How many rows have been taken in. */
    ghost function Consumed(): int
      reads this
    {
      |image| - rowsToGo
    }

    /** The number of the next row to be stored, counting the rows made up below the image. */
    ghost function Stored(): int
      reads this
    {
      base + nextBufRow
    }

    ghost predicate Valid()
      reads this, buffer, pointers
    {
      && v >= 1 && rowsToGo <= |image| && start == groups * v
      && if context then ContextValid() && nextBufRow < nextBufStop else SimpleValid()
    }

    ghost predicate SimpleValid()
      reads this, buffer
    {
      && buffer.Length == v && nextBufRow < v
      && (rowsToGo > 0 ==> start + nextBufRow == Consumed())
      && (rowsToGo == 0 ==> start >= |image|)
      && forall t :: 0 <= t < nextBufRow ==> buffer[t] == Clamped(image, start + t)
    }

    /** The positions of the ring, and what is in it: row t holds the last row stored there. */
    ghost predicate ContextValid()
      reads this, buffer, pointers
    {
      && buffer.Length == 3 * v && Wrapped() && base >= 0 && nextBufRow <= nextBufStop
      && base + nextBufStop == start + 2 * v
      && ((thisRowGroup == 0 && nextBufStop == 2 * v) || (thisRowGroup == v && nextBufStop == 3 * v)
          || (thisRowGroup == 2 * v && nextBufStop == v))
      && (start == 0 || start + v <= Stored()) && start >= 0 && (base == 0 || base >= 3 * v)
      && (start == 0 ==> thisRowGroup == 0 && base == 0)
      && (if rowsToGo > 0 then Stored() == Consumed() else Stored() >= |image|)
      && (rowsToGo == |image| ==> Stored() == 0 == start)
      && (forall t :: 0 <= t < nextBufRow ==> buffer[t] == Clamped(image, base + t))
      && (rowsToGo < |image| ==>
            forall t :: nextBufRow <= t < 3 * v && base + t - 3 * v >= 0 - v ==> buffer[t] == Clamped(image, base + t - 3 * v))
    }

    /** Colour conversion of n rows of input into the buffer. */
    method ColorConvert(input: seq<Row>, at: nat, n: nat)
      requires nextBufRow + n <= buffer.Length && at + n <= |input|
      modifies buffer
      ensures forall t :: 0 <= t < buffer.Length ==>
                buffer[t] == if nextBufRow <= t < nextBufRow + n then input[at + t - nextBufRow] else old(buffer[t])
    {
      for i := 0 to n
        invariant forall t :: 0 <= t < buffer.Length ==>
                    buffer[t] == if nextBufRow <= t < nextBufRow + i then input[at + t - nextBufRow] else old(buffer[t])
      {
        buffer[nextBufRow + i] := input[at + i];
      }
    }

    /** The input that is passed in continues where the rows taken in so far end. */
    ghost predicate Continues(input: seq<Row>, inRow: nat, avail: nat)
      reads this
    {
      && avail <= |input| && avail - inRow <= rowsToGo
      && forall i :: inRow <= i < avail ==> input[i] == Clamped(image, Consumed() + i - inRow)
    }

    /** Rows are taken in up to the point where a row group can be downsampled, or until they run out. */
    method TakeIn(input: seq<Row>, inRow: nat, avail: nat) returns (next: nat)
      requires Valid() && context && Continues(input, inRow, avail) && inRow < avail
      modifies this`nextBufRow, this`rowsToGo, buffer
      ensures ContextValid() && rowsToGo <= |image| && inRow < next <= avail && Consumed() == old(Consumed()) + next - inRow
      ensures nextBufRow < nextBufStop ==> next == avail
      ensures Continues(input, next, avail)
    {
      hide Clamped, Wrapped;
      var inrows := avail - inRow;
      var numrows := nextBufStop - nextBufRow;
      if numrows > inrows {
        numrows := inrows;
      }
      StoreRows(input, inRow, numrows);
      next := inRow + numrows;
      nextBufRow := nextBufRow + numrows;
      rowsToGo := rowsToGo - numrows;
    }

    /** The rows are stored, and at the top of the image also above it. */
    method StoreRows(input: seq<Row>, inRow: nat, numrows: nat)
      requires ContextValid() && v >= 1 && 1 <= numrows <= rowsToGo <= |image| && inRow + numrows <= |input| && nextBufRow + numrows <= nextBufStop
      requires forall i :: inRow <= i < inRow + numrows ==> input[i] == Clamped(image, Consumed() + i - inRow)
      modifies buffer
      ensures forall t :: 0 <= t < nextBufRow + numrows ==> buffer[t] == Clamped(image, base + t)
      ensures forall t :: nextBufRow + numrows <= t < 3 * v && base + t - 3 * v >= 0 - v ==> buffer[t] == Clamped(image, base + t - 3 * v)
    {
      hide Clamped, Wrapped;
      ColorConvert(input, inRow, numrows);
      assert forall t :: nextBufRow <= t < nextBufRow + numrows ==> buffer[t] == input[inRow + t - nextBufRow];
      if rowsToGo == |image| {
        assert buffer[0] == input[inRow];
        PadTop();
        AboveTop(image);
      }
    }

    /** The first row is copied into the row group above it, through the wrapped pointers. */
    method PadTop()
      requires Wrapped() && buffer.Length == 3 * v && v >= 1 && buffer[0] == Clamped(image, 0)
      modifies buffer
      ensures forall t :: 0 <= t < 2 * v ==> buffer[t] == old(buffer[t])
      ensures forall t :: 2 * v <= t < 3 * v ==> buffer[t] == Clamped(image, 0)
    {
      for row := 1 to v + 1
        invariant forall t :: 0 <= t < 3 * v - (row - 1) ==> buffer[t] == old(buffer[t])
        invariant forall t :: 3 * v - (row - 1) <= t < 3 * v ==> buffer[t] == Clamped(image, 0)
      {
        buffer[pointers[v - row]] := buffer[pointers[v]];
      }
    }

    /** Below the image, its last row is repeated. */
    method PadBottom()
      requires Valid() && context && rowsToGo == 0
      modifies this`nextBufRow, buffer
      ensures ContextValid() && nextBufRow == nextBufStop
    {
      hide Clamped, Wrapped;
      BelowBottom(image);
      PointersAt(nextBufRow - 1);
      ExpandBottomEdge(nextBufRow, nextBufStop);
      nextBufRow := nextBufStop;
    }

    /** expand_bottom_edge, on the ring: the row before position `from` is copied to those up to `to`. */
    method ExpandBottomEdge(from: nat, to: nat)
      requires Wrapped() && v >= 1 && buffer.Length == 3 * v && from < to <= 3 * v && (from == 0 ==> to < 3 * v)
      modifies buffer
      ensures forall t :: 0 <= t < 3 * v ==> buffer[t] == if from <= t < to then old(buffer[if from == 0 then 3 * v - 1 else from - 1]) else old(buffer[t])
    {
      hide Wrapped;
      PointersAt(from - 1);
      for row := from to to
        invariant forall t :: 0 <= t < 3 * v ==> buffer[t] == if from <= t < row then old(buffer[if from == 0 then 3 * v - 1 else from - 1]) else old(buffer[t])
      {
        PointersAt(row);
        buffer[pointers[v + row]] := buffer[pointers[v + from - 1]];
      }
    }

    lemma PointersAt(row: int)
      requires Wrapped() && v >= 1 && -1 <= row < 3 * v
      ensures pointers.Length == 5 * v && pointers[v + row] == if row == -1 then 3 * v - 1 else row
    {
    }

    /** The rows that the downsampler sees: three row groups around the one to be processed. */
    method Window() returns (w: seq<Row>)
      requires ContextValid() && v >= 1 && nextBufRow == nextBufStop && rowsToGo < |image|
      ensures w == Rows(image, start - v, 3 * v)
    {
      w := [];
      while |w| < 3 * v
        invariant |w| <= 3 * v && forall j :: 0 <= j < |w| ==> w[j] == Clamped(image, start - v + j)
      {
        w := w + [buffer[pointers[thisRowGroup + |w|]]];
      }
    }

    /** The pointers move on, wrapping around the ring. */
    method Advance()
      requires ContextValid() && nextBufRow == nextBufStop && rowsToGo < |image| && v >= 1 && start == groups * v
      modifies this`thisRowGroup, this`nextBufRow, this`nextBufStop, this`groups, this`start, this`base
      ensures ContextValid() && nextBufRow < nextBufStop && groups == old(groups) + 1 && start == old(start) + v == groups * v
    {
      hide Clamped, Wrapped;
      NextMultiple(groups, v);
      var bufHeight := 3 * v;
      thisRowGroup := thisRowGroup + v;
      if thisRowGroup >= bufHeight {
        thisRowGroup := 0;
      }
      if nextBufRow >= bufHeight {
        nextBufRow := 0;
        base := base + 3 * v;
      }
      nextBufStop := nextBufRow + v;
      groups, start := groups + 1, start + v;
    }

    /**
     pre_process_context: takes in rows and downsamples row groups until the output is full or the
     rows have run out. Below the image it goes on without input. Each row group is made from the
     rows around it in the image with its edge rows repeated.
     */
    method PreProcessContext(input: seq<Row>, inRow: nat, avail: nat, output: array<Group>, outGroup: nat)
        returns (next: nat, filled: nat)
      requires Valid() && context && Continues(input, inRow, avail) && outGroup <= output.Length
      modifies this`nextBufRow, this`rowsToGo, this`thisRowGroup, this`nextBufStop, this`groups, this`start, this`base, buffer, output
      ensures Valid() && inRow <= next && (next <= avail || next == inRow) && outGroup <= filled <= output.Length
      ensures Consumed() == old(Consumed()) + next - inRow && groups == old(groups) + filled - outGroup
      ensures forall k :: 0 <= k < outGroup ==> output[k] == old(output[k])
      ensures forall k :: outGroup <= k < filled ==> output[k] == GroupOf(image, context, v, old(groups) + k - outGroup)
      ensures filled < output.Length ==> next >= avail && rowsToGo > 0
      ensures filled > outGroup && old(rowsToGo) > 0 ==> next > inRow
    {
      hide ContextValid, GroupOf, Clamped;
      next, filled := inRow, outGroup;
      while filled < output.Length
        invariant Valid() && inRow <= next && (next <= avail || next == inRow) && outGroup <= filled <= output.Length
        invariant Consumed() == old(Consumed()) + next - inRow && groups == old(groups) + filled - outGroup
        invariant Continues(input, next, avail)
        invariant forall k :: 0 <= k < outGroup ==> output[k] == old(output[k])
        invariant forall k :: outGroup <= k < filled ==> output[k] == GroupOf(image, context, v, old(groups) + k - outGroup)
        invariant filled > outGroup && old(rowsToGo) > 0 ==> next > inRow
        decreases output.Length - filled, avail - next
      {
        if next < avail {
          next := TakeIn(input, next, avail);
        } else {
          if rowsToGo != 0 {
            break;
          }
          if nextBufRow < nextBufStop {
            PadBottom();
          }
        }
        Ordered();
        if nextBufRow == nextBufStop {
          var w := Window();
          WindowIsGroup(image, v, groups);
          output[filled] := Downsampled(w);
          filled := filled + 1;
          Advance();
        }
      }
    }

    lemma Ordered()
      requires ContextValid()
      ensures nextBufRow <= nextBufStop
    {
    }

    lemma WindowIsGroup(image: Image, v: nat, g: nat)
      ensures Downsampled(Rows(image, g * v - v, 3 * v)) == GroupOf(image, true, v, g)
    {
    }

    /**
     pre_process_data: the same without context rows. At the bottom of the image the last row group
     is padded with copies of the last row, and the output with copies of its own last row.
     */
    method PreProcessData(input: seq<Row>, inRow: nat, avail: nat, output: array<Group>, outGroup: nat)
        returns (next: nat, filled: nat)
      requires Valid() && !context && Continues(input, inRow, avail) && outGroup <= output.Length && output.Length > 0
      modifies this`nextBufRow, this`rowsToGo, this`groups, this`start, buffer, output
      ensures Valid() && inRow <= next && (next <= avail || next == inRow) && outGroup <= filled <= output.Length
      ensures Consumed() == old(Consumed()) + next - inRow && groups == old(groups) + filled - outGroup
      ensures forall k :: 0 <= k < outGroup ==> output[k] == old(output[k])
      ensures forall k :: outGroup <= k < filled ==> output[k] == GroupOf(image, context, v, old(groups) + k - outGroup)
      ensures old(rowsToGo) > 0 && filled < output.Length ==> next >= avail && rowsToGo > 0
      ensures filled > outGroup ==> next > inRow
    {
      hide GroupOf, Clamped;
      next, filled := inRow, outGroup;
      while next < avail && filled < output.Length
        invariant Valid() && inRow <= next && (next <= avail || next == inRow) && outGroup <= filled <= output.Length
        invariant Consumed() == old(Consumed()) + next - inRow && groups == old(groups) + filled - outGroup
        invariant Continues(input, next, avail)
        invariant forall k :: 0 <= k < outGroup ==> output[k] == old(output[k])
        invariant forall k :: outGroup <= k < filled ==> output[k] == GroupOf(image, context, v, old(groups) + k - outGroup)
        invariant old(rowsToGo) > 0 && rowsToGo == 0 ==> filled == output.Length
        invariant filled > outGroup ==> next > inRow
        decreases avail - next
      {
        next := FillRows(input, next, avail);
        if nextBufRow == v {
          SimpleGroup(buffer[..]);
          output[filled] := Downsampled(buffer[..]);
          NextMultiple(groups, v);
          nextBufRow, groups, start, filled := 0, groups + 1, start + v, filled + 1;
        }
        if rowsToGo == 0 && filled < output.Length {
          filled := PadOutput(output, filled);
          break;
        }
      }
    }

    /** Rows are taken in up to a full row group; at the bottom of the image the group is padded. */
    method FillRows(input: seq<Row>, inRow: nat, avail: nat) returns (next: nat)
      requires Valid() && !context && Continues(input, inRow, avail) && inRow < avail
      modifies this`nextBufRow, this`rowsToGo, buffer
      ensures inRow < next <= avail && Consumed() == old(Consumed()) + next - inRow && Continues(input, next, avail)
      ensures buffer.Length == v && nextBufRow <= v && (rowsToGo == 0 ==> nextBufRow == v && start + v >= |image|) && rowsToGo <= |image|
      ensures nextBufRow < v ==> next == avail
      ensures rowsToGo > 0 ==> start + nextBufRow == Consumed()
      ensures start < |image| && forall t :: 0 <= t < nextBufRow ==> buffer[t] == Clamped(image, start + t)
    {
      hide Clamped;
      var inrows := avail - inRow;
      var numrows := v - nextBufRow;
      if numrows > inrows {
        numrows := inrows;
      }
      ColorConvert(input, inRow, numrows);
      next := inRow + numrows;
      nextBufRow := nextBufRow + numrows;
      rowsToGo := rowsToGo - numrows;
      if rowsToGo == 0 && nextBufRow < v {
        BelowBottom(image);
        for row := nextBufRow to v
          modifies buffer
          invariant forall t :: 0 <= t < row ==> buffer[t] == Clamped(image, start + t)
        {
          buffer[row] := buffer[nextBufRow - 1];
        }
        nextBufRow := v;
      }
    }

    lemma SimpleGroup(rows: seq<Row>)
      requires !context && |rows| == v && start == groups * v && start < |image|
      requires forall t :: 0 <= t < v ==> rows[t] == Clamped(image, start + t)
      ensures Downsampled(rows) == GroupOf(image, context, v, groups)
    {
      assert rows == Rows(image, start, v);
    }

    /** The rest of the output is filled with copies. */
    method PadOutput(output: array<Group>, from: nat) returns (filled: nat)
      requires !context && v >= 1 && start == groups * v >= |image| && from <= output.Length
      modifies this`groups, this`start, output
      ensures filled == output.Length && groups == old(groups) + filled - from && start == groups * v >= old(start)
      ensures forall k :: 0 <= k < from ==> output[k] == old(output[k])
      ensures forall k :: from <= k < filled ==> output[k] == GroupOf(image, context, v, old(groups) + k - from)
    {
      filled := from;
      while filled < output.Length
        invariant from <= filled <= output.Length && groups == old(groups) + filled - from && start == groups * v >= old(start)
        invariant forall k :: 0 <= k < from ==> output[k] == old(output[k])
        invariant forall k :: from <= k < filled ==> output[k] == GroupOf(image, context, v, old(groups) + k - from)
      {
        output[filled] := Replica;
        NextMultiple(groups, v);
        filled, groups, start := filled + 1, groups + 1, start + v;
      }
    }
  }

  lemma BelowBottom(image: Image)
    ensures forall i :: i >= |image| - 1 ==> Clamped(image, i) == Clamped(image, |image|)
  {
  }

  lemma AboveTop(image: Image)
    ensures forall i :: i < 0 ==> Clamped(image, i) == Clamped(image, 0)
  {
  }

  lemma NextMultiple(g: nat, v: nat)
    ensures (g + 1) * v == g * v + v
  {
  }
}
