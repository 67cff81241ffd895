/**
 The reader of restart markers (jpeg/jdmarker.c): next_marker, read_restart_marker and
 jpeg_resync_to_restart, which the sequential and the progressive decoder share. The source may
 suspend at any byte.
 */
module MarkerReading {
  import opened ByteStream
  import opened ScanCoding
  import opened ScanDecoding

  /** Reading past a byte that is no FF. */
  lemma PassData(input: Bytes, p: nat)
    requires p < |input| && input[p] != 0xFF
    ensures SegmentEnd(input, p) == SegmentEnd(input, p + 1)
  {
  }

  /** Reading past FF, the FFs that may follow it, and the byte after them. */
  lemma PassFill(input: Bytes, p: nat, q: nat)
    requires p < q <= |input| && input[p] == 0xFF && SkipFill(input, p + 1) == q
    ensures q == |input| ==> SegmentEnd(input, p) == More
    ensures q < |input| && input[q] == 0 ==> SegmentEnd(input, p) == SegmentEnd(input, q + 1)
    ensures q < |input| && input[q] != 0 ==> SegmentEnd(input, p) == Marker(input[q], q + 1)
  {
  }

  lemma NothingLeft(input: Bytes)
    ensures SegmentEnd(input, |input|) == More
  {
  }

  lemma RestartStep(input: Bytes, code: int, pos: nat, desired: nat)
    requires pos <= |input| && desired < 8
    ensures Restart(input, Marker(code, pos), desired) ==
              match ResyncAction(code, desired)
              case Discard => Some((Marker(code, pos), true))
              case Leave => Some((Marker(code, pos), false))
              case Advance => Restart(input, SegmentEnd(input, pos), desired)
    ensures Restart(input, More, desired) == None
  {
  }

  /** The source has delivered the first avail bytes of input so far. */
  class MarkerReader {
    const input: Bytes
    const avail: nat
    var pos: nat
    var unreadMarker: int
    var nextRestartNum: nat

    constructor (input: Bytes, avail: nat, pos: nat, unreadMarker: int, nextRestartNum: nat)
      ensures this.input == input && this.avail == avail && this.pos == pos
      ensures this.unreadMarker == unreadMarker && this.nextRestartNum == nextRestartNum
    {
      this.input, this.avail, this.pos, this.unreadMarker, this.nextRestartNum := input, avail, pos, unreadMarker, nextRestartNum;
    }

    ghost predicate Valid()
      reads this
    {
      pos <= avail <= |input| && nextRestartNum < 8
    }

    /** The marker that has been read, or the one that will be found. */
    ghost function End(): Next
      requires pos <= |input|
      reads this
    {
      if unreadMarker != 0 then Marker(unreadMarker, pos) else SegmentEnd(input, pos)
    }

    /** next_marker: goes on to the next marker; if the source suspends, data passed are not read again. */
    method NextMarker() returns (ok: bool)
      requires Valid()
      modifies this`pos, this`unreadMarker
      ensures Valid()
      ensures ok ==> Marker(unreadMarker, pos) == SegmentEnd(input, old(pos))
      ensures !ok ==> unreadMarker == old(unreadMarker) && SegmentEnd(input, pos) == SegmentEnd(input, old(pos))
      ensures avail == |input| && SegmentEnd(input, old(pos)).Marker? ==> ok
    {
      hide SegmentEnd;
      ghost var end := SegmentEnd(input, pos);
      var p, c := pos, 0;
      NothingLeft(input);
      while true
        invariant Valid() && p == pos && unreadMarker == old(unreadMarker) && SegmentEnd(input, pos) == end
        decreases avail - p
      {
        if p == avail {
          return false;
        }
        ghost var p0 := p;
        c, p := input[p], p + 1;
        while c != 0xFF
          invariant Valid() && p0 <= pos == p - 1 < avail && c == input[p - 1]
          invariant unreadMarker == old(unreadMarker) && SegmentEnd(input, pos) == end
          decreases avail - p
        {
          PassData(input, p - 1);
          pos := p;
          if p == avail {
            return false;
          }
          c, p := input[p], p + 1;
        }
        ghost var q := p - 1;
        while c == 0xFF
          invariant p0 <= pos == q < p <= avail && c == input[p - 1]
          invariant if c == 0xFF then SkipFill(input, q + 1) == SkipFill(input, p) else SkipFill(input, q + 1) == p - 1
          decreases avail - p
        {
          if p == avail {
            if avail == |input| {
              PassFill(input, q, p);
            }
            return false;
          }
          c, p := input[p], p + 1;
        }
        PassFill(input, q, p - 1);
        if c != 0 {
          break;
        }
        pos := p;
      }
      unreadMarker := c;
      pos := p;
      ok := true;
    }

    /** The search for a restart marker has ended here; a marker that is not passed stays unread. */
    ghost predicate EndsHere(r: Option<(Next, bool)>)
      reads this
    {
      && r.Some? && r.value.0.Marker? && r.value.0.pos == pos
      && (r.value.1 <==> unreadMarker == 0) && (!r.value.1 ==> r.value.0.code == unreadMarker)
    }

    /** jpeg_resync_to_restart: what is done about an unexpected marker. */
    method Resync(desired: nat) returns (ok: bool)
      requires Valid() && unreadMarker != 0 && desired < 8
      modifies this`pos, this`unreadMarker
      ensures Valid()
      ensures ok ==> EndsHere(Restart(input, Marker(old(unreadMarker), old(pos)), desired))
      ensures old(unreadMarker) == 0xD0 + (desired + 1) % 8 || old(unreadMarker) == 0xD0 + (desired + 2) % 8 ==> ok && unchanged(this)
      ensures 0xC0 <= old(unreadMarker) < 0xD0 || old(unreadMarker) > 0xD7 ==> ok && unchanged(this)
      ensures old(unreadMarker) == 0xD0 + (desired + 3) % 8 || old(unreadMarker) == 0xD0 + (desired + 4) % 8
              || old(unreadMarker) == 0xD0 + (desired + 5) % 8 || old(unreadMarker) == 0xD0 + desired ==>
                ok && unreadMarker == 0 && pos == old(pos)
      ensures !ok ==> unreadMarker != 0
      ensures !ok ==> Restart(input, Marker(unreadMarker, pos), desired) == Restart(input, Marker(old(unreadMarker), old(pos)), desired)
      ensures avail == |input| && Restart(input, Marker(old(unreadMarker), old(pos)), desired).Some? ==> ok
    {
      hide Restart, SegmentEnd;
      ghost var result := Restart(input, Marker(unreadMarker, pos), desired);
      ghost var found := unreadMarker;
      while true
        invariant ResyncAction(found, desired) != Advance ==> unchanged(this)
        invariant Valid() && unreadMarker != 0 && Restart(input, Marker(unreadMarker, pos), desired) == result
        decreases |input| - pos
      {
        RestartStep(input, unreadMarker, pos, desired);
        match ResyncAction(unreadMarker, desired) {
          case Discard =>
            unreadMarker := 0;
            return true;
          case Advance =>
            ok := NextMarker();
            if !ok {
              RestartStep(input, unreadMarker, pos, desired);
              return;
            }
          case Leave =>
            return true;
        }
      }
    }

    /** read_restart_marker: the expected marker is passed; any other is left to the recovery. */
    method ReadRestartMarker() returns (ok: bool)
      requires Valid()
      modifies this`pos, this`unreadMarker, this`nextRestartNum
      ensures Valid()
      ensures ok ==> EndsHere(Restart(input, old(End()), old(nextRestartNum))) && nextRestartNum == (old(nextRestartNum) + 1) % 8
      ensures !ok ==> nextRestartNum == old(nextRestartNum)
      ensures !ok ==> Restart(input, End(), nextRestartNum) == Restart(input, old(End()), nextRestartNum)
      ensures avail == |input| && Restart(input, old(End()), old(nextRestartNum)).Some? ==> ok
    {
      hide Restart, SegmentEnd;
      RestartStep(input, 0, pos, nextRestartNum);
      if unreadMarker == 0 {
        ok := NextMarker();
        if !ok {
          return;
        }
      }
      if unreadMarker == RST0 + nextRestartNum {
        RestartStep(input, unreadMarker, pos, nextRestartNum);
        unreadMarker := 0;
      } else {
        ok := Resync(nextRestartNum);
        if !ok {
          return;
        }
      }
      nextRestartNum := (nextRestartNum + 1) % 8;
      ok := true;
    }
  }
}
