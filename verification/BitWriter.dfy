/**
 The bit writer of the Huffman encoders: emit_bits and flush_bits (jpeg/jchuff.c, and the same
 statements in jpeg/jcphuff.c). Bits collect at the top of a 24-bit buffer until they make whole
 bytes; a destination that is full may refuse to be emptied.
 */
module BitWriter {
  import opened Arith
  import opened BitString
  import opened ByteStream

  datatype Outcome = Done | Suspended | MissingCode | BadCoefficient

  const TWO24 := 0x100_0000
  const TWO32 := 0x1_0000_0000

  // ----- The bitwise or of two numbers -----

  function BitOr(x: nat, y: nat): nat
    decreases x + y
  {
    if x == 0 then y else if y == 0 then x
    else 2 * BitOr(x / 2, y / 2) + if x % 2 == 1 || y % 2 == 1 then 1 else 0
  }

  /** Numbers without a common bit: or is addition. */
  lemma {:induction false} OrDisjoint(x: nat, y: nat, k: nat, h: nat)
    requires x < Pow2(k) && y == h * Pow2(k)
    ensures BitOr(x, y) == x + y
    decreases k
  {
    if x != 0 && y != 0 {
      HalfOf(h, Pow2(k - 1), y, 0);
      OrDisjoint(x / 2, y / 2, k - 1, h);
    }
  }

  // ----- The buffer as a left-justified bit string -----

  /** The low 24 bits of buffer are the bits of s, at the top, and zeros below. */
  ghost predicate Buffered(buffer: nat, s: Bits)
  {
    |s| <= 24 && buffer < TWO32 && buffer % TWO24 == Value(s) * Pow2(24 - |s|)
  }

  lemma Pow24()
    ensures Pow2(24) == TWO24
  {
    Pow2Values();
    Pow2Add(16, 8);
  }

  /** Merging size new bits below the old ones. */
  lemma MergeBits(buffer: nat, s: Bits, code: nat, size: nat)
    requires Buffered(buffer, s) && |s| <= 7 && 1 <= size <= 16 && code < Pow2(size)
    ensures var incoming := code * Pow2(24 - (|s| + size));
            0 <= incoming < TWO24 && BitOr(incoming, buffer) == incoming + buffer && Buffered(incoming + buffer, s + Word(code, size))
  {
    hide Pow2, BitOr, Word, Value;
    var n := |s| + size;
    var p, q := Pow2(24 - n), Pow2(24 - |s|);
    var incoming := code * p;
    Pow24();
    assert q == Pow2(size) * p by { Pow2Add(size, 24 - n); }
    assert Pow2(|s|) * q == TWO24 by { Pow2Add(|s|, 24 - |s|); }
    assert incoming < q by { StrictScale(p, code, Pow2(size)); }
    var w := Value(s);
    ValueBound(s);
    MultipleOfQ(buffer, w, q, Pow2(|s|));
    OrDisjoint(incoming, buffer, 24 - |s|, (buffer / TWO24) * Pow2(|s|) + w);
    assert Value(s + Word(code, size)) == w * Pow2(size) + code by {
      ValueAppend(s, Word(code, size));
      ValueOfWord(code, size);
    }
    Distribute(w, Pow2(size), code, p);
    FitsBelow(w, Pow2(|s|), incoming, q);
    AddLow(buffer, incoming, w * q);
  }

  lemma StrictScale(p: nat, x: int, y: int)
    requires p >= 1 && x < y
    ensures x * p < y * p
  {
  }

  lemma Distribute(w: int, s: int, c: int, p: int)
    ensures (w * s + c) * p == w * (s * p) + c * p
  {
  }

  /** A buffer whose low 24 bits are a multiple of q, which divides 2^24, is a multiple of q. */
  lemma MultipleOfQ(buffer: nat, w: nat, q: nat, r: nat)
    requires r * q == TWO24 && buffer % TWO24 == w * q
    ensures buffer == ((buffer / TWO24) * r + w) * q
  {
    var h := buffer / TWO24;
    assert buffer == h * TWO24 + w * q;
    Distribute(h, r, w, q);
  }

  lemma FitsBelow(w: nat, r: nat, x: nat, q: nat)
    requires w < r && x < q
    ensures w * q + x < r * q
  {
    assert (w + 1) * q <= r * q;
  }

  lemma AddLow(buffer: nat, x: nat, low: nat)
    requires buffer < TWO32 && buffer % TWO24 == low && low + x < TWO24
    ensures buffer + x < TWO32 && (buffer + x) % TWO24 == low + x
  {
  }

  /** Taking the top byte off a buffer of at least 8 bits. */
  lemma TopByte(buffer: nat, s: Bits)
    requires Buffered(buffer, s) && 8 <= |s|
    ensures (buffer / 65536) % 256 == ByteOf(s[..8])
    ensures Buffered((buffer * 256) % TWO32, s[8..])
  {
    hide Pow2, Word, Value;
    var n := |s|;
    var hi, lo := Value(s[..8]), Value(s[8..]);
    var p := Pow2(24 - n);
    assert Value(s) == hi * Pow2(n - 8) + lo by {
      assert s == s[..8] + s[8..];
      ValueAppend(s[..8], s[8..]);
    }
    assert Pow2(n - 8) * p == 65536 by {
      Pow2Add(n - 8, 24 - n);
      Pow2Values();
    }
    assert Pow2(24 - (n - 8)) == 256 * p by {
      Pow2Add(8, 24 - n);
      Pow2Values();
    }
    assert lo * p < 65536 by {
      ValueBound(s[8..]);
      StrictScale(p, lo, Pow2(n - 8));
    }
    Distribute(hi, Pow2(n - 8), lo, p);
    assert buffer % TWO24 == hi * 65536 + lo * p;
    assert lo * (256 * p) == 256 * (lo * p);
    SplitBuffer(buffer, hi, lo * p);
  }

  lemma SplitBuffer(buffer: nat, hi: nat, low: nat)
    requires buffer < TWO32 && buffer % TWO24 == hi * 65536 + low && low < 65536
    ensures (buffer / 65536) % 256 == hi
    ensures ((buffer * 256) % TWO32) % TWO24 == 256 * low
  {
    var k := buffer / TWO24;
    assert buffer == k * TWO24 + hi * 65536 + low;
    QuotientIs(buffer, 65536, k * 256 + hi, low);
    QuotientIs(k * 256 + hi, 256, k, hi);
    QuotientIs(buffer * 256, TWO32, k, hi * TWO24 + 256 * low);
    QuotientIs(hi * TWO24 + 256 * low, TWO24, hi, 256 * low);
  }

  // ----- The writer -----

  /** The bits that one call of emit_bits sends: the low size bits of code, whatever its sign. */
  function Low(code: int, size: nat): (s: Bits)
    ensures |s| == size
  {
    Word(code % Pow2(size), size)
  }

  /** The bytes of a segment, flushed, with the restart marker that ends it. */
  function Ended(base: Bytes, s: Bits, n: nat): Bytes
    requires n < 8
  {
    base + Pack(s + Padding()) + Rst(n)
  }

  /** Padding: seven ones, of which only those that complete a byte reach the file. */
  function Padding(): (s: Bits)
    ensures |s| == 7
  {
    Low(0x7F, 7)
  }

  /** The bytes are those of s, whose last byte is filled with ones. */
  ghost predicate FilledWithOnes(s: Bits, bytes: Bytes)
  {
    exists t: Bits :: |t| <= 7 && (|s| + |t|) % 8 == 0 && (forall i :: 0 <= i < |t| ==> t[i]) && bytes == Pack(s + t)
  }

  lemma OnesOnly()
    ensures forall i :: 0 <= i < 7 ==> Padding()[i]
  {
    assert Pow2(7) == 0x80 by { Pow2Values(); }
    forall i | 0 <= i < 7
      ensures Padding()[i]
    {
      AllOnes(7, i);
    }
  }

  lemma {:induction false} AllOnes(n: nat, i: nat)
    requires i < n
    ensures Word(Pow2(n) - 1, n)[i]
  {
    var p := Pow2(n - 1);
    assert Pow2(n) == 2 * p && (2 * p - 1) / 2 == p - 1 && (2 * p - 1) % 2 == 1;
    assert Word(Pow2(n) - 1, n) == Word(p - 1, n - 1) + [true];
    if i < n - 1 {
      AllOnes(n - 1, i);
    }
  }

  /** Of the padding, just what fills the last byte is written. */
  lemma PaddedWithOnes(s: Bits)
    ensures FilledWithOnes(s, Pack(s + Padding()))
  {
    hide Pack, Padding;
    var n := (8 - |s| % 8) % 8;
    var t := Padding()[..n];
    OnesOnly();
    PackPartial(s + Padding(), |s| + n);
    assert (s + Padding())[..|s| + n] == s + t;
  }

  /**
   The working state while an MCU is written. A destination that suspends is one that refuses to
   be emptied when its free space has run out; any other accepts and offers bufferSize bytes.
   */
  class WorkingState {
    var out: Bytes
    var free: nat
    var putBuffer: nat
    var putBits: nat
    var lastDc: seq<int>
    const suspending: bool
    const bufferSize: nat

    constructor (out: Bytes, free: nat, putBuffer: nat, putBits: nat, lastDc: seq<int>, suspending: bool, bufferSize: nat)
      ensures this.out == out && this.free == free && this.putBuffer == putBuffer && this.putBits == putBits
      ensures this.lastDc == lastDc && this.suspending == suspending && this.bufferSize == bufferSize
    {
      this.out, this.free, this.putBuffer, this.putBits := out, free, putBuffer, putBits;
      this.lastDc, this.suspending, this.bufferSize := lastDc, suspending, bufferSize;
    }

    /** After the bytes of base, exactly the bits s have been written. */
    ghost predicate Holds(base: Bytes, s: Bits)
      reads this
    {
      && out == base + Pack(s)
      && putBits == |Partial(s)| && Buffered(putBuffer, Partial(s))
      && free > 0 && bufferSize > 0
    }

    method EmitByte(v: int) returns (ok: bool)
      requires 0 <= v < 256 && free > 0 && bufferSize > 0
      modifies this`out, this`free
      ensures out == old(out) + [v]
      ensures ok <==> !suspending || old(free) > 1
      ensures ok ==> free > 0
      ensures suspending ==> free == old(free) - 1
    {
      out := out + [v];
      free := free - 1;
      if free == 0 {
        if suspending {
          return false;
        }
        free := bufferSize;
      }
      return true;
    }

    /** Writes a data byte, with a zero byte stuffed after FF. */
    method EmitStuffed(c: int) returns (ok: bool)
      requires 0 <= c < 256 && free > 0 && bufferSize > 0
      modifies this`out, this`free
      ensures ok <==> !suspending || old(free) > |StuffedByte(c)|
      ensures ok ==> free > 0 && out == old(out) + StuffedByte(c)
      ensures ok && suspending ==> free == old(free) - |StuffedByte(c)|
    {
      ok := EmitByte(c);
      if ok && c == 0xFF {
        ok := EmitByte(0);
      }
    }

    /**
     emit_bits: appends the low size bits of code. It suspends exactly if the bytes completed by
     them would leave no free space in a suspending destination.
     */
    method EmitBits(code: int, size: nat, ghost base: Bytes, ghost s: Bits) returns (st: Outcome)
      requires Holds(base, s) && size <= 16
      modifies this`out, this`free, this`putBuffer, this`putBits
      ensures st == MissingCode <==> size == 0
      ensures st == Suspended <==> size > 0 && suspending && old(free) <= |Pack(s + Low(code, size))| - |Pack(s)|
      ensures st == Done <==> st != MissingCode && st != Suspended
      ensures st == Done ==> Holds(base, s + Low(code, size))
      ensures st == Done && suspending ==> free == old(free) - (|Pack(s + Low(code, size))| - |Pack(s)|)
      ensures st == MissingCode ==> unchanged(this)
    {
      hide Pow2, Pack, StuffedByte, Buffered, BitOr, Word, ByteOf;
      if size == 0 {
        return MissingCode;
      }
      var incoming := code % Pow2(size);
      var n := putBits + size;
      ghost var k := |s| - |s| % 8;
      MergeBits(putBuffer, Partial(s), incoming, size);
      var buffer: nat := BitOr(incoming * Pow2(24 - n), putBuffer);
      JoinPartial(s, Low(code, size), k);
      var ok;
      ok, buffer, n := DrainBytes(buffer, n, base, s + Low(code, size), k);
      if !ok {
        return Suspended;
      }
      putBuffer := buffer;
      putBits := n;
      return Done;
    }

    /** The loop of emit_bits: sends whole bytes off the top of the buffer. */
    method DrainBytes(buffer: nat, n: nat, ghost base: Bytes, ghost all: Bits, ghost start: nat)
        returns (ok: bool, rest: nat, left: nat)
      requires start <= |all| && start % 8 == 0 && n == |all| - start && free > 0 && bufferSize > 0
      requires Buffered(buffer, all[start..]) && out == base + Pack(all[..start])
      modifies this`out, this`free
      ensures ok <==> !suspending || old(free) > |Pack(all)| - |Pack(all[..start])|
      ensures ok ==> out == base + Pack(all) && left == |Partial(all)| && Buffered(rest, Partial(all)) && free > 0
      ensures ok && suspending ==> free == old(free) - (|Pack(all)| - |Pack(all[..start])|)
    {
      hide Pow2, Pack, StuffedByte, Buffered, BitOr, Word, ByteOf;
      ghost var k := start;
      rest, left := buffer, n;
      while left >= 8
        invariant start <= k <= |all| && k % 8 == 0 && left == |all| - k
        invariant Buffered(rest, all[k..])
        invariant out == base + Pack(all[..k]) && free > 0
        invariant suspending ==> free == old(free) - (|Pack(all[..k])| - |Pack(all[..start])|)
      {
        var c := (rest / 65536) % 256;
        TopByte(rest, all[k..]);
        PackNext(all, k);
        ok := EmitStuffed(c);
        if !ok {
          PackGrows(all, k + 8);
          return;
        }
        assert all[k..][8..] == all[k + 8..];
        rest := (rest * 256) % TWO32;
        left := left - 8;
        k := k + 8;
      }
      PackPartial(all, k);
      assert all[k..] == Partial(all);
      ok := true;
    }

    /** flush_bits: fills a partial byte with ones and empties the buffer. */
    method FlushBits(ghost base: Bytes, ghost s: Bits) returns (st: Outcome)
      requires Holds(base, s)
      modifies this`out, this`free, this`putBuffer, this`putBits
      ensures st == Suspended <==> suspending && old(free) <= |Pack(s + Padding())| - |Pack(s)|
      ensures st == Done <==> st != Suspended
      ensures st == Done ==> Holds(base + Pack(s + Padding()), [])
      ensures st == Done ==> exists t: Bits :: |t| <= 7 && (|s| + |t|) % 8 == 0 && (forall i :: 0 <= i < |t| ==> t[i]) && out == base + Pack(s + t)
      ensures st == Done && suspending ==> free == old(free) - (|Pack(s + Padding())| - |Pack(s)|)
    {
      hide Pow2, Word, Pack, Value, Low;
      PaddedWithOnes(s);
      st := EmitBits(0x7F, 7, base, s);
      if st != Done {
        return;
      }
      putBuffer := 0;
      putBits := 0;
      PackNone([]);
      EmptyBuffer();
    }

    /** Ends a segment: flushes it and writes a restart marker. */
    method EndSegment(restartNum: nat, ghost base: Bytes, ghost s: Bits) returns (st: Outcome)
      requires Holds(base, s) && restartNum < 8
      modifies this`out, this`free, this`putBuffer, this`putBits
      ensures st == Done || st == Suspended
      ensures st == Suspended <==> suspending && old(free) <= |Pack(s + Padding())| - |Pack(s)| + 2
      ensures st == Done ==> Holds(Ended(base, s, restartNum), [])
      ensures st == Done ==> exists bytes :: FilledWithOnes(s, bytes) && out == base + bytes + [0xFF, 0xD0 + restartNum]
      ensures st == Done && suspending ==> free == old(free) - (|Pack(s + Padding())| - |Pack(s)|) - 2
    {
      hide Buffered, Padding, Pack, Partial, FilledWithOnes;
      NothingWritten();
      PaddedWithOnes(s);
      LongerPack(s, Padding());
      st := FlushBits(base, s);
      if st != Done {
        return;
      }
      var ok := EmitByte(0xFF);
      if !ok {
        return Suspended;
      }
      ok := EmitByte(RST0 + restartNum);
      if !ok {
        return Suspended;
      }
      assert base + Pack(s + Padding()) + [] + [0xFF] + [RST0 + restartNum] == Ended(base, s, restartNum) + [];
    }
  }

  lemma JoinPartial(s: Bits, t: Bits, k: nat)
    requires k == |s| - |s| % 8
    ensures k % 8 == 0 && (s + t)[k..] == Partial(s) + t
    ensures Pack((s + t)[..k]) == Pack(s)
  {
    hide Pack, Partial;
    PackPartial(s, k);
    assert (s + t)[..k] == s[..k];
    PartialIs(s, k);
    assert (s + t)[k..] == s[k..] + t;
  }

  lemma PartialIs(s: Bits, k: nat)
    requires k == |s| - |s| % 8
    ensures k % 8 == 0 && Partial(s) == s[k..]
  {
  }

  lemma EmptyBuffer()
    ensures Buffered(0, [])
  {
  }

  lemma NothingWritten()
    ensures Pack([]) == [] && Partial([]) == [] && Buffered(0, [])
  {
    PackNone([]);
    EmptyBuffer();
  }

  /** Later bits never shorten the output. */
  lemma PackGrows(s: Bits, k: nat)
    requires k <= |s| && k % 8 == 0
    ensures |Pack(s[..k])| <= |Pack(s)|
  {
    hide Pack;
    assert s == s[..k] + s[k..];
    PackAppend(s[..k], s[k..]);
  }

  lemma LongerPack(s: Bits, t: Bits)
    ensures |Pack(s)| <= |Pack(s + t)|
  {
    hide Pack;
    var k := |s| - |s| % 8;
    PackPartial(s, k);
    assert (s + t)[..k] == s[..k];
    PackGrows(s + t, k);
  }
}
