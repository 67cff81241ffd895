/**
 Entropy-coded bytes: a zero byte is stuffed after every FF (ITU-T T.81, section F.1.2.3), and
 any other byte after FF is a marker that ends the segment.
 */
module ByteStream {
  import opened Arith
  import opened BitString

  type Bytes = s: seq<int> | forall k :: 0 <= k < |s| ==> 0 <= s[k] < 256

  function StuffedByte(c: int): (r: Bytes)
    requires 0 <= c < 256
  {
    if c == 0xFF then [0xFF, 0] else [c]
  }

  const RST0 := 0xD0

  /** A restart marker. */
  function Rst(n: nat): (m: Bytes)
    requires n < 8
  {
    [0xFF, RST0 + n]
  }

  function ByteOf(s: Bits): (c: int)
    requires |s| == 8
    ensures 0 <= c < 256
  {
    ValueBound(s);
    Pow2Values();
    Value(s)
  }

  /** The whole bytes of a bit string, as they appear in the file. */
  function Pack(s: Bits): (r: Bytes)
  {
    if |s| < 8 then [] else StuffedByte(ByteOf(s[..8])) + Pack(s[8..])
  }

  /** A byte holds its first bit at the top. */
  lemma ByteIs(s: Bits)
    requires |s| == 8
    ensures var b := seq(8, i requires 0 <= i < 8 => if s[i] then 1 else 0);
            ByteOf(s) == 128 * b[0] + 64 * b[1] + 32 * b[2] + 16 * b[3] + 8 * b[4] + 4 * b[5] + 2 * b[6] + b[7]
  {
    hide Value, BitValue;
    FirstBits(s, 7);
    FirstBits(s, 6);
    FirstBits(s, 5);
    FirstBits(s, 4);
    FirstBits(s, 3);
    FirstBits(s, 2);
    FirstBits(s, 1);
    FirstBits(s, 0);
    assert s[..8] == s && s[..0] == [];
    NoValue();
  }

  lemma FirstBits(s: Bits, i: nat)
    requires i < |s|
    ensures Value(s[..i + 1]) == 2 * Value(s[..i]) + if s[i] then 1 else 0
  {
    assert s[..i + 1][..i] == s[..i];
    ValueStep(s[..i + 1]);
  }

  /** Every FF is followed by a 0. */
  ghost predicate Stuffed(bytes: Bytes)
  {
    forall i :: 0 <= i < |bytes| && bytes[i] == 0xFF ==> i + 1 < |bytes| && bytes[i + 1] == 0
  }

  lemma StuffedMore(c: int, rest: Bytes)
    requires 0 <= c < 256 && Stuffed(rest)
    ensures Stuffed(StuffedByte(c) + rest)
  {
    var head := StuffedByte(c);
    forall i | 0 <= i < |head + rest| && (head + rest)[i] == 0xFF
      ensures i + 1 < |head + rest| && (head + rest)[i + 1] == 0
    {
      if i >= |head| {
        assert rest[i - |head|] == 0xFF;
      }
    }
  }

  /** Each FF among the packed bytes is followed by a stuffed 0; apart from these there is a byte for every 8 bits. */
  lemma {:induction false} EveryFFStuffed(s: Bits)
    ensures forall i :: 0 <= i < |Pack(s)| && Pack(s)[i] == 0xFF ==> i + 1 < |Pack(s)| && Pack(s)[i + 1] == 0
    ensures |Pack(s)| == |s| / 8 + multiset(Pack(s))[0xFF]
  {
    hide ByteOf, Pack, StuffedByte;
    if |s| < 8 {
      PackNone(s);
    } else {
      EveryFFStuffed(s[8..]);
      PackByte(s);
      var c, rest := ByteOf(s[..8]), Pack(s[8..]);
      StuffedMore(c, rest);
      StuffedLength(c);
      assert multiset(StuffedByte(c) + rest) == multiset(StuffedByte(c)) + multiset(rest);
    }
  }

  lemma StuffedLength(c: int)
    requires 0 <= c < 256
    ensures |StuffedByte(c)| == 1 + multiset(StuffedByte(c))[0xFF]
  {
  }

  /** The bits that do not fill a byte. */
  function Partial(s: Bits): (r: Bits)
    ensures |r| == |s| % 8
  {
    s[|s| - |s| % 8..]
  }

  lemma PackByte(s: Bits)
    requires |s| >= 8
    ensures Pack(s) == StuffedByte(ByteOf(s[..8])) + Pack(s[8..])
  {
  }

  lemma PackNone(s: Bits)
    requires |s| < 8
    ensures Pack(s) == []
  {
  }

  lemma {:induction false} PackAppend(a: Bits, b: Bits)
    requires |a| % 8 == 0
    ensures Pack(a + b) == Pack(a) + Pack(b)
    decreases |a|
  {
    hide Pack, ByteOf, StuffedByte;
    if a == [] {
      assert a + b == b;
      PackNone(a);
    } else {
      assert (a + b)[..8] == a[..8] && (a + b)[8..] == a[8..] + b;
      PackAppend(a[8..], b);
      PackByte(a);
      PackByte(a + b);
      var head, pa, pb := StuffedByte(ByteOf(a[..8])), Pack(a[8..]), Pack(b);
      assert head + (pa + pb) == (head + pa) + pb;
    }
  }

  /** Bits that do not fill another byte add nothing to the file. */
  lemma PackPartial(s: Bits, k: nat)
    requires k <= |s| < k + 8 && k % 8 == 0
    ensures Pack(s) == Pack(s[..k])
  {
    hide Pack, ByteOf, StuffedByte;
    assert s == s[..k] + s[k..];
    PackAppend(s[..k], s[k..]);
    PackNone(s[k..]);
  }

  lemma PackNext(s: Bits, k: nat)
    requires k + 8 <= |s| && k % 8 == 0
    ensures Pack(s[..k + 8]) == Pack(s[..k]) + StuffedByte(ByteOf(s[k..][..8]))
  {
    hide Pack, ByteOf, StuffedByte;
    var byte := s[k..][..8];
    assert s[..k + 8] == s[..k] + byte;
    PackAppend(s[..k], byte);
    PackByte(byte);
    PackNone(byte[8..]);
    assert byte[..8] == byte;
  }

  // ----- Reading -----

  datatype Next = More | Data(c: int, pos: nat) | Marker(code: int, pos: nat)

  /** The position of the first byte at or after pos that is not FF. */
  function SkipFill(input: Bytes, pos: nat): (q: nat)
    requires pos <= |input|
    ensures pos <= q <= |input| && (q < |input| ==> input[q] != 0xFF)
    ensures forall k :: pos <= k < q ==> input[k] == 0xFF
    decreases |input| - pos
  {
    if pos < |input| && input[pos] == 0xFF then SkipFill(input, pos + 1) else pos
  }

  /** The next data byte or marker at pos: FF 00 is a data byte FF, even after more FFs. */
  function NextByte(input: Bytes, pos: nat): (n: Next)
    requires pos <= |input|
    ensures !n.More? ==> pos < n.pos <= |input|
    ensures n.Data? ==> 0 <= n.c < 256
    ensures n.Marker? ==> 0 < n.code < 0xFF
  {
    if pos == |input| then More
    else if input[pos] != 0xFF then Data(input[pos], pos + 1)
    else
      var q := SkipFill(input, pos + 1);
      if q == |input| then More
      else if input[q] == 0 then Data(0xFF, q + 1)
      else Marker(input[q], q + 1)
  }

  /**
   Any number of FFs may come before a marker code or the 0 that makes them a data byte FF; FFs at
   the end of the input tell nothing yet.
   */
  lemma NextByteIs(input: Bytes, pos: nat)
    requires pos <= |input|
    ensures match NextByte(input, pos)
            case Data(c, q) => if c != 0xFF then q == pos + 1 && input[pos] == c
                               else q >= pos + 2 && input[q - 1] == 0 && forall k :: pos <= k < q - 1 ==> input[k] == 0xFF
            case Marker(m, q) => q >= pos + 2 && input[q - 1] == m && 0 < m < 0xFF && forall k :: pos <= k < q - 1 ==> input[k] == 0xFF
            case More => forall k :: pos <= k < |input| ==> input[k] == 0xFF
  {
  }

  /** The data bits from pos up to the next marker, or to the end of what there is. */
  function SourceBits(input: Bytes, pos: nat): (s: Bits)
    requires pos <= |input|
    decreases |input| - pos
  {
    match NextByte(input, pos)
    case Data(c, q) => Word(c, 8) + SourceBits(input, q)
    case _ => []
  }

  /** What ends the data at pos: a marker and the position after it, or the end of what there is. */
  function SegmentEnd(input: Bytes, pos: nat): (n: Next)
    requires pos <= |input|
    ensures !n.Data?
    ensures n.Marker? ==> pos < n.pos <= |input| && 0 < n.code < 0xFF
    decreases |input| - pos
  {
    match NextByte(input, pos)
    case Data(_, q) => SegmentEnd(input, q)
    case n => n
  }

  /** More input never changes what has already been found. */
  lemma NextBytePrefix(input: Bytes, avail: nat, pos: nat)
    requires pos <= avail <= |input|
    ensures !NextByte(input[..avail], pos).More? ==> NextByte(input, pos) == NextByte(input[..avail], pos)
  {
    if pos < avail && input[pos] == 0xFF {
      SkipFillPrefix(input, avail, pos + 1);
    }
  }

  lemma {:induction false} SkipFillPrefix(input: Bytes, avail: nat, pos: nat)
    requires pos <= avail <= |input|
    ensures SkipFill(input[..avail], pos) < avail ==> SkipFill(input, pos) == SkipFill(input[..avail], pos)
    decreases avail - pos
  {
    if pos < avail && input[pos] == 0xFF {
      SkipFillPrefix(input, avail, pos + 1);
    }
  }

  /** One data byte that was written stuffed. */
  lemma UnstuffByte(input: Bytes, pos: nat, c: int, rest: Bytes)
    requires pos <= |input| && 0 <= c < 256 && input[pos..] == StuffedByte(c) + rest
    ensures pos + |StuffedByte(c)| <= |input| && input[pos + |StuffedByte(c)|..] == rest
    ensures NextByte(input, pos) == Data(c, pos + |StuffedByte(c)|)
  {
    var head := StuffedByte(c);
    assert |input[pos..]| == |input| - pos;
    assert input[pos + |head|..] == input[pos..][|head|..];
    assert input[pos] == input[pos..][0];
    if c == 0xFF {
      assert input[pos + 1] == input[pos..][1];
    }
  }

  /** Bytes come back from packed bits. */
  lemma {:induction false} UnpackPacked(input: Bytes, pos: nat, s: Bits, rest: Bytes)
    requires |s| % 8 == 0 && pos <= |input| && input[pos..] == Pack(s) + rest
    ensures pos + |Pack(s)| <= |input| && input[pos + |Pack(s)|..] == rest
    ensures SourceBits(input, pos) == s + SourceBits(input, pos + |Pack(s)|)
    ensures SegmentEnd(input, pos) == SegmentEnd(input, pos + |Pack(s)|)
    decreases |s|
  {
    hide Pack, ByteOf, StuffedByte, NextByte, Word;
    if s == [] {
      PackNone(s);
      assert s + SourceBits(input, pos) == SourceBits(input, pos);
    } else {
      var c, t := ByteOf(s[..8]), s[8..];
      var head := StuffedByte(c);
      PackByte(s);
      assert input[pos..] == head + (Pack(t) + rest);
      UnstuffByte(input, pos, c, Pack(t) + rest);
      var q := pos + |head|;
      UnpackPacked(input, q, t, rest);
      WordOfByte(s[..8]);
      assert s == s[..8] + t;
      assert s[..8] + (t + SourceBits(input, q + |Pack(t)|)) == s + SourceBits(input, q + |Pack(t)|);
    }
  }

  lemma WordOfByte(s: Bits)
    requires |s| == 8
    ensures Word(ByteOf(s), 8) == s
  {
    WordOfValue(s);
  }
}
