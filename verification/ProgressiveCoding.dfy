/**
 What the blocks of a progressive AC scan are coded as (ITU-T T.81, section G.1.2), and the
 decoding procedure of section G.2 that replays it, as functions.
 */
module ProgressiveCoding {
  import opened JpegLimits
  import opened Arith
  import opened BitString
  import opened BitWriter
  import opened Coefficients
  import opened BlockCoding

  const MAX_EOBRUN := 0x7FFF
  const MAX_CORR_BITS := 1000
  const FLUSH_ABOVE := MAX_CORR_BITS - DCTSIZE2 + 1

  // ----- The point transform of AC coefficients -----

  /** Shifting right by al bits. */
  function ShiftRight(x: nat, al: nat): nat
  {
    if al == 0 then x else ShiftRight(x, al - 1) / 2
  }

  /** The magnitude without its low al bits. */
  function Shifted(v: int, al: nat): nat
  {
    ShiftRight(Abs(v), al)
  }

  /** The coefficient divided by 2^al, rounded towards zero. */
  function Reduced(v: int, al: nat): int
  {
    if v < 0 then 0 - Shifted(v, al) else Shifted(v, al)
  }

  /** What a decoder knows of v after the scans down to bit al. */
  function Scaled(v: int, al: nat): int
  {
    Reduced(v, al) * Pow2(al)
  }

  // ----- One block -----

  /** A band: coefficients ss to se in zigzag order, sent down to bit al with one table. */
  datatype Band = Band(refine: bool, tbl: nat, ss: nat, se: nat, al: nat)

  ghost predicate ValidBand(band: Band)
  {
    1 <= band.ss <= band.se < DCTSIZE2
  }

  /**
   What a block is coded as: the tokens sent while it is scanned; whether something is left that an
   end-of-band must tell; and the correction bits that go with it.
   */
  datatype BandCode = BandCode(body: seq<Token>, trailing: bool, bits: seq<int>)

  function Corrections(bits: seq<int>): (ts: seq<Token>)
    ensures |ts| == |bits| && forall i :: 0 <= i < |bits| ==> ts[i] == Raw(bits[i], 1)
  {
    seq(|bits|, i requires 0 <= i < |bits| => Raw(bits[i], 1))
  }

  function Prepend(ts: seq<Token>, c: BandCode): BandCode
  {
    BandCode(ts + c.body, c.trailing, c.bits)
  }

  /** First scan of a band, from position k on, after r zeros (figure G.3). */
  function FirstCode(band: Band, b: Block, k: nat, r: nat): BandCode
    requires band.se < DCTSIZE2
    decreases band.se + 1 - k, r
  {
    if k > band.se then BandCode([], r > 0, [])
    else
      var t := Reduced(b[Natural(k)], band.al);
      if t == 0 then FirstCode(band, b, k + 1, r + 1)
      else if r > 15 then Prepend([Symbol(false, band.tbl, ZRL)], FirstCode(band, b, k, r - 16))
      else
        var n := Category(Abs(t));
        Prepend([Symbol(false, band.tbl, 16 * r + n), Raw(Appended(t), n)], FirstCode(band, b, k + 1, 0))
  }

  /** The last newly nonzero coefficient before position k; 0 if there is none. */
  function LastNew(band: Band, b: Block, k: nat): nat
    requires k <= DCTSIZE2
  {
    if k <= band.ss then 0
    else if Shifted(b[Natural(k - 1)], band.al) == 1 then k - 1
    else LastNew(band, b, k - 1)
  }

  lemma {:induction false} LastNewIsLast(band: Band, b: Block, k: nat, j: nat)
    requires k <= DCTSIZE2 && band.ss <= j < k && Shifted(b[Natural(j)], band.al) == 1
    ensures j <= LastNew(band, b, k)
  {
    hide Natural, Shifted;
    if j < k - 1 && Shifted(b[Natural(k - 1)], band.al) != 1 {
      LastNewIsLast(band, b, k - 1, j);
    }
  }

  /** Refinement scan of a band, from position k on, after r zeros and the correction bits br (figure G.7). */
  function RefineCode(band: Band, b: Block, eob: nat, k: nat, r: nat, br: seq<int>): BandCode
    requires band.se < DCTSIZE2
    decreases band.se + 1 - k, r
  {
    if k > band.se then BandCode([], r > 0 || br != [], br)
    else
      var v := b[Natural(k)];
      var a := Shifted(v, band.al);
      if a == 0 then RefineCode(band, b, eob, k + 1, r + 1, br)
      else if r > 15 && k <= eob then
        Prepend([Symbol(false, band.tbl, ZRL)] + Corrections(br), RefineCode(band, b, eob, k, r - 16, []))
      else if a > 1 then RefineCode(band, b, eob, k + 1, r, br + [a % 2])
      else
        Prepend([Symbol(false, band.tbl, 16 * r + 1), Raw(if v < 0 then 0 else 1, 1)] + Corrections(br),
                RefineCode(band, b, eob, k + 1, 0, []))
  }

  function CodeOfBand(band: Band, b: Block): BandCode
    requires band.se < DCTSIZE2
  {
    if band.refine then RefineCode(band, b, LastNew(band, b, band.se + 1), band.ss, 0, [])
    else FirstCode(band, b, band.ss, 0)
  }

  // ----- From block to block -----

  /** An end-of-band run of e blocks: its size category and the bits below the leading one. */
  function EobTokens(tbl: nat, e: nat): seq<Token>
    requires e > 0
  {
    var n := Category(e / 2);
    [Symbol(false, tbl, 16 * n)] + if n > 0 then [Raw(e, n)] else []
  }

  /** Blocks whose end is not announced yet: their number and their correction bits. */
  datatype Pending = Pending(sent: seq<Token>, eobRun: nat, corr: seq<int>)

  /** Announces the pending end-of-band run. */
  function Announce(tbl: nat, p: Pending): Pending
  {
    if p.eobRun > 0 then Pending(p.sent + EobTokens(tbl, p.eobRun) + Corrections(p.corr), 0, []) else p
  }

  /** After one block: an end-of-band run is announced before anything else, and when it must not grow. */
  function AfterBand(band: Band, p: Pending, b: Block): Pending
    requires band.se < DCTSIZE2
  {
    ForcedOut(band, Extended(band, p, CodeOfBand(band, b)))
  }

  function Extended(band: Band, p: Pending, c: BandCode): Pending
  {
    var q := if c.body != [] then var a := Announce(band.tbl, p); Pending(a.sent + c.body, a.eobRun, a.corr) else p;
    if c.trailing then Pending(q.sent, q.eobRun + 1, q.corr + c.bits) else q
  }

  function ForcedOut(band: Band, p: Pending): Pending
  {
    if p.eobRun == MAX_EOBRUN || |p.corr| > FLUSH_ABOVE then Announce(band.tbl, p) else p
  }

  /** After the blocks of a restart interval, without the final announcement. */
  function AfterBands(band: Band, blocks: seq<Block>): Pending
    requires band.se < DCTSIZE2
  {
    if blocks == [] then Pending([], 0, [])
    else AfterBand(band, AfterBands(band, blocks[..|blocks| - 1]), blocks[|blocks| - 1])
  }

  /** The tokens of a restart interval. */
  function IntervalTokens(band: Band, blocks: seq<Block>): seq<Token>
    requires band.se < DCTSIZE2
  {
    Announce(band.tbl, AfterBands(band, blocks)).sent
  }

  // ----- Decoding -----

  /** What a decoding step leaves: the block, the tokens that are left, and the end-of-band run. */
  datatype Replay = Replay(block: Block, rest: seq<Token>, run: nat)

  /**
   What is left of tokens that are not of the kind and size that the decoder takes, or lead out of
   the band: bits of no length, from which nothing can be taken any more.
   */
  function Broken(): seq<Token>
  {
    [Raw(0, 0)]
  }

  function RawBits(ts: seq<Token>, n: nat): nat
  {
    if ts != [] && ts[0].Raw? then ts[0].code % Pow2(n) else 0
  }

  /** The tokens after n bits that are sent as they are. */
  function Drop(ts: seq<Token>, n: nat): seq<Token>
  {
    if ts != [] && ts[0].Raw? && ts[0].size == n > 0 then ts[1..] else Broken()
  }

  /** A symbol of the band comes next. */
  predicate SymbolNext(band: Band, ts: seq<Token>)
  {
    ts != [] && ts[0].Symbol? && !ts[0].isDc && ts[0].tbl == band.tbl && ts[0].s < 256
  }

  /** The end-of-band run that the symbol of category n announces. */
  function RunOf(ts: seq<Token>, n: nat): (r: (nat, seq<Token>))
    ensures r.0 >= 1
  {
    if n == 0 then (1, ts) else (Pow2(n) + RawBits(ts, n), Drop(ts, n))
  }

  /** decode_mcu_AC_first, from position k on. */
  function ReplayFirst(band: Band, ts: seq<Token>, k: nat, block: Block): Replay
    requires band.se < DCTSIZE2
    decreases band.se + 1 - k
  {
    if k > band.se then Replay(block, ts, 0)
    else if !SymbolNext(band, ts) then Replay(block, Broken(), 0)
    else
      var r, n := ts[0].s / 16, ts[0].s % 16;
      if n != 0 then
        var v := Extend(RawBits(ts[1..], n), n) * Pow2(band.al);
        if k + r > band.se then Replay(block, Broken(), 0)
        else ReplayFirst(band, Drop(ts[1..], n), k + r + 1, block[Natural(k + r) := v])
      else if r == 15 then ReplayFirst(band, ts[1..], k + 16, block)
      else
        var (run, rest) := RunOf(ts[1..], r);
        Replay(block, rest, run - 1)
  }

  /** A correction bit is added to a coefficient that is not zero, away from zero, unless it is there already. */
  function Corrected(v: int, bit: nat, al: nat): int
  {
    if bit == 1 && (v / Pow2(al)) % 2 == 0 then (if v >= 0 then v + Pow2(al) else v - Pow2(al)) else v
  }

  /**
   Skips r coefficients that are still zero, correcting the others on the way; stops before the
   next one that is zero.
   */
  function SkipZeros(band: Band, ts: seq<Token>, k: nat, r: nat, block: Block): (x: (seq<Token>, nat, Block))
    requires band.se < DCTSIZE2
    ensures x.1 >= k && (k <= band.se + 1 ==> x.1 <= band.se + 1)
    decreases band.se + 1 - k
  {
    if k > band.se then (ts, k, block)
    else
      var i := Natural(k);
      if block[i] != 0 then SkipZeros(band, Drop(ts, 1), k + 1, r, block[i := Corrected(block[i], RawBits(ts, 1), band.al)])
      else if r == 0 then (ts, k, block)
      else SkipZeros(band, ts, k + 1, r - 1, block)
  }

  /** Corrects all coefficients that are not zero, up to the end of the band. */
  function CorrectRest(band: Band, ts: seq<Token>, k: nat, block: Block): (seq<Token>, Block)
    requires band.se < DCTSIZE2
    decreases band.se + 1 - k
  {
    if k > band.se then (ts, block)
    else
      var i := Natural(k);
      if block[i] != 0 then CorrectRest(band, Drop(ts, 1), k + 1, block[i := Corrected(block[i], RawBits(ts, 1), band.al)])
      else CorrectRest(band, ts, k + 1, block)
  }

  /** decode_mcu_AC_refine outside an end-of-band run, from position k on. */
  function ReplayRefine(band: Band, ts: seq<Token>, k: nat, block: Block): Replay
    requires band.se < DCTSIZE2
    decreases band.se + 1 - k
  {
    if k > band.se then Replay(block, ts, 0)
    else if !SymbolNext(band, ts) then Replay(block, Broken(), 0)
    else
      var r, n := ts[0].s / 16, ts[0].s % 16;
      if n != 0 then
        var v := if RawBits(ts[1..], 1) == 1 then Pow2(band.al) else 0 - Pow2(band.al);
        var (rest, at, b) := SkipZeros(band, Drop(ts[1..], 1), k, r, block);
        if at > band.se then Replay(b, Broken(), 0) else ReplayRefine(band, rest, at + 1, b[Natural(at) := v])
      else if r == 15 then
        var (rest, at, b) := SkipZeros(band, ts[1..], k, 15, block);
        ReplayRefine(band, rest, at + 1, b)
      else
        var (run, rest) := RunOf(ts[1..], r);
        var (rest', b) := CorrectRest(band, rest, k, block);
        Replay(b, rest', run - 1)
  }

  /** One block of a scan, when run blocks are left of an end-of-band run. */
  function ReplayBand(band: Band, ts: seq<Token>, run: nat, block: Block): Replay
    requires band.se < DCTSIZE2
  {
    if run > 0 then
      if band.refine then var (rest, b) := CorrectRest(band, ts, band.ss, block); Replay(b, rest, run - 1)
      else Replay(block, ts, run - 1)
    else if band.refine then ReplayRefine(band, ts, band.ss, block)
    else ReplayFirst(band, ts, band.ss, block)
  }

  datatype Replays = Replays(blocks: seq<Block>, rest: seq<Token>, run: nat)

  /** The blocks of a restart interval, on top of what earlier scans have left in them. */
  function ReplayBands(band: Band, ts: seq<Token>, blocks: seq<Block>): (r: Replays)
    requires band.se < DCTSIZE2
    ensures |r.blocks| == |blocks|
  {
    if blocks == [] then Replays([], ts, 0)
    else
      var x := ReplayBands(band, ts, blocks[..|blocks| - 1]);
      var y := ReplayBand(band, x.rest, x.run, blocks[|blocks| - 1]);
      Replays(x.blocks + [y.block], y.rest, y.run)
  }
}
