/**
 The sizes of an image in blocks and MCUs, as initial_setup and per_scan_setup (jpeg/jcmaster.c)
 compute them with the rounding of jpeg/jutils.c.
 */
module FrameGeometry {
  import opened JpegLimits

  datatype Sampling = Sampling(h: int, v: int)

  datatype Component = Component(h: nat, v: nat, widthInBlocks: nat, heightInBlocks: nat)

  /** The components of an image that is `across` MCUs wide and `down` MCUs high when interleaved. */
  datatype Layout = Layout(comps: seq<Component>, across: nat, down: nat)

  datatype FrameSetup = Made(layout: Layout, maxH: nat, maxV: nat) | Refused

  /** jdiv_round_up. */
  function DivRoundUp(a: nat, b: nat): nat
    requires b > 0
  {
    (a + b - 1) / b
  }

  /** jround_up. */
  function RoundUp(a: nat, b: nat): nat
    requires b > 0
  {
    (a + b - 1) - (a + b - 1) % b
  }

  /** What is left for the last of the parts of size d that n is divided into. */
  function LastPart(n: nat, d: nat): (r: nat)
    requires d > 0
    ensures 1 <= r <= d
  {
    if n % d == 0 then d else n % d
  }

  /** Rounding up is adjoint to multiplication. */
  lemma RoundedAtMost(a: nat, b: nat, q: nat)
    requires b > 0
    ensures DivRoundUp(a, b) <= q <==> a <= q * b
  {
    var n := DivRoundUp(a, b);
    assert n * b == (a + b - 1) - (a + b - 1) % b;
    if n <= q {
      Scaled(n, q, b);
    } else {
      Scaled(q + 1, n, b);
      assert (q + 1) * b == q * b + b;
    }
  }

  /** The quotient rounded up is the least number of parts of size b that cover a. */
  lemma JustEnough(a: nat, b: nat)
    requires b > 0
    ensures var n := DivRoundUp(a, b); (n - 1) * b < a <= n * b
  {
    var n := DivRoundUp(a, b);
    RoundedAtMost(a, b, n);
    if n > 0 {
      RoundedAtMost(a, b, n - 1);
    } else {
      assert (n - 1) * b == 0 - b;
    }
  }

  lemma SameBound(a: nat, b: nat, c: nat, q: nat)
    requires b > 0 && c > 0
    ensures DivRoundUp(DivRoundUp(a * c, b), c) <= q <==> DivRoundUp(a, b) <= q
  {
    RoundedAtMost(DivRoundUp(a * c, b), c, q);
    RoundedAtMost(a * c, b, q * c);
    RoundedAtMost(a, b, q);
    assert (q * c) * b == (q * b) * c;
    SameOrder(a, q * b, c);
  }

  lemma SameOrder(x: nat, y: nat, c: nat)
    requires c > 0
    ensures x * c <= y * c <==> x <= y
  {
    if x <= y {
      Scaled(x, y, c);
    } else {
      Scaled(y + 1, x, c);
      assert (y + 1) * c == y * c + c;
    }
  }

  /** Rounding up twice is rounding up once: a component divides into MCUs as the image does. */
  lemma RoundedTwice(a: nat, b: nat, c: nat)
    requires b > 0 && c > 0
    ensures DivRoundUp(DivRoundUp(a * c, b), c) == DivRoundUp(a, b)
  {
    hide DivRoundUp;
    SameBound(a, b, c, DivRoundUp(a, b));
    SameBound(a, b, c, DivRoundUp(DivRoundUp(a * c, b), c));
  }

  lemma Scaled(x: int, y: int, c: nat)
    requires x <= y
    ensures x * c <= y * c
  {
  }

  lemma QuotientOf(n: nat, d: nat, k: nat, r: nat)
    requires d > 0 && n == k * d + r && r < d
    ensures n / d == k && n % d == r
  {
    var q, m := n / d, n % d;
    assert n == q * d + m;
    if q < k {
      Scaled(q + 1, k, d);
    } else if q > k {
      Scaled(k + 1, q, d);
    }
  }

  lemma Neighbours(k: int, d: int)
    ensures (k + 1) * d == k * d + d && (k - 1) * d == k * d - d
  {
  }

  /** All parts but the last are full, and the last is not empty. */
  lemma Parts(n: nat, d: nat, q: nat)
    requires d > 0 && n > 0 && q == DivRoundUp(n, d)
    ensures q >= 1 && 1 <= LastPart(n, d) <= d && n == (q - 1) * d + LastPart(n, d)
    ensures RoundUp(n, d) == q * d
  {
    var k, m := n / d, n % d;
    Neighbours(k, d);
    if m == 0 {
      QuotientOf(n + d - 1, d, k, d - 1);
    } else {
      QuotientOf(n + d - 1, d, k + 1, m - 1);
    }
  }

  ghost predicate Supported(width: int, height: int, sampling: seq<Sampling>)
  {
    && 0 < width <= JPEG_MAX_DIMENSION && 0 < height <= JPEG_MAX_DIMENSION && 0 < |sampling| <= MAX_COMPONENTS
    && forall i :: 0 <= i < |sampling| ==> 0 < sampling[i].h <= MAX_SAMP_FACTOR && 0 < sampling[i].v <= MAX_SAMP_FACTOR
  }

  ghost predicate ValidComponent(c: Component, across: nat, down: nat)
  {
    && 0 < c.h <= MAX_SAMP_FACTOR && 0 < c.v <= MAX_SAMP_FACTOR && c.widthInBlocks > 0 && c.heightInBlocks > 0
    && across == DivRoundUp(c.widthInBlocks, c.h) && down == DivRoundUp(c.heightInBlocks, c.v)
  }

  /** Every component divides into the same number of MCUs, with the last ones possibly incomplete. */
  ghost predicate ValidLayout(p: Layout)
  {
    && |p.comps| > 0 && p.across > 0 && p.down > 0
    && forall i :: 0 <= i < |p.comps| ==> ValidComponent(p.comps[i], p.across, p.down)
  }

  /** The largest sampling factors. */
  ghost predicate Largest(sampling: seq<Sampling>, maxH: nat, maxV: nat)
  {
    && maxH > 0 && maxV > 0
    && (forall i :: 0 <= i < |sampling| ==> sampling[i].h <= maxH && sampling[i].v <= maxV)
    && (exists i :: 0 <= i < |sampling| && sampling[i].h == maxH)
    && (exists i :: 0 <= i < |sampling| && sampling[i].v == maxV)
  }

  lemma LargestStep(sampling: seq<Sampling>, n: nat, maxH: nat, maxV: nat)
    requires n < |sampling| && sampling[n].h > 0 && sampling[n].v > 0
    requires if n > 0 then Largest(sampling[..n], maxH, maxV) else maxH == maxV == 1
    ensures var s := sampling[n];
            Largest(sampling[..n + 1], if s.h > maxH then s.h else maxH, if s.v > maxV then s.v else maxV)
  {
    var all := sampling[..n + 1];
    assert all == sampling[..n] + [sampling[n]] && all[n] == sampling[n];
    if n > 0 {
      var i :| 0 <= i < n && sampling[..n][i].h == maxH;
      var j :| 0 <= j < n && sampling[..n][j].v == maxV;
      assert all[i].h == maxH && all[j].v == maxV;
    }
  }

  /** A component of the image, rounded up to whole blocks. */
  function Sized(width: nat, height: nat, s: Sampling, maxH: nat, maxV: nat): Component
    requires s.h > 0 && s.v > 0 && maxH > 0 && maxV > 0
  {
    Component(s.h, s.v, DivRoundUp(width * s.h, maxH * DCTSIZE), DivRoundUp(height * s.v, maxV * DCTSIZE))
  }

  lemma MadeComponent(width: nat, height: nat, s: Sampling, maxH: nat, maxV: nat)
    requires width > 0 && height > 0 && 0 < s.h <= MAX_SAMP_FACTOR && 0 < s.v <= MAX_SAMP_FACTOR && maxH > 0 && maxV > 0
    ensures ValidComponent(Sized(width, height, s, maxH, maxV), DivRoundUp(width, maxH * DCTSIZE), DivRoundUp(height, maxV * DCTSIZE))
  {
    RoundedTwice(width, maxH * DCTSIZE, s.h);
    RoundedTwice(height, maxV * DCTSIZE, s.v);
    Scaled(1, s.h, width);
    Scaled(1, s.v, height);
    RoundedAtMost(width * s.h, maxH * DCTSIZE, 0);
    RoundedAtMost(height * s.v, maxV * DCTSIZE, 0);
  }

  /**
   initial_setup: an image is refused exactly if its dimensions or sampling factors are out of
   range; otherwise all its components divide into the same rows and columns of MCUs.
   */
  method InitialSetup(width: int, height: int, sampling: seq<Sampling>) returns (r: FrameSetup)
    ensures r.Made? <==> Supported(width, height, sampling)
    ensures r.Made? ==> ValidLayout(r.layout) && |r.layout.comps| == |sampling|
    ensures r.Made? ==> Largest(sampling, r.maxH, r.maxV)
    ensures r.Made? ==> r.layout.across == DivRoundUp(width, r.maxH * DCTSIZE) && r.layout.down == DivRoundUp(height, r.maxV * DCTSIZE)
    ensures r.Made? ==> forall i :: 0 <= i < |sampling| ==> r.layout.comps[i] == Sized(width, height, sampling[i], r.maxH, r.maxV)
    ensures r.Made? <==> && 0 < width <= 65500 && 0 < height <= 65500 && 1 <= |sampling| <= 10
                         && forall i :: 0 <= i < |sampling| ==> 1 <= sampling[i].h <= 4 && 1 <= sampling[i].v <= 4
    ensures r.Made? ==> (r.layout.across - 1) * (8 * r.maxH) < width <= r.layout.across * (8 * r.maxH)
    ensures r.Made? ==> (r.layout.down - 1) * (8 * r.maxV) < height <= r.layout.down * (8 * r.maxV)
    ensures r.Made? ==> forall i :: 0 <= i < |sampling| ==>
              var c := r.layout.comps[i];
              && c.h == sampling[i].h && c.v == sampling[i].v
              && (c.widthInBlocks - 1) * (8 * r.maxH) < width * c.h <= c.widthInBlocks * (8 * r.maxH)
              && (c.heightInBlocks - 1) * (8 * r.maxV) < height * c.v <= c.heightInBlocks * (8 * r.maxV)
  {
    hide DivRoundUp, ValidComponent, Largest;
    if height <= 0 || width <= 0 || |sampling| == 0 || height > JPEG_MAX_DIMENSION || width > JPEG_MAX_DIMENSION
       || |sampling| > MAX_COMPONENTS {
      return Refused;
    }
    var maxH: nat, maxV: nat := 1, 1;
    for ci := 0 to |sampling|
      invariant maxH >= 1 && maxV >= 1 && (if ci > 0 then Largest(sampling[..ci], maxH, maxV) else maxH == maxV == 1)
      invariant forall i :: 0 <= i < ci ==> 0 < sampling[i].h <= MAX_SAMP_FACTOR && 0 < sampling[i].v <= MAX_SAMP_FACTOR
    {
      var s := sampling[ci];
      if s.h <= 0 || s.h > MAX_SAMP_FACTOR || s.v <= 0 || s.v > MAX_SAMP_FACTOR {
        return Refused;
      }
      LargestStep(sampling, ci, maxH, maxV);
      maxH, maxV := if s.h > maxH then s.h else maxH, if s.v > maxV then s.v else maxV;
    }
    assert sampling[..|sampling|] == sampling;
    var across, down := DivRoundUp(width, maxH * DCTSIZE), DivRoundUp(height, maxV * DCTSIZE);
    RoundedAtMost(width, maxH * DCTSIZE, 0);
    RoundedAtMost(height, maxV * DCTSIZE, 0);
    var comps: seq<Component> := [];
    for ci := 0 to |sampling|
      invariant |comps| == ci
      invariant forall i :: 0 <= i < ci ==> ValidComponent(comps[i], across, down) && comps[i] == Sized(width, height, sampling[i], maxH, maxV)
    {
      var s := sampling[ci];
      MadeComponent(width, height, s, maxH, maxV);
      comps := comps + [Sized(width, height, s, maxH, maxV)];
    }
    forall i | 0 <= i < |sampling|
      ensures (comps[i].widthInBlocks - 1) * (8 * maxH) < width * comps[i].h <= comps[i].widthInBlocks * (8 * maxH)
      ensures (comps[i].heightInBlocks - 1) * (8 * maxV) < height * comps[i].v <= comps[i].heightInBlocks * (8 * maxV)
    {
      JustEnough(width * sampling[i].h, maxH * DCTSIZE);
      JustEnough(height * sampling[i].v, maxV * DCTSIZE);
    }
    JustEnough(width, maxH * DCTSIZE);
    JustEnough(height, maxV * DCTSIZE);
    r := Made(Layout(comps, across, down), maxH, maxV);
  }
}
