/**
 The smoothing downsamplers (jpeg/jcsample.c): fullsize_smooth_downsample with its sliding column
 sums, h2v2_smooth_downsample, and expand_right_edge. Their output is the direct weighted average
 over the image with its edges repeated.
 */
module Smoothing {
  import opened Arith
  import opened Preprocessing

  ghost predicate Rectangular(image: Image, width: nat)
  {
    width >= 1 && forall y :: 0 <= y < |image| ==> |image[y]| == width
  }

  /** The sample at column x of row y, with all edges repeated. */
  ghost function Pixel(image: Image, width: nat, y: int, x: int): int
    requires Rectangular(image, width)
  {
    Clamped(image, y)[if x < 0 then 0 else if x >= width then width - 1 else x]
  }

  /** Three samples in a column. */
  ghost function Column(image: Image, width: nat, y: int, x: int): int
    requires Rectangular(image, width)
  {
    Pixel(image, width, y - 1, x) + Pixel(image, width, y, x) + Pixel(image, width, y + 1, x)
  }

  /** The eight samples around one. */
  ghost function Around(image: Image, width: nat, y: int, x: int): int
    requires Rectangular(image, width)
  {
    Column(image, width, y, x - 1) + Column(image, width, y, x + 1) + Pixel(image, width, y - 1, x) + Pixel(image, width, y + 1, x)
  }

  /** The weighted sum over 3 by 3 samples, scaled by 65536: each neighbour has weight sf / 1024. */
  function WeightedSum(sf: nat, member: int, around: int): int
  {
    member * (65536 - 512 * sf) + around * (64 * sf)
  }

  /** Rounding and descaling. */
  function Descaled(sum: int): int
  {
    (sum + 32768) / 65536
  }

  /** The smoothed sample. */
  ghost function Direct(image: Image, width: nat, sf: nat, y: int, x: int): int
    requires Rectangular(image, width)
  {
    Descaled(WeightedSum(sf, Pixel(image, width, y, x), Around(image, width, y, x)))
  }

  /** Rows -1 to n of the downsampler's input, from image row y on, at array rows 0 to n + 1. */
  ghost predicate Holds(input: array2<int>, image: Image, width: nat, y: int, cols: nat)
    requires Rectangular(image, width)
    reads input
  {
    && cols <= input.Length1
    && forall k, x :: 0 <= k < input.Length0 && 0 <= x < cols ==> input[k, x] == Pixel(image, width, y + k - 1, x)
  }

  /** expand_right_edge: the last sample of each row is repeated up to the given number of columns. */
  method ExpandRightEdge(data: array2<int>, ghost image: Image, ghost y: int, inputCols: nat, outputCols: nat)
    requires Rectangular(image, inputCols) && Holds(data, image, inputCols, y, inputCols) && outputCols <= data.Length1
    modifies data
    ensures Holds(data, image, inputCols, y, if outputCols > inputCols then outputCols else inputCols)
  {
    var numcols := outputCols - inputCols;
    if numcols > 0 {
      for row := 0 to data.Length0
        invariant forall k, x :: 0 <= k < data.Length0 && 0 <= x < (if k < row then outputCols else inputCols) ==>
                    data[k, x] == Pixel(image, inputCols, y + k - 1, x)
      {
        var pixval := data[row, inputCols - 1];
        for col := inputCols to outputCols
          invariant forall x :: 0 <= x < col ==> data[row, x] == Pixel(image, inputCols, y + row - 1, x)
          invariant forall k, x :: 0 <= k < data.Length0 && k != row && 0 <= x < (if k < row then outputCols else inputCols) ==>
                      data[k, x] == Pixel(image, inputCols, y + k - 1, x)
        {
          data[row, col] := pixval;
        }
      }
    }
  }

  /** One output row of fullsize_smooth_downsample, with running sums of columns. */
  method SmoothRow(input: array2<int>, output: array2<int>, outrow: nat, outputCols: nat, sf: nat,
                   ghost image: Image, ghost width: nat, ghost y: int)
    requires Rectangular(image, width) && width <= outputCols && Holds(input, image, width, y, outputCols)
    requires outputCols >= 2 && outrow + 2 < input.Length0 && outrow < output.Length0 && outputCols <= output.Length1
    requires input != output
    modifies output
    ensures forall x :: 0 <= x < outputCols ==> output[outrow, x] == Direct(image, width, sf, y + outrow, x)
    ensures forall r, x :: 0 <= r < output.Length0 && r != outrow && 0 <= x < output.Length1 ==> output[r, x] == old(output[r, x])
  {
    hide Pixel, WeightedSum, Descaled, Rectangular;
    ghost var yy := y + outrow;
    Edges(image, width, yy, outputCols);
    var colsum := ColumnSum(input, outrow, 0, image, width, y, outputCols);
    var membersum := input[outrow + 1, 0];
    var nextcolsum := ColumnSum(input, outrow, 1, image, width, y, outputCols);
    var neighsum := colsum + (colsum - membersum) + nextcolsum;
    output[outrow, 0] := Form(membersum, neighsum, sf);
    var lastcolsum := colsum;
    colsum := nextcolsum;
    for col := 1 to outputCols - 1
      invariant lastcolsum == Column(image, width, yy, col - 1) && colsum == Column(image, width, yy, col)
      invariant forall x :: 0 <= x < col ==> output[outrow, x] == Direct(image, width, sf, yy, x)
      invariant forall r, x :: 0 <= r < output.Length0 && r != outrow && 0 <= x < output.Length1 ==> output[r, x] == old(output[r, x])
    {
      membersum := input[outrow + 1, col];
      nextcolsum := ColumnSum(input, outrow, col + 1, image, width, y, outputCols);
      neighsum := lastcolsum + (colsum - membersum) + nextcolsum;
      output[outrow, col] := Form(membersum, neighsum, sf);
      lastcolsum := colsum;
      colsum := nextcolsum;
    }
    var last := outputCols - 1;
    membersum := input[outrow + 1, last];
    neighsum := lastcolsum + (colsum - membersum) + colsum;
    output[outrow, last] := Form(membersum, neighsum, sf);
  }

  /** The sum of a column around an output row. */
  method ColumnSum(input: array2<int>, outrow: nat, col: nat, ghost image: Image, ghost width: nat, ghost y: int, ghost cols: nat)
      returns (sum: int)
    requires Rectangular(image, width) && Holds(input, image, width, y, cols) && outrow + 2 < input.Length0 && col < cols
    ensures sum == Column(image, width, y + outrow, col)
  {
    hide Pixel, Rectangular;
    sum := input[outrow, col] + input[outrow + 2, col] + input[outrow + 1, col];
  }

  /** Forms an output sample, scaled up by 65536 and rounded. */
  method Form(membersum: int, neighsum: int, sf: nat) returns (s: int)
    ensures s == Descaled(WeightedSum(sf, membersum, neighsum))
  {
    var memberscale, neighscale := 65536 - sf * 512, sf * 64;
    Combine(sf, membersum, neighsum);
    s := (membersum * memberscale + neighsum * neighscale + 32768) / 65536;
  }

  lemma Combine(sf: nat, member: int, around: int)
    ensures member * (65536 - sf * 512) + around * (sf * 64) == WeightedSum(sf, member, around)
  {
  }

  /** Beyond the first and the last column the samples repeat. */
  lemma Edges(image: Image, width: nat, y: int, cols: nat)
    requires Rectangular(image, width) && width <= cols
    ensures forall r :: Pixel(image, width, r, -1) == Pixel(image, width, r, 0)
    ensures forall r :: Pixel(image, width, r, cols) == Pixel(image, width, r, cols - 1)
  {
  }

  /** fullsize_smooth_downsample: each output sample is the direct 3 by 3 average of the clamped image. */
  method FullsizeSmooth(input: array2<int>, output: array2<int>, vSamp: nat, maxVSamp: nat, width: nat, outputCols: nat, sf: nat,
                        ghost image: Image, ghost y: int)
    requires Rectangular(image, width) && width <= outputCols && outputCols >= 2
    requires vSamp <= maxVSamp && input.Length0 == maxVSamp + 2 && output.Length0 == vSamp && input != output
    requires outputCols <= input.Length1 && outputCols <= output.Length1 && Holds(input, image, width, y, width)
    modifies input, output
    ensures forall r, x :: 0 <= r < vSamp && 0 <= x < outputCols ==> output[r, x] == Direct(image, width, sf, y + r, x)
  {
    hide Pixel, Direct, Rectangular;
    ExpandRightEdge(input, image, y, width, outputCols);
    for outrow := 0 to vSamp
      modifies output
      invariant forall r, x :: 0 <= r < outrow && 0 <= x < outputCols ==> output[r, x] == Direct(image, width, sf, y + r, x)
    {
      SmoothRow(input, output, outrow, outputCols, sf, image, width, y);
    }
  }

  /** The weights are not negative and add up to 65536, so the result lies between the samples around it. */
  lemma SmoothedInRange(image: Image, width: nat, sf: nat, y: int, x: int, lo: int, hi: int)
    requires Rectangular(image, width) && sf <= 100
    requires forall i, j :: y - 1 <= i <= y + 1 && x - 1 <= j <= x + 1 ==> lo <= Pixel(image, width, i, j) <= hi
    ensures lo <= Direct(image, width, sf, y, x) <= hi
  {
    hide Pixel, WeightedSum;
    SumInRange(image, width, sf, y, x, lo, hi);
  }

  /**
   The smoothed sample is the integer nearest to the average of the nine samples, with weights
   sf / 1024 for each of the eight around it and 1 - 8 sf / 1024 for itself (here times 1024); halves go up.
   */
  lemma NearestAverage(image: Image, width: nat, sf: nat, y: int, x: int)
    requires Rectangular(image, width)
    ensures var around := Pixel(image, width, y - 1, x - 1) + Pixel(image, width, y - 1, x) + Pixel(image, width, y - 1, x + 1)
                          + Pixel(image, width, y, x - 1) + Pixel(image, width, y, x + 1)
                          + Pixel(image, width, y + 1, x - 1) + Pixel(image, width, y + 1, x) + Pixel(image, width, y + 1, x + 1);
            var average := Pixel(image, width, y, x) * (1024 - 8 * sf) + around * sf;
            1024 * Direct(image, width, sf, y, x) - 512 <= average < 1024 * Direct(image, width, sf, y, x) + 512
  {
    hide Pixel, Rectangular;
    var p, n := Pixel(image, width, y, x), Around(image, width, y, x);
    Combine(sf, p, n);
    OutOf64(p, 1024 - 8 * sf, n, sf);
  }

  lemma OutOf64(p: int, a: int, n: int, b: int)
    ensures p * (64 * a) + n * (64 * b) == 64 * (p * a + n * b)
  {
  }

  /** Outside the image the nearest sample of the image is taken. */
  lemma NearestSample(image: Image, width: nat, y: int, x: int)
    requires Rectangular(image, width) && image != []
    ensures 0 <= y < |image| && 0 <= x < width ==> Pixel(image, width, y, x) == image[y][x]
    ensures y < 0 ==> Pixel(image, width, y, x) == Pixel(image, width, 0, x)
    ensures y >= |image| ==> Pixel(image, width, y, x) == Pixel(image, width, |image| - 1, x)
    ensures x < 0 ==> Pixel(image, width, y, x) == Pixel(image, width, y, 0)
    ensures x >= width ==> Pixel(image, width, y, x) == Pixel(image, width, y, width - 1)
  {
  }

  lemma Between(a: int, b: int, p: int, n: int, lo: int, hi: int)
    requires a >= 0 && b >= 0 && a + 8 * b == 65536 && lo <= p <= hi && 8 * lo <= n <= 8 * hi
    ensures lo * 65536 <= p * a + n * b <= hi * 65536
  {
    ScaleMono(a, lo, p);
    ScaleMono(a, p, hi);
    ScaleMono(b, 8 * lo, n);
    ScaleMono(b, n, 8 * hi);
    Total(a, b, lo);
    Total(a, b, hi);
  }

  lemma Total(a: int, b: int, x: int)
    requires a + 8 * b == 65536
    ensures x * a + (8 * x) * b == x * 65536
  {
    assert (8 * x) * b == x * (8 * b);
    assert x * a + x * (8 * b) == x * (a + 8 * b);
  }

  // ----- Two to one in both directions -----

  /** The four samples that an output sample stands for. */
  ghost function Members(image: Image, width: nat, y: int, x: int): int
    requires Rectangular(image, width)
  {
    Pixel(image, width, y, x) + Pixel(image, width, y, x + 1) + Pixel(image, width, y + 1, x) + Pixel(image, width, y + 1, x + 1)
  }

  /** The eight samples that share an edge with them. */
  ghost function EdgeNeighbours(image: Image, width: nat, y: int, x: int): int
    requires Rectangular(image, width)
  {
    Pixel(image, width, y - 1, x) + Pixel(image, width, y - 1, x + 1) + Pixel(image, width, y + 2, x) + Pixel(image, width, y + 2, x + 1)
    + Pixel(image, width, y, x - 1) + Pixel(image, width, y, x + 2) + Pixel(image, width, y + 1, x - 1) + Pixel(image, width, y + 1, x + 2)
  }

  /** The four samples at their corners. */
  ghost function CornerNeighbours(image: Image, width: nat, y: int, x: int): int
    requires Rectangular(image, width)
  {
    Pixel(image, width, y - 1, x - 1) + Pixel(image, width, y - 1, x + 2) + Pixel(image, width, y + 2, x - 1) + Pixel(image, width, y + 2, x + 2)
  }

  function WeightedSum2(sf: nat, members: int, neighbours: int): int
  {
    members * (16384 - 80 * sf) + neighbours * (16 * sf)
  }

  ghost function Direct2(image: Image, width: nat, sf: nat, y: int, x: int): int
    requires Rectangular(image, width)
  {
    Descaled(WeightedSum2(sf, Members(image, width, y, x), 2 * EdgeNeighbours(image, width, y, x) + CornerNeighbours(image, width, y, x)))
  }

  /**
   It is the integer nearest to the average of sixteen samples: (1 - 5 sf / 1024) / 4 is the weight
   of each of the four samples it stands for, sf / 2048 that of the eight that share an edge with
   them, and sf / 4096 that of those at the corners (here times 4096).
   */
  lemma NearestAverage2(image: Image, width: nat, sf: nat, y: int, x: int)
    requires Rectangular(image, width)
    ensures var members := Pixel(image, width, y, x) + Pixel(image, width, y, x + 1)
                           + Pixel(image, width, y + 1, x) + Pixel(image, width, y + 1, x + 1);
            var edges := Pixel(image, width, y - 1, x) + Pixel(image, width, y - 1, x + 1)
                         + Pixel(image, width, y + 2, x) + Pixel(image, width, y + 2, x + 1)
                         + Pixel(image, width, y, x - 1) + Pixel(image, width, y + 1, x - 1)
                         + Pixel(image, width, y, x + 2) + Pixel(image, width, y + 1, x + 2);
            var corners := Pixel(image, width, y - 1, x - 1) + Pixel(image, width, y - 1, x + 2)
                           + Pixel(image, width, y + 2, x - 1) + Pixel(image, width, y + 2, x + 2);
            var average := members * (1024 - 5 * sf) + (2 * edges + corners) * sf;
            4096 * Direct2(image, width, sf, y, x) - 2048 <= average < 4096 * Direct2(image, width, sf, y, x) + 2048
  {
    hide Pixel, Rectangular;
    var m, n := Members(image, width, y, x), 2 * EdgeNeighbours(image, width, y, x) + CornerNeighbours(image, width, y, x);
    Combine2(sf, m, n);
    OutOf16(m, 1024 - 5 * sf, n, sf);
  }

  lemma Combine2(sf: nat, m: int, n: int)
    ensures WeightedSum2(sf, m, n) == m * (16 * (1024 - 5 * sf)) + n * (16 * sf)
  {
  }

  lemma OutOf16(m: int, a: int, n: int, b: int)
    ensures m * (16 * a) + n * (16 * b) == 16 * (m * a + n * b)
  {
  }

  ghost function Sum1(image: Image, width: nat, sf: nat, y: int, x: int): int
    requires Rectangular(image, width)
  {
    WeightedSum(sf, Pixel(image, width, y, x), Around(image, width, y, x))
  }

  /** Before rounding, the output is the average of the four smoothed samples. */
  lemma AverageOfSmoothed(image: Image, width: nat, sf: nat, y: int, x: int)
    requires Rectangular(image, width)
    ensures 4 * WeightedSum2(sf, Members(image, width, y, x), 2 * EdgeNeighbours(image, width, y, x) + CornerNeighbours(image, width, y, x))
            == Sum1(image, width, sf, y, x) + Sum1(image, width, sf, y, x + 1) + Sum1(image, width, sf, y + 1, x) + Sum1(image, width, sf, y + 1, x + 1)
  {
    hide Pixel;
    var m, e, c := Members(image, width, y, x), EdgeNeighbours(image, width, y, x), CornerNeighbours(image, width, y, x);
    assert Around(image, width, y, x) + Around(image, width, y, x + 1) + Around(image, width, y + 1, x) + Around(image, width, y + 1, x + 1)
           == 3 * m + 2 * e + c;
    SumOfFour(sf, Pixel(image, width, y, x), Pixel(image, width, y, x + 1), Pixel(image, width, y + 1, x), Pixel(image, width, y + 1, x + 1),
              Around(image, width, y, x), Around(image, width, y, x + 1), Around(image, width, y + 1, x), Around(image, width, y + 1, x + 1));
    Regrouped(sf, m, 2 * e + c);
  }

  /** This output, too, lies between the samples around it. */
  lemma AverageInRange(image: Image, width: nat, sf: nat, y: int, x: int, lo: int, hi: int)
    requires Rectangular(image, width) && sf <= 100
    requires forall i, j :: y - 1 <= i <= y + 2 && x - 1 <= j <= x + 2 ==> lo <= Pixel(image, width, i, j) <= hi
    ensures lo <= Direct2(image, width, sf, y, x) <= hi
  {
    hide Pixel, WeightedSum, WeightedSum2;
    AverageOfSmoothed(image, width, sf, y, x);
    SumInRange(image, width, sf, y, x, lo, hi);
    SumInRange(image, width, sf, y, x + 1, lo, hi);
    SumInRange(image, width, sf, y + 1, x, lo, hi);
    SumInRange(image, width, sf, y + 1, x + 1, lo, hi);
  }

  lemma SumInRange(image: Image, width: nat, sf: nat, y: int, x: int, lo: int, hi: int)
    requires Rectangular(image, width) && sf <= 100
    requires forall i, j :: y - 1 <= i <= y + 1 && x - 1 <= j <= x + 1 ==> lo <= Pixel(image, width, i, j) <= hi
    ensures lo * 65536 <= Sum1(image, width, sf, y, x) <= hi * 65536
  {
    hide Pixel;
    var p, n := Pixel(image, width, y, x), Around(image, width, y, x);
    assert 8 * lo <= n <= 8 * hi;
    Between(65536 - 512 * sf, 64 * sf, p, n, lo, hi);
  }

  lemma SumOfFour(sf: nat, p: int, q: int, r: int, s: int, a: int, b: int, c: int, d: int)
    ensures WeightedSum(sf, p, a) + WeightedSum(sf, q, b) + WeightedSum(sf, r, c) + WeightedSum(sf, s, d)
            == WeightedSum(sf, p + q + r + s, a + b + c + d)
  {
  }

  lemma Regrouped(sf: nat, m: int, n: int)
    ensures 4 * WeightedSum2(sf, m, n) == WeightedSum(sf, m, 3 * m + n)
  {
  }

  /** Forms an output sample from four samples and their neighbours. */
  method Form2(membersum: int, edges: int, corners: int, sf: nat) returns (s: int)
    ensures s == Descaled(WeightedSum2(sf, membersum, 2 * edges + corners))
  {
    var memberscale, neighscale := 16384 - sf * 80, sf * 16;
    var neighsum := edges;
    neighsum := neighsum + neighsum;
    neighsum := neighsum + corners;
    s := (membersum * memberscale + neighsum * neighscale + 32768) / 65536;
  }

  /** One output sample; left and right are the columns to its sides, which at the edges are its own. */
  method Smooth2(input: array2<int>, inrow: nat, col: nat, left: nat, right: nat, sf: nat,
                 ghost image: Image, ghost width: nat, ghost y: int, ghost cols: nat) returns (s: int)
    requires Rectangular(image, width) && Holds(input, image, width, y, cols) && width <= cols
    requires inrow + 3 < input.Length0 && col + 1 < cols && left < cols && right < cols
    requires left == (if col == 0 then 0 else col - 1) && right == (if col + 2 == cols then col + 1 else col + 2)
    ensures s == Direct2(image, width, sf, y + inrow, col)
  {
    hide Pixel, Rectangular;
    Edges(image, width, y, cols);
    var a, m, n, b := inrow, inrow + 1, inrow + 2, inrow + 3;
    var membersum := input[m, col] + input[m, col + 1] + input[n, col] + input[n, col + 1];
    var edges := input[a, col] + input[a, col + 1] + input[b, col] + input[b, col + 1]
                 + input[m, left] + input[m, right] + input[n, left] + input[n, right];
    var corners := input[a, left] + input[a, right] + input[b, left] + input[b, right];
    s := Form2(membersum, edges, corners, sf);
  }

  /** h2v2_smooth_downsample: two rows and two columns make one. */
  method H2V2Smooth(input: array2<int>, output: array2<int>, vSamp: nat, width: nat, outputCols: nat, sf: nat,
                    ghost image: Image, ghost y: int)
    requires Rectangular(image, width) && width <= 2 * outputCols && outputCols >= 2
    requires input.Length0 == 2 * vSamp + 2 && output.Length0 == vSamp && input != output
    requires 2 * outputCols <= input.Length1 && outputCols <= output.Length1 && Holds(input, image, width, y, width)
    modifies input, output
    ensures forall r, x :: 0 <= r < vSamp && 0 <= x < outputCols ==> output[r, x] == Direct2(image, width, sf, y + 2 * r, 2 * x)
  {
    hide Pixel, Direct2, Rectangular;
    ExpandRightEdge(input, image, y, width, 2 * outputCols);
    var inrow := 0;
    for outrow := 0 to vSamp
      modifies output
      invariant inrow == 2 * outrow
      invariant forall r, x :: 0 <= r < outrow && 0 <= x < outputCols ==> output[r, x] == Direct2(image, width, sf, y + 2 * r, 2 * x)
    {
      output[outrow, 0] := Smooth2(input, inrow, 0, 0, 2, sf, image, width, y, 2 * outputCols);
      for c := 1 to outputCols - 1
        modifies output
        invariant forall r, x :: 0 <= r < outrow && 0 <= x < outputCols ==> output[r, x] == Direct2(image, width, sf, y + 2 * r, 2 * x)
        invariant forall x :: 0 <= x < c ==> output[outrow, x] == Direct2(image, width, sf, y + 2 * outrow, 2 * x)
      {
        output[outrow, c] := Smooth2(input, inrow, 2 * c, 2 * c - 1, 2 * c + 2, sf, image, width, y, 2 * outputCols);
      }
      var last := 2 * outputCols - 2;
      output[outrow, outputCols - 1] := Smooth2(input, inrow, last, last - 1, last + 1, sf, image, width, y, 2 * outputCols);
      inrow := inrow + 2;
    }
  }

  // ----- From the ring of row groups -----

  /**
   The preprocessor's window for row group g is what the downsamplers need: so their output is the
   average over the image itself.
   */
  lemma WindowHolds(input: array2<int>, image: Image, width: nat, v: nat, g: nat)
    requires Rectangular(image, width) && v >= 1 && input.Length0 == v + 2 && width <= input.Length1
    requires var group := GroupOf(image, true, v, g);
             forall k, x :: 0 <= k < v + 2 && 0 <= x < width ==>
               |group.rows[v - 1 + k]| == width && input[k, x] == group.rows[v - 1 + k][x]
    ensures Holds(input, image, width, g * v, width)
  {
    var group := GroupOf(image, true, v, g);
    forall k, x | 0 <= k < input.Length0 && 0 <= x < width
      ensures input[k, x] == Pixel(image, width, g * v + k - 1, x)
    {
      assert group.rows[v - 1 + k] == Clamped(image, g * v - v + (v - 1 + k));
    }
  }
}
