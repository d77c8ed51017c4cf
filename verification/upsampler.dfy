/** `EdgeDirectedUpSampler`: doubling an image in both directions. Even
    output rows are filled from the source rows (pass one), odd output rows
    are interpolated between the even rows above and below them (pass two),
    and the last pair of output rows repeats the last source row (pass
    three). Where the local gradient shows an edge, an interpolated pixel
    is a weighted sum of eight pixels along that edge; elsewhere it is an
    average of its two neighbours. Pixels are unbounded integers: the
    model does not wrap Java's 32-bit `int`. */
module Upsampler {
  import opened Wrappers

  // ---------------------------------------------------------------------
  // Construction

  /** The dimensions an instance is built with. */
  datatype Config = Config(width: int, height: int, stride: int)

  /** Why the constructor refuses a configuration. */
  datatype ConfigError =
    | HeightTooSmall
    | WidthTooSmall
    | StrideTooSmall
    | HeightNotMultipleOf8
    | WidthNotMultipleOf8

  /** What the constructor demands: both sides at least 8 and multiples of
      8, and rows no wider than the stride. */
  predicate Valid(c: Config) {
    c.height >= 8 && c.width >= 8 && c.stride >= c.width && c.height % 8 == 0 && c.width % 8 == 0
  }

  /** The constructor (lines 36-56). The rules are checked in order, and the
      first one broken is reported. `x & 7` is `x % 8` here, since `x` has
      already been found to be at least 8. */
  function Create(width: int, height: int, stride: int): (r: Result<Config, ConfigError>)
    ensures r.Success? <==> Valid(Config(width, height, stride))
    ensures r.Success? ==> r.value == Config(width, height, stride)
    ensures r == Failure(HeightTooSmall) <==> height < 8
    ensures r == Failure(WidthTooSmall) <==> height >= 8 && width < 8
    ensures r == Failure(StrideTooSmall) <==> height >= 8 && width >= 8 && stride < width
    ensures r == Failure(HeightNotMultipleOf8) <==>
      height >= 8 && width >= 8 && stride >= width && height % 8 != 0
    ensures r == Failure(WidthNotMultipleOf8) <==>
      height >= 8 && width >= 8 && stride >= width && height % 8 == 0 && width % 8 != 0
  {
    if height < 8 then Failure(HeightTooSmall)
    else if width < 8 then Failure(WidthTooSmall)
    else if stride < width then Failure(StrideTooSmall)
    else if height % 8 != 0 then Failure(HeightNotMultipleOf8)
    else if width % 8 != 0 then Failure(WidthNotMultipleOf8)
    else Success(Config(width, height, stride))
  }

  /** The two-argument constructor (lines 30-33): the stride is the width,
      so the stride rule can never be the one that fails. */
  function CreatePacked(width: int, height: int): (r: Result<Config, ConfigError>)
    ensures r != Failure(StrideTooSmall)
    ensures r.Success? ==> r.value.stride == width
    ensures r.Success? <==> Valid(Config(width, height, width))
  {
    Create(width, height, width)
  }

  /** `supportsScalingFactor` (lines 272-276): only doubling. */
  function SupportsScalingFactor(factor: int): (r: bool)
    ensures r <==> factor == 2
  {
    factor == 2
  }

  /** Why a one-directional upsampling fails. */
  datatype Unsupported = Unsupported

  /** `superSampleVertical` and `superSampleHorizontal` (lines 59-70): both
      always throw, whatever the buffers. */
  function SuperSampleVertical(input: seq<int>, output: seq<int>): (r: Result<seq<int>, Unsupported>)
    ensures r.Failure?
  {
    Failure(Unsupported)
  }

  function SuperSampleHorizontal(input: seq<int>, output: seq<int>): (r: Result<seq<int>, Unsupported>)
    ensures r.Failure?
  {
    Failure(Unsupported)
  }

  // ---------------------------------------------------------------------
  // Tap patterns and the choice between them

  /** The weights `a, b, c, d` given to the eight pixels of a window:
      `a b c d` on one side of the pixel being made, `d c b a` on the
      other. */
  datatype Taps = Taps(a: int, b: int, c: int, d: int)

  /** The five patterns, from an edge close to the interpolation direction
      (all weight on the two nearest pixels) to a steep one (weight on
      pixels up to three rows or columns away). */
  const Nearest := Taps(0, 0, 0, 16)
  const Slope1 := Taps(0, 0, 8, 8)
  const Slope2 := Taps(0, 4, 8, 4)
  const Slope3 := Taps(1, 7, 7, 1)
  const Slope4 := Taps(4, 8, 4, 0)

  predicate IsPattern(t: Taps) {
    t == Nearest || t == Slope1 || t == Slope2 || t == Slope3 || t == Slope4
  }

  /** Every pattern has non-negative weights that add up to 32 over the
      window, the divisor `>> 5` applies. */
  lemma PatternsSumTo32(t: Taps)
    requires IsPattern(t)
    ensures 2 * (t.a + t.b + t.c + t.d) == 32
    ensures 0 <= t.a && 0 <= t.b && 0 <= t.c && 0 <= t.d
  {
  }

  /** The body shared by `reconstructV` and `reconstructH` (lines 73-101):
      the weighted sum of a window of eight pixels, shifted right by 5,
      which for a Java `int` is division by 32 rounded down. */
  function Reconstruct(t: Taps, w: seq<int>): int
    requires |w| == 8
  {
    (w[0] * t.a + w[1] * t.b + w[2] * t.c + w[3] * t.d
     + w[4] * t.d + w[5] * t.c + w[6] * t.b + w[7] * t.a) / 32
  }

  /** A reconstructed pixel lies between the least and the greatest pixel
      of its window; in particular a window of one value gives that value
      back, and pixels of 0 to 255 need no clamping. */
  lemma ReconstructInRange(t: Taps, w: seq<int>, lo: int, hi: int)
    requires IsPattern(t) && |w| == 8
    requires forall k :: 0 <= k < 8 ==> lo <= w[k] <= hi
    ensures lo <= Reconstruct(t, w) <= hi
  {
    var w0, w1, w2, w3, w4, w5, w6, w7 := w[0], w[1], w[2], w[3], w[4], w[5], w[6], w[7];
    assert lo <= w0 <= hi && lo <= w1 <= hi && lo <= w2 <= hi && lo <= w3 <= hi;
    assert lo <= w4 <= hi && lo <= w5 <= hi && lo <= w6 <= hi && lo <= w7 <= hi;
  }

  lemma ReconstructConstant(t: Taps, v: int)
    requires IsPattern(t)
    ensures Reconstruct(t, [v, v, v, v, v, v, v, v]) == v
  {
    ReconstructInRange(t, [v, v, v, v, v, v, v, v], v, v);
  }

  /** The three gradients measured around the pixel being made, from the
      three pixels `p0 p1 p2` on one side of it and `q0 q1 q2` on the other
      (lines 123-125 and 210-212). */
  datatype Gradient = Gradient(dx: int, dy: int, dx2: int)

  function Gradients(p0: int, p1: int, p2: int, q0: int, q1: int, q2: int): (g: Gradient)
    ensures p0 == p1 == p2 == q0 == q1 == q2 ==> g == Gradient(0, 0, 0)
  {
    Gradient((-p0 - q0 + p2 + q2) * 2,
             -p0 - 2 * p1 - p2 + q0 + 2 * q1 + q2,
             -p0 + 2 * p1 - p2 - q0 + 2 * q1 - q2)
  }

  /** How a pixel is made: averaged, or reconstructed along an edge with
      the given pattern; `reversed` says the window runs the other way
      (`-stride` for `reconstructV`, the two rows swapped for
      `reconstructH`). */
  datatype Choice = Average | Along(taps: Taps, reversed: bool)

  function Abs(x: int): nat {
    if x < 0 then -x else x
  }

  /** The decision of lines 127-162 and 214-247, as written: the signs are
      normalised so that `dy >= 0`, a weak edge (`|dx| <= 4 |dx2|`) is
      averaged across, and otherwise the ratio of `dx` to `dy` picks the
      pattern, the sign of `dx` the direction. The two mirrored cascades
      pick the same pattern for the same magnitudes: the choice is
      `Bucket(|dx|, |dy|)`, run forwards when `dx` and `dy` have opposite
      signs and backwards otherwise. A flat neighbourhood is averaged. */
  function Choose(dx0: int, dy0: int, dx2: int): (r: Choice)
    ensures r.Average? <==> Abs(dx0) <= 4 * Abs(dx2)
    ensures r.Along? ==> r == Along(Bucket(Abs(dx0), Abs(dy0)), if dy0 < 0 then dx0 < 0 else dx0 > 0)
    ensures dx0 == 0 ==> r.Average?
  {
    var dy := if dy0 < 0 then -dy0 else dy0;
    var dx := if dy0 < 0 then -dx0 else dx0;
    if Abs(dx) <= 4 * Abs(dx2) then Average
    else if dx < 0 then
      if dx < -2 * dy then Along(Nearest, false)
      else if dx < -dy then Along(Slope1, false)
      else if 2 * dx < -dy then Along(Slope2, false)
      else if 3 * dx < -dy then Along(Slope3, false)
      else Along(Slope4, false)
    else
      if dx > 2 * dy then Along(Nearest, true)
      else if dx > dy then Along(Slope1, true)
      else if 2 * dx > dy then Along(Slope2, true)
      else if 3 * dx > dy then Along(Slope3, true)
      else Along(Slope4, true)
  }

  /** The pattern for an edge whose gradients have magnitudes `m = |dx|`
      and `n = |dy|`, by the ratio `m / n`: above 2, above 1, above 1/2,
      above 1/3, or at most 1/3. */
  function Bucket(m: nat, n: nat): (t: Taps)
    ensures IsPattern(t)
  {
    if m > 2 * n then Nearest
    else if m > n then Slope1
    else if 2 * m > n then Slope2
    else if 3 * m > n then Slope3
    else Slope4
  }

  /** Mirroring the neighbourhood (negating `dx`) keeps the pattern and
      reverses the window. */
  lemma ChooseMirror(dx: int, dy: int, dx2: int)
    ensures Choose(-dx, dy, dx2).Average? <==> Choose(dx, dy, dx2).Average?
    ensures Choose(dx, dy, dx2).Along? ==>
      Choose(-dx, dy, dx2) == Along(Choose(dx, dy, dx2).taps, !Choose(dx, dy, dx2).reversed)
  {
  }

  /** Every pattern the decision hands out is one of the five. */
  lemma ChooseGivesPattern(dx: int, dy: int, dx2: int)
    ensures Choose(dx, dy, dx2).Along? ==> IsPattern(Choose(dx, dy, dx2).taps)
  {
  }

  // ---------------------------------------------------------------------
  // Images and buffers

  /** `h` rows of `w` pixels each. */
  predicate IsGrid(g: seq<seq<int>>, h: int, w: int) {
    |g| == h && forall y :: 0 <= y < |g| ==> |g[y]| == w
  }

  /** Where the `k`-th row starts when rows are `step` apart: the code
      reaches it by adding `step` to an offset `k` times. */
  function Offset(step: int, k: nat): int
    decreases k
  {
    if k == 0 then 0 else Offset(step, k - 1) + step
  }

  lemma {:induction false} OffsetIsProduct(step: int, k: nat)
    ensures Offset(step, k) == step * k
    decreases k
  {
    if k > 0 {
      OffsetIsProduct(step, k - 1);
    }
  }

  /** With a non-negative step, a row lies wholly before every later row
      starts. */
  lemma {:induction false} OffsetMono(step: int, k: nat, m: nat)
    requires 0 <= step && k < m
    ensures 0 <= Offset(step, k) && Offset(step, k) + step <= Offset(step, m)
    decreases m
  {
    if k + 1 < m {
      OffsetMono(step, k, m - 1);
    } else if k > 0 {
      OffsetMono(step, k - 1, k);
    }
  }

  /** The source buffer holds every row it is read at: row `j` of the
      source starts `j` strides in. */
  predicate Fits(c: Config, src: seq<int>) {
    Valid(c) && |src| >= Offset(c.stride, c.height - 1) + c.width
  }

  lemma RowFits(c: Config, j: nat)
    requires Valid(c) && j < c.height
    ensures 0 <= Offset(c.stride, j) <= Offset(c.stride, c.height - 1)
  {
    if j < c.height - 1 {
      OffsetMono(c.stride, j, c.height - 1);
    } else if j > 0 {
      OffsetMono(c.stride, j - 1, j);
    }
  }

  function RowStart(c: Config, j: nat): (s: int)
    requires Valid(c) && j < c.height
    ensures 0 <= s && s + c.width <= Offset(c.stride, c.height - 1) + c.width
  {
    RowFits(c, j);
    Offset(c.stride, j)
  }

  /** Pixel `i` of source row `j`. */
  function Px(c: Config, src: seq<int>, j: nat, i: nat): int
    requires Fits(c, src) && j < c.height && i < c.width
  {
    src[RowStart(c, j) + i]
  }

  /** The source rows, each `width` pixels from its row start. */
  function SourceRows(c: Config, src: seq<int>): (img: seq<seq<int>>)
    requires Fits(c, src)
    ensures IsGrid(img, c.height, c.width)
    ensures forall j: nat, i: nat :: j < c.height && i < c.width ==> img[j][i] == Px(c, src, j, i)
  {
    seq(c.height, j requires 0 <= j < c.height => src[RowStart(c, j)..RowStart(c, j) + c.width])
  }

  /** The output is `2 * height` rows of `dw = 2 * width` pixels, stored one
      after the other. */
  function OutSize(c: Config): (n: int)
    requires Valid(c)
    ensures 0 <= n
  {
    OffsetMono(2 * c.width, 0, 2 * c.height);
    Offset(2 * c.width, 2 * c.height)
  }

  lemma OutRowFits(c: Config, y: nat)
    requires Valid(c) && y < 2 * c.height
    ensures 0 <= Offset(2 * c.width, y) && Offset(2 * c.width, y) + 2 * c.width <= OutSize(c)
  {
    OffsetMono(2 * c.width, y, 2 * c.height);
  }

  /** Output pixel `x` of output row `y` in the flat buffer. */
  function Out(c: Config, dst: seq<int>, y: nat, x: nat): int
    requires Valid(c) && |dst| >= OutSize(c) && y < 2 * c.height && x < 2 * c.width
  {
    OutRowFits(c, y);
    dst[Offset(2 * c.width, y) + x]
  }

  /** The output area of a flat buffer, cut into its rows. */
  function OutRows(c: Config, dst: seq<int>): (g: seq<seq<int>>)
    requires Valid(c) && |dst| >= OutSize(c)
    ensures IsGrid(g, 2 * c.height, 2 * c.width)
  {
    seq(2 * c.height, y requires 0 <= y < 2 * c.height => OutRow(c, dst, y))
  }

  function OutRow(c: Config, dst: seq<int>, y: nat): (r: seq<int>)
    requires Valid(c) && |dst| >= OutSize(c) && y < 2 * c.height
    ensures |r| == 2 * c.width
  {
    OutRowFits(c, y);
    dst[Offset(2 * c.width, y)..Offset(2 * c.width, y) + 2 * c.width]
  }

  /** The rows written back one after the other. */
  function Flatten(g: seq<seq<int>>): seq<int>
    decreases |g|
  {
    if |g| == 0 then [] else g[0] + Flatten(g[1..])
  }

  /** Flattening puts pixel `x` of row `y` at `y` row lengths plus `x`. */
  lemma {:induction false} FlattenIndex(g: seq<seq<int>>, h: nat, w: nat, y: nat, x: nat)
    requires IsGrid(g, h, w)
    ensures |Flatten(g)| == Offset(w, h)
    ensures y < h && x < w ==> 0 <= Offset(w, y) && Offset(w, y) + x < |Flatten(g)|
    ensures y < h && x < w ==> Flatten(g)[Offset(w, y) + x] == g[y][x]
    decreases h
  {
    if h > 0 {
      assert IsGrid(g[1..], h - 1, w);
      if y > 0 {
        FlattenIndex(g[1..], h - 1, w, y - 1, x);
        assert Offset(w, y) + x == |g[0]| + (Offset(w, y - 1) + x);
      } else {
        FlattenIndex(g[1..], h - 1, w, 0, 0);
      }
    }
  }

  // ---------------------------------------------------------------------
  // Pass one: even output rows (lines 115-194)

  /** Source rows too close to the top or bottom for the eight-row window
      of `reconstructV`; they are averaged along the row and written to
      both output rows. */
  predicate Border(c: Config, j: int) {
    j < 3 || j >= c.height - 3
  }

  /** `reconstructV` (lines 73-86) at pixel `i` of row `j`: rows `j - 3s`
      to `j` at column `i`, then rows `j` to `j + 3s` at column `i + 1`,
      where `s` is 1 for `stride` and -1 for `-stride`. */
  function ReconstructV(c: Config, img: seq<seq<int>>, j: int, i: int, s: int, t: Taps): int
    requires IsGrid(img, c.height, c.width) && (s == 1 || s == -1)
    requires 3 <= j < c.height - 3 && 0 <= i < c.width - 1
  {
    Reconstruct(t, [img[j - 3 * s][i], img[j - 2 * s][i], img[j - s][i], img[j][i],
                    img[j][i + 1], img[j + s][i + 1], img[j + 2 * s][i + 1], img[j + 3 * s][i + 1]])
  }

  /** The pixel pass one makes between source pixels `i` and `i + 1` of row
      `j`: edge-directed inside (lines 120-166, the average there rounds
      up), a plain average rounding down on border rows (line 181). */
  function Between(c: Config, img: seq<seq<int>>, j: int, i: int): int
    requires IsGrid(img, c.height, c.width) && 0 <= j < c.height && 0 <= i < c.width - 1
  {
    if !Border(c, j) then
      var g := Gradients(img[j - 1][i], img[j][i], img[j + 1][i], img[j - 1][i + 1], img[j][i + 1], img[j + 1][i + 1]);
      match Choose(g.dx, g.dy, g.dx2)
      case Average => (img[j][i] + img[j][i + 1] + 1) / 2
      case Along(t, rev) => ReconstructV(c, img, j, i, if rev then -1 else 1, t)
    else
      (img[j][i] + img[j][i + 1]) / 2
  }

  /** Pixel `x` of output row `2j` once pass one is done: even columns copy
      the source, odd ones lie between two source pixels, and the last two
      columns copy the last source pixel (lines 164-170, 180-189). */
  function EvenPixel(c: Config, img: seq<seq<int>>, j: int, x: int): int
    requires Valid(c) && IsGrid(img, c.height, c.width) && 0 <= j < c.height && 0 <= x < 2 * c.width
  {
    if x % 2 == 0 then img[j][x / 2]
    else if x / 2 < c.width - 1 then Between(c, img, j, x / 2)
    else img[j][c.width - 1]
  }

  /** The first `2i` pixels of output row `2j`, in the order the loop of
      pass one makes them: source pixel `k`, then the pixel after it. */
  function EvenPrefix(c: Config, img: seq<seq<int>>, j: int, i: nat): (r: seq<int>)
    requires Valid(c) && IsGrid(img, c.height, c.width) && 0 <= j < c.height && i <= c.width - 1
    ensures |r| == 2 * i
    decreases i
  {
    if i == 0 then []
    else EvenPrefix(c, img, j, i - 1) + [img[j][i - 1], Between(c, img, j, i - 1)]
  }

  /** Output row `2j` after pass one, pixel by pixel. */
  function EvenRow(c: Config, img: seq<seq<int>>, j: int): (r: seq<int>)
    requires Valid(c) && IsGrid(img, c.height, c.width) && 0 <= j < c.height
    ensures |r| == 2 * c.width
  {
    seq(2 * c.width, x requires 0 <= x < 2 * c.width => EvenPixel(c, img, j, x))
  }

  lemma {:induction false} EvenPrefixAt(c: Config, img: seq<seq<int>>, j: int, i: nat, x: nat)
    requires Valid(c) && IsGrid(img, c.height, c.width) && 0 <= j < c.height && x < 2 * i && i <= c.width - 1
    ensures EvenPrefix(c, img, j, i)[x] == EvenPixel(c, img, j, x)
    decreases i
  {
    if x < 2 * (i - 1) {
      EvenPrefixAt(c, img, j, i - 1, x);
    }
  }

  /** The row pass one's loop makes (the pairs, then the last source pixel
      twice) is `EvenRow`. */
  lemma EvenPrefixIsRow(c: Config, img: seq<seq<int>>, j: int)
    requires Valid(c) && IsGrid(img, c.height, c.width) && 0 <= j < c.height
    ensures EvenPrefix(c, img, j, c.width - 1) + [img[j][c.width - 1], img[j][c.width - 1]] == EvenRow(c, img, j)
  {
    var r := EvenPrefix(c, img, j, c.width - 1) + [img[j][c.width - 1], img[j][c.width - 1]];
    forall x | 0 <= x < 2 * c.width
      ensures r[x] == EvenPixel(c, img, j, x)
    {
      if x < 2 * (c.width - 1) {
        EvenPrefixAt(c, img, j, c.width - 1, x);
      }
    }
  }

  /** Pass one on the output rows `g0`: each even row `2j` gets its pixels,
      and for a border row the odd row `2j + 1` gets the same; the other
      odd rows keep what the buffer held. */
  method HorizontalPass(c: Config, img: seq<seq<int>>, g0: seq<seq<int>>) returns (g: seq<seq<int>>)
    requires Valid(c) && IsGrid(img, c.height, c.width) && IsGrid(g0, 2 * c.height, 2 * c.width)
    ensures IsGrid(g, 2 * c.height, 2 * c.width)
    ensures forall k :: 0 <= k < c.height ==> g[2 * k] == EvenRow(c, img, k)
    ensures forall k :: 0 <= k < c.height && Border(c, k) ==> g[2 * k + 1] == EvenRow(c, img, k)
    ensures forall k :: 0 <= k < c.height && !Border(c, k) ==> g[2 * k + 1] == g0[2 * k + 1]
  {
    g := g0;
    var j := 0;
    while j < c.height
      invariant 0 <= j <= c.height
      invariant IsGrid(g, 2 * c.height, 2 * c.width)
      invariant forall k :: 0 <= k < j ==> g[2 * k] == EvenRow(c, img, k)
      invariant forall k :: 0 <= k < j && Border(c, k) ==> g[2 * k + 1] == EvenRow(c, img, k)
      invariant forall k :: 0 <= k < j && !Border(c, k) ==> g[2 * k + 1] == g0[2 * k + 1]
      invariant forall y :: 2 * j <= y < 2 * c.height ==> g[y] == g0[y]
    {
      var row := FillEvenRow(c, img, j);
      g := g[2 * j := row];
      if Border(c, j) {
        g := g[2 * j + 1 := row];
      }
      j := j + 1;
    }
  }

  /** One row of pass one (lines 118-189): two output pixels per source
      pixel but the last, then the last source pixel twice. */
  method FillEvenRow(c: Config, img: seq<seq<int>>, j: int) returns (row: seq<int>)
    requires Valid(c) && IsGrid(img, c.height, c.width) && 0 <= j < c.height
    ensures row == EvenRow(c, img, j)
  {
    row := [];
    var i := 0;
    while i < c.width - 1
      invariant 0 <= i <= c.width - 1
      invariant row == EvenPrefix(c, img, j, i)
    {
      row := row + [img[j][i], Between(c, img, j, i)];
      i := i + 1;
    }
    row := row + [img[j][c.width - 1], img[j][c.width - 1]];
    EvenPrefixIsRow(c, img, j);
  }

  // ---------------------------------------------------------------------
  // Pass two: odd output rows (lines 196-259)

  /** `reconstructH` (lines 89-101): columns `x - 3` to `x` of `r1`, then
      columns `x` to `x + 3` of `r2`. */
  function ReconstructH(r1: seq<int>, r2: seq<int>, x: int, t: Taps): int
    requires |r1| == |r2| && 3 <= x && x + 3 < |r1|
  {
    Reconstruct(t, [r1[x - 3], r1[x - 2], r1[x - 1], r1[x], r2[x], r2[x + 1], r2[x + 2], r2[x + 3]])
  }

  /** Like `reconstructV`, a pixel made along a row edge stays within the
      range of the two rows it reads. */
  lemma ReconstructHInRange(r1: seq<int>, r2: seq<int>, x: int, t: Taps, lo: int, hi: int)
    requires |r1| == |r2| && 3 <= x && x + 3 < |r1| && IsPattern(t)
    requires RowWithin(r1, lo, hi) && RowWithin(r2, lo, hi)
    ensures lo <= ReconstructH(r1, r2, x, t) <= hi
  {
    ReconstructInRange(t, [r1[x - 3], r1[x - 2], r1[x - 1], r1[x], r2[x], r2[x + 1], r2[x + 2], r2[x + 3]], lo, hi);
  }

  /** The pixel pass two makes at column `x` between the row `r1` above and
      `r3` below: edge-directed away from the sides, the average rounding
      down otherwise (lines 207-255). */
  function Middle(r1: seq<int>, r3: seq<int>, x: int): int
    requires |r1| == |r3| && 0 <= x < |r1|
  {
    if 3 <= x < |r1| - 4 then
      var g := Gradients(r1[x - 1], r1[x], r1[x + 1], r3[x - 1], r3[x], r3[x + 1]);
      match Choose(g.dx, g.dy, g.dx2)
      case Average => (r1[x] + r3[x]) / 2
      case Along(t, rev) => if rev then ReconstructH(r3, r1, x, t) else ReconstructH(r1, r3, x, t)
    else
      (r1[x] + r3[x]) / 2
  }

  /** The first `n` pixels of a row of pass two, in the order the loop
      makes them. */
  function MiddlePrefix(r1: seq<int>, r3: seq<int>, n: nat): (r: seq<int>)
    requires |r1| == |r3| && n <= |r1|
    ensures |r| == n
    decreases n
  {
    if n == 0 then [] else MiddlePrefix(r1, r3, n - 1) + [Middle(r1, r3, n - 1)]
  }

  function MiddleRow(r1: seq<int>, r3: seq<int>): (r: seq<int>)
    requires |r1| == |r3|
    ensures |r| == |r1|
  {
    MiddlePrefix(r1, r3, |r1|)
  }

  lemma {:induction false} MiddlePrefixAt(r1: seq<int>, r3: seq<int>, n: nat, x: nat)
    requires |r1| == |r3| && x < n <= |r1|
    ensures MiddlePrefix(r1, r3, n)[x] == Middle(r1, r3, x)
    decreases n
  {
    if x < n - 1 {
      MiddlePrefixAt(r1, r3, n - 1, x);
    }
  }

  /** Pixel `x` of a row of pass two is the pixel made at column `x`. */
  lemma MiddleRowAt(r1: seq<int>, r3: seq<int>, x: nat)
    requires |r1| == |r3| && x < |r1|
    ensures MiddleRow(r1, r3)[x] == Middle(r1, r3, x)
  {
    MiddlePrefixAt(r1, r3, |r1|, x);
  }

  /** Pass two: every odd row but the last is made from the rows above and
      below it; nothing else changes. */
  method VerticalPass(c: Config, g1: seq<seq<int>>) returns (g: seq<seq<int>>)
    requires Valid(c) && IsGrid(g1, 2 * c.height, 2 * c.width)
    ensures IsGrid(g, 2 * c.height, 2 * c.width)
    ensures forall y :: 0 <= y < 2 * c.height - 2 && y % 2 == 1 ==> g[y] == MiddleRow(g1[y - 1], g1[y + 1])
    ensures forall y :: 0 <= y < 2 * c.height && (y % 2 == 0 || y >= 2 * c.height - 2) ==> g[y] == g1[y]
  {
    g := g1;
    var j := 0;
    while j < c.height - 1
      invariant 0 <= j <= c.height - 1
      invariant IsGrid(g, 2 * c.height, 2 * c.width)
      invariant forall y :: 0 <= y < 2 * j && y % 2 == 1 ==> g[y] == MiddleRow(g1[y - 1], g1[y + 1])
      invariant forall y :: 0 <= y < 2 * c.height && (y % 2 == 0 || y >= 2 * j) ==> g[y] == g1[y]
    {
      var above, below := g[2 * j], g[2 * j + 2];
      assert above == g1[2 * j] && below == g1[2 * j + 2];
      var row := FillMiddleRow(above, below);
      assert row == MiddleRow(g1[2 * j], g1[2 * j + 2]);
      g := g[2 * j + 1 := row];
      j := j + 1;
    }
  }

  /** One row of pass two (lines 205-256). */
  method FillMiddleRow(above: seq<int>, below: seq<int>) returns (row: seq<int>)
    requires |above| == |below|
    ensures row == MiddleRow(above, below)
  {
    row := [];
    var i := 0;
    while i < |above|
      invariant 0 <= i <= |above|
      invariant row == MiddlePrefix(above, below, i)
    {
      row := row + [Middle(above, below, i)];
      i := i + 1;
    }
  }

  // ---------------------------------------------------------------------
  // Pass three: the last row pair (lines 261-268)

  /** A row with each even pixel repeated over the odd one after it. */
  function Doubled(r: seq<int>): (d: seq<int>)
    requires |r| % 2 == 0
    ensures |d| == |r|
    ensures forall x :: 0 <= x < |r| ==> d[x] == r[x - x % 2]
  {
    seq(|r|, x requires 0 <= x < |r| => r[x - x % 2])
  }

  /** Pass three: output row `2h - 2` gets each even pixel repeated, and
      row `2h - 1` becomes a copy of that. */
  method FinalPass(c: Config, g2: seq<seq<int>>) returns (g: seq<seq<int>>)
    requires Valid(c) && IsGrid(g2, 2 * c.height, 2 * c.width)
    ensures IsGrid(g, 2 * c.height, 2 * c.width)
    ensures forall y :: 0 <= y < 2 * c.height - 2 ==> g[y] == g2[y]
    ensures g[2 * c.height - 2] == Doubled(g2[2 * c.height - 2])
    ensures g[2 * c.height - 1] == Doubled(g2[2 * c.height - 2])
  {
    var last := g2[2 * c.height - 2];
    var top, bottom := [], [];
    var i := 0;
    while i < c.width
      invariant 0 <= i <= c.width
      invariant |top| == 2 * i && |bottom| == 2 * i
      invariant forall x :: 0 <= x < 2 * i ==> top[x] == last[x - x % 2] && bottom[x] == last[x - x % 2]
    {
      top := top + [last[2 * i], last[2 * i]];
      bottom := bottom + [last[2 * i], last[2 * i]];
      i := i + 1;
    }
    assert top == Doubled(last) && bottom == Doubled(last);
    g := g2[2 * c.height - 2 := top][2 * c.height - 1 := bottom];
  }

  // ---------------------------------------------------------------------
  // The whole of `superSample` (lines 104-269)

  /** Pixel `x` of output row `y` once the three passes are done: the last
      row pair repeats the last source row; above it, even rows are pass
      one's and odd rows pass two's, made from pass one's rows. */
  function Upsampled(c: Config, img: seq<seq<int>>, y: nat, x: nat): int
    requires Valid(c) && IsGrid(img, c.height, c.width) && y < 2 * c.height && x < 2 * c.width
  {
    if y >= 2 * c.height - 2 then img[c.height - 1][x / 2]
    else if y % 2 == 0 then EvenPixel(c, img, y / 2, x)
    else Middle(EvenRow(c, img, y / 2), EvenRow(c, img, y / 2 + 1), x)
  }

  /** Output row `y` once the three passes are done. */
  function UpsampledRow(c: Config, img: seq<seq<int>>, y: nat): (r: seq<int>)
    requires Valid(c) && IsGrid(img, c.height, c.width) && y < 2 * c.height
    ensures |r| == 2 * c.width
  {
    if y >= 2 * c.height - 2 then Doubled(EvenRow(c, img, c.height - 1))
    else if y % 2 == 0 then EvenRow(c, img, y / 2)
    else MiddleRow(EvenRow(c, img, y / 2), EvenRow(c, img, y / 2 + 1))
  }

  lemma UpsampledRowAt(c: Config, img: seq<seq<int>>, y: nat, x: nat)
    requires Valid(c) && IsGrid(img, c.height, c.width) && y < 2 * c.height && x < 2 * c.width
    ensures UpsampledRow(c, img, y)[x] == Upsampled(c, img, y, x)
  {
    if y >= 2 * c.height - 2 {
      assert (x - x % 2) % 2 == 0 && (x - x % 2) / 2 == x / 2;
    } else if y % 2 == 1 {
      MiddleRowAt(EvenRow(c, img, y / 2), EvenRow(c, img, y / 2 + 1), x);
    }
  }

  /** What the three passes leave in row `y`, whatever the buffer held:
      the passes' postconditions compose into `UpsampledRow`. */
  lemma PassesCompose(c: Config, img: seq<seq<int>>, g1: seq<seq<int>>, g2: seq<seq<int>>,
                      g: seq<seq<int>>, y: nat)
    requires Valid(c) && IsGrid(img, c.height, c.width)
    requires IsGrid(g1, 2 * c.height, 2 * c.width) && IsGrid(g2, 2 * c.height, 2 * c.width)
    requires IsGrid(g, 2 * c.height, 2 * c.width) && y < 2 * c.height
    requires forall k :: 0 <= k < c.height ==> g1[2 * k] == EvenRow(c, img, k)
    requires forall y :: 0 <= y < 2 * c.height - 2 && y % 2 == 1 ==> g2[y] == MiddleRow(g1[y - 1], g1[y + 1])
    requires forall y :: 0 <= y < 2 * c.height && (y % 2 == 0 || y >= 2 * c.height - 2) ==> g2[y] == g1[y]
    requires forall y :: 0 <= y < 2 * c.height - 2 ==> g[y] == g2[y]
    requires g[2 * c.height - 2] == Doubled(g2[2 * c.height - 2])
    requires g[2 * c.height - 1] == Doubled(g2[2 * c.height - 2])
    ensures g[y] == UpsampledRow(c, img, y)
  {
    var last := 2 * c.height - 2;
    if y >= last {
      assert g2[last] == g1[last];
      assert g1[last] == EvenRow(c, img, c.height - 1);
    } else if y % 2 == 0 {
      assert g2[y] == g1[y];
    } else {
      assert (y - 1) % 2 == 0 && (y - 1) / 2 == y / 2 && (y + 1) % 2 == 0 && (y + 1) / 2 == y / 2 + 1;
      assert g1[y - 1] == EvenRow(c, img, y / 2);
      assert g1[y + 1] == EvenRow(c, img, y / 2 + 1);
    }
  }

  /** `superSample` on a flat source and a flat destination buffer: the
      output area holds the upsampled image, whatever it held before, and
      the rest of the buffer is left alone. */
  method SuperSample(c: Config, src: seq<int>, dst0: seq<int>) returns (dst: seq<int>)
    requires Fits(c, src) && |dst0| >= OutSize(c)
    ensures |dst| == |dst0| && dst[OutSize(c)..] == dst0[OutSize(c)..]
    ensures forall y: nat, x: nat :: y < 2 * c.height && x < 2 * c.width ==>
      Out(c, dst, y, x) == Upsampled(c, SourceRows(c, src), y, x)
    ensures forall j: nat, i: nat :: j < c.height && i < c.width ==>
      Out(c, dst, 2 * j, 2 * i) == Px(c, src, j, i)
  {
    var img := SourceRows(c, src);
    var g0 := OutRows(c, dst0);
    var g1 := HorizontalPass(c, img, g0);
    var g2 := VerticalPass(c, g1);
    var g := FinalPass(c, g2);
    FlattenIndex(g, 2 * c.height, 2 * c.width, 0, 0);
    dst := Flatten(g) + dst0[OutSize(c)..];
    forall y: nat, x: nat | y < 2 * c.height && x < 2 * c.width
      ensures Out(c, dst, y, x) == Upsampled(c, img, y, x)
    {
      PassesCompose(c, img, g1, g2, g, y);
      FlattenIndex(g, 2 * c.height, 2 * c.width, y, x);
      UpsampledRowAt(c, img, y, x);
    }
    forall j: nat, i: nat | j < c.height && i < c.width
      ensures Out(c, dst, 2 * j, 2 * i) == Px(c, src, j, i)
    {
      SourceKept(c, img, j, i);
    }
  }

  // ---------------------------------------------------------------------
  // What the upsampled image looks like

  /** Every source pixel lands at twice its coordinates. */
  lemma SourceKept(c: Config, img: seq<seq<int>>, j: nat, i: nat)
    requires Valid(c) && IsGrid(img, c.height, c.width) && j < c.height && i < c.width
    ensures Upsampled(c, img, 2 * j, 2 * i) == img[j][i]
  {
  }

  /** The last two columns of every even row repeat the row's last source
      pixel (lines 169-170 and 186-189). */
  lemma LastColumnsRepeat(c: Config, img: seq<seq<int>>, j: nat)
    requires Valid(c) && IsGrid(img, c.height, c.width) && j < c.height
    ensures Upsampled(c, img, 2 * j, 2 * c.width - 2) == img[j][c.width - 1]
    ensures Upsampled(c, img, 2 * j, 2 * c.width - 1) == img[j][c.width - 1]
  {
  }

  /** On the three rows at the top and bottom, the pixel between two source
      pixels is their average rounded down (lines 178-184); on the last
      row pass three replaces it. */
  lemma BorderRowsAverage(c: Config, img: seq<seq<int>>, j: nat, i: nat)
    requires Valid(c) && IsGrid(img, c.height, c.width) && j < c.height && i < c.width - 1
    requires Border(c, j)
    ensures j < c.height - 1 ==> Upsampled(c, img, 2 * j, 2 * i + 1) == (img[j][i] + img[j][i + 1]) / 2
    ensures j == c.height - 1 ==> Upsampled(c, img, 2 * j, 2 * i + 1) == img[j][i]
  {
  }

  /** In the three columns at the left and the four at the right, an odd
      row is the average, rounded down, of the rows above and below it as
      pass one left them (lines 252-255). */
  lemma SideColumnsAverage(c: Config, img: seq<seq<int>>, j: nat, x: nat)
    requires Valid(c) && IsGrid(img, c.height, c.width) && j < c.height - 1 && x < 2 * c.width
    requires x < 3 || x >= 2 * c.width - 4
    ensures Upsampled(c, img, 2 * j + 1, x) == (EvenPixel(c, img, j, x) + EvenPixel(c, img, j + 1, x)) / 2
    ensures j < c.height - 2 ==>
      Upsampled(c, img, 2 * j + 1, x) == (Upsampled(c, img, 2 * j, x) + Upsampled(c, img, 2 * j + 2, x)) / 2
  {
  }

  /** The last two rows both repeat each pixel of the last source row
      twice (lines 261-268). */
  lemma LastRowPair(c: Config, img: seq<seq<int>>, x: nat)
    requires Valid(c) && IsGrid(img, c.height, c.width) && x < 2 * c.width
    ensures Upsampled(c, img, 2 * c.height - 2, x) == img[c.height - 1][x / 2]
    ensures Upsampled(c, img, 2 * c.height - 1, x) == img[c.height - 1][x / 2]
  {
  }

  /** All source pixels lie between `lo` and `hi`. */
  predicate Within(img: seq<seq<int>>, lo: int, hi: int) {
    forall j, i :: 0 <= j < |img| && 0 <= i < |img[j]| ==> lo <= img[j][i] <= hi
  }

  lemma BetweenInRange(c: Config, img: seq<seq<int>>, j: nat, i: nat, lo: int, hi: int)
    requires Valid(c) && IsGrid(img, c.height, c.width) && j < c.height && i < c.width - 1
    requires Within(img, lo, hi)
    ensures lo <= Between(c, img, j, i) <= hi
  {
    if !Border(c, j) {
      var g := Gradients(img[j - 1][i], img[j][i], img[j + 1][i], img[j - 1][i + 1], img[j][i + 1], img[j + 1][i + 1]);
      var ch := Choose(g.dx, g.dy, g.dx2);
      ChooseGivesPattern(g.dx, g.dy, g.dx2);
      if ch.Along? {
        ReconstructVInRange(c, img, j, i, if ch.reversed then -1 else 1, ch.taps, lo, hi);
      }
    }
  }

  lemma ReconstructVInRange(c: Config, img: seq<seq<int>>, j: int, i: int, s: int, t: Taps, lo: int, hi: int)
    requires IsGrid(img, c.height, c.width) && (s == 1 || s == -1) && IsPattern(t)
    requires 3 <= j < c.height - 3 && 0 <= i < c.width - 1
    requires Within(img, lo, hi)
    ensures lo <= ReconstructV(c, img, j, i, s, t) <= hi
  {
    ReconstructInRange(t, [img[j - 3 * s][i], img[j - 2 * s][i], img[j - s][i], img[j][i],
                           img[j][i + 1], img[j + s][i + 1], img[j + 2 * s][i + 1], img[j + 3 * s][i + 1]], lo, hi);
  }

  lemma EvenRowInRange(c: Config, img: seq<seq<int>>, j: nat, lo: int, hi: int)
    requires Valid(c) && IsGrid(img, c.height, c.width) && j < c.height
    requires Within(img, lo, hi)
    ensures RowWithin(EvenRow(c, img, j), lo, hi)
  {
    forall x | 0 <= x < 2 * c.width
      ensures lo <= EvenRow(c, img, j)[x] <= hi
    {
      if x % 2 == 1 && x / 2 < c.width - 1 {
        BetweenInRange(c, img, j, x / 2, lo, hi);
      }
    }
  }

  /** All pixels of row `r` lie between `lo` and `hi`. */
  predicate RowWithin(r: seq<int>, lo: int, hi: int) {
    forall k :: 0 <= k < |r| ==> lo <= r[k] <= hi
  }

  lemma MiddleInRange(r1: seq<int>, r3: seq<int>, x: nat, lo: int, hi: int)
    requires |r1| == |r3| && x < |r1|
    requires RowWithin(r1, lo, hi) && RowWithin(r3, lo, hi)
    ensures lo <= Middle(r1, r3, x) <= hi
  {
    if 3 <= x < |r1| - 4 {
      var g := Gradients(r1[x - 1], r1[x], r1[x + 1], r3[x - 1], r3[x], r3[x + 1]);
      ChooseGivesPattern(g.dx, g.dy, g.dx2);
      match Choose(g.dx, g.dy, g.dx2)
      case Average =>
      case Along(t, rev) =>
        if rev {
          ReconstructHInRange(r3, r1, x, t, lo, hi);
        } else {
          ReconstructHInRange(r1, r3, x, t, lo, hi);
        }
    }
  }

  lemma OddRowInRange(c: Config, img: seq<seq<int>>, j: nat, x: nat, lo: int, hi: int)
    requires Valid(c) && IsGrid(img, c.height, c.width) && Within(img, lo, hi)
    requires j < c.height - 1 && x < 2 * c.width
    ensures lo <= Middle(EvenRow(c, img, j), EvenRow(c, img, j + 1), x) <= hi
  {
    EvenRowInRange(c, img, j, lo, hi);
    EvenRowInRange(c, img, j + 1, lo, hi);
    MiddleInRange(EvenRow(c, img, j), EvenRow(c, img, j + 1), x, lo, hi);
  }

  /** Upsampling never leaves the range of the source: every weight is
      non-negative and every average is of two pixels, so 8-bit pixels
      stay 8-bit without the clamp the code leaves commented out. */
  lemma UpsampledInRange(c: Config, img: seq<seq<int>>, lo: int, hi: int, y: nat, x: nat)
    requires Valid(c) && IsGrid(img, c.height, c.width) && Within(img, lo, hi)
    requires y < 2 * c.height && x < 2 * c.width
    ensures lo <= Upsampled(c, img, y, x) <= hi
  {
    if y >= 2 * c.height - 2 {
      assert Upsampled(c, img, y, x) == img[c.height - 1][x / 2];
    } else if y % 2 == 0 {
      EvenRowInRange(c, img, y / 2, lo, hi);
      assert Upsampled(c, img, y, x) == EvenRow(c, img, y / 2)[x];
    } else {
      OddRowInRange(c, img, y / 2, x, lo, hi);
    }
  }

  /** A flat image stays flat. */
  lemma ConstantImage(c: Config, img: seq<seq<int>>, v: int, y: nat, x: nat)
    requires Valid(c) && IsGrid(img, c.height, c.width) && Within(img, v, v)
    requires y < 2 * c.height && x < 2 * c.width
    ensures Upsampled(c, img, y, x) == v
  {
    UpsampledInRange(c, img, v, v, y, x);
  }
}
