/** The image transforms of prog1/imageOperations.cpp as functions and
    methods over immutable images. Each transform returns the new image
    instead of overwriting the planes in place. */
module ImageOperations {
  import opened NetPbm

  /** Two images agree on everything but their planes. */
  predicate SameHeader(a: Image, b: Image) {
    && a.header == b.header
    && a.comment == b.comment
    && a.rows == b.rows
    && a.cols == b.cols
    && a.max == b.max
  }

  /** Apply the same sample map to all three planes. */
  function MapPlanes(img: Image, f: int -> int): (r: Image)
    requires Valid(img)
    requires forall v :: IsSample(v) ==> IsSample(f(v))
    ensures Valid(r) && SameHeader(img, r)
    ensures forall i, j :: InImage(img.rows, img.cols, i, j) ==>
      && r.redgray[i][j] == f(img.redgray[i][j])
      && r.green[i][j] == f(img.green[i][j])
      && r.blue[i][j] == f(img.blue[i][j])
  {
    img.(redgray := MapGrid(img.redgray, f),
         green := MapGrid(img.green, f),
         blue := MapGrid(img.blue, f))
  }

  // ---------------------------------------------------------------- negate

  /** Photographic negative of every sample of every plane. */
  function Negate(img: Image): (r: Image)
    requires Valid(img)
    ensures Valid(r) && SameHeader(img, r)
    ensures forall i, j :: InImage(img.rows, img.cols, i, j) ==>
      && r.redgray[i][j] + img.redgray[i][j] == 255
      && r.green[i][j] + img.green[i][j] == 255
      && r.blue[i][j] + img.blue[i][j] == 255
  {
    MapPlanes(img, v => 255 - v)
  }

  /** Negating twice gives back the original image. */
  lemma NegateInvolution(img: Image)
    requires Valid(img)
    ensures Negate(Negate(img)) == img
  {
    var r := Negate(Negate(img));
    GridExt(r.redgray, img.redgray, img.rows, img.cols);
    GridExt(r.green, img.green, img.rows, img.cols);
    GridExt(r.blue, img.blue, img.rows, img.cols);
  }

  // ------------------------------------------------------------- grayscale

  /** Weighted luminance 0.3 R + 0.6 G + 0.1 B, truncated toward zero. */
  function Luminance(red: int, green: int, blue: int): int {
    (3 * red + 6 * green + blue) / 10
  }

  /** Overwrite the red plane with the luminance of each pixel; the green
      and blue planes are left as they were. */
  function Grayscale(img: Image): (r: Image)
    requires Valid(img)
    ensures Valid(r) && SameHeader(img, r)
    ensures r.green == img.green && r.blue == img.blue
    ensures forall i, j :: InImage(img.rows, img.cols, i, j) ==>
      10 * r.redgray[i][j] <= 3 * img.redgray[i][j] + 6 * img.green[i][j] + img.blue[i][j]
        < 10 * r.redgray[i][j] + 10
  {
    var gray := seq(img.rows, i requires 0 <= i < img.rows =>
      seq(img.cols, j requires 0 <= j < img.cols =>
        Luminance(img.redgray[i][j], img.green[i][j], img.blue[i][j])));
    img.(redgray := gray)
  }

  /** The gray value of a pixel lies between its darkest and brightest
      channel, for the exact weighted sum (3R + 6G + B) / 10. */
  lemma GrayscaleBetweenChannels(img: Image, i: int, j: int)
    requires Valid(img) && InImage(img.rows, img.cols, i, j)
    ensures var red, green, blue := img.redgray[i][j], img.green[i][j], img.blue[i][j];
      var gray := Grayscale(img).redgray[i][j];
      && gray >= (if red <= green && red <= blue then red else if green <= blue then green else blue)
      && gray <= (if red >= green && red >= blue then red else if green >= blue then green else blue)
  {
  }

  // -------------------------------------------------------------- brighten

  /** One sample of brighten, following the three-way branch of the source:
      saturate above, saturate below, otherwise add the narrowed offset and
      narrow the sum. */
  function BrightenSample(v: int, value: int): (r: int)
    requires IsSample(v)
    ensures r == Clamp(v + value)
  {
    if v + value > 255 then 255
    else if v + value < 0 then 0
    else Narrow(v + Narrow(value))
  }

  /** Add `value` (positive or negative) to every sample of every plane,
      saturating at 0 and 255. */
  function Brighten(img: Image, value: int): (r: Image)
    requires Valid(img)
    ensures Valid(r) && SameHeader(img, r)
    ensures forall i, j :: InImage(img.rows, img.cols, i, j) ==>
      && r.redgray[i][j] == Clamp(img.redgray[i][j] + value)
      && r.green[i][j] == Clamp(img.green[i][j] + value)
      && r.blue[i][j] == Clamp(img.blue[i][j] + value)
  {
    MapPlanes(img, v => if IsSample(v) then BrightenSample(v, value) else v)
  }

  /** An offset of at least 255 turns every sample white; one of at most
      -255 turns every sample black. */
  lemma BrightenSaturates(img: Image, value: int, i: int, j: int)
    requires Valid(img) && InImage(img.rows, img.cols, i, j)
    ensures value >= 255 ==> var r := Brighten(img, value);
      r.redgray[i][j] == 255 && r.green[i][j] == 255 && r.blue[i][j] == 255
    ensures value <= -255 ==> var r := Brighten(img, value);
      r.redgray[i][j] == 0 && r.green[i][j] == 0 && r.blue[i][j] == 0
  {
  }

  /** Two brightenings in the same direction add up: saturation loses
      nothing that a single larger step would have kept. */
  lemma BrightenCompose(img: Image, a: int, b: int)
    requires Valid(img)
    requires (a >= 0 && b >= 0) || (a <= 0 && b <= 0)
    ensures Brighten(Brighten(img, a), b) == Brighten(img, a + b)
  {
    var r, s := Brighten(Brighten(img, a), b), Brighten(img, a + b);
    GridExt(r.redgray, s.redgray, img.rows, img.cols);
    GridExt(r.green, s.green, img.rows, img.cols);
    GridExt(r.blue, s.blue, img.rows, img.cols);
  }

  // ------------------------------------------------------- min/max scan

  /** Every row of the plane holds at least one sample. */
  predicate NonEmptyPlane(g: Grid) {
    |g| > 0 && forall i :: 0 <= i < |g| ==> |g[i]| > 0
  }

  /** Least element of a non-empty sequence. */
  function SeqMin(s: seq<int>): (m: int)
    requires |s| > 0
    ensures forall k :: 0 <= k < |s| ==> m <= s[k]
  {
    if |s| == 1 then s[0]
    else
      var m := SeqMin(s[..|s| - 1]);
      if s[|s| - 1] < m then s[|s| - 1] else m
  }

  /** Greatest element of a non-empty sequence. */
  function SeqMax(s: seq<int>): (m: int)
    requires |s| > 0
    ensures forall k :: 0 <= k < |s| ==> s[k] <= m
  {
    if |s| == 1 then s[0]
    else
      var m := SeqMax(s[..|s| - 1]);
      if s[|s| - 1] > m then s[|s| - 1] else m
  }

  /** Least sample of a plane: a lower bound that occurs in it. */
  function GridMin(g: Grid): (m: int)
    requires NonEmptyPlane(g)
    ensures forall i, j :: 0 <= i < |g| && 0 <= j < |g[i]| ==> m <= g[i][j]
  {
    var last := SeqMin(g[|g| - 1]);
    if |g| == 1 then last
    else
      var m := GridMin(g[..|g| - 1]);
      if last < m then last else m
  }

  /** Greatest sample of a plane: an upper bound that occurs in it. */
  function GridMax(g: Grid): (m: int)
    requires NonEmptyPlane(g)
    ensures forall i, j :: 0 <= i < |g| && 0 <= j < |g[i]| ==> g[i][j] <= m
  {
    var last := SeqMax(g[|g| - 1]);
    if |g| == 1 then last
    else
      var m := GridMax(g[..|g| - 1]);
      if last > m then last else m
  }

  /** The least element of a sequence occurs in it. */
  lemma {:induction false} SeqMinOccurs(s: seq<int>)
    requires |s| > 0
    ensures exists k :: 0 <= k < |s| && s[k] == SeqMin(s)
  {
    if |s| > 1 {
      SeqMinOccurs(s[..|s| - 1]);
      var k :| 0 <= k < |s| - 1 && s[..|s| - 1][k] == SeqMin(s[..|s| - 1]);
      if s[|s| - 1] < SeqMin(s[..|s| - 1]) {
        assert s[|s| - 1] == SeqMin(s);
      } else {
        assert s[k] == SeqMin(s);
      }
    } else {
      assert s[0] == SeqMin(s);
    }
  }

  /** The greatest element of a sequence occurs in it. */
  lemma {:induction false} SeqMaxOccurs(s: seq<int>)
    requires |s| > 0
    ensures exists k :: 0 <= k < |s| && s[k] == SeqMax(s)
  {
    if |s| > 1 {
      SeqMaxOccurs(s[..|s| - 1]);
      var k :| 0 <= k < |s| - 1 && s[..|s| - 1][k] == SeqMax(s[..|s| - 1]);
      if s[|s| - 1] > SeqMax(s[..|s| - 1]) {
        assert s[|s| - 1] == SeqMax(s);
      } else {
        assert s[k] == SeqMax(s);
      }
    } else {
      assert s[0] == SeqMax(s);
    }
  }

  /** The least sample of a plane occurs in it. */
  lemma {:induction false} GridMinOccurs(g: Grid)
    requires NonEmptyPlane(g)
    ensures exists i, j :: 0 <= i < |g| && 0 <= j < |g[i]| && g[i][j] == GridMin(g)
  {
    SeqMinOccurs(g[|g| - 1]);
    if |g| > 1 {
      GridMinOccurs(g[..|g| - 1]);
      var i, j :| 0 <= i < |g| - 1 && 0 <= j < |g[..|g| - 1][i]| && g[..|g| - 1][i][j] == GridMin(g[..|g| - 1]);
      assert g[i] == g[..|g| - 1][i];
    }
  }

  /** The greatest sample of a plane occurs in it. */
  lemma {:induction false} GridMaxOccurs(g: Grid)
    requires NonEmptyPlane(g)
    ensures exists i, j :: 0 <= i < |g| && 0 <= j < |g[i]| && g[i][j] == GridMax(g)
  {
    SeqMaxOccurs(g[|g| - 1]);
    if |g| > 1 {
      GridMaxOccurs(g[..|g| - 1]);
      var i, j :| 0 <= i < |g| - 1 && 0 <= j < |g[..|g| - 1][i]| && g[..|g| - 1][i][j] == GridMax(g[..|g| - 1]);
      assert g[i] == g[..|g| - 1][i];
    }
  }

  /** The row-major scan of the red/gray plane, starting from the sample at
      (0, 0): returns its least and greatest samples. */
  method GetMinAndMax(img: Image) returns (min: int, max: int)
    requires Valid(img) && img.rows >= 1 && img.cols >= 1
    ensures forall i, j :: InImage(img.rows, img.cols, i, j) ==>
      min <= img.redgray[i][j] <= max
    ensures exists i, j :: InImage(img.rows, img.cols, i, j) && img.redgray[i][j] == min
    ensures exists i, j :: InImage(img.rows, img.cols, i, j) && img.redgray[i][j] == max
    ensures min == GridMin(img.redgray) && max == GridMax(img.redgray)
  {
    var g := img.redgray;
    min, max := g[0][0], g[0][0];
    ghost var mi, mj, xi, xj := 0, 0, 0, 0;
    var i := 0;
    while i < img.rows
      invariant 0 <= i <= img.rows
      invariant InImage(img.rows, img.cols, mi, mj) && g[mi][mj] == min
      invariant InImage(img.rows, img.cols, xi, xj) && g[xi][xj] == max
      invariant forall i', j' :: 0 <= i' < i && 0 <= j' < img.cols ==> min <= g[i'][j'] <= max
    {
      var j := 0;
      while j < img.cols
        invariant 0 <= j <= img.cols
        invariant InImage(img.rows, img.cols, mi, mj) && g[mi][mj] == min
        invariant InImage(img.rows, img.cols, xi, xj) && g[xi][xj] == max
        invariant forall i', j' :: 0 <= i' < i && 0 <= j' < img.cols ==> min <= g[i'][j'] <= max
        invariant forall j' :: 0 <= j' < j ==> min <= g[i][j'] <= max
      {
        if g[i][j] < min {
          min := g[i][j];
          mi, mj := i, j;
        }
        if g[i][j] > max {
          max := g[i][j];
          xi, xj := i, j;
        }
        j := j + 1;
      }
      i := i + 1;
    }
    GridMinOccurs(g);
    GridMaxOccurs(g);
  }

  // -------------------------------------------------------------- contrast

  /** The gain of contrast for a gray range of width d: 255.0 / d rounded
      half up. 255 / d + 0.5 equals (510 + d) / (2 d) exactly, so the floor
      of the one is the integer quotient of the other. */
  function ContrastScale(d: int): (s: int)
    requires d > 0
    ensures s >= 0
    ensures d <= 255 ==> s >= 1
    ensures d > 510 ==> s == 0
  {
    (510 + d) / (2 * d)
  }

  /** ContrastScale(d) * d is the multiple of d nearest to 255, ties going
      to the larger one. */
  lemma ContrastScaleRounds(d: int)
    requires d > 0
    ensures var s := ContrastScale(d);
      -d < 2 * (s * d - 255) <= d
  {
    var s := ContrastScale(d);
    assert s * (2 * d) <= 510 + d < (s + 1) * (2 * d);
  }

  /** One gray sample stretched by `scale` above `lo`, the product stored
      into a byte without saturation. */
  function Stretch(v: int, lo: int, scale: int): (r: int)
    ensures IsSample(r)
  {
    Narrow(scale * (v - lo))
  }

  /** The same stretch with the product saturated to the sample range. */
  function StretchSaturated(v: int, lo: int, scale: int): (r: int)
    ensures IsSample(r)
  {
    Clamp(scale * (v - lo))
  }

  /** Stretch every sample of a plane. */
  function StretchPlane(g: Grid, rows: int, cols: int, lo: int, scale: int): (r: Grid)
    requires IsGrid(g, rows, cols)
    ensures IsGrid(r, rows, cols)
    ensures forall i, j :: InImage(rows, cols, i, j) ==> r[i][j] == Stretch(g[i][j], lo, scale)
  {
    seq(rows, i requires 0 <= i < rows =>
      seq(cols, j requires 0 <= j < cols => Stretch(g[i][j], lo, scale)))
  }

  /** Stretch every sample of a plane with saturation. */
  function StretchPlaneSaturated(g: Grid, rows: int, cols: int, lo: int, scale: int): (r: Grid)
    requires IsGrid(g, rows, cols)
    ensures IsGrid(r, rows, cols)
    ensures forall i, j :: InImage(rows, cols, i, j) ==> r[i][j] == StretchSaturated(g[i][j], lo, scale)
  {
    seq(rows, i requires 0 <= i < rows =>
      seq(cols, j requires 0 <= j < cols => StretchSaturated(g[i][j], lo, scale)))
  }

  /** The darkest and brightest gray samples, as found by GetMinAndMax. */
  method GrayRange(img: Image) returns (lo: int, hi: int)
    requires Valid(img) && img.rows >= 1 && img.cols >= 1
    ensures lo == GridMin(img.redgray) && hi == GridMax(img.redgray)
  {
    lo, hi := GetMinAndMax(img);
  }

  /** Contrast: grayscale, scan the gray plane for its darkest and
      brightest samples, then stretch the gray plane so that its darkest
      sample becomes 0, multiplying by ContrastScale of the gray range; the
      products are narrowed to bytes without saturating. The caller must not
      pass an image whose gray plane is uniform. */
  method Contrast(img: Image) returns (r: Image)
    requires Valid(img) && img.rows >= 1 && img.cols >= 1
    requires GridMin(Grayscale(img).redgray) < GridMax(Grayscale(img).redgray)
    ensures Valid(r) && SameHeader(img, r)
    ensures r.green == img.green && r.blue == img.blue
    ensures var gray := Grayscale(img).redgray;
      var lo := GridMin(gray);
      var scale := ContrastScale(GridMax(gray) - lo);
      forall i, j :: InImage(img.rows, img.cols, i, j) ==>
        r.redgray[i][j] == Stretch(gray[i][j], lo, scale)
  {
    var gimg := Grayscale(img);
    var lo, hi := GrayRange(gimg);
    var scale := ContrastScale(hi - lo);
    r := gimg.(redgray := StretchPlane(gimg.redgray, img.rows, img.cols, lo, scale));
  }

  /** The darkest gray sample always becomes 0, and a gray sample v of the
      range [lo, hi] becomes exactly scale * (v - lo) when the stretched
      range fits in a byte. */
  lemma StretchWithoutWrap(v: int, lo: int, hi: int, scale: int)
    requires lo <= v <= hi && scale >= 0 && scale * (hi - lo) <= 255
    ensures Stretch(lo, lo, scale) == 0
    ensures Stretch(v, lo, scale) == scale * (v - lo)
  {
    MulMono(0, v - lo, scale);
    MulMono(v - lo, hi - lo, scale);
  }

  /** A gray range of width 100, from 50 to 150, has gain 3: gray 80
      becomes 90 but the brighter gray 150 wraps from 300 to 44, so contrast
      reverses the order of the two samples. */
  lemma ContrastWrapsAround()
    ensures ContrastScale(150 - 50) == 3
    ensures Stretch(80, 50, ContrastScale(150 - 50)) == 90
    ensures Stretch(150, 50, ContrastScale(150 - 50)) == 44
  {
  }

  /** Contrast with the stretched products saturated to the sample range
      instead of wrapped. */
  method ContrastSaturated(img: Image) returns (r: Image)
    requires Valid(img) && img.rows >= 1 && img.cols >= 1
    requires GridMin(Grayscale(img).redgray) < GridMax(Grayscale(img).redgray)
    ensures Valid(r) && SameHeader(img, r)
    ensures r.green == img.green && r.blue == img.blue
    ensures var gray := Grayscale(img).redgray;
      var lo := GridMin(gray);
      var scale := ContrastScale(GridMax(gray) - lo);
      forall i, j :: InImage(img.rows, img.cols, i, j) ==>
        r.redgray[i][j] == StretchSaturated(gray[i][j], lo, scale)
  {
    var gimg := Grayscale(img);
    var lo, hi := GrayRange(gimg);
    var scale := ContrastScale(hi - lo);
    r := gimg.(redgray := StretchPlaneSaturated(gimg.redgray, img.rows, img.cols, lo, scale));
  }

  /** The saturated stretch keeps the order of gray levels, sends the
      darkest to 0 and, for a range of at most 255, the brightest to 255
      or to the largest multiple of the gain that fits. */
  lemma {:induction false} StretchSaturatedMonotone(v: int, w: int, lo: int, hi: int)
    requires lo <= v <= w <= hi && lo < hi
    ensures var scale := ContrastScale(hi - lo);
      StretchSaturated(v, lo, scale) <= StretchSaturated(w, lo, scale)
    ensures StretchSaturated(lo, lo, ContrastScale(hi - lo)) == 0
    ensures hi - lo <= 255 ==> StretchSaturated(hi, lo, ContrastScale(hi - lo)) >= 255 - (hi - lo) / 2
  {
    var d, scale := hi - lo, ContrastScale(hi - lo);
    assert StretchSaturated(v, lo, scale) <= StretchSaturated(w, lo, scale) by {
      MulMono(v - lo, w - lo, scale);
    }
    if d <= 255 {
      assert scale * d >= 255 - d / 2 by {
        ContrastScaleRounds(d);
      }
    }
  }

  // --------------------------------------------------- sharpen and smooth

  /** (i, j) is strictly inside the border of a rows-by-cols image. */
  predicate Interior(rows: int, cols: int, i: int, j: int) {
    1 <= i < rows - 1 && 1 <= j < cols - 1
  }

  /** The stencils run over a plane: sharpen, smooth as written, and the
      full 3 x 3 box average. */
  datatype Kernel = SharpenKernel | SmoothKernel | BoxKernel

  /** Sharpen at an interior pixel: five times the centre less its four
      edge neighbours, saturated to the sample range. */
  function SharpenAt(g: Grid, rows: int, cols: int, i: int, j: int): (v: int)
    requires IsGrid(g, rows, cols) && Interior(rows, cols, i, j)
    ensures IsSample(v)
    ensures g[i][j] == g[i - 1][j] == g[i + 1][j] == g[i][j - 1] == g[i][j + 1] ==> v == g[i][j]
  {
    Clamp(5 * g[i][j] - g[i][j - 1] - g[i + 1][j] - g[i][j + 1] - g[i - 1][j])
  }

  /** Sum of the eight samples around an interior pixel, centre excluded. */
  function NeighbourSum(g: Grid, rows: int, cols: int, i: int, j: int): (s: int)
    requires IsGrid(g, rows, cols) && Interior(rows, cols, i, j)
    ensures 0 <= s <= 8 * 255
  {
    g[i - 1][j - 1] + g[i - 1][j] + g[i - 1][j + 1] + g[i][j + 1]
      + g[i + 1][j + 1] + g[i + 1][j] + g[i + 1][j - 1] + g[i][j - 1]
  }

  /** Smooth at an interior pixel: the eight-neighbour sum divided by 9,
      rounded half up. The sum / 9 + 0.5 of the source is never an
      integer, so (2 * sum + 9) / 18 is its floor exactly. */
  function SmoothAt(g: Grid, rows: int, cols: int, i: int, j: int): (v: int)
    requires IsGrid(g, rows, cols) && Interior(rows, cols, i, j)
    ensures 0 <= v <= 227
    ensures 18 * v <= 2 * NeighbourSum(g, rows, cols, i, j) + 9 < 18 * v + 18
  {
    (2 * NeighbourSum(g, rows, cols, i, j) + 9) / 18
  }

  /** Smooth leaves the centre out of the sum but still divides by 9, so a
      uniform neighbourhood of value v >= 5 comes out darker than v; a
      white plane turns to gray 227. */
  lemma SmoothDarkensUniform(g: Grid, rows: int, cols: int, i: int, j: int)
    requires IsGrid(g, rows, cols) && Interior(rows, cols, i, j)
    requires g[i - 1][j - 1] == g[i - 1][j] == g[i - 1][j + 1] == g[i][j + 1] == g[i][j]
    requires g[i][j] == g[i + 1][j + 1] == g[i + 1][j] == g[i + 1][j - 1] == g[i][j - 1]
    ensures g[i][j] >= 5 ==> SmoothAt(g, rows, cols, i, j) < g[i][j]
    ensures g[i][j] == 255 ==> SmoothAt(g, rows, cols, i, j) == 227
  {
  }

  /** The 3 x 3 box average: the nine samples of the window, centre
      included, over 9, rounded half up (again never a tie). */
  function BoxAverageAt(g: Grid, rows: int, cols: int, i: int, j: int): (v: int)
    requires IsGrid(g, rows, cols) && Interior(rows, cols, i, j)
    ensures IsSample(v)
    ensures 18 * v <= 2 * (NeighbourSum(g, rows, cols, i, j) + g[i][j]) + 9 < 18 * v + 18
  {
    (2 * (NeighbourSum(g, rows, cols, i, j) + g[i][j]) + 9) / 18
  }

  /** The box average stays within the range of its window: when all nine
      samples lie in [lo, hi] so does the result, and a uniform window
      keeps its value. */
  lemma BoxAverageWithinWindow(g: Grid, rows: int, cols: int, i: int, j: int, lo: int, hi: int)
    requires IsGrid(g, rows, cols) && Interior(rows, cols, i, j)
    requires forall a, b :: i - 1 <= a <= i + 1 && j - 1 <= b <= j + 1 ==> lo <= g[a][b] <= hi
    ensures lo <= BoxAverageAt(g, rows, cols, i, j) <= hi
  {
    var s := NeighbourSum(g, rows, cols, i, j) + g[i][j];
    assert lo <= g[i - 1][j - 1] <= hi && lo <= g[i - 1][j] <= hi && lo <= g[i - 1][j + 1] <= hi;
    assert lo <= g[i][j - 1] <= hi && lo <= g[i][j] <= hi && lo <= g[i][j + 1] <= hi;
    assert lo <= g[i + 1][j - 1] <= hi && lo <= g[i + 1][j] <= hi && lo <= g[i + 1][j + 1] <= hi;
    assert 9 * lo <= s <= 9 * hi;
  }

  function KernelAt(k: Kernel, g: Grid, rows: int, cols: int, i: int, j: int): (v: int)
    requires IsGrid(g, rows, cols) && Interior(rows, cols, i, j)
    ensures IsSample(v)
  {
    match k
    case SharpenKernel => SharpenAt(g, rows, cols, i, j)
    case SmoothKernel => SmoothAt(g, rows, cols, i, j)
    case BoxKernel => BoxAverageAt(g, rows, cols, i, j)
  }

  /** `out` is the result of running kernel `k` over plane `g`: every border
      sample is 0 and every interior sample is the kernel applied to the
      samples of `g`. */
  ghost predicate Filtered(out: Grid, g: Grid, rows: int, cols: int, k: Kernel)
    requires IsGrid(g, rows, cols)
  {
    && IsGrid(out, rows, cols)
    && (forall i, j :: InImage(rows, cols, i, j) && !Interior(rows, cols, i, j) ==> out[i][j] == 0)
    && (forall i, j :: InImage(rows, cols, i, j) && Interior(rows, cols, i, j) ==>
          out[i][j] == KernelAt(k, g, rows, cols, i, j))
  }

  /** The scratch-plane loop of sharpen and smooth: a zeroed plane whose
      interior is filled row by row from the untouched input plane. */
  method FilterPlane(g: Grid, rows: int, cols: int, k: Kernel) returns (out: Grid)
    requires rows >= 0 && cols >= 0 && IsGrid(g, rows, cols)
    ensures Filtered(out, g, rows, cols, k)
  {
    out := ZeroGrid(rows, cols);
    var i := 1;
    while i < rows - 1
      invariant 1 <= i && (i <= rows - 1 || i == 1)
      invariant IsGrid(out, rows, cols)
      invariant forall i', j' :: InImage(rows, cols, i', j') ==>
        out[i'][j'] == if Interior(rows, cols, i', j') && i' < i then KernelAt(k, g, rows, cols, i', j') else 0
    {
      var row := out[i];
      var j := 1;
      while j < cols - 1
        invariant 1 <= j && (j <= cols - 1 || j == 1)
        invariant |row| == cols
        invariant forall j' :: 0 <= j' < cols ==>
          row[j'] == if Interior(rows, cols, i, j') && j' < j then KernelAt(k, g, rows, cols, i, j') else 0
      {
        row := row[j := KernelAt(k, g, rows, cols, i, j)];
        j := j + 1;
      }
      out := out[i := row];
      i := i + 1;
    }
  }

  /** Run a kernel over all three planes into fresh scratch planes and
      replace the image's planes with them. */
  method Filter(img: Image, k: Kernel) returns (r: Image)
    requires Valid(img)
    ensures Valid(r) && SameHeader(img, r)
    ensures Filtered(r.redgray, img.redgray, img.rows, img.cols, k)
    ensures Filtered(r.green, img.green, img.rows, img.cols, k)
    ensures Filtered(r.blue, img.blue, img.rows, img.cols, k)
  {
    var newred := FilterPlane(img.redgray, img.rows, img.cols, k);
    var newgreen := FilterPlane(img.green, img.rows, img.cols, k);
    var newblue := FilterPlane(img.blue, img.rows, img.cols, k);
    r := img.(redgray := newred, green := newgreen, blue := newblue);
  }

  /** Sharpen: border samples become 0, interior samples 5v minus the four
      edge neighbours, saturated, all computed from the pre-call planes. */
  method Sharpen(img: Image) returns (r: Image)
    requires Valid(img)
    ensures Valid(r) && SameHeader(img, r)
    ensures forall i, j :: InImage(img.rows, img.cols, i, j) && !Interior(img.rows, img.cols, i, j) ==>
      r.redgray[i][j] == 0 && r.green[i][j] == 0 && r.blue[i][j] == 0
    ensures forall i, j :: InImage(img.rows, img.cols, i, j) && Interior(img.rows, img.cols, i, j) ==>
      && r.redgray[i][j] == SharpenAt(img.redgray, img.rows, img.cols, i, j)
      && r.green[i][j] == SharpenAt(img.green, img.rows, img.cols, i, j)
      && r.blue[i][j] == SharpenAt(img.blue, img.rows, img.cols, i, j)
    ensures img.rows < 3 || img.cols < 3 ==> forall i, j :: InImage(img.rows, img.cols, i, j) ==>
      r.redgray[i][j] == 0 && r.green[i][j] == 0 && r.blue[i][j] == 0
  {
    r := Filter(img, SharpenKernel);
  }

  /** Smooth: border samples become 0, interior samples the rounded
      eight-neighbour sum over 9, all computed from the pre-call planes;
      no result exceeds 227, so the byte store never wraps. */
  method Smooth(img: Image) returns (r: Image)
    requires Valid(img)
    ensures Valid(r) && SameHeader(img, r)
    ensures forall i, j :: InImage(img.rows, img.cols, i, j) && !Interior(img.rows, img.cols, i, j) ==>
      r.redgray[i][j] == 0 && r.green[i][j] == 0 && r.blue[i][j] == 0
    ensures forall i, j :: InImage(img.rows, img.cols, i, j) && Interior(img.rows, img.cols, i, j) ==>
      && r.redgray[i][j] == SmoothAt(img.redgray, img.rows, img.cols, i, j)
      && r.green[i][j] == SmoothAt(img.green, img.rows, img.cols, i, j)
      && r.blue[i][j] == SmoothAt(img.blue, img.rows, img.cols, i, j)
    ensures forall i, j :: InImage(img.rows, img.cols, i, j) ==>
      r.redgray[i][j] <= 227 && r.green[i][j] <= 227 && r.blue[i][j] <= 227
    ensures img.rows < 3 || img.cols < 3 ==> forall i, j :: InImage(img.rows, img.cols, i, j) ==>
      r.redgray[i][j] == 0 && r.green[i][j] == 0 && r.blue[i][j] == 0
  {
    r := Filter(img, SmoothKernel);
  }

  /** Smooth with the centre sample counted: the 3 x 3 box blur. Border
      samples become 0 and interior samples the rounded mean of their
      window, which lies between the window's darkest and brightest
      samples. */
  method SmoothBox(img: Image) returns (r: Image)
    requires Valid(img)
    ensures Valid(r) && SameHeader(img, r)
    ensures forall i, j :: InImage(img.rows, img.cols, i, j) && !Interior(img.rows, img.cols, i, j) ==>
      r.redgray[i][j] == 0 && r.green[i][j] == 0 && r.blue[i][j] == 0
    ensures forall i, j :: InImage(img.rows, img.cols, i, j) && Interior(img.rows, img.cols, i, j) ==>
      && r.redgray[i][j] == BoxAverageAt(img.redgray, img.rows, img.cols, i, j)
      && r.green[i][j] == BoxAverageAt(img.green, img.rows, img.cols, i, j)
      && r.blue[i][j] == BoxAverageAt(img.blue, img.rows, img.cols, i, j)
  {
    r := Filter(img, BoxKernel);
  }
}
