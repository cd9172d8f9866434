/** Shared vocabulary of the image program: bytes as read from a file,
    8-bit samples, rows-by-cols grids of samples and the image record. */
module NetPbm {

  /** One byte of a file, read or written through a char stream. */
  type Byte = c: char | c as int < 256 witness 'P'

  /** Value of an 8-bit pixel (an unsigned char). */
  predicate IsSample(v: int) {
    0 <= v < 256
  }

  /** A pixel plane: rows of columns of samples. */
  type Grid = seq<seq<int>>

  /** `g` has exactly `rows` rows of `cols` samples each. */
  predicate IsGrid(g: Grid, rows: int, cols: int) {
    && |g| == rows && cols >= 0
    && (forall i :: 0 <= i < |g| ==> |g[i]| == cols)
    && (forall i, j :: 0 <= i < |g| && 0 <= j < |g[i]| ==> IsSample(g[i][j]))
  }

  /** (i, j) addresses a pixel of an image with these dimensions. */
  predicate InImage(rows: int, cols: int, i: int, j: int) {
    0 <= i < rows && 0 <= j < cols
  }

  /** Two planes of the same shape that agree at every sample are equal. */
  lemma GridExt(a: Grid, b: Grid, rows: int, cols: int)
    requires IsGrid(a, rows, cols) && IsGrid(b, rows, cols)
    requires forall i, j :: InImage(rows, cols, i, j) ==> a[i][j] == b[i][j]
    ensures a == b
  {
    forall i | 0 <= i < rows
      ensures a[i] == b[i]
    {
      assert forall j :: 0 <= j < cols ==> a[i][j] == b[i][j];
    }
  }

  /** The image record: magic number, comment line, dimensions, declared
      maximum and the three planes. `redgray` holds red, or gray once the
      image has been grayscaled. */
  datatype Image = Image(
    header: seq<Byte>,
    comment: seq<Byte>,
    rows: int,
    cols: int,
    max: int,
    redgray: Grid,
    green: Grid,
    blue: Grid)

  /** Every plane is allocated with the image's dimensions. */
  predicate Valid(img: Image) {
    && img.rows >= 0 && img.cols >= 0
    && IsGrid(img.redgray, img.rows, img.cols)
    && IsGrid(img.green, img.rows, img.cols)
    && IsGrid(img.blue, img.rows, img.cols)
  }

  /** Saturate an intermediate value to the sample range. */
  function Clamp(v: int): (r: int)
    ensures IsSample(r)
    ensures IsSample(v) ==> r == v
    ensures v < 0 ==> r == 0
    ensures v > 255 ==> r == 255
  {
    if v > 255 then 255 else if v < 0 then 0 else v
  }

  /** Multiplying by a non-negative factor keeps the order. */
  lemma MulMono(a: int, b: int, c: int)
    requires a <= b && c >= 0
    ensures a * c <= b * c
  {
  }

  /** Conversion of an int to an unsigned char: reduction modulo 256. */
  function Narrow(v: int): (r: int)
    ensures IsSample(r)
    ensures (r - v) % 256 == 0
    ensures IsSample(v) ==> r == v
  {
    v % 256
  }

  /** Plane of the given dimensions with every sample 0. */
  function ZeroGrid(rows: nat, cols: nat): (g: Grid)
    ensures IsGrid(g, rows, cols)
    ensures forall i, j :: 0 <= i < rows && 0 <= j < cols ==> g[i][j] == 0
  {
    seq(rows, i => seq(cols, j => 0))
  }

  /** Apply `f` to every sample of a plane. */
  function MapGrid(g: Grid, f: int -> int): (r: Grid)
    ensures |r| == |g|
    ensures forall i :: 0 <= i < |g| ==> |r[i]| == |g[i]|
    ensures forall i, j :: 0 <= i < |g| && 0 <= j < |g[i]| ==> r[i][j] == f(g[i][j])
  {
    seq(|g|, i requires 0 <= i < |g| => seq(|g[i]|, j requires 0 <= j < |g[i]| => f(g[i][j])))
  }
}
