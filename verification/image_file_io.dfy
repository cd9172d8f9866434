/** The Netpbm codec of prog1/imageFileIO.cpp: the header reader, the raw
    (P6) and plain (P3) payload readers, and the two writers. Files are
    byte sequences; a reader returns what it extracted and the rest of the
    input, and the writers return the name and the contents of the file
    they would create. */
module ImageFileIO {
  import opened NetPbm
  import opened StreamText

  /** Why a file is not turned into an image. */
  datatype Error =
    | InvalidMagicNumber   // the first token is neither P3 nor P6
    | MalformedHeader      // cols, rows or max is not a 32-bit decimal
    | AllocationError      // a negative dimension makes the plane allocation fail
    | ShortPayload         // a raw file ends before its last sample
    | MalformedPayload     // a plain file runs out of decimal samples

  datatype Result<T> = Ok(value: T) | Err(error: Error)

  /** The header fields the reader stores in the image record. */
  datatype Header = Header(magic: seq<Byte>, comment: seq<Byte>, cols: int, rows: int, max: int)

  /** The three planes of an image, red (or gray), green and blue. */
  datatype Planes = Planes(redgray: Grid, green: Grid, blue: Grid)

  /** A file the writers create: its name and its bytes. */
  datatype Output = Output(fileName: string, data: seq<Byte>)

  // -------------------------------------------------------------- layout

  /** Position, in a row-major stream of `w` samples per pixel, of sample
      `c` of pixel (i, j). */
  function Offset(w: int, cols: int, i: int, j: int, c: int): int {
    w * (i * cols + j) + c
  }

  lemma MulSucc(a: int, c: int)
    ensures (a + 1) * c == a * c + c
  {
  }

  lemma MulAssoc(a: int, b: int, c: int)
    ensures a * b * c == a * (b * c)
  {
  }

  lemma DivMod(k: int, d: int)
    requires d > 0
    ensures k == d * (k / d) + k % d && 0 <= k % d < d
  {
  }

  /** k = d·q + r with 0 <= r < d determines q and r. */
  lemma DivModUnique(k: int, d: int, q: int, r: int)
    requires d > 0 && 0 <= r < d && k == d * q + r
    ensures k / d == q && k % d == r
  {
    DivMod(k, d);
    var q' := k / d;
    if q < q' {
      MulSucc(q, d);
      MulMono(q + 1, q', d);
      assert false;
    } else if q' < q {
      MulSucc(q', d);
      MulMono(q' + 1, q, d);
      assert false;
    }
  }

  /** A quotient below a product: k < d·n gives k / d < n. */
  lemma QuotientBelow(k: int, d: int, n: int)
    requires d > 0 && 0 <= k < d * n
    ensures 0 <= k / d < n
  {
    DivMod(k, d);
    if k / d >= n {
      MulMono(n, k / d, d);
      assert false;
    }
  }

  /** Every sample of a rows-by-cols image has its position in the stream
      of w·rows·cols samples. */
  lemma OffsetInRange(w: int, rows: int, cols: int, i: int, j: int, c: int)
    requires InImage(rows, cols, i, j) && 0 <= c < w
    ensures 0 <= i * cols + j < rows * cols
    ensures 0 <= Offset(w, cols, i, j, c) < w * rows * cols
  {
    MulSucc(i, cols);
    MulMono(i + 1, rows, cols);
    var p := i * cols + j;
    assert 0 <= i * cols;
    MulSucc(p, w);
    MulMono(p + 1, rows * cols, w);
    MulAssoc(w, rows, cols);
    assert w * p == p * w;
    assert w * (rows * cols) == rows * cols * w;
  }

  /** Conversely, every position in the stream names one sample of one
      pixel. */
  lemma OffsetOfIndex(w: int, rows: int, cols: int, k: int)
    requires w > 0 && rows >= 0 && cols >= 0 && 0 <= k < w * rows * cols
    ensures cols > 0 && InImage(rows, cols, k / w / cols, k / w % cols) && 0 <= k % w < w
    ensures Offset(w, cols, k / w / cols, k / w % cols, k % w) == k
  {
    MulAssoc(w, rows, cols);
    QuotientBelow(k, w, rows * cols);
    assert cols > 0;
    var p := k / w;
    assert p < cols * rows;
    QuotientBelow(p, cols, rows);
    DivMod(k, w);
    DivMod(p, cols);
    assert p / cols * cols == cols * (p / cols);
  }

  /** Two samples at the same offset are the same sample. */
  lemma OffsetUnique(w: int, cols: int, i: int, j: int, c: int, i': int, j': int, c': int)
    requires w > 0 && cols > 0
    requires 0 <= j < cols && 0 <= c < w
    requires 0 <= j' < cols && 0 <= c' < w
    requires Offset(w, cols, i, j, c) == Offset(w, cols, i', j', c')
    ensures i == i' && j == j' && c == c'
  {
    var k := Offset(w, cols, i, j, c);
    DivModUnique(k, w, i * cols + j, c);
    DivModUnique(k, w, i' * cols + j', c');
    assert i * cols + j == i' * cols + j';
    DivModUnique(i * cols + j, cols, i, j);
    DivModUnique(i' * cols + j', cols, i', j');
  }

  /** The plane a sample index names: 0 red or gray, 1 green, 2 blue. */
  function Channel(p: Planes, c: int): Grid
    requires 0 <= c < 3
  {
    if c == 0 then p.redgray else if c == 1 then p.green else p.blue
  }

  function PlanesOf(img: Image): Planes {
    Planes(img.redgray, img.green, img.blue)
  }

  /** Samples per pixel: one for a gray file, three for a colour file. */
  function Width(gray: bool): (w: int)
    ensures w == 1 || w == 3
  {
    if gray then 1 else 3
  }

  /** The sample stream both writers produce: for each pixel in row-major
      order, its red (or gray) sample, then green and blue in colour. */
  function Samples(img: Image, w: int): (r: seq<int>)
    requires Valid(img) && (w == 1 || w == 3)
    ensures |r| == w * img.rows * img.cols
    ensures AllSamples(r)
  {
    seq(w * img.rows * img.cols, k requires 0 <= k < w * img.rows * img.cols =>
      SampleAt(img, w, k))
  }

  function SampleAt(img: Image, w: int, k: int): (v: int)
    requires Valid(img) && (w == 1 || w == 3) && 0 <= k < w * img.rows * img.cols
    ensures IsSample(v)
  {
    OffsetOfIndex(w, img.rows, img.cols, k);
    Channel(PlanesOf(img), k % w)[k / w / img.cols][k / w % img.cols]
  }

  /** The stream holds sample c of pixel (i, j) at its offset. */
  lemma SamplesAt(img: Image, w: int, i: int, j: int, c: int)
    requires Valid(img) && (w == 1 || w == 3)
    requires InImage(img.rows, img.cols, i, j) && 0 <= c < w
    ensures 0 <= Offset(w, img.cols, i, j, c) < |Samples(img, w)|
    ensures Samples(img, w)[Offset(w, img.cols, i, j, c)] == Channel(PlanesOf(img), c)[i][j]
  {
    var k := Offset(w, img.cols, i, j, c);
    OffsetInRange(w, img.rows, img.cols, i, j, c);
    OffsetOfIndex(w, img.rows, img.cols, k);
    OffsetUnique(w, img.cols, i, j, c, k / w / img.cols, k / w % img.cols, k % w);
  }

  /** The plane of channel c read out of a sample stream. */
  function PlaneFrom(vals: seq<int>, rows: int, cols: int, w: int, c: int): (g: Grid)
    requires rows >= 0 && cols >= 0 && 0 <= c < w && |vals| >= w * rows * cols
    ensures |g| == rows && forall i :: 0 <= i < rows ==> |g[i]| == cols
    ensures forall i, j :: InImage(rows, cols, i, j) ==> g[i][j] == ValueAt(vals, rows, cols, w, i, j, c)
  {
    seq(rows, i requires 0 <= i < rows =>
      seq(cols, j requires 0 <= j < cols => ValueAt(vals, rows, cols, w, i, j, c)))
  }

  function ValueAt(vals: seq<int>, rows: int, cols: int, w: int, i: int, j: int, c: int): (v: int)
    requires InImage(rows, cols, i, j) && 0 <= c < w && |vals| >= w * rows * cols
    ensures 0 <= Offset(w, cols, i, j, c) < |vals| && v == vals[Offset(w, cols, i, j, c)]
  {
    OffsetInRange(w, rows, cols, i, j, c);
    vals[Offset(w, cols, i, j, c)]
  }

  /** All three planes are allocated rows by cols and hold samples. */
  predicate PlanesShape(p: Planes, rows: int, cols: int) {
    IsGrid(p.redgray, rows, cols) && IsGrid(p.green, rows, cols) && IsGrid(p.blue, rows, cols)
  }

  predicate AllSamples(vals: seq<int>) {
    forall k :: 0 <= k < |vals| ==> IsSample(vals[k])
  }

  /** The three planes of a colour sample stream: sample 3k + c is
      channel c of pixel k, pixels in row-major order. */
  function SplitPlanes(vals: seq<int>, rows: int, cols: int): (p: Planes)
    requires rows >= 0 && cols >= 0 && |vals| >= 3 * rows * cols && AllSamples(vals)
    ensures PlanesShape(p, rows, cols)
    ensures forall i, j, c :: InImage(rows, cols, i, j) && 0 <= c < 3 ==>
      0 <= Offset(3, cols, i, j, c) < |vals| && Channel(p, c)[i][j] == vals[Offset(3, cols, i, j, c)]
  {
    Planes(PlaneFrom(vals, rows, cols, 3, 0), PlaneFrom(vals, rows, cols, 3, 1),
           PlaneFrom(vals, rows, cols, 3, 2))
  }

  /** Splitting the stream a writer produces gives back the image's planes. */
  lemma PlaneFromSamples(img: Image, w: int, c: int)
    requires Valid(img) && (w == 1 || w == 3) && 0 <= c < w
    ensures PlaneFrom(Samples(img, w), img.rows, img.cols, w, c) == Channel(PlanesOf(img), c)
  {
    var g := PlaneFrom(Samples(img, w), img.rows, img.cols, w, c);
    forall i, j | InImage(img.rows, img.cols, i, j)
      ensures g[i][j] == Channel(PlanesOf(img), c)[i][j]
    {
      SamplesAt(img, w, i, j, c);
    }
    GridExt(g, Channel(PlanesOf(img), c), img.rows, img.cols);
  }

  // -------------------------------------------------------------- reading

  /** The three header integers, in the order cols, rows, max, and the
      input after the one byte skipped behind max. */
  function ReadDims(s: seq<Byte>): (r: Option<(int, int, int, seq<Byte>)>)
    ensures r.Some? ==> IsInt32(r.value.0) && IsInt32(r.value.1) && IsInt32(r.value.2)
  {
    match ReadInt(s)
    case None => None
    case Some((cols, t1)) =>
      match ReadInt(t1)
      case None => None
      case Some((rows, t2)) =>
        match ReadInt(t2)
        case None => None
        case Some((max, t3)) => Some((cols, rows, max, Ignore(t3)))
  }

  /** The optional comment line: present only when the byte after the
      magic number's terminator is '#'; it keeps the '#' and loses the
      newline. */
  function ReadComment(s: seq<Byte>): (r: (seq<Byte>, seq<Byte>))
    ensures |r.0| > 0 <==> |s| > 0 && s[0] == '#'
    ensures |r.0| > 0 ==> r.0[0] == '#' && '\n' !in r.0
    ensures |r.0| == 0 ==> r.1 == s
  {
    if |s| > 0 && s[0] == '#' then
      GetLine(s)
    else ([], s)
  }

  /** `readHeaderInfo`: the magic number must be P3 or P6; one byte is
      skipped; an optional comment line follows; then cols, rows and max,
      and one more byte is skipped. */
  function ReadHeader(s: seq<Byte>): (r: Result<(Header, seq<Byte>)>)
    ensures r.Ok? <==> ReadToken(s).0 in {"P3", "P6"} && ReadDims(ReadComment(Ignore(ReadToken(s).1)).1).Some?
    ensures r.Err? && ReadToken(s).0 !in {"P3", "P6"} ==> r.error == InvalidMagicNumber
    ensures r.Err? && ReadToken(s).0 in {"P3", "P6"} ==> r.error == MalformedHeader
    ensures r.Ok? ==> r.value.0.magic == ReadToken(s).0
    ensures r.Ok? ==> CommentLine(r.value.0.comment)
    ensures r.Ok? ==> IsInt32(r.value.0.cols) && IsInt32(r.value.0.rows) && IsInt32(r.value.0.max)
  {
    var (magic, afterMagic) := ReadToken(s);
    if magic != "P3" && magic != "P6" then Err(InvalidMagicNumber)
    else
      var (comment, afterComment) := ReadComment(Ignore(afterMagic));
      match ReadDims(afterComment)
      case None => Err(MalformedHeader)
      case Some((cols, rows, max, payload)) => Ok((Header(magic, comment, cols, rows, max), payload))
  }

  /** A comment the reader can keep: empty, or a '#' line without its
      newline. */
  predicate CommentLine(comment: seq<Byte>) {
    |comment| == 0 || (comment[0] == '#' && '\n' !in comment)
  }

  /** The bytes of a raw payload as sample values. */
  function Values(s: seq<Byte>): (vals: seq<int>)
    ensures |vals| == |s| && AllSamples(vals)
    ensures forall k :: 0 <= k < |s| ==> vals[k] == s[k] as int
  {
    seq(|s|, k requires 0 <= k < |s| => s[k] as int)
  }

  /** Integers narrowed to bytes, as the `(pixel)` cast stores them. */
  function NarrowAll(ints: seq<int>): (vals: seq<int>)
    ensures |vals| == |ints| && AllSamples(vals)
    ensures forall k :: 0 <= k < |ints| ==> vals[k] == Narrow(ints[k])
  {
    seq(|ints|, k requires 0 <= k < |ints| => Narrow(ints[k]))
  }

  /** `readBinaryRGB`: 3·rows·cols bytes, bytes 3k, 3k+1 and 3k+2 being
      the red, green and blue of pixel k in row-major order. */
  function ReadBinaryRGB(s: seq<Byte>, rows: int, cols: int): (r: Result<Planes>)
    requires rows >= 0 && cols >= 0
    ensures r.Ok? <==> |s| >= 3 * rows * cols
    ensures r.Err? ==> r.error == ShortPayload
    ensures r.Ok? ==> PlanesShape(r.value, rows, cols)
    ensures r.Ok? ==> forall i, j, c :: InImage(rows, cols, i, j) && 0 <= c < 3 ==>
      0 <= Offset(3, cols, i, j, c) < |s| && Channel(r.value, c)[i][j] == s[Offset(3, cols, i, j, c)] as int
  {
    if |s| < 3 * rows * cols then Err(ShortPayload)
    else Ok(SplitPlanes(Values(s), rows, cols))
  }

  /** `readAsciiRGB`: 3·rows·cols decimal integers in the same order, each
      narrowed to a byte; a missing or malformed integer is an error. */
  function ReadAsciiRGB(s: seq<Byte>, rows: int, cols: int): (r: Result<Planes>)
    requires rows >= 0 && cols >= 0
    ensures r.Ok? <==> ReadInts(s, SampleCount(rows, cols)).Some?
    ensures r.Err? ==> r.error == MalformedPayload
    ensures r.Ok? ==> PlanesShape(r.value, rows, cols)
    ensures r.Ok? ==> forall i, j, c :: InImage(rows, cols, i, j) && 0 <= c < 3 ==>
      var ints := ReadInts(s, SampleCount(rows, cols)).value.0;
      0 <= Offset(3, cols, i, j, c) < |ints| && Channel(r.value, c)[i][j] == Narrow(ints[Offset(3, cols, i, j, c)])
  {
    match ReadInts(s, SampleCount(rows, cols))
    case None => Err(MalformedPayload)
    case Some((ints, _)) => Ok(SplitPlanes(NarrowAll(ints), rows, cols))
  }

  /** Number of samples of a colour image. */
  function SampleCount(rows: int, cols: int): (n: nat)
    requires rows >= 0 && cols >= 0
    ensures n == 3 * rows * cols
  {
    MulMono(0, rows, cols);
    3 * rows * cols
  }

  /** Reading a whole file as the program does: the header, the three
      plane allocations, then the payload reader the magic number picks. */
  function Decode(s: seq<Byte>): (r: Result<Image>)
    ensures r.Ok? ==> Valid(r.value) && r.value.header in {"P3", "P6"}
    ensures r.Ok? ==> CommentLine(r.value.comment)
    ensures ReadHeader(s).Err? ==> r == Err(ReadHeader(s).error)
    ensures ReadHeader(s).Ok? && (ReadHeader(s).value.0.rows < 0 || ReadHeader(s).value.0.cols < 0) ==>
      r == Err(AllocationError)
  {
    match ReadHeader(s)
    case Err(e) => Err(e)
    case Ok((h, payload)) =>
      if h.rows < 0 || h.cols < 0 then Err(AllocationError)
      else
        var planes := if h.magic == "P6" then ReadBinaryRGB(payload, h.rows, h.cols)
                      else ReadAsciiRGB(payload, h.rows, h.cols);
        match planes
        case Err(e) => Err(e)
        case Ok(p) =>
          Ok(Image(h.magic, h.comment, h.rows, h.cols, h.max, p.redgray, p.green, p.blue))
  }

  // -------------------------------------------------------------- writing

  /** The magic number a writer emits: P2/P3 for plain, P5/P6 for raw
      files, the smaller one for gray output. */
  function Tag(binary: bool, gray: bool): (t: seq<Byte>)
    ensures |t| == 2 && t[0] == 'P'
    ensures t in {"P2", "P3", "P5", "P6"}
  {
    if binary then (if gray then "P5" else "P6") else (if gray then "P2" else "P3")
  }

  /** Gray output is written as a .pgm file, colour output as .ppm. */
  function Extension(gray: bool): string {
    if gray then ".pgm" else ".ppm"
  }

  function CommentText(comment: seq<Byte>): (t: seq<Byte>)
    ensures |comment| == 0 ==> t == []
  {
    if |comment| > 0 then comment + ['\n'] else []
  }

  function DimsText(cols: int, rows: int, max: int): seq<Byte> {
    IntText(cols) + [' '] + IntText(rows) + ['\n'] + IntText(max) + ['\n']
  }

  /** The header both writers emit: the magic number, the comment line
      when there is one, `cols rows` on one line and `max` on the next. */
  function HeaderText(tag: seq<Byte>, img: Image): seq<Byte> {
    tag + ['\n'] + CommentText(img.comment) + DimsText(img.cols, img.rows, img.max)
  }

  /** Both headers start with the magic number on a line of its own. */
  lemma HeaderTextStarts(tag: seq<Byte>, img: Image)
    requires |tag| == 2
    ensures |HeaderText(tag, img)| > 2
    ensures HeaderText(tag, img)[..2] == tag && HeaderText(tag, img)[2] == '\n'
  {
    var rest := CommentText(img.comment) + DimsText(img.cols, img.rows, img.max);
    assert HeaderText(tag, img) == tag + ['\n'] + rest;
  }

  /** `writeAscii`: one decimal sample per line after the header. */
  function WriteAscii(img: Image, outname: string, gray: bool): (r: Output)
    requires Valid(img)
    ensures r.fileName == outname + Extension(gray)
    ensures |r.data| > 2 && r.data[..2] == Tag(false, gray) && r.data[2] == '\n'
  {
    var header := HeaderText(Tag(false, gray), img);
    HeaderTextStarts(Tag(false, gray), img);
    var data := header + Lines(Samples(img, Width(gray)));
    assert data[..3] == header[..3];
    Output(outname + Extension(gray), data)
  }

  /** `writeBinary`: one byte per sample after the header. */
  function WriteBinary(img: Image, outname: string, gray: bool): (r: Output)
    requires Valid(img)
    ensures r.fileName == outname + Extension(gray)
    ensures |r.data| > 2 && r.data[..2] == Tag(true, gray) && r.data[2] == '\n'
    ensures |r.data| == |HeaderText(Tag(true, gray), img)| + Width(gray) * img.rows * img.cols
  {
    var header := HeaderText(Tag(true, gray), img);
    HeaderTextStarts(Tag(true, gray), img);
    var data := header + Bytes(Samples(img, Width(gray)));
    assert data[..3] == header[..3];
    Output(outname + Extension(gray), data)
  }

  function ByteOf(v: int): (b: Byte)
    requires IsSample(v)
    ensures b as int == v
  {
    v as char
  }

  /** Samples written as single bytes. */
  function Bytes(vals: seq<int>): (r: seq<Byte>)
    requires AllSamples(vals)
    ensures |r| == |vals|
    ensures forall k :: 0 <= k < |vals| ==> r[k] as int == vals[k]
  {
    seq(|vals|, k requires 0 <= k < |vals| => ByteOf(vals[k]))
  }

  // ---------------------------------------------------------- round trips

  /** Three successful extractions make up the header integers. */
  lemma ReadDimsSteps(s: seq<Byte>, t1: seq<Byte>, t2: seq<Byte>, t3: seq<Byte>, cols: int, rows: int, max: int)
    requires ReadInt(s) == Some((cols, t1)) && ReadInt(t1) == Some((rows, t2)) && ReadInt(t2) == Some((max, t3))
    ensures ReadDims(s) == Some((cols, rows, max, Ignore(t3)))
  {
  }

  /** An int written after one white-space byte reads back. */
  lemma ReadIntAfterByte(c: Byte, v: int, rest: seq<Byte>)
    requires IsSpace(c) && IsInt32(v)
    requires |rest| == 0 || !IsDigit(rest[0])
    ensures ReadInt([c] + (IntText(v) + rest)) == Some((v, rest))
  {
    ReadIntAfterSpace([c], IntText(v) + rest);
    ReadIntOfText(v, rest);
  }

  lemma DimsTextSplit(cols: int, rows: int, max: int, payload: seq<Byte>)
    ensures DimsText(cols, rows, max) + payload
      == IntText(cols) + ([' '] + (IntText(rows) + (['\n'] + (IntText(max) + (['\n'] + payload)))))
  {
  }

  /** The three header integers as the writers print them read back, and
      the one byte skipped after max is the newline that ends their line. */
  lemma ReadDimsOfText(cols: int, rows: int, max: int, payload: seq<Byte>)
    requires IsInt32(cols) && IsInt32(rows) && IsInt32(max)
    ensures ReadDims(DimsText(cols, rows, max) + payload) == Some((cols, rows, max, payload))
  {
    ReadColsOfText(cols, rows, max, payload);
    ReadIntAfterByte(' ', rows, ['\n'] + (IntText(max) + (['\n'] + payload)));
    ReadIntAfterByte('\n', max, ['\n'] + payload);
    ReadDimsSteps(DimsText(cols, rows, max) + payload,
      [' '] + (IntText(rows) + (['\n'] + (IntText(max) + (['\n'] + payload)))),
      ['\n'] + (IntText(max) + (['\n'] + payload)),
      ['\n'] + payload, cols, rows, max);
  }

  lemma ReadColsOfText(cols: int, rows: int, max: int, payload: seq<Byte>)
    requires IsInt32(cols)
    ensures ReadInt(DimsText(cols, rows, max) + payload)
      == Some((cols, [' '] + (IntText(rows) + (['\n'] + (IntText(max) + (['\n'] + payload))))))
  {
    DimsTextSplit(cols, rows, max, payload);
    ReadIntOfText(cols, [' '] + (IntText(rows) + (['\n'] + (IntText(max) + (['\n'] + payload)))));
  }

  /** The comment line as the writers print it reads back as it was. */
  lemma ReadCommentOfText(comment: seq<Byte>, dims: seq<Byte>)
    requires CommentLine(comment)
    requires |dims| > 0 && dims[0] != '#'
    ensures ReadComment(CommentText(comment) + dims) == (comment, dims)
  {
    if |comment| > 0 {
      GetLineOfText(comment, dims);
      assert (CommentText(comment) + dims)[0] == '#';
    } else {
      assert CommentText(comment) + dims == dims;
    }
  }

  /** A header is read in three steps: the magic token, the comment
      line after the skipped byte, and the header integers. */
  lemma ReadHeaderSteps(s: seq<Byte>, magic: seq<Byte>, t1: seq<Byte>, comment: seq<Byte>, t2: seq<Byte>,
                        cols: int, rows: int, max: int, payload: seq<Byte>)
    requires magic == "P3" || magic == "P6"
    requires ReadToken(s) == (magic, t1)
    requires ReadComment(Ignore(t1)) == (comment, t2)
    requires ReadDims(t2) == Some((cols, rows, max, payload))
    ensures ReadHeader(s) == Ok((Header(magic, comment, cols, rows, max), payload))
  {
  }

  /** The magic number line the writers print is read as one token. */
  lemma ReadMagicOfText(tag: seq<Byte>, rest: seq<Byte>)
    requires tag == "P2" || tag == "P3" || tag == "P5" || tag == "P6"
    ensures ReadToken(tag + (['\n'] + rest)) == (tag, ['\n'] + rest)
  {
    assert [] + tag + (['\n'] + rest) == tag + (['\n'] + rest);
    ReadTokenOfText([], tag, ['\n'] + rest);
  }

  /** A header the writers print for a P3 or P6 file reads back field by
      field, and the payload starts right after it. */
  lemma ReadHeaderOfText(tag: seq<Byte>, img: Image, payload: seq<Byte>)
    requires tag == "P3" || tag == "P6"
    requires CommentLine(img.comment)
    requires IsInt32(img.cols) && IsInt32(img.rows) && IsInt32(img.max)
    ensures ReadHeader(HeaderText(tag, img) + payload)
      == Ok((Header(tag, img.comment, img.cols, img.rows, img.max), payload))
  {
    var dims := DimsText(img.cols, img.rows, img.max) + payload;
    var rest := CommentText(img.comment) + dims;
    HeaderTextSplit(tag, img, payload);
    ReadMagicOfText(tag, rest);
    ReadCommentAfterMagic(img, payload);
    ReadDimsOfText(img.cols, img.rows, img.max, payload);
    ReadHeaderSteps(HeaderText(tag, img) + payload, tag, ['\n'] + rest, img.comment, dims,
      img.cols, img.rows, img.max, payload);
  }

  lemma HeaderTextSplit(tag: seq<Byte>, img: Image, payload: seq<Byte>)
    ensures HeaderText(tag, img) + payload
      == tag + (['\n'] + (CommentText(img.comment) + (DimsText(img.cols, img.rows, img.max) + payload)))
  {
  }

  lemma ReadCommentAfterMagic(img: Image, payload: seq<Byte>)
    requires CommentLine(img.comment)
    ensures ReadComment(Ignore(['\n'] + (CommentText(img.comment) + (DimsText(img.cols, img.rows, img.max) + payload))))
      == (img.comment, DimsText(img.cols, img.rows, img.max) + payload)
  {
    var dims := DimsText(img.cols, img.rows, img.max) + payload;
    IntTextStart(img.cols);
    assert dims[0] == IntText(img.cols)[0];
    ReadCommentOfText(img.comment, dims);
  }

  /** Writing the planes of an image out as a colour sample stream and
      splitting it again gives the planes back. */
  lemma SplitSamples(img: Image)
    requires Valid(img)
    ensures SplitPlanes(Samples(img, 3), img.rows, img.cols) == PlanesOf(img)
  {
    PlaneFromSamples(img, 3, 0);
    PlaneFromSamples(img, 3, 1);
    PlaneFromSamples(img, 3, 2);
  }

  /** Conditions under which the reader can recover what a writer wrote:
      the comment is one the reader recognises, and the header integers fit
      in an int. */
  predicate Writable(img: Image) {
    Valid(img) && CommentLine(img.comment)
    && IsInt32(img.cols) && IsInt32(img.rows) && IsInt32(img.max)
  }

  /** Decoding is the header, the allocation check and the payload reader
      the magic number picks. */
  lemma DecodeSteps(s: seq<Byte>, h: Header, payload: seq<Byte>, p: Planes)
    requires ReadHeader(s) == Ok((h, payload)) && h.rows >= 0 && h.cols >= 0
    requires h.magic == "P6" ==> ReadBinaryRGB(payload, h.rows, h.cols) == Ok(p)
    requires h.magic != "P6" ==> ReadAsciiRGB(payload, h.rows, h.cols) == Ok(p)
    ensures Decode(s) == Ok(Image(h.magic, h.comment, h.rows, h.cols, h.max, p.redgray, p.green, p.blue))
  {
  }

  /** The raw payload of a colour image reads back as its planes. */
  lemma ReadBinaryOfBytes(img: Image)
    requires Valid(img)
    ensures ReadBinaryRGB(Bytes(Samples(img, 3)), img.rows, img.cols) == Ok(PlanesOf(img))
  {
    assert Values(Bytes(Samples(img, 3))) == Samples(img, 3);
    SplitSamples(img);
  }

  /** The plain payload of a colour image reads back as its planes. */
  lemma ReadAsciiOfLines(img: Image)
    requires Valid(img)
    ensures ReadAsciiRGB(Lines(Samples(img, 3)), img.rows, img.cols) == Ok(PlanesOf(img))
  {
    var samples := Samples(img, 3);
    assert ReadInts(Lines(samples), |samples|).Some? && ReadInts(Lines(samples), |samples|).value.0 == samples by {
      assert Lines(samples) + [] == Lines(samples);
      ReadIntsOfLines(samples, []);
    }
    assert NarrowAll(samples) == samples;
    SplitSamples(img);
  }

  /** A colour image written in binary reads back unchanged, tagged P6. */
  lemma WriteBinaryReadBack(img: Image, outname: string)
    requires Writable(img)
    ensures Decode(WriteBinary(img, outname, false).data) == Ok(img.(header := "P6"))
  {
    var payload := Bytes(Samples(img, 3));
    ReadHeaderOfText("P6", img, payload);
    ReadBinaryOfBytes(img);
    DecodeSteps(HeaderText("P6", img) + payload, Header("P6", img.comment, img.cols, img.rows, img.max),
      payload, PlanesOf(img));
  }

  /** A colour image written in ASCII reads back unchanged, tagged P3. */
  lemma WriteAsciiReadBack(img: Image, outname: string)
    requires Writable(img)
    ensures Decode(WriteAscii(img, outname, false).data) == Ok(img.(header := "P3"))
  {
    var payload := Lines(Samples(img, 3));
    ReadHeaderOfText("P3", img, payload);
    ReadAsciiOfLines(img);
    DecodeSteps(HeaderText("P3", img) + payload, Header("P3", img.comment, img.cols, img.rows, img.max),
      payload, PlanesOf(img));
  }

  /** A file whose first token is a gray magic number is rejected. */
  lemma GrayTagRejected(tag: seq<Byte>, rest: seq<Byte>)
    requires tag == "P2" || tag == "P5"
    ensures Decode(tag + (['\n'] + rest)) == Err(InvalidMagicNumber)
  {
    ReadMagicOfText(tag, rest);
  }

  /** The gray files the writers produce (P2 and P5) are not accepted by
      the reader. */
  lemma GrayOutputRejected(img: Image, outname: string)
    requires Valid(img)
    ensures Decode(WriteBinary(img, outname, true).data) == Err(InvalidMagicNumber)
    ensures Decode(WriteAscii(img, outname, true).data) == Err(InvalidMagicNumber)
  {
    GrayPayloadRejected(img, "P5", Bytes(Samples(img, 1)));
    GrayPayloadRejected(img, "P2", Lines(Samples(img, 1)));
  }

  lemma GrayPayloadRejected(img: Image, tag: seq<Byte>, payload: seq<Byte>)
    requires tag == "P2" || tag == "P5"
    ensures Decode(HeaderText(tag, img) + payload) == Err(InvalidMagicNumber)
  {
    HeaderTextSplit(tag, img, payload);
    GrayTagRejected(tag, CommentText(img.comment) + (DimsText(img.cols, img.rows, img.max) + payload));
  }

  // ----------------------------------------------------- written payloads

  /** A byte after a prefix h sits at h's length plus its index. */
  lemma BytesAfter(h: seq<Byte>, vals: seq<int>, k: int)
    requires AllSamples(vals) && 0 <= k < |vals|
    ensures 0 <= |h| + k < |h + Bytes(vals)| && (h + Bytes(vals))[|h| + k] as int == vals[k]
  {
  }

  /** `writeBinary` emits the header and then one byte per sample: the
      byte at the header's length plus a sample's offset is that sample. */
  lemma WriteBinaryPayload(img: Image, outname: string, gray: bool)
    requires Valid(img)
    ensures WriteBinary(img, outname, gray).data == HeaderText(Tag(true, gray), img) + Bytes(Samples(img, Width(gray)))
    ensures forall i, j, c :: InImage(img.rows, img.cols, i, j) && 0 <= c < Width(gray) ==>
      var at := |HeaderText(Tag(true, gray), img)| + Offset(Width(gray), img.cols, i, j, c);
      0 <= at < |WriteBinary(img, outname, gray).data|
      && WriteBinary(img, outname, gray).data[at] as int == Channel(PlanesOf(img), c)[i][j]
  {
    var w := Width(gray);
    var h := HeaderText(Tag(true, gray), img);
    var samples := Samples(img, w);
    var data := WriteBinary(img, outname, gray).data;
    assert data == h + Bytes(samples);
    forall i, j, c | InImage(img.rows, img.cols, i, j) && 0 <= c < w
      ensures 0 <= |h| + Offset(w, img.cols, i, j, c) < |data|
      ensures data[|h| + Offset(w, img.cols, i, j, c)] as int == Channel(PlanesOf(img), c)[i][j]
    {
      SampleByteAfter(h, img, w, i, j, c);
    }
  }

  /** The byte of sample c of pixel (i, j) in a payload written after h. */
  lemma SampleByteAfter(h: seq<Byte>, img: Image, w: int, i: int, j: int, c: int)
    requires Valid(img) && (w == 1 || w == 3)
    requires InImage(img.rows, img.cols, i, j) && 0 <= c < w
    ensures 0 <= |h| + Offset(w, img.cols, i, j, c) < |h + Bytes(Samples(img, w))|
    ensures (h + Bytes(Samples(img, w)))[|h| + Offset(w, img.cols, i, j, c)] as int == Channel(PlanesOf(img), c)[i][j]
  {
    SamplesAt(img, w, i, j, c);
    BytesAfter(h, Samples(img, w), Offset(w, img.cols, i, j, c));
  }

  /** `writeAscii` emits the header and then one integer per line: reading
      as many integers as there are samples after the header gives the
      sample stream back, sample c of pixel (i, j) at its offset. */
  lemma WriteAsciiPayload(img: Image, outname: string, gray: bool)
    requires Valid(img)
    ensures WriteAscii(img, outname, gray).data == HeaderText(Tag(false, gray), img) + Lines(Samples(img, Width(gray)))
    ensures var h := |HeaderText(Tag(false, gray), img)|;
      var data := WriteAscii(img, outname, gray).data;
      var n := Width(gray) * img.rows * img.cols;
      h <= |data| && ReadInts(data[h..], n).Some? && ReadInts(data[h..], n).value.0 == Samples(img, Width(gray))
    ensures forall i, j, c :: InImage(img.rows, img.cols, i, j) && 0 <= c < Width(gray) ==>
      0 <= Offset(Width(gray), img.cols, i, j, c) < |Samples(img, Width(gray))|
      && Samples(img, Width(gray))[Offset(Width(gray), img.cols, i, j, c)] == Channel(PlanesOf(img), c)[i][j]
  {
    var w := Width(gray);
    var h := HeaderText(Tag(false, gray), img);
    var samples := Samples(img, w);
    var data := WriteAscii(img, outname, gray).data;
    assert data[|h|..] == Lines(samples);
    assert ReadInts(Lines(samples), |samples|).Some? && ReadInts(Lines(samples), |samples|).value.0 == samples by {
      assert Lines(samples) + [] == Lines(samples);
      ReadIntsOfLines(samples, []);
    }
    forall i, j, c | InImage(img.rows, img.cols, i, j) && 0 <= c < w
      ensures 0 <= Offset(w, img.cols, i, j, c) < |samples|
      ensures samples[Offset(w, img.cols, i, j, c)] == Channel(PlanesOf(img), c)[i][j]
    {
      SamplesAt(img, w, i, j, c);
    }
  }

  /** The gray stream holds the gray sample of pixel (i, j) at i·cols + j. */
  lemma GraySamplesAt(img: Image, i: int, j: int)
    requires Valid(img) && InImage(img.rows, img.cols, i, j)
    ensures |Samples(img, 1)| == img.rows * img.cols
    ensures 0 <= i * img.cols + j < |Samples(img, 1)| && Samples(img, 1)[i * img.cols + j] == img.redgray[i][j]
  {
    SamplesAt(img, 1, i, j, 0);
  }

  /** In gray mode `writeBinary` writes the P5 header and then the gray
      plane, one byte per pixel in row-major order. */
  lemma WriteBinaryGray(img: Image, outname: string)
    requires Valid(img)
    ensures WriteBinary(img, outname, true).data == HeaderText("P5", img) + Bytes(Samples(img, 1))
    ensures forall i, j :: InImage(img.rows, img.cols, i, j) ==>
      0 <= |HeaderText("P5", img)| + i * img.cols + j < |WriteBinary(img, outname, true).data|
      && WriteBinary(img, outname, true).data[|HeaderText("P5", img)| + i * img.cols + j] as int == img.redgray[i][j]
  {
    var h := HeaderText("P5", img);
    var data := WriteBinary(img, outname, true).data;
    assert data == h + Bytes(Samples(img, 1)) by {
      assert Tag(true, true) == "P5" && Width(true) == 1;
    }
    forall i, j | InImage(img.rows, img.cols, i, j)
      ensures 0 <= |h| + i * img.cols + j < |data| && data[|h| + i * img.cols + j] as int == img.redgray[i][j]
    {
      GrayByteAfter(h, img, i, j);
    }
  }

  /** The byte of pixel (i, j) in a gray payload written after h. */
  lemma GrayByteAfter(h: seq<Byte>, img: Image, i: int, j: int)
    requires Valid(img) && InImage(img.rows, img.cols, i, j)
    ensures 0 <= |h| + i * img.cols + j < |h + Bytes(Samples(img, 1))|
    ensures (h + Bytes(Samples(img, 1)))[|h| + i * img.cols + j] as int == img.redgray[i][j]
  {
    GraySamplesAt(img, i, j);
    BytesAfter(h, Samples(img, 1), i * img.cols + j);
  }

  /** In gray mode `writeAscii` writes the P2 header and then the gray
      plane, one integer per line in row-major order: the integers read
      after the header are the gray samples. */
  lemma WriteAsciiGray(img: Image, outname: string)
    requires Valid(img)
    ensures WriteAscii(img, outname, true).data == HeaderText("P2", img) + Lines(Samples(img, 1))
    ensures var h := |HeaderText("P2", img)|;
      var data := WriteAscii(img, outname, true).data;
      h <= |data| && ReadInts(data[h..], img.rows * img.cols).Some?
      && ReadInts(data[h..], img.rows * img.cols).value.0 == Samples(img, 1)
    ensures forall i, j :: InImage(img.rows, img.cols, i, j) ==>
      0 <= i * img.cols + j < |Samples(img, 1)| && Samples(img, 1)[i * img.cols + j] == img.redgray[i][j]
  {
    var h := HeaderText("P2", img);
    var samples := Samples(img, 1);
    var data := WriteAscii(img, outname, true).data;
    assert data == h + Lines(samples);
    assert data[|h|..] == Lines(samples);
    assert |samples| == img.rows * img.cols;
    assert ReadInts(Lines(samples), |samples|).Some? && ReadInts(Lines(samples), |samples|).value.0 == samples by {
      assert Lines(samples) + [] == Lines(samples);
      ReadIntsOfLines(samples, []);
    }
    forall i, j | InImage(img.rows, img.cols, i, j)
      ensures 0 <= i * img.cols + j < |samples| && samples[i * img.cols + j] == img.redgray[i][j]
    {
      GraySamplesAt(img, i, j);
    }
  }

  // ----------------------------------------------------- read then write

  /** The sample stream of an image whose planes were split out of a
      colour stream is that stream's first 3·rows·cols values. */
  lemma SamplesOfSplit(vals: seq<int>, img: Image)
    requires img.rows >= 0 && img.cols >= 0 && |vals| >= 3 * img.rows * img.cols && AllSamples(vals)
    requires PlanesOf(img) == SplitPlanes(vals, img.rows, img.cols)
    ensures Valid(img)
    ensures Samples(img, 3) == vals[..3 * img.rows * img.cols]
  {
    var n := 3 * img.rows * img.cols;
    assert Valid(img);
    forall k | 0 <= k < n
      ensures Samples(img, 3)[k] == vals[k]
    {
      OffsetOfIndex(3, img.rows, img.cols, k);
      SamplesAt(img, 3, k / 3 / img.cols, k / 3 % img.cols, k % 3);
    }
  }

  /** Writing back in binary the planes `readBinaryRGB` decoded gives the
      bytes it consumed: the reader loses nothing. */
  lemma ReadBinaryRewrites(s: seq<Byte>, rows: int, cols: int, comment: seq<Byte>, max: int)
    requires rows >= 0 && cols >= 0 && ReadBinaryRGB(s, rows, cols).Ok?
    ensures var p := ReadBinaryRGB(s, rows, cols).value;
      var img := Image("P6", comment, rows, cols, max, p.redgray, p.green, p.blue);
      Valid(img) && Bytes(Samples(img, 3)) == s[..3 * rows * cols]
  {
    var p := ReadBinaryRGB(s, rows, cols).value;
    var img := Image("P6", comment, rows, cols, max, p.redgray, p.green, p.blue);
    SamplesOfSplit(Values(s), img);
    assert Bytes(Samples(img, 3)) == s[..3 * rows * cols];
  }

  /** Writing back in ASCII the planes `readAsciiRGB` decoded gives the
      integers it read, each narrowed to a byte; integers that were
      already samples come back unchanged. */
  lemma ReadAsciiRewrites(s: seq<Byte>, rows: int, cols: int, comment: seq<Byte>, max: int)
    requires rows >= 0 && cols >= 0 && ReadAsciiRGB(s, rows, cols).Ok?
    ensures var p := ReadAsciiRGB(s, rows, cols).value;
      var img := Image("P3", comment, rows, cols, max, p.redgray, p.green, p.blue);
      var ints := ReadInts(s, SampleCount(rows, cols)).value.0;
      Valid(img) && Samples(img, 3) == NarrowAll(ints) && (AllSamples(ints) ==> Samples(img, 3) == ints)
  {
    var p := ReadAsciiRGB(s, rows, cols).value;
    var img := Image("P3", comment, rows, cols, max, p.redgray, p.green, p.blue);
    var ints := ReadInts(s, SampleCount(rows, cols)).value.0;
    SamplesOfSplit(NarrowAll(ints), img);
    assert NarrowAll(ints)[..3 * rows * cols] == NarrowAll(ints);
    if AllSamples(ints) {
      assert NarrowAll(ints) == ints;
    }
  }

  /** A P6 file that decodes is written back, colour and binary, as the
      canonical header followed by exactly the payload bytes it was
      decoded from. */
  lemma DecodeThenWriteBinary(s: seq<Byte>, outname: string)
    requires Decode(s).Ok? && Decode(s).value.header == "P6"
    ensures ReadHeader(s).Ok?
    ensures var img := Decode(s).value;
      var payload := ReadHeader(s).value.1;
      |payload| >= 3 * img.rows * img.cols
      && WriteBinary(img, outname, false).data == HeaderText("P6", img) + payload[..3 * img.rows * img.cols]
  {
    var img := Decode(s).value;
    var h := ReadHeader(s).value.0;
    var payload := ReadHeader(s).value.1;
    assert h.magic == "P6" && h.rows >= 0 && h.cols >= 0;
    assert ReadBinaryRGB(payload, h.rows, h.cols).Ok?;
    var p := ReadBinaryRGB(payload, h.rows, h.cols).value;
    assert img == Image("P6", h.comment, h.rows, h.cols, h.max, p.redgray, p.green, p.blue);
    ReadBinaryRewrites(payload, h.rows, h.cols, h.comment, h.max);
  }

  /** A P3 file that decodes is written back, colour and plain, as the
      canonical header followed by the integers it held, each narrowed to
      a byte, one per line. */
  lemma DecodeThenWriteAscii(s: seq<Byte>, outname: string)
    requires Decode(s).Ok? && Decode(s).value.header == "P3"
    ensures ReadHeader(s).Ok?
    ensures var img := Decode(s).value;
      var payload := ReadHeader(s).value.1;
      ReadInts(payload, 3 * img.rows * img.cols).Some?
      && WriteAscii(img, outname, false).data
         == HeaderText("P3", img) + Lines(NarrowAll(ReadInts(payload, 3 * img.rows * img.cols).value.0))
  {
    var img := Decode(s).value;
    var h := ReadHeader(s).value.0;
    var payload := ReadHeader(s).value.1;
    assert h.magic == "P3" && h.rows >= 0 && h.cols >= 0;
    assert ReadAsciiRGB(payload, h.rows, h.cols).Ok?;
    var p := ReadAsciiRGB(payload, h.rows, h.cols).value;
    assert img == Image("P3", h.comment, h.rows, h.cols, h.max, p.redgray, p.green, p.blue);
    ReadAsciiRewrites(payload, h.rows, h.cols, h.comment, h.max);
  }
}
