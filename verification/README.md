# Netpbm image tool and folder report, modelled in Dafny

This project models the computational core of two small C++ programs.

- **prog1**, an image tool. It reads a colour Netpbm image, either
  plain text (`P3`) or raw bytes (`P6`). It can transform the image by
  negation, grayscale, brightening, contrast stretching, sharpening or
  smoothing, and then writes the image out as plain or raw, in colour
  (`P3`/`P6`, `.ppm`) or gray (`P2`/`P5`, `.pgm`).
- **prog3**, a folder report. It walks a source tree and lists selected
  files into two XML reports, one for folders under git control and one
  for the others.

The model is functional. An image is an immutable record with three
`seq<seq<int>>` planes of samples in 0..255. Each transform returns a new
image instead of overwriting the planes in place. A file is a sequence of
bytes (`char` below 256). Stream extraction (`>>`, `ignore`, `peek`,
`getline`) is modelled as functions that return what they read together
with the rest of the input. The writers return the name and the bytes of
the file they would create.

Modules, one per file:

- `NetPbm` (`netpbm.dfy`): bytes, samples, planes, the image record,
  clamping and the narrowing to a byte.
- `ImageOperations` (`image_operations.dfy`): the transforms of
  `prog1/imageOperations.cpp`.
- `StreamText` (`stream_text.dfy`): the parts of C++ formatted stream input
  and output the codec relies on.
- `ImageFileIO` (`image_file_io.dfy`): the header reader, the payload
  readers and the writers of `prog1/imageFileIO.cpp`, plus the decode
  sequence of `prog1/prog1.cpp`.
- `FolderReport` (`folder_report.dfy`): `isValidFolder` and `outputFiles`
  of `prog3/prog3.cpp`.

Integer formulas replace the floating-point ones:
- smooth: `sum / 9.0 + 0.5` is never an integer, so its floor is
  `(2·sum + 9) / 18`;
- contrast gain: `floor(255.0 / d + 0.5)` is `(510 + d) / (2·d)`;
- grayscale: see "Left out".

## Model

| member | source | states |
|---|---|---|
| NetPbm.Clamp | prog1/imageOperations.cpp:76-81 | the result is a sample: the value itself inside 0..255, 0 below, 255 above |
| NetPbm.Narrow | prog1/imageOperations.cpp:155 | storing an int into an unsigned char gives the sample congruent to it modulo 256, and keeps values already in range |
| NetPbm.ZeroGrid | prog1/imageOperations.cpp:187-195 | the scratch plane has the image's shape and every sample 0 |
| NetPbm.MapGrid | prog1/imageOperations.cpp:23-29 | applying a per-sample map keeps the shape and maps every sample |
| ImageOperations.MapPlanes | prog1/imageOperations.cpp:23-29 | a per-sample map applied to all three planes keeps the header and the shape, and maps every sample of every plane |
| ImageOperations.Negate | prog1/imageOperations.cpp:20-30 | each sample of all three planes becomes 255 - v; header and dimensions are unchanged |
| ImageOperations.NegateInvolution | prog1/imageOperations.cpp:23-29 | negating twice restores the image |
| ImageOperations.Grayscale | prog1/imageOperations.cpp:44-53 | only the red/gray plane changes, to the truncation of (3R + 6G + B) / 10; green and blue are unchanged |
| ImageOperations.GrayscaleBetweenChannels | prog1/imageOperations.cpp:50-51 | a pixel's gray value lies between its darkest and its brightest channel |
| ImageOperations.BrightenSample | prog1/imageOperations.cpp:76-81 | the three-way branch (saturate above, saturate below, otherwise add the offset as a byte) equals clamp(v + value) |
| ImageOperations.Brighten | prog1/imageOperations.cpp:69-97 | every sample of every plane becomes clamp(v + value), for positive or negative value, each channel on its own |
| ImageOperations.BrightenSaturates | prog1/imageOperations.cpp:76-79 | an offset of at least 255 makes every sample 255; one of at most -255 makes every sample 0 |
| ImageOperations.BrightenCompose | prog1/imageOperations.cpp:72-96 | two brightenings in the same direction equal one by their sum |
| ImageOperations.SeqMin | prog1/imageOperations.cpp:121-122 | the result is at most every element |
| ImageOperations.SeqMax | prog1/imageOperations.cpp:123-124 | the result is at least every element |
| ImageOperations.GridMin | prog1/imageOperations.cpp:116-125 | the result is at most every sample of the plane |
| ImageOperations.GridMax | prog1/imageOperations.cpp:116-125 | the result is at least every sample of the plane |
| ImageOperations.SeqMinOccurs | prog1/imageOperations.cpp:121-122 | the least element occurs in the sequence |
| ImageOperations.SeqMaxOccurs | prog1/imageOperations.cpp:123-124 | the greatest element occurs in the sequence |
| ImageOperations.GridMinOccurs | prog1/imageOperations.cpp:116-125 | the least sample occurs in the plane |
| ImageOperations.GridMaxOccurs | prog1/imageOperations.cpp:116-125 | the greatest sample occurs in the plane |
| ImageOperations.GetMinAndMax | prog1/imageOperations.cpp:113-126 | for an image of at least 1 x 1, min <= every red/gray sample <= max, and both values occur in the plane |
| ImageOperations.ContrastScale | prog1/imageOperations.cpp:149-150 | the gain is non-negative, at least 1 for a gray range of at most 255, and 0 for a range above 510 |
| ImageOperations.ContrastScaleRounds | prog1/imageOperations.cpp:149-150 | the gain times the range is the multiple of the range nearest to 255, ties going up: the gain is 255 / range rounded half up |
| ImageOperations.StretchPlane | prog1/imageOperations.cpp:152-156 | every sample becomes (scale · (v - min)) stored into a byte |
| ImageOperations.Contrast | prog1/imageOperations.cpp:140-157 | the gray plane of the grayscaled image is stretched by the rounded gain above its least sample, wrapping modulo 256 with no clamp; green, blue and the header are unchanged |
| ImageOperations.StretchWithoutWrap | prog1/imageOperations.cpp:155 | the darkest gray becomes 0, and a sample becomes exactly scale · (v - min) when the stretched range fits in a byte |
| ImageOperations.ContrastWrapsAround | prog1/imageOperations.cpp:149-155 | for grays 50..150 the gain is 3, gray 80 becomes 90, and gray 150 wraps from 300 to 44 |
| ImageOperations.StretchPlaneSaturated | prog1/imageOperations.cpp:152-156 | every sample becomes clamp(scale · (v - min)) |
| ImageOperations.ContrastSaturated | prog1/imageOperations.cpp:140-157 | contrast with the products saturated: the same stretch of the gray plane, clamped instead of wrapped |
| ImageOperations.StretchSaturatedMonotone | prog1/imageOperations.cpp:149-155 | the saturated stretch keeps the order of gray levels, maps the least to 0, and for a range of at most 255 maps the greatest to at least 255 - range / 2 |
| ImageOperations.SharpenAt | prog1/imageOperations.cpp:202-230 | an interior sample becomes clamp(5v - left - right - up - down); a flat neighbourhood keeps its value |
| ImageOperations.NeighbourSum | prog1/imageOperations.cpp:284-297 | the sum of the eight neighbours lies in 0..2040 |
| ImageOperations.SmoothAt | prog1/imageOperations.cpp:284-308 | the result is the eight-neighbour sum over 9 rounded half up, and never exceeds 227, so storing it never wraps |
| ImageOperations.SmoothDarkensUniform | prog1/imageOperations.cpp:284-304 | a flat neighbourhood of value v >= 5 comes out darker than v, and a white one comes out as 227 |
| ImageOperations.BoxAverageAt | prog1/imageOperations.cpp:284-304 | the nine-sample window mean rounded half up is a sample |
| ImageOperations.BoxAverageWithinWindow | prog1/imageOperations.cpp:284-304 | the window mean lies between the darkest and the brightest sample of the window |
| ImageOperations.KernelAt | prog1/imageOperations.cpp:197-232 | every stencil yields a sample |
| ImageOperations.FilterPlane | prog1/imageOperations.cpp:187-232 | the scratch plane is 0 on the border, and every interior sample is the stencil applied to the unchanged input plane |
| ImageOperations.Filter | prog1/imageOperations.cpp:180-246 | all three planes are filtered into fresh planes and the header is unchanged |
| ImageOperations.Sharpen | prog1/imageOperations.cpp:175-247 | border samples of all planes become 0, interior samples the saturated five-point sharpen of the pre-call planes, and an image under 3 x 3 becomes all 0 |
| ImageOperations.Smooth | prog1/imageOperations.cpp:262-323 | border samples become 0, interior samples the rounded eight-neighbour sum over 9 of the pre-call planes, no sample exceeds 227, and an image under 3 x 3 becomes all 0 |
| ImageOperations.SmoothBox | prog1/imageOperations.cpp:262-323 | smoothing with the centre counted: border 0, interior the rounded mean of the 3 x 3 window |
| StreamText.SkipSpace | prog1/imageFileIO.cpp:37 | what is left of the input does not start with white space |
| StreamText.SkipSpaceSuffix | prog1/imageFileIO.cpp:37 | what is skipped is a run of white space and what is left is the rest of the input |
| StreamText.SkipSpaceAfterSpace | prog1/imageFileIO.cpp:51 | leading white space of any make-up is skipped |
| StreamText.SplitAtSpace | prog1/imageFileIO.cpp:37 | the input splits into a part free of white space and a rest that is empty or starts with white space |
| StreamText.ReadToken | prog1/imageFileIO.cpp:37 | `>>` into a string gives a token free of white space followed by a rest that is empty or starts with white space, the two making up the input after its leading white space |
| StreamText.ReadTokenOfText | prog1/imageFileIO.cpp:37 | a token written before a white-space byte is read back exactly |
| StreamText.SplitUnique | prog1/imageFileIO.cpp:37 | the split before the first white-space byte is unique |
| StreamText.Ignore | prog1/imageFileIO.cpp:45 | exactly one byte is skipped when there is one |
| StreamText.GetLine | prog1/imageFileIO.cpp:48 | the line holds no newline, and the input is the line, a newline and the rest, or the line alone at the end of input; a line keeps its first byte |
| StreamText.GetLineOfText | prog1/imageFileIO.cpp:48 | a line without newline followed by a newline is read back whole |
| StreamText.DigitChar | prog1/imageFileIO.cpp:150-151 | the digit written for d is a digit denoting d |
| StreamText.DigitRun | prog1/imageFileIO.cpp:51 | the leading run of digits is all digits and is followed by the end of input or a non-digit |
| StreamText.ReadSigned | prog1/imageFileIO.cpp:51 | a successful int extraction yields a 32-bit value, consumes input and stops before a non-digit |
| StreamText.ReadInt | prog1/imageFileIO.cpp:51 | `>>` into an int yields a 32-bit value, consumes input and stops before a non-digit |
| StreamText.ReadIntAfterSpace | prog1/imageFileIO.cpp:51 | leading white space does not change what an int extraction reads |
| StreamText.NatText | prog1/imageFileIO.cpp:150-151 | a natural number is written as a non-empty run of digits |
| StreamText.IntText | prog1/imageFileIO.cpp:150-151 | an int is written as non-empty text that does not start with white space |
| StreamText.IntTextStart | prog1/imageFileIO.cpp:150-151 | written ints start with a minus sign or a digit |
| StreamText.NatTextValue | prog1/imageFileIO.cpp:150-151 | the digits written for n denote n |
| StreamText.DigitRunOf | prog1/imageFileIO.cpp:51 | the digit run of written digits followed by a non-digit is exactly those digits |
| StreamText.ReadSignedOfText | prog1/imageFileIO.cpp:51 | a written 32-bit int read at its first byte gives the int back and stops right after its text |
| StreamText.ReadIntOfText | prog1/imageFileIO.cpp:51 | a written 32-bit int followed by a non-digit is extracted as itself, stopping right after its text |
| StreamText.ReadInts | prog1/imageFileIO.cpp:103-114 | n successive int extractions give n values |
| StreamText.ReadIntsAfterSpace | prog1/imageFileIO.cpp:107 | white space before a run of extractions is skipped |
| StreamText.ReadIntsOfLines | prog1/imageFileIO.cpp:157-162 | 32-bit values written one per line are all read back, and reading stops at the last newline |
| StreamText.ReadIntsOfLine | prog1/imageFileIO.cpp:160-162 | one more written line in front of lines that read back also reads back |
| ImageFileIO.OffsetInRange | prog1/imageFileIO.cpp:73-80 | every sample of every pixel has a position inside the w · rows · cols samples of the payload |
| ImageFileIO.OffsetOfIndex | prog1/imageFileIO.cpp:73-80 | every payload position is sample k mod w of pixel ((k / w) / cols, (k / w) mod cols) |
| ImageFileIO.OffsetUnique | prog1/imageFileIO.cpp:73-80 | two samples at the same payload position are the same sample of the same pixel |
| ImageFileIO.Samples | prog1/imageFileIO.cpp:203-214 | the sample stream the writers emit has w · rows · cols samples, all in 0..255 |
| ImageFileIO.SampleAt | prog1/imageFileIO.cpp:203-214 | each element of the stream is a sample |
| ImageFileIO.SamplesAt | prog1/imageFileIO.cpp:203-214 | the stream holds sample c of pixel (i, j) at position w · (i · cols + j) + c: row-major order, R, G, B within a pixel |
| ImageFileIO.PlaneFrom | prog1/imageFileIO.cpp:73-80 | the plane read out of a sample stream has rows x cols samples, each taken from its position in the stream |
| ImageFileIO.ValueAt | prog1/imageFileIO.cpp:77-79 | the value read for a sample is the stream element at its position |
| ImageFileIO.PlaneFromSamples | prog1/imageFileIO.cpp:73-80 | splitting the stream a writer produces gives back each plane of the image |
| ImageFileIO.SplitPlanes | prog1/imageFileIO.cpp:73-80 | sample 3k + c of a colour stream is channel c of pixel k, and all three planes are rows x cols |
| ImageFileIO.SplitSamples | prog1/imageFileIO.cpp:73-80 | splitting a colour image's stream gives back its three planes |
| ImageFileIO.ReadDims | prog1/imageFileIO.cpp:51-52 | the header integers are 32-bit values, read in the order cols, rows, max |
| ImageFileIO.ReadComment | prog1/imageFileIO.cpp:47-48 | a comment is recorded exactly when the next byte is '#'; it keeps the '#' and not the newline; with no comment the input is left as it was |
| ImageFileIO.ReadHeader | prog1/imageFileIO.cpp:26-54 | the header is read exactly when the first token is P3 or P6 and the three integers follow; otherwise the error is InvalidMagicNumber or MalformedHeader accordingly |
| ImageFileIO.Values | prog1/imageFileIO.cpp:77-79 | each raw byte is read as the sample it holds |
| ImageFileIO.NarrowAll | prog1/imageFileIO.cpp:108-112 | each extracted int is stored as its byte narrowing |
| ImageFileIO.ReadBinaryRGB | prog1/imageFileIO.cpp:70-83 | the planes are read exactly when 3 · rows · cols bytes are there, bytes 3k, 3k+1, 3k+2 giving red, green and blue of pixel k in row-major order |
| ImageFileIO.ReadAsciiRGB | prog1/imageFileIO.cpp:99-116 | the planes are read exactly when 3 · rows · cols ints can be extracted, each stored narrowed in the same order |
| ImageFileIO.Decode | prog1/prog1.cpp:38-51 | a decoded image is P3 or P6, has allocated planes and a recognisable comment; header errors pass through and a negative dimension is an allocation error |
| ImageFileIO.Tag | prog1/imageFileIO.cpp:137-146 | the writers' magic number is P2, P3, P5 or P6 |
| ImageFileIO.HeaderTextStarts | prog1/imageFileIO.cpp:137-146 | the header starts with the magic number on a line of its own |
| ImageFileIO.WriteAscii | prog1/imageFileIO.cpp:134-166 | the file is outname.pgm when gray and outname.ppm otherwise, and starts with P2 or P3 on its own line |
| ImageFileIO.WriteBinary | prog1/imageFileIO.cpp:184-216 | the file is outname.pgm when gray and outname.ppm otherwise, starts with P5 or P6 on its own line, and its payload is rows · cols bytes in gray, 3 · rows · cols in colour |
| ImageFileIO.ByteOf | prog1/imageFileIO.cpp:207-212 | a sample is written as the byte with its value |
| ImageFileIO.Bytes | prog1/imageFileIO.cpp:203-214 | one byte per sample, holding that sample |
| ImageFileIO.ReadIntAfterByte | prog1/imageFileIO.cpp:150-151 | an int written after a white-space byte reads back |
| ImageFileIO.ReadDimsOfText | prog1/imageFileIO.cpp:150-151 | the written `cols rows` and `max` lines read back as cols, rows, max, and the byte skipped after max is the newline ending its line |
| ImageFileIO.ReadColsOfText | prog1/imageFileIO.cpp:150 | the written cols reads back first |
| ImageFileIO.ReadCommentOfText | prog1/imageFileIO.cpp:147-148 | a written comment line (empty, or '#' without newline) reads back as itself |
| ImageFileIO.ReadMagicOfText | prog1/imageFileIO.cpp:140-145 | a written magic number line reads as that token |
| ImageFileIO.ReadCommentAfterMagic | prog1/imageFileIO.cpp:45-48 | after the tag's newline, a written comment reads back and is followed by the dimensions |
| ImageFileIO.ReadHeaderOfText | prog1/imageFileIO.cpp:26-54 | a header written for P3 or P6 reads back field by field, and the payload starts right after it |
| ImageFileIO.ReadBinaryOfBytes | prog1/imageFileIO.cpp:203-214 | the raw payload of a colour image reads back as its planes |
| ImageFileIO.ReadAsciiOfLines | prog1/imageFileIO.cpp:153-164 | the plain payload of a colour image reads back as its planes |
| ImageFileIO.WriteBinaryReadBack | prog1/imageFileIO.cpp:184-216 | a colour image written raw decodes to the same image with magic number P6 |
| ImageFileIO.WriteAsciiReadBack | prog1/imageFileIO.cpp:134-166 | a colour image written plain decodes to the same image with magic number P3 |
| ImageFileIO.WriteBinaryPayload | prog1/imageFileIO.cpp:184-216 | the raw file is the header followed by one byte per sample; the byte at the header length plus w · (i · cols + j) + c holds sample c of pixel (i, j) |
| ImageFileIO.WriteAsciiPayload | prog1/imageFileIO.cpp:134-166 | the plain file is the header followed by one sample per line; reading w · rows · cols ints after the header gives the sample stream, which holds sample c of pixel (i, j) at w · (i · cols + j) + c |
| ImageFileIO.GraySamplesAt | prog1/imageFileIO.cpp:153-157 | the gray stream holds the gray sample of pixel (i, j) at i · cols + j |
| ImageFileIO.WriteBinaryGray | prog1/imageFileIO.cpp:184-216 | a gray raw file is the P5 header followed by the gray plane, the byte at the header length plus i · cols + j holding pixel (i, j) |
| ImageFileIO.WriteAsciiGray | prog1/imageFileIO.cpp:134-166 | a gray plain file is the P2 header followed by the gray plane one int per line; the rows · cols ints read after the header are the gray samples in row-major order |
| ImageFileIO.SamplesOfSplit | prog1/imageFileIO.cpp:73-80 | the stream of an image split out of a colour stream is that stream's first 3 · rows · cols values |
| ImageFileIO.ReadBinaryRewrites | prog1/imageFileIO.cpp:70-83 | writing back in binary the planes read from a raw payload gives exactly the 3 · rows · cols bytes read |
| ImageFileIO.ReadAsciiRewrites | prog1/imageFileIO.cpp:99-116 | writing back the planes read from a plain payload gives the ints read, each narrowed to a byte, and the ints themselves when they were all samples |
| ImageFileIO.DecodeThenWriteBinary | prog1/prog1.cpp:38-61 | a decoded P6 file written back raw in colour is the canonical header followed by exactly the payload bytes it was decoded from |
| ImageFileIO.DecodeThenWriteAscii | prog1/prog1.cpp:38-61 | a decoded P3 file written back plain in colour is the canonical header followed by its payload ints, narrowed to bytes, one per line |
| ImageFileIO.GrayTagRejected | prog1/imageFileIO.cpp:37-43 | a file starting with the P2 or P5 line is rejected as an invalid magic number |
| ImageFileIO.GrayPayloadRejected | prog1/imageFileIO.cpp:37-43 | a file whose header was written for P2 or P5 is rejected as an invalid magic number, whatever follows the header |
| ImageFileIO.GrayOutputRejected | prog1/imageFileIO.cpp:137-141 | the gray files both writers produce are rejected by the reader |
| FolderReport.IsValidFolder | prog3/prog3.cpp:294-305 | an entry is processed exactly when it is a directory whose name is none of .git, .vs, x64, Debug, . and .. |
| FolderReport.IsListedFile | prog3/prog3.cpp:333-343 | a file is listed exactly when it is .gitignore or .gitattributes, or a non-empty stem followed by .sln, .cpp, .vcxproj or .h |
| FolderReport.ListedSplit | prog3/prog3.cpp:333-341 | a non-empty stem plus an extension is the same as being longer than the extension and ending in it |
| FolderReport.BareExtensionsRejected | prog3/prog3.cpp:333-341 | the bare names .cpp, .h, .sln and .vcxproj are not listed |
| FolderReport.Count | prog3/prog3.cpp:349 | a character occurs no more often than the length, and zero times exactly when it is absent |
| FolderReport.ReplacedAppend | prog3/prog3.cpp:348-356 | replacement distributes over concatenation |
| FolderReport.ReplacedWithout | prog3/prog3.cpp:349 | text without the character is unchanged |
| FolderReport.ReplacedLength | prog3/prog3.cpp:351-354 | each replaced character adds the replacement's length less one |
| FolderReport.ReplacedRemoves | prog3/prog3.cpp:358-366 | no replaced character is left when the replacement does not contain it |
| FolderReport.Find | prog3/prog3.cpp:349 | `find` returns the first position at or after pos holding the character, or npos when there is none |
| FolderReport.ReplaceAll | prog3/prog3.cpp:348-356 | the find-and-splice loop, resuming after the inserted text, replaces every occurrence once and terminates |
| FolderReport.ReplaceStep | prog3/prog3.cpp:349-355 | one round keeps what precedes the search position as final output, splices the replacement over the next match and resumes right after it, so replacing the rest still completes the result; the unsearched text shrinks |
| FolderReport.ReplacedPiece | prog3/prog3.cpp:349-355 | replacing in a run without the character, the character and a tail gives the run, the replacement and the replaced tail |
| FolderReport.TwoPassesEscape | prog3/prog3.cpp:348-366 | the `&` pass followed by the `'` pass escapes each character once; the `&` inserted for `'` is not escaped again |
| FolderReport.Escape | prog3/prog3.cpp:348-366 | the escaped name writes every `&` as `&amp;` and every `'` as `&apos;` |
| FolderReport.EscapedLength | prog3/prog3.cpp:348-366 | the escaped length is the length plus 4 per `&` and 5 per `'` |
| FolderReport.EscapedHasNoApostrophe | prog3/prog3.cpp:358-366 | no `'` is left after escaping |
| FolderReport.EscapedPlain | prog3/prog3.cpp:348-366 | a name with neither `&` nor `'` is written unchanged |
| FolderReport.UnescapeEscaped | prog3/prog3.cpp:348-366 | unescaping the escaped name gives back the name |
| FolderReport.OutputFiles | prog3/prog3.cpp:326-373 | an unlisted file changes no report; a listed one appends its escaped line to the git report when under git and to the other report otherwise, never to both |
| FolderReport.FileLineNamesFile | prog3/prog3.cpp:369-371 | the line is `<file name="`, the escaped name and `"/>` with a newline, and the name is recovered from it |

## Left out

- `main` of `prog1/prog1.cpp` is not modelled: argument parsing, dispatch
  and exit codes are command-line plumbing. The program writes the file
  when it meets the `-o` argument (`prog1/prog1.cpp:56-61`). Operations
  given after `-o` still run, but their result is not saved. This sequencing
  is not modelled.
- `prog1/memory.cpp` is not part of this model. `alloc2d`/`free2d` manage
  heap memory with `new (nothrow)`, and Dafny allocation cannot fail, so
  sharpen and smooth are total. Their early `return false` (which leaks
  the scratch planes allocated before the failing one) is not modelled.
- Opening, closing and console messages: the "File could not open" branch
  of `readHeaderInfo`, `fin.close()` and the `cout` messages are I/O. The
  image's `name` field is only the path to open.
- ImageFileIO.ReadHeader: the source carries on when `cols`, `rows` or
  `max` cannot be extracted. The first failing extraction stores 0 when it
  meets a non-digit, stores INT_MAX or INT_MIN for a number out of range,
  and leaves the field unchanged at end of file. Once the stream has
  failed, the later fields keep the uninitialised values of the `image`
  record. The model reports all of these as `MalformedHeader`.
- ImageFileIO.ReadBinaryRGB: a raw payload shorter than 3 · rows · cols
  bytes leaves the unread samples as they were allocated, with unspecified
  contents. The model reports `ShortPayload` instead.
- ImageFileIO.ReadAsciiRGB: the source carries on when an integer of a
  plain payload cannot be extracted. A non-digit stores 0 in `temp`, and
  every later sample is 0. A number out of the int range stores INT_MAX or
  INT_MIN, narrowed to 255 or 0, and later samples repeat it. At end of
  file `temp` is left unchanged, so the remaining samples repeat the last
  value read, or are indeterminate when none was read. The model reports
  `MalformedPayload` in all these cases.
- StreamText.ReadSigned: an int extraction outside the 32-bit range fails
  here (the standard library also stores the nearest limit). Leading
  zeros and a `+` sign are accepted, as in C++.
- ImageFileIO.Decode: `rows == 0` with negative `cols` passes `alloc2d`,
  because no row is allocated. The model still reports `AllocationError`
  for every negative dimension, so that every decoded image has
  non-negative dimensions.
- ImageOperations.Grayscale: the source computes `.3 * R + .6 * G + .1 * B`
  in doubles and truncates. This model assumes the exact value
  (3R + 6G + B) / 10. The double sum can fall just below an exact integer
  (for example R, G, B = 0, 3, 2 gives 1.9999999999999998), and the source
  then stores one less.
- ImageOperations.GrayscaleBetweenChannels: the bound holds only for the
  exact (3R + 6G + B) / 10 of the model. With the source's doubles a
  uniform pixel (1, 1, 1) gives 0.9999999999999999 and is stored as 0,
  below its darkest channel. 49 of the 256 uniform gray levels (for
  example 2, 4, 8, 11 and 16) are stored one lower.
- ImageOperations.Brighten: `value` is an `int`, and `(int)v + value`
  overflows when `value` exceeds 2147483647 - v, for example above
  2147483392 when v is 255. That is undefined behaviour; a wrapped sum
  would be negative and store 0. The model adds over unbounded integers
  and clamps, so it gives 255 there.
- ImageOperations.BrightenSaturates: for the same reason its "offset of at
  least 255 gives white" holds only while `v + value` fits in an int.
- ImageOperations.Contrast: an image whose gray plane is uniform makes the
  source divide by zero and cast an infinity, which is undefined behaviour.
  It is excluded by a precondition. So is an empty image, for which
  `getMinAndMax` reads `redgray[0][0]` out of bounds.
- ImageOperations.GetMinAndMax: requires at least one row and one column,
  for the same out-of-bounds read.
- ImageFileIO.WriteAscii: the plain file is opened without `ios::binary`,
  so on Windows each newline is written as CR LF. The model writes `\n`.
- ImageFileIO.WriteAsciiReadBack and ImageFileIO.WriteBinaryReadBack
  require the comment to be empty or a `#` line, and the dimensions and
  `max` to fit in an int. Any other comment is written out but is not
  recognised when read back.
- `prog3/prog3.cpp` outside `isValidFolder` and `outputFiles` is not
  modelled. This covers directory traversal (`_findfirst`, `_findnext`,
  `_chdir`, `_getcwd`), the recursion of `processFiles`, the `isGit`
  probe, the folder tags written to the reports, and the argument checks
  of `main`. The `_A_SUBDIR` attribute test becomes a Boolean parameter.

## Findings

| source | as written | input that shows it | evidently intended | confidence | as-written member | corrected member |
|---|---|---|---|---|---|---|
| prog1/imageOperations.cpp:149-155 | the gain 255 / (max - min) is rounded half up and the stretched value is stored into a byte without saturation | gray range 50..150: gain 3, gray 80 becomes 90 but gray 150 becomes 300, stored as 44 | stretch the gray range onto 0..255 keeping the order of gray levels (saturate the product) | medium, not executed | ImageOperations.ContrastWrapsAround | ImageOperations.StretchSaturatedMonotone |
| prog1/imageOperations.cpp:284-304 | smooth sums the eight neighbours, leaving the centre out, but divides by 9 | a uniform white plane: every interior sample becomes 227 instead of 255 | the 3 x 3 box mean, centre included, which keeps a uniform plane unchanged | medium, not executed | ImageOperations.SmoothDarkensUniform | ImageOperations.BoxAverageWithinWindow |

Both corrected members are used by corrected transforms:
`ImageOperations.ContrastSaturated` stretches with saturation, and
`ImageOperations.SmoothBox` averages the full window. The transforms named
after the source, `Contrast` and `Smooth`, keep the behaviour as written.
